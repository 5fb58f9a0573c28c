// aac_apply_tns of src/common/audio_aac.c as it runs: the ranges of each
// window's filters, their coefficients, and the filters in place.

module TnsFrame {
  import opened Bits
  import opened Tns

  const MAX_ORDER: nat := 20

  datatype Filter = Filter(length: nat, order: nat, down: bool, coef: seq<real>)

  // The windows of a frame: their length, the band offsets each has, the
  // bands filtering may reach, and each window's filters.
  datatype Frame = Frame(wlen: nat, swb: seq<nat>, bands: nat, filters: seq<seq<Filter>>)

  ghost predicate FrameOk(fr: Frame) {
    && 1 <= |fr.swb| && fr.wlen <= 1024
    && (forall i, j :: 0 <= i < j < |fr.swb| ==> fr.swb[i] <= fr.swb[j])
    && (forall i :: 0 <= i < |fr.swb| ==> fr.swb[i] <= fr.wlen)
    && forall w, f :: 0 <= w < |fr.filters| && 0 <= f < |fr.filters[w]| ==> FilterOk(fr.filters[w][f])
  }

  predicate FilterOk(f: Filter) {
    f.order <= MAX_ORDER && f.order <= |f.coef|
  }

  // The offset of a band's edge, no further than filtering reaches.
  function Edge(fr: Frame, band: nat): nat
    requires 1 <= |fr.swb| && band < |fr.swb|
  {
    fr.swb[if band < fr.bands then band else fr.bands]
  }

  // Prediction coefficients from reflection coefficients.
  function Lpc(coef: seq<real>, order: nat): (r: seq<real>)
    requires order <= |coef|
    ensures |r| == order
  {
    if order == 0 then []
    else
      Stepped(Lpc(coef, order - 1), -coef[order - 1]) + [-coef[order - 1]]
  }

  // Each coefficient with its mirror's share.
  function Stepped(p: seq<real>, r: real): (q: seq<real>)
    ensures |q| == |p|
  {
    seq(|p|, j requires 0 <= j < |p| => Share(p[j], r, p[|p| - 1 - j]))
  }

  function Share(a: real, r: real, b: real): real {
    a + r * b
  }

  function Below(bottom: nat, length: nat): nat {
    if bottom < length then 0 else bottom - length
  }

  // Where window w starts.
  function Base(fr: Frame, w: nat): nat {
    MulNonneg(w, fr.wlen);
    w * fr.wlen
  }

  // The ranges of window w's filters from the f-th on, below band bottom.
  function WindowSegments(fr: Frame, w: nat, f: nat, bottom: nat): seq<Segment>
    requires FrameOk(fr) && w < |fr.filters| && f <= |fr.filters[w]| && bottom < |fr.swb|
    decreases |fr.filters[w]| - f
  {
    if f == |fr.filters[w]| then []
    else
      var h := fr.filters[w][f];
      var low := Below(bottom, h.length);
      var rest := WindowSegments(fr, w, f + 1, low);
      var start, end := Edge(fr, low), Edge(fr, bottom);
      assert FilterOk(h);
      if h.order == 0 || end <= start then rest
      else [Segment(Base(fr, w) + start, Base(fr, w) + end, h.down, Lpc(h.coef, h.order))] + rest
  }

  // Those of the windows from w on.
  function Segments(fr: Frame, w: nat): seq<Segment>
    requires FrameOk(fr) && w <= |fr.filters|
    decreases |fr.filters| - w
  {
    if w == |fr.filters| then [] else WindowSegments(fr, w, 0, |fr.swb| - 1) + Segments(fr, w + 1)
  }

  // ---- the ranges do not meet ----

  predicate Inside(gs: seq<Segment>, lo: nat, hi: nat) {
    forall i :: 0 <= i < |gs| ==> lo <= gs[i].lo <= gs[i].hi <= hi
  }

  lemma {:induction false} WindowSegmentsApart(fr: Frame, w: nat, f: nat, bottom: nat)
    requires FrameOk(fr) && w < |fr.filters| && f <= |fr.filters[w]| && bottom < |fr.swb|
    ensures var gs := WindowSegments(fr, w, f, bottom);
            Inside(gs, Base(fr, w), Base(fr, w) + Edge(fr, bottom)) && AllApart(gs, Base(fr, w) + Edge(fr, bottom))
    decreases |fr.filters[w]| - f
  {
    hide Lpc, Base;
    if f < |fr.filters[w]| {
      WindowSegmentsApart(fr, w, f + 1, Below(bottom, fr.filters[w][f].length));
    }
  }

  lemma {:induction false} SegmentsApart(fr: Frame, w: nat)
    requires FrameOk(fr) && w <= |fr.filters|
    ensures var gs := Segments(fr, w);
            Inside(gs, Base(fr, w), Base(fr, |fr.filters|)) && AllApart(gs, Base(fr, |fr.filters|))
    decreases |fr.filters| - w
  {
    hide Lpc, WindowSegments, Base;
    if w < |fr.filters| {
      BaseNext(fr, w, |fr.filters|);
      WindowSegmentsApart(fr, w, 0, |fr.swb| - 1);
      SegmentsApart(fr, w + 1);
      Joined(WindowSegments(fr, w, 0, |fr.swb| - 1), Segments(fr, w + 1), Base(fr, w), Base(fr, w + 1),
        Base(fr, |fr.filters|));
    }
  }

  lemma BaseNext(fr: Frame, w: nat, n: nat)
    requires w < n
    ensures Base(fr, w + 1) == Base(fr, w) + fr.wlen && Base(fr, w + 1) <= Base(fr, n)
  {
    MulDistribute(w, 1, fr.wlen);
    MulLe(w + 1, n, fr.wlen);
  }

  lemma Joined(gs: seq<Segment>, hs: seq<Segment>, lo: nat, mid: nat, hi: nat)
    requires Inside(gs, lo, mid) && AllApart(gs, mid) && Inside(hs, mid, hi) && AllApart(hs, hi) && lo <= mid <= hi
    ensures Inside(gs + hs, lo, hi) && AllApart(gs + hs, hi)
  {}

  // Shaping a spectrum all-zero and then all-pole leaves it as it was, for
  // any windows, filters, orders and directions; and the other way round.
  lemma ShapingUndone(fr: Frame, x: seq<real>, inverse: bool)
    requires FrameOk(fr) && |x| == Base(fr, |fr.filters|)
    ensures AllApart(Segments(fr, 0), |x|)
    ensures Applied(Applied(x, Segments(fr, 0), inverse), Segments(fr, 0), !inverse) == x
  {
    SegmentsApart(fr, 0);
    AppliedUndone(x, Segments(fr, 0), inverse);
  }

  // ---- the code ----

  // Reflection coefficients to prediction ones, two at a time in place.
  method ToLpc(coef: seq<real>, order: nat) returns (lpc: array<real>)
    requires order <= MAX_ORDER && order <= |coef|
    ensures fresh(lpc) && lpc.Length == MAX_ORDER && lpc[..order] == Lpc(coef, order)
  {
    hide Stepped;
    lpc := new real[MAX_ORDER];
    for i := 0 to order
      invariant lpc[..i] == Lpc(coef, i)
    {
      lpc[i] := -coef[i];
      StepUp(lpc, i, -coef[i]);
      assert lpc[i] == lpc[i..][0];
      assert lpc[..i + 1] == lpc[..i] + [lpc[i]];
    }
  }

  lemma SteppedAt(p: seq<real>, r: real, j: nat)
    requires j < |p|
    ensures Stepped(p, r)[j] == Share(p[j], r, p[|p| - 1 - j])
  {}

  method StepUp(lpc: array<real>, i: nat, r: real)
    requires i <= lpc.Length
    modifies lpc
    ensures lpc[..i] == Stepped(old(lpc[..i]), r) && lpc[i..] == old(lpc[i..])
  {
    hide Share, Stepped;
    ghost var p := lpc[..i];
    ghost var q := Stepped(p, r);
    for j := 0 to (i + 1) / 2
      invariant forall k :: 0 <= k < i ==> lpc[k] == if k < j || k > i - 1 - j then q[k] else p[k]
      invariant forall k :: i <= k < lpc.Length ==> lpc[k] == old(lpc[k])
    {
      var mirror := i - 1 - j;
      SteppedAt(p, r, j);
      SteppedAt(p, r, mirror);
      var fj, bj := lpc[j], lpc[mirror];
      lpc[j] := Share(fj, r, bj);
      lpc[mirror] := Share(bj, r, fj);
    }
  }

  // Where the m-th sample of a range is, counted its way.
  function At(g: Segment, m: nat): int {
    if g.down then g.hi - 1 - m else g.lo + m
  }

  lemma {:induction false} PoleAt(u: seq<real>, lpc: seq<real>, m: nat)
    requires m < |u|
    ensures AllPole(u, lpc)[m] == u[m] - Taps(AllPole(u, lpc), lpc, m, Reach(m, |lpc|))
    decreases |u|
  {
    hide Taps;
    var n := |u| - 1;
    var before := AllPole(u[..n], lpc);
    assert AllPole(u, lpc)[..n] == before;
    TapsOfPrefix(before, AllPole(u, lpc), lpc, m, Reach(m, |lpc|)) by { assert before[..m] == AllPole(u, lpc)[..m]; }
    if m < n { PoleAt(u[..n], lpc, m); }
  }

  // A range filtered in place.
  method FilterRange(x: array<real>, ghost g: Segment, start0: int, size: nat, inc: int, lpc: array<real>, order: nat,
                     inverse: bool)
    requires g.lo < g.hi <= x.Length && size == g.hi - g.lo && size <= 1024
    requires start0 == At(g, 0) && inc == if g.down then -1 else 1
    requires order <= lpc.Length && x != lpc && g.lpc == lpc[..order]
    modifies x
    ensures x[..] == Filtered(old(x[..]), g, inverse)
  {
    hide Taps, AllPole, AllZero, Turned, At, Filtered, Run;
    ghost var u := Turned(x[g.lo..g.hi], g.down);
    ghost var v := Run(u, g.lpc, inverse);
    var start := start0;
    var tmp := new real[1024];
    RangeBegins(x[..], g);
    for m := 0 to size
      invariant start == At(g, m)
      invariant Midway(x[..], g, u, v, m)
      invariant inverse ==> forall k :: 0 <= k < m ==> tmp[k] == u[k]
      invariant x[..g.lo] == old(x[..g.lo]) && x[g.hi..] == old(x[g.hi..])
      invariant lpc[..order] == g.lpc
    {
      ghost var was := x[..];
      MidwayAt(was, g, u, v, m);
      if !inverse {
        PoleRun(u, g.lpc, m);
        PoleSample(x, g, start, m, inc, lpc, order, u[m], v);
      } else {
        ZeroRun(u, g.lpc, m);
        tmp[m] := x[start];
        ZeroSample(x, g, start, m, tmp, lpc, order, u);
      }
      MidwayNext(was, x[..], g, u, v, m);
      start := start + inc;
    }
    RangeEnds(old(x[..]), x[..], g, v, inverse);
  }

  // The first m samples of the range are done, the others as they were.
  ghost predicate Midway(x: seq<real>, g: Segment, u: seq<real>, v: seq<real>, m: nat)
    requires g.lo <= g.hi <= |x| && |u| == |v| == g.hi - g.lo
  {
    && (forall k :: 0 <= k < m && k < |u| ==> x[At(g, k)] == v[k])
    && (forall k :: m <= k < |u| ==> x[At(g, k)] == u[k])
  }

  lemma RangeBegins(x: seq<real>, g: Segment)
    requires g.lo < g.hi <= |x|
    ensures forall v: seq<real> :: |v| == g.hi - g.lo ==> Midway(x, g, Turned(x[g.lo..g.hi], g.down), v, 0)
    ensures g.lo <= At(g, 0) < g.hi
  {}

  lemma MidwayAt(x: seq<real>, g: Segment, u: seq<real>, v: seq<real>, m: nat)
    requires g.lo <= g.hi <= |x| && |u| == |v| == g.hi - g.lo && m < |u| && Midway(x, g, u, v, m)
    ensures g.lo <= At(g, m) < g.hi && x[At(g, m)] == u[m]
    ensures forall k :: 0 <= k < m ==> g.lo <= At(g, k) < g.hi && x[At(g, k)] == v[k]
    ensures At(g, m + 1) == At(g, m) + if g.down then -1 else 1
  {}

  lemma MidwayNext(x: seq<real>, y: seq<real>, g: Segment, u: seq<real>, v: seq<real>, m: nat)
    requires g.lo <= g.hi <= |x| == |y| && |u| == |v| == g.hi - g.lo && m < |u| && Midway(x, g, u, v, m)
    requires g.lo <= At(g, m) < g.hi && y[At(g, m)] == v[m]
    requires forall k :: 0 <= k < |x| && k != At(g, m) ==> y[k] == x[k]
    ensures Midway(y, g, u, v, m + 1)
    ensures y[..g.lo] == x[..g.lo] && y[g.hi..] == x[g.hi..]
  {}

  lemma RangeEnds(x: seq<real>, y: seq<real>, g: Segment, v: seq<real>, inverse: bool)
    requires g.lo <= g.hi <= |x| == |y| && y[..g.lo] == x[..g.lo] && y[g.hi..] == x[g.hi..]
    requires v == Run(Turned(x[g.lo..g.hi], g.down), g.lpc, inverse)
    requires Midway(y, g, Turned(x[g.lo..g.hi], g.down), v, g.hi - g.lo)
    ensures y == Filtered(x, g, inverse)
  {
    hide AllPole, AllZero;
    var r := y[g.lo..g.hi];
    forall k | 0 <= k < |v| ensures r[if g.down then |r| - 1 - k else k] == v[k] {
      assert y[At(g, k)] == v[k];
    }
    RangeTurned(r, v, g.down);
    assert y == y[..g.lo] + r + y[g.hi..];
  }

  lemma PoleRun(u: seq<real>, lpc: seq<real>, m: nat)
    requires m < |u|
    ensures Run(u, lpc, false)[m] == u[m] - Taps(Run(u, lpc, false), lpc, m, Reach(m, |lpc|))
  {
    PoleAt(u, lpc, m);
  }

  lemma ZeroRun(u: seq<real>, lpc: seq<real>, m: nat)
    requires m < |u|
    ensures Run(u, lpc, true)[m] == u[m] + Taps(u, lpc, m, Reach(m, |lpc|))
  {}

  lemma RangeTurned(r: seq<real>, v: seq<real>, down: bool)
    requires |r| == |v| && forall k :: 0 <= k < |v| ==> r[if down then |r| - 1 - k else k] == v[k]
    ensures r == Turned(v, down)
  {
    if down {
      forall i | 0 <= i < |r| ensures r[i] == v[|r| - 1 - i] {
        assert r[if down then |r| - 1 - (|r| - 1 - i) else 0] == v[|r| - 1 - i];
      }
    }
  }

  lemma StepsBack(g: Segment, m: nat, i: nat, inc: int)
    requires i <= m && inc == (if g.down then -1 else 1)
    ensures At(g, m) - i * inc == At(g, m - i) && (i > 0 ==> At(g, m - i) != At(g, m))
  {}

  // x[start] less what the filter takes from the samples already done.
  method PoleSample(x: array<real>, ghost g: Segment, start: int, m: nat, inc: int, lpc: array<real>, order: nat,
      ghost um: real, ghost v: seq<real>)
    requires g.lo <= g.hi <= x.Length && m < g.hi - g.lo == |v| && start == At(g, m)
    requires inc == (if g.down then -1 else 1)
    requires order <= lpc.Length && x != lpc && x[start] == um
    requires forall k :: 0 <= k < m ==> x[At(g, k)] == v[k]
    modifies x
    ensures x[start] == um - Taps(v, lpc[..order], m, Reach(m, order))
    ensures forall k :: 0 <= k < x.Length && k != start ==> x[k] == old(x[k])
  {
    var top := if m < order then m else order;
    for i := 1 to top + 1
      invariant x[start] == um - Taps(v, lpc[..order], m, i - 1)
      invariant forall k :: 0 <= k < x.Length && k != start ==> x[k] == old(x[k])
    {
      StepsBack(g, m, i, inc);
      assert x[At(g, m - i)] == v[m - i];
      x[start] := x[start] - x[start - i * inc] * lpc[i - 1];
    }
  }

  // x[start] with what the filter takes from the samples as they were.
  method ZeroSample(x: array<real>, ghost g: Segment, start: int, m: nat, tmp: array<real>, lpc: array<real>,
                    order: nat,
      ghost u: seq<real>)
    requires g.lo <= g.hi <= x.Length && m < g.hi - g.lo == |u| && start == At(g, m) && m < tmp.Length
    requires order <= lpc.Length && x != lpc && x != tmp && x[start] == u[m]
    requires forall k :: 0 <= k < m ==> tmp[k] == u[k]
    modifies x
    ensures x[start] == u[m] + Taps(u, lpc[..order], m, Reach(m, order))
    ensures forall k :: 0 <= k < x.Length && k != start ==> x[k] == old(x[k])
  {
    var top := if m < order then m else order;
    for i := 1 to top + 1
      invariant x[start] == u[m] + Taps(u, lpc[..order], m, i - 1)
      invariant forall k :: 0 <= k < x.Length && k != start ==> x[k] == old(x[k])
    {
      x[start] := x[start] + tmp[m - i] * lpc[i - 1];
    }
  }

  lemma {:induction false} AppliedConcat(x: seq<real>, gs: seq<Segment>, hs: seq<Segment>, inverse: bool)
    requires AllApart(gs + hs, |x|)
    ensures AllApart(gs, |x|) && AllApart(hs, |x|)
    ensures Applied(x, gs + hs, inverse) == Applied(Applied(x, gs, inverse), hs, inverse)
    decreases |gs|
  {
    hide Filtered;
    ApartParts(gs, hs, |x|);
    if gs == [] {
      assert gs + hs == hs;
    } else {
      assert (gs + hs)[1..] == gs[1..] + hs;
      AppliedConcat(Filtered(x, gs[0], inverse), gs[1..], hs, inverse);
    }
  }

  lemma ApartParts(gs: seq<Segment>, hs: seq<Segment>, n: nat)
    requires AllApart(gs + hs, n)
    ensures AllApart(gs, n) && AllApart(hs, n)
  {
    hide Apart;
    forall i | 0 <= i < |gs| ensures gs[i].lo <= gs[i].hi <= n { assert (gs + hs)[i] == gs[i]; }
    forall i | 0 <= i < |hs| ensures hs[i].lo <= hs[i].hi <= n { assert (gs + hs)[|gs| + i] == hs[i]; }
    forall i, j | 0 <= i < j < |gs| ensures Apart(gs[i], gs[j]) {
      assert (gs + hs)[i] == gs[i] && (gs + hs)[j] == gs[j];
    }
    forall i, j | 0 <= i < j < |hs| ensures Apart(hs[i], hs[j]) {
      assert (gs + hs)[|gs| + i] == hs[i] && (gs + hs)[|gs| + j] == hs[j];
    }
  }

  // Without a band to reach there is no range.
  lemma {:induction false} NoBands(fr: Frame, w: nat, f: nat, bottom: nat)
    requires FrameOk(fr) && fr.bands == 0 && w < |fr.filters| && f <= |fr.filters[w]| && bottom < |fr.swb|
    ensures WindowSegments(fr, w, f, bottom) == []
    decreases |fr.filters[w]| - f
  {
    if f < |fr.filters[w]| { NoBands(fr, w, f + 1, Below(bottom, fr.filters[w][f].length)); }
  }

  lemma {:induction false} NoBandsAtAll(fr: Frame, w: nat)
    requires FrameOk(fr) && fr.bands == 0 && w <= |fr.filters|
    ensures Segments(fr, w) == []
    decreases |fr.filters| - w
  {
    if w < |fr.filters| {
      NoBands(fr, w, 0, |fr.swb| - 1);
      NoBandsAtAll(fr, w + 1);
    }
  }

  lemma AppliedHead(x: seq<real>, g: Segment, rest: seq<Segment>, inverse: bool)
    requires AllApart([g] + rest, |x|)
    ensures g.lo <= g.hi <= |x| && AllApart(rest, |x|)
    ensures Applied(x, [g] + rest, inverse) == Applied(Filtered(x, g, inverse), rest, inverse)
  {
    hide Filtered;
    ApartParts([g], rest, |x|);
    assert [g][0] == g;
    assert ([g] + rest)[0] == g && ([g] + rest)[1..] == rest;
  }

  lemma AppliedNone(x: seq<real>, inverse: bool)
    ensures AllApart([], |x|) && Applied(x, [], inverse) == x
  {}

  // One window's filters, each below the last.
  method ShapeWindow(fr: Frame, w: nat, x: array<real>, inverse: bool)
    requires FrameOk(fr) && w < |fr.filters| && x.Length == Base(fr, |fr.filters|)
    requires AllApart(WindowSegments(fr, w, 0, |fr.swb| - 1), x.Length)
    modifies x
    ensures x[..] == Applied(old(x[..]), WindowSegments(fr, w, 0, |fr.swb| - 1), inverse)
  {
    hide Filtered, Lpc, AllApart, Base, Applied;
    ghost var goal := Applied(x[..], WindowSegments(fr, w, 0, |fr.swb| - 1), inverse);
    var bottom: nat := |fr.swb| - 1;
    BaseNext(fr, w, |fr.filters|);
    for f := 0 to |fr.filters[w]|
      invariant bottom < |fr.swb|
      invariant AllApart(WindowSegments(fr, w, f, bottom), x.Length)
      invariant goal == Applied(x[..], WindowSegments(fr, w, f, bottom), inverse)
    {
      var top := bottom;
      var h := fr.filters[w][f];
      assert FilterOk(h);
      bottom := Below(top, h.length);
      if h.order == 0 {
        continue;
      }
      var start, end := Edge(fr, bottom), Edge(fr, top);
      if end <= start {
        continue;
      }
      EdgesInside(fr, bottom, top);
      AppliedHead(x[..], Segment(Base(fr, w) + start, Base(fr, w) + end, h.down, Lpc(h.coef, h.order)),
        WindowSegments(fr, w, f + 1, bottom), inverse);
      ShapeRange(h, Base(fr, w), start, end, x, inverse);
    }
    AppliedNone(x[..], inverse);
  }

  // One filter over its range, up from the start or down from the end.
  method ShapeRange(h: Filter, base: nat, start: nat, end: nat, x: array<real>, inverse: bool)
    requires FilterOk(h) && start < end <= 1024 && base + end <= x.Length
    modifies x
    ensures x[..] == Filtered(old(x[..]), Segment(base + start, base + end, h.down, Lpc(h.coef, h.order)), inverse)
  {
    hide Filtered, Lpc;
    var lpc := ToLpc(h.coef, h.order);
    ghost var g := Segment(base + start, base + end, h.down, Lpc(h.coef, h.order));
    if h.down {
      FilterRange(x, g, base + end - 1, end - start, -1, lpc, h.order, inverse);
    } else {
      FilterRange(x, g, base + start, end - start, 1, lpc, h.order, inverse);
    }
  }

  lemma EdgesInside(fr: Frame, low: nat, high: nat)
    requires FrameOk(fr) && low <= high < |fr.swb|
    ensures Edge(fr, low) <= Edge(fr, high) <= fr.wlen <= 1024
  {}

  // All the filters of a frame, window by window.
  method ApplyTns(fr: Frame, x: array<real>, inverse: bool)
    requires FrameOk(fr) && x.Length == Base(fr, |fr.filters|)
    modifies x
    ensures AllApart(Segments(fr, 0), x.Length)
    ensures x[..] == Applied(old(x[..]), Segments(fr, 0), inverse)
  {
    hide Filtered, Lpc, WindowSegments, AllApart, Base;
    SegmentsApart(fr, 0);
    if fr.bands == 0 {
      NoBandsAtAll(fr, 0);
      return;
    }
    ghost var goal := Applied(x[..], Segments(fr, 0), inverse);
    for w := 0 to |fr.filters|
      invariant AllApart(Segments(fr, w), x.Length) && goal == Applied(x[..], Segments(fr, w), inverse)
    {
      AppliedConcat(x[..], WindowSegments(fr, w, 0, |fr.swb| - 1), Segments(fr, w + 1), inverse);
      ShapeWindow(fr, w, x, inverse);
    }
  }
}
