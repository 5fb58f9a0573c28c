// Temporal noise shaping of src/common/audio_aac.c over exact reals: the
// all-zero filter, the all-pole one that undoes it, and the ranges of the
// spectrum they run over.

module Tns {
  import opened Bits

  // ---- one filter on a run of samples ----

  // The sum over i in 1..k of v[m - i] * lpc[i - 1].
  function Taps(v: seq<real>, lpc: seq<real>, m: nat, k: nat): real
    requires k <= m <= |v| && k <= |lpc|
  {
    if k == 0 then 0.0 else Taps(v, lpc, m, k - 1) + v[m - k] * lpc[k - 1]
  }

  function Reach(m: nat, order: nat): nat {
    if m < order then m else order
  }

  // All-zero: each sample with those before it as they were.
  function AllZero(u: seq<real>, lpc: seq<real>): (r: seq<real>)
    ensures |r| == |u|
  {
    seq(|u|, m requires 0 <= m < |u| => u[m] + Taps(u, lpc, m, Reach(m, |lpc|)))
  }

  // All-pole: each sample with those before it as they have become.
  function AllPole(u: seq<real>, lpc: seq<real>): (r: seq<real>)
    ensures |r| == |u|
  {
    if u == [] then []
    else
      var m := |u| - 1;
      var before := AllPole(u[..m], lpc);
      before + [u[m] - Taps(before, lpc, m, Reach(m, |lpc|))]
  }

  lemma {:induction false} TapsOfPrefix(v: seq<real>, w: seq<real>, lpc: seq<real>, m: nat, k: nat)
    requires k <= m <= |v| && m <= |w| && k <= |lpc| && v[..m] == w[..m]
    ensures Taps(v, lpc, m, k) == Taps(w, lpc, m, k)
  {
    if k > 0 {
      TapsOfPrefix(v, w, lpc, m, k - 1);
      assert v[m - k] == v[..m][m - k] == w[..m][m - k] == w[m - k];
    }
  }

  lemma AllZeroPrefix(u: seq<real>, lpc: seq<real>, m: nat)
    requires m <= |u|
    ensures AllZero(u, lpc)[..m] == AllZero(u[..m], lpc)
  {
    forall i | 0 <= i < m ensures AllZero(u, lpc)[i] == AllZero(u[..m], lpc)[i] {
      assert u[..m][..i] == u[..i];
      TapsOfPrefix(u, u[..m], lpc, i, Reach(i, |lpc|));
    }
  }

  lemma {:induction false} PoleUndoesZero(u: seq<real>, lpc: seq<real>)
    ensures AllPole(AllZero(u, lpc), lpc) == u
  {
    hide Taps;
    if u != [] {
      var m := |u| - 1;
      AllZeroPrefix(u, lpc, m);
      PoleUndoesZero(u[..m], lpc);
      TapsOfPrefix(u, u[..m], lpc, m, Reach(m, |lpc|));
      assert u == u[..m] + [u[m]];
    }
  }

  lemma {:induction false} ZeroUndoesPole(u: seq<real>, lpc: seq<real>)
    ensures AllZero(AllPole(u, lpc), lpc) == u
  {
    hide Taps;
    if u != [] {
      var m := |u| - 1;
      var v := AllPole(u, lpc);
      assert v[..m] == AllPole(u[..m], lpc);
      ZeroUndoesPole(u[..m], lpc);
      AllZeroPrefix(v, lpc, m);
      TapsOfPrefix(v, v[..m], lpc, m, Reach(m, |lpc|));
      assert AllZero(v, lpc) == AllZero(v, lpc)[..m] + [AllZero(v, lpc)[m]];
      assert u == u[..m] + [u[m]];
    }
  }

  // ---- a filter on a range of the spectrum ----

  // lo..hi of the spectrum, from the top down or up, by these coefficients.
  datatype Segment = Segment(lo: nat, hi: nat, down: bool, lpc: seq<real>)

  function Turned(u: seq<real>, down: bool): (r: seq<real>)
    ensures |r| == |u|
  {
    if down then seq(|u|, i requires 0 <= i < |u| => u[|u| - 1 - i]) else u
  }

  lemma TurnedTwice(u: seq<real>, down: bool)
    ensures Turned(Turned(u, down), down) == u
  {}

  function Run(u: seq<real>, lpc: seq<real>, inverse: bool): (r: seq<real>)
    ensures |r| == |u|
  {
    if inverse then AllZero(u, lpc) else AllPole(u, lpc)
  }

  function Filtered(x: seq<real>, g: Segment, inverse: bool): (r: seq<real>)
    requires g.lo <= g.hi <= |x|
    ensures |r| == |x|
    ensures r[..g.lo] == x[..g.lo] && r[g.hi..] == x[g.hi..]
  {
    x[..g.lo] + Turned(Run(Turned(x[g.lo..g.hi], g.down), g.lpc, inverse), g.down) + x[g.hi..]
  }

  lemma FilterUndone(x: seq<real>, g: Segment, inverse: bool)
    requires g.lo <= g.hi <= |x|
    ensures Filtered(Filtered(x, g, inverse), g, !inverse) == x
  {
    hide AllZero, AllPole;
    var u := Turned(x[g.lo..g.hi], g.down);
    var y := Filtered(x, g, inverse);
    assert y[g.lo..g.hi] == Turned(Run(u, g.lpc, inverse), g.down);
    TurnedTwice(Run(u, g.lpc, inverse), g.down);
    if inverse { PoleUndoesZero(u, g.lpc); } else { ZeroUndoesPole(u, g.lpc); }
    TurnedTwice(x[g.lo..g.hi], g.down);
  }

  predicate Apart(g: Segment, h: Segment) {
    g.hi <= h.lo || h.hi <= g.lo
  }

  // Filters on ranges apart do not see each other.
  lemma FiltersCommute(x: seq<real>, g: Segment, h: Segment, a: bool, b: bool)
    requires g.lo <= g.hi <= |x| && h.lo <= h.hi <= |x| && Apart(g, h)
    ensures Filtered(Filtered(x, g, a), h, b) == Filtered(Filtered(x, h, b), g, a)
  {
    if g.hi <= h.lo { CommuteBelow(x, g, h, a, b); } else { CommuteBelow(x, h, g, b, a); }
  }

  // A filter's range and what is around it.
  lemma FilteredParts(x: seq<real>, g: Segment, a: bool, before: seq<real>, mid: seq<real>, after: seq<real>)
    requires |before| == g.lo <= g.hi == |before| + |mid| && x == before + mid + after
    ensures Filtered(x, g, a) == before + Turned(Run(Turned(mid, g.down), g.lpc, a), g.down) + after
  {
    hide Run, Turned;
    assert x[..g.lo] == before && x[g.lo..g.hi] == mid && x[g.hi..] == after;
  }

  function Inner(u: seq<real>, g: Segment, a: bool): (r: seq<real>)
    ensures |r| == |u|
  {
    Turned(Run(Turned(u, g.down), g.lpc, a), g.down)
  }

  lemma FilterLower(p: seq<real>, u: seq<real>, q: seq<real>, v: seq<real>, r: seq<real>, g: Segment, a: bool)
    requires |p| == g.lo && |p| + |u| == g.hi
    ensures Filtered(p + u + q + v + r, g, a) == p + Inner(u, g, a) + q + v + r
  {
    hide Run, Turned;
    var rest := q + v + r;
    assert p + u + q + v + r == p + u + rest;
    FilteredParts(p + u + rest, g, a, p, u, rest);
    assert p + Inner(u, g, a) + rest == p + Inner(u, g, a) + q + v + r;
  }

  lemma FilterUpper(p: seq<real>, u: seq<real>, q: seq<real>, v: seq<real>, r: seq<real>, h: Segment, b: bool)
    requires |p| + |u| + |q| == h.lo && |p| + |u| + |q| + |v| == h.hi
    ensures Filtered(p + u + q + v + r, h, b) == p + u + q + Inner(v, h, b) + r
  {
    hide Run, Turned;
    FilteredParts(p + u + q + v + r, h, b, p + u + q, v, r);
  }

  lemma FiveParts(x: seq<real>, a: nat, b: nat, c: nat, d: nat)
    requires a <= b <= c <= d <= |x|
    ensures x == x[..a] + x[a..b] + x[b..c] + x[c..d] + x[d..]
  {}

  lemma CommuteBelow(x: seq<real>, g: Segment, h: Segment, a: bool, b: bool)
    requires g.lo <= g.hi <= h.lo <= h.hi <= |x|
    ensures Filtered(Filtered(x, g, a), h, b) == Filtered(Filtered(x, h, b), g, a)
  {
    hide Inner, Filtered;
    var p, u, q, v, r := x[..g.lo], x[g.lo..g.hi], x[g.hi..h.lo], x[h.lo..h.hi], x[h.hi..];
    FiveParts(x, g.lo, g.hi, h.lo, h.hi);
    FilterLower(p, u, q, v, r, g, a);
    FilterUpper(p, u, q, v, r, h, b);
    FilterUpper(p, Inner(u, g, a), q, v, r, h, b);
    FilterLower(p, u, q, Inner(v, h, b), r, g, a);
  }

  // ---- all the filters of a frame ----

  predicate AllApart(gs: seq<Segment>, n: nat) {
    && (forall i :: 0 <= i < |gs| ==> gs[i].lo <= gs[i].hi <= n)
    && forall i, j :: 0 <= i < j < |gs| ==> Apart(gs[i], gs[j])
  }

  function Applied(x: seq<real>, gs: seq<Segment>, inverse: bool): (r: seq<real>)
    requires AllApart(gs, |x|)
    ensures |r| == |x|
    decreases |gs|
  {
    if gs == [] then x else Applied(Filtered(x, gs[0], inverse), gs[1..], inverse)
  }

  // One filter can be run before or after those apart from it.
  lemma {:induction false} AppliedCommutes(x: seq<real>, g: Segment, gs: seq<Segment>, a: bool, b: bool)
    requires AllApart(gs, |x|) && g.lo <= g.hi <= |x| && forall h :: h in gs ==> Apart(g, h)
    ensures Filtered(Applied(x, gs, b), g, a) == Applied(Filtered(x, g, a), gs, b)
    decreases |gs|
  {
    hide Filtered;
    if gs != [] {
      assert gs[0] in gs;
      FiltersCommute(x, g, gs[0], a, b);
      AppliedCommutes(Filtered(x, gs[0], b), g, gs[1..], a, b);
    }
  }

  // The all-pole filters give back what the all-zero ones took, and the
  // other way round, over the whole spectrum.
  lemma {:induction false} AppliedUndone(x: seq<real>, gs: seq<Segment>, inverse: bool)
    requires AllApart(gs, |x|)
    ensures Applied(Applied(x, gs, inverse), gs, !inverse) == x
    decreases |gs|
  {
    hide Filtered;
    if gs != [] {
      var g, rest := gs[0], gs[1..];
      forall h | h in rest ensures Apart(g, h) {
        var i :| 0 <= i < |rest| && rest[i] == h;
        assert Apart(gs[0], gs[i + 1]);
      }
      FilterUndone(x, g, inverse);
      AppliedCommutes(Filtered(x, g, inverse), g, rest, !inverse, inverse);
      AppliedUndone(x, rest, inverse);
    }
  }
}
