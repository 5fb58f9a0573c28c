// What the coefficients of src/common/audio_aac.c's noise shaping are: a
// filter by them is the lattice of the reflection coefficients sent, stage by
// stage, over the bins of the bands it is sent for.

module TnsLattice {
  import opened Bits
  import opened Tns
  import opened TnsFrame

  // ---- the lattice ----

  // Sample m, 0 before the first.
  function Came(u: seq<real>, m: int): real
    requires m < |u|
  {
    if m < 0 then 0.0 else u[m]
  }

  // The forward error of the first n stages at sample m, and the backward
  // one.
  function Forward(u: seq<real>, coef: seq<real>, n: nat, m: int): real
    requires n <= |coef| && m < |u|
    decreases n
  {
    if n == 0 then Came(u, m)
    else Forward(u, coef, n - 1, m) - coef[n - 1] * Backward(u, coef, n - 1, m - 1)
  }

  function Backward(u: seq<real>, coef: seq<real>, n: nat, m: int): real
    requires n <= |coef| && m < |u|
    decreases n
  {
    if n == 0 then Came(u, m)
    else Backward(u, coef, n - 1, m - 1) - coef[n - 1] * Forward(u, coef, n - 1, m)
  }

  // ---- sums of products ----

  function Product(a: real, b: real): real {
    a * b
  }

  function Dot(x: seq<real>, y: seq<real>): real
    requires |x| == |y|
  {
    if x == [] then 0.0 else Product(x[0], y[0]) + Dot(x[1..], y[1..])
  }

  lemma {:induction false} DotOn(x: seq<real>, y: seq<real>, a: real, b: real)
    requires |x| == |y|
    ensures Dot(x + [a], y + [b]) == Dot(x, y) + Product(a, b)
    decreases |x|
  {
    hide Product;
    if x == [] {
      assert (x + [a])[1..] == [] && (y + [b])[1..] == [];
    } else {
      assert (x + [a])[1..] == x[1..] + [a] && (y + [b])[1..] == y[1..] + [b];
      DotOn(x[1..], y[1..], a, b);
    }
  }

  lemma DotFirst(x: seq<real>, y: seq<real>, a: real, b: real)
    requires |x| == |y|
    ensures Dot([a] + x, [b] + y) == Product(a, b) + Dot(x, y)
  {
    hide Product;
    assert ([a] + x)[1..] == x && ([b] + y)[1..] == y;
  }

  lemma {:induction false} DotOfSum(x: seq<real>, y: seq<real>, z: seq<real>, k: real, sum: seq<real>)
    requires |x| == |y| == |z| == |sum| && forall i :: 0 <= i < |x| ==> sum[i] == Share(y[i], k, z[i])
    ensures Dot(x, sum) == Dot(x, y) + k * Dot(x, z)
    decreases |x|
  {
    if x != [] {
      DotOfSum(x[1..], y[1..], z[1..], k, sum[1..]);
      Spread(x[0], y[0], k, z[0], Dot(x[1..], z[1..]));
    }
  }

  lemma Spread(x: real, y: real, k: real, z: real, rest: real)
    ensures x * (y + k * z) + k * rest == x * y + k * (x * z + rest)
  {}

  // ---- the coefficients are the lattice's ----

  // The n samples before m, the last first.
  function Past(u: seq<real>, m: int, n: nat): (r: seq<real>)
    requires m <= |u|
    ensures |r| == n
  {
    seq(n, i requires 0 <= i < n => Came(u, m - 1 - i))
  }

  function Reversed(p: seq<real>): (r: seq<real>)
    ensures |r| == |p|
  {
    seq(|p|, i requires 0 <= i < |p| => p[|p| - 1 - i])
  }

  lemma PastOn(u: seq<real>, m: int, n: nat)
    requires m < |u|
    ensures Past(u, m, n + 1) == Past(u, m, n) + [Came(u, m - 1 - n)]
    ensures Past(u, m + 1, n + 1) == [Came(u, m)] + Past(u, m, n)
  {}

  lemma LpcOn(coef: seq<real>, n: nat)
    requires n < |coef|
    ensures Lpc(coef, n + 1) == Stepped(Lpc(coef, n), -coef[n]) + [-coef[n]]
  {
    hide Stepped;
  }

  lemma StageOn(u: seq<real>, coef: seq<real>, n: nat, m: int)
    requires n < |coef| && m < |u|
    ensures Forward(u, coef, n + 1, m) == Forward(u, coef, n, m) + -coef[n] * Backward(u, coef, n, m - 1)
    ensures Backward(u, coef, n + 1, m) == Backward(u, coef, n, m - 1) + -coef[n] * Forward(u, coef, n, m)
  {
    Negated(coef[n], Backward(u, coef, n, m - 1));
    Negated(coef[n], Forward(u, coef, n, m));
  }

  lemma Negated(a: real, b: real)
    ensures -a * b == -(a * b)
  {}

  // A stage's sum, spread over what both of its parts are.
  lemma StageSum(x: real, sum: real, k: real, y: real, sum': real)
    ensures x + sum + k * (y + sum') == x + (sum + k * sum' + y * k)
  {}

  lemma {:induction false} LatticeIsDirect(u: seq<real>, coef: seq<real>, n: nat, m: int)
    requires n <= |coef| && m < |u|
    ensures Forward(u, coef, n, m) == Came(u, m) + Dot(Past(u, m, n), Lpc(coef, n))
    ensures Backward(u, coef, n, m) == Came(u, m - n) + Dot(Past(u, m + 1, n), Reversed(Lpc(coef, n)))
    decreases n
  {
    hide Lpc, Past, Dot, Came, Forward, Backward, Reversed;
    if n == 0 {
      NoStage(u, coef, m);
    } else {
      var k: nat := n - 1;
      LatticeIsDirect(u, coef, k, m);
      LatticeIsDirect(u, coef, k, m - 1);
      StageOn(u, coef, k, m);
      PastOn(u, m, k);
      assert n == k + 1 && m - 1 - k == m - n && m - 1 + 1 == m;
      NextStage(Past(u, m, k), Came(u, m), Came(u, m - n), coef, k);
    }
  }

  // The sums with one coefficient more.
  lemma NextStage(past: seq<real>, now: real, last: real, coef: seq<real>, n: nat)
    requires |past| == n < |coef|
    ensures var p, q, k := Lpc(coef, n), Lpc(coef, n + 1), -coef[n];
            && now + Dot(past + [last], q) == now + Dot(past, p) + k * (last + Dot(past, Reversed(p)))
            && last + Dot([now] + past, Reversed(q)) == last + Dot(past, Reversed(p)) + k * (now + Dot(past, p))
  {
    hide Lpc, Dot, Reversed, Share, Stepped;
    var p, q, k := Lpc(coef, n), Lpc(coef, n + 1), -coef[n];
    LpcOn(coef, n);
    var front := Stepped(p, k);
    forall j | 0 <= j < n ensures front[j] == Share(p[j], k, p[n - 1 - j]) { SteppedAt(p, k, j); }
    ReversedOn(front, k);
    ReversedAt(p);
    ReversedSum(p, front, k);
    FrontStage(past, p, Reversed(p), k, front, now, last);
    BackStage(past, p, Reversed(p), k, Reversed(front), now, last);
  }

  lemma ReversedOn(front: seq<real>, k: real)
    ensures Reversed(front + [k]) == [k] + Reversed(front)
  {}

  lemma ReversedAt(p: seq<real>)
    ensures forall j :: 0 <= j < |p| ==> Reversed(p)[j] == p[|p| - 1 - j]
  {}

  lemma FrontStage(past: seq<real>, p: seq<real>, z: seq<real>, k: real, front: seq<real>, now: real, last: real)
    requires |past| == |p| == |z| == |front| && forall j :: 0 <= j < |p| ==> front[j] == Share(p[j], k, z[j])
    ensures now + Dot(past + [last], front + [k]) == now + Dot(past, p) + k * (last + Dot(past, z))
  {
    hide Dot, Share;
    DotOfSum(past, p, z, k, front);
    DotOn(past, front, last, k);
    StageSum(now, Dot(past, p), k, last, Dot(past, z));
  }

  lemma BackStage(past: seq<real>, p: seq<real>, z: seq<real>, k: real, front: seq<real>, now: real, last: real)
    requires |past| == |p| == |z| == |front| && forall j :: 0 <= j < |p| ==> front[j] == Share(z[j], k, p[j])
    ensures last + Dot([now] + past, [k] + front) == last + Dot(past, z) + k * (now + Dot(past, p))
  {
    hide Dot, Share;
    DotOfSum(past, z, p, k, front);
    DotFirst(past, front, now, k);
    StageSum(last, Dot(past, z), k, now, Dot(past, p));
  }

  lemma ReversedSum(p: seq<real>, front: seq<real>, k: real)
    requires |p| == |front| && forall j :: 0 <= j < |p| ==> front[j] == Share(p[j], k, p[|p| - 1 - j])
    ensures forall j :: 0 <= j < |p| ==> Reversed(front)[j] == Share(Reversed(p)[j], k, p[j])
  {
    hide Share;
    forall j | 0 <= j < |p| ensures Reversed(front)[j] == Share(Reversed(p)[j], k, p[j]) {
      var i := |p| - 1 - j;
      assert front[i] == Share(p[i], k, p[|p| - 1 - i]);
    }
  }

  lemma NoStage(u: seq<real>, coef: seq<real>, m: int)
    requires m < |u|
    ensures Lpc(coef, 0) == [] && Reversed([]) == [] && Past(u, m, 0) == [] && Past(u, m + 1, 0) == []
    ensures Dot([], []) == 0.0 && Forward(u, coef, 0, m) == Backward(u, coef, 0, m) == Came(u, m)
  {}

  lemma {:induction false} TapsAreDot(u: seq<real>, lpc: seq<real>, m: nat, k: nat)
    requires m < |u| && k <= |lpc|
    ensures Dot(Past(u, m, k), lpc[..k]) == Taps(u, lpc, m, Reach(m, k))
    decreases k
  {
    hide Dot, Past;
    if k == 0 {
      NoStage(u, [], m);
    } else {
      TapsAreDot(u, lpc, m, k - 1);
      PastOn(u, m, k - 1);
      assert lpc[..k] == lpc[..k - 1] + [lpc[k - 1]];
      DotOn(Past(u, m, k - 1), lpc[..k - 1], Came(u, m - k), lpc[k - 1]);
    }
  }

  // The all-zero filter is the lattice.
  lemma AllZeroIsLattice(u: seq<real>, coef: seq<real>, order: nat, m: nat)
    requires order <= |coef| && m < |u|
    ensures AllZero(u, Lpc(coef, order))[m] == Forward(u, coef, order, m)
  {
    hide Lpc, Past, Dot, Taps;
    LatticeIsDirect(u, coef, order, m);
    TapsAreDot(u, Lpc(coef, order), m, order);
    assert Lpc(coef, order)[..order] == Lpc(coef, order);
  }

  // And what the all-pole filter gives is what the lattice turns back into
  // what it was given.
  lemma AllPoleIsLattice(u: seq<real>, coef: seq<real>, order: nat, m: nat)
    requires order <= |coef| && m < |u|
    ensures Forward(AllPole(u, Lpc(coef, order)), coef, order, m) == u[m]
  {
    hide Lpc, AllPole, AllZero;
    ZeroUndoesPole(u, Lpc(coef, order));
    AllZeroIsLattice(AllPole(u, Lpc(coef, order)), coef, order, m);
  }

  // ---- a range of the spectrum ----

  // Sample m of a range, counted from its top or its bottom.
  function Place(g: Segment, m: nat): int {
    if g.down then g.hi - 1 - m else g.lo + m
  }

  function Counted(x: seq<real>, g: Segment): (u: seq<real>)
    requires g.lo <= g.hi <= |x|
    ensures |u| == g.hi - g.lo
  {
    seq(g.hi - g.lo, m requires 0 <= m < g.hi - g.lo => x[Place(g, m)])
  }

  // A range filtered: the lattice of what it held or, the other way, what
  // the lattice makes that of.
  ghost predicate IsLattice(x: seq<real>, y: seq<real>, g: Segment, coef: seq<real>, order: nat, inverse: bool)
    requires g.lo <= g.hi <= |x| == |y| && order <= |coef|
  {
    if inverse then Turns(Counted(x, g), Counted(y, g), coef, order)
    else Turns(Counted(y, g), Counted(x, g), coef, order)
  }

  ghost predicate Turns(u: seq<real>, v: seq<real>, coef: seq<real>, order: nat)
    requires |u| == |v| && order <= |coef|
  {
    forall m :: 0 <= m < |u| ==> Forward(u, coef, order, m) == v[m]
  }

  lemma FilteredIsLattice(x: seq<real>, g: Segment, coef: seq<real>, order: nat, inverse: bool)
    requires g.lo <= g.hi <= |x| && order <= |coef| && g.lpc == Lpc(coef, order)
    ensures IsLattice(x, Filtered(x, g, inverse), g, coef, order, inverse)
  {
    hide Lpc, AllPole, AllZero, Forward, Filtered, Counted;
    var y := Filtered(x, g, inverse);
    var u, v := Counted(x, g), Counted(y, g);
    CountedRun(x, g, inverse);
    forall m | 0 <= m < g.hi - g.lo
      ensures if inverse then Forward(u, coef, order, m) == v[m] else Forward(v, coef, order, m) == u[m]
    {
      if inverse { AllZeroIsLattice(u, coef, order, m); } else { AllPoleIsLattice(u, coef, order, m); }
    }
  }

  lemma CountedRun(x: seq<real>, g: Segment, inverse: bool)
    requires g.lo <= g.hi <= |x|
    ensures Counted(Filtered(x, g, inverse), g) == Run(Counted(x, g), g.lpc, inverse)
  {
    hide Run;
    assert Counted(x, g) == Turned(x[g.lo..g.hi], g.down);
    var y, r := Filtered(x, g, inverse), Run(Counted(x, g), g.lpc, inverse);
    assert y[g.lo..g.hi] == Turned(r, g.down);
    TurnedTwice(r, g.down);
    assert Counted(y, g) == Turned(y[g.lo..g.hi], g.down);
  }

  // ---- filters apart, each on its own ----

  lemma FilteredElsewhere(x: seq<real>, g: Segment, inverse: bool, k: nat)
    requires g.lo <= g.hi <= |x| && k < |x| && (k < g.lo || g.hi <= k)
    ensures Filtered(x, g, inverse)[k] == x[k]
  {
    hide Run;
    var y := Filtered(x, g, inverse);
    if k < g.lo { assert y[..g.lo][k] == x[..g.lo][k]; } else { assert y[g.hi..][k - g.hi] == x[g.hi..][k - g.hi]; }
  }

  lemma {:induction false} AppliedElsewhere(x: seq<real>, gs: seq<Segment>, inverse: bool, k: nat)
    requires AllApart(gs, |x|) && k < |x| && forall g :: g in gs ==> k < g.lo || g.hi <= k
    ensures Applied(x, gs, inverse)[k] == x[k]
    decreases |gs|
  {
    hide Filtered;
    if gs != [] {
      assert gs[0] in gs;
      FilteredElsewhere(x, gs[0], inverse, k);
      AppliedElsewhere(Filtered(x, gs[0], inverse), gs[1..], inverse, k);
    }
  }

  lemma SameInside(x: seq<real>, x': seq<real>, g: Segment)
    requires g.lo <= g.hi <= |x| == |x'| && forall k :: g.lo <= k < g.hi ==> x'[k] == x[k]
    ensures Counted(x', g) == Counted(x, g)
  {}

  lemma {:induction false} AppliedIsLattice(x: seq<real>, gs: seq<Segment>, inverse: bool, i: nat, coef: seq<real>,
                                            order: nat)
    requires AllApart(gs, |x|) && i < |gs| && order <= |coef| && gs[i].lpc == Lpc(coef, order)
    ensures IsLattice(x, Applied(x, gs, inverse), gs[i], coef, order, inverse)
    decreases |gs|
  {
    hide Filtered, Lpc, Counted, Forward;
    var g, next := gs[i], Filtered(x, gs[0], inverse);
    if i == 0 {
      FilteredIsLattice(x, g, coef, order, inverse);
      forall k | g.lo <= k < g.hi ensures Applied(x, gs, inverse)[k] == next[k] {
        forall h | h in gs[1..] ensures k < h.lo || h.hi <= k {
          var j :| 0 <= j < |gs[1..]| && gs[1..][j] == h;
          assert Apart(gs[0], gs[j + 1]);
        }
        AppliedElsewhere(next, gs[1..], inverse, k);
      }
      SameInside(next, Applied(x, gs, inverse), g);
    } else {
      forall k | g.lo <= k < g.hi ensures next[k] == x[k] {
        assert Apart(gs[0], gs[i]);
        FilteredElsewhere(x, gs[0], inverse, k);
      }
      SameInside(x, next, g);
      assert gs[1..][i - 1] == g;
      AppliedIsLattice(next, gs[1..], inverse, i - 1, coef, order);
      assert Applied(x, gs, inverse) == Applied(next, gs[1..], inverse);
      LatticeMoved(x, next, Applied(x, gs, inverse), g, coef, order, inverse);
    }
  }

  lemma LatticeMoved(x: seq<real>, x': seq<real>, y: seq<real>, g: Segment, coef: seq<real>, order: nat, inverse: bool)
    requires g.lo <= g.hi <= |x| == |x'| == |y| && order <= |coef| && Counted(x, g) == Counted(x', g)
    requires IsLattice(x', y, g, coef, order, inverse)
    ensures IsLattice(x, y, g, coef, order, inverse)
  {
    hide Forward, Counted;
  }

  // ---- the bins of a filter ----

  // The bands of the first f filters.
  function Lengths(filters: seq<Filter>, f: nat): nat
    requires f <= |filters|
  {
    if f == 0 then 0 else Lengths(filters, f - 1) + filters[f - 1].length
  }

  // The band filter f begins under: those before it have taken theirs from
  // the top.
  function Top(fr: Frame, w: nat, f: nat): nat
    requires 1 <= |fr.swb| && w < |fr.filters| && f <= |fr.filters[w]|
  {
    if |fr.swb| - 1 < Lengths(fr.filters[w], f) then 0 else |fr.swb| - 1 - Lengths(fr.filters[w], f)
  }

  // Bin x is in band b, and the band is one of filter f's and one that
  // filtering may reach.
  predicate InBand(fr: Frame, w: nat, f: nat, b: nat, x: nat)
    requires 1 <= |fr.swb| && w < |fr.filters| && f < |fr.filters[w]|
  {
    && Top(fr, w, f + 1) <= b < Top(fr, w, f) && b < fr.bands
    && w * fr.wlen + fr.swb[b] <= x < w * fr.wlen + fr.swb[b + 1]
  }

  ghost predicate Shapes(fr: Frame, w: nat, f: nat, x: nat)
    requires 1 <= |fr.swb| && w < |fr.filters| && f < |fr.filters[w]|
  {
    fr.filters[w][f].order > 0 && exists b: nat :: InBand(fr, w, f, b, x)
  }

  // The segment is filter f's: its direction and coefficients, over its bins.
  ghost predicate IsFor(fr: Frame, w: nat, f: nat, g: Segment)
    requires FrameOk(fr) && w < |fr.filters| && f < |fr.filters[w]|
  {
    var h := fr.filters[w][f];
    && FilterOk(h) && h.order > 0 && g.down == h.down && g.lpc == Lpc(h.coef, h.order)
    && forall x: nat :: g.lo <= x < g.hi <==> Shapes(fr, w, f, x)
  }

  // A bin between two edges is in a band between them.
  lemma {:induction false} BandOf(fr: Frame, low: nat, high: nat, x: nat) returns (b: nat)
    requires FrameOk(fr) && low <= high < |fr.swb| && Edge(fr, low) <= x < Edge(fr, high)
    ensures low <= b < high && b < fr.bands && fr.swb[b] <= x < fr.swb[b + 1]
    decreases high
  {
    if Edge(fr, high - 1) <= x { b := high - 1; } else { b := BandOf(fr, low, high - 1, x); }
  }

  lemma BandInside(fr: Frame, low: nat, high: nat, b: nat, x: nat)
    requires FrameOk(fr) && low <= b < high < |fr.swb| && b < fr.bands && fr.swb[b] <= x < fr.swb[b + 1]
    ensures Edge(fr, low) <= x < Edge(fr, high)
  {}

  lemma TopOn(fr: Frame, w: nat, f: nat)
    requires 1 <= |fr.swb| && w < |fr.filters| && f < |fr.filters[w]|
    ensures Top(fr, w, f) < |fr.swb| && Top(fr, w, f + 1) == Below(Top(fr, w, f), fr.filters[w][f].length)
  {}

  lemma BinsBetween(fr: Frame, w: nat, f: nat, x: nat)
    requires FrameOk(fr) && w < |fr.filters| && f < |fr.filters[w]| && fr.filters[w][f].order > 0
    ensures Top(fr, w, f + 1) <= Top(fr, w, f) < |fr.swb|
    ensures Base(fr, w) + Edge(fr, Top(fr, w, f + 1)) <= x < Base(fr, w) + Edge(fr, Top(fr, w, f))
            <==> Shapes(fr, w, f, x)
  {
    hide Edge, Top;
    TopOn(fr, w, f);
    var low, high, base := Top(fr, w, f + 1), Top(fr, w, f), Base(fr, w);
    if base + Edge(fr, low) <= x < base + Edge(fr, high) {
      var b := BandOf(fr, low, high, x - base);
      assert InBand(fr, w, f, b, x);
    }
    if Shapes(fr, w, f, x) {
      var b: nat :| InBand(fr, w, f, b, x);
      BandInside(fr, low, high, b, x - base);
    }
  }

  // The segment is some filter's of window w; of a window from w on.
  ghost predicate OfWindow(fr: Frame, w: nat, g: Segment)
    requires FrameOk(fr) && w < |fr.filters|
  {
    exists k: nat :: k < |fr.filters[w]| && IsFor(fr, w, k, g)
  }

  ghost predicate OfFrame(fr: Frame, w: nat, g: Segment)
    requires FrameOk(fr)
  {
    exists v: nat :: w <= v < |fr.filters| && OfWindow(fr, v, g)
  }

  // One of the segments is filter f's.
  ghost predicate Has(fr: Frame, w: nat, f: nat, gs: seq<Segment>)
    requires FrameOk(fr) && w < |fr.filters| && f < |fr.filters[w]|
  {
    exists i: nat :: i < |gs| && IsFor(fr, w, f, gs[i])
  }

  // Every range of a window is some filter's, and every filter that has
  // bins has its range.
  lemma {:induction false} WindowHas(fr: Frame, w: nat, f: nat)
    requires FrameOk(fr) && w < |fr.filters| && f <= |fr.filters[w]|
    ensures Top(fr, w, f) < |fr.swb|
    ensures var gs := WindowSegments(fr, w, f, Top(fr, w, f));
            && (forall i :: 0 <= i < |gs| ==> OfWindow(fr, w, gs[i]))
            && (forall k, x: nat :: f <= k < |fr.filters[w]| && Shapes(fr, w, k, x) ==> Has(fr, w, k, gs))
    decreases |fr.filters[w]| - f
  {
    hide Top, Edge, Lpc, Shapes, IsFor, Base, WindowSegments, Has, OfWindow;
    TopBelow(fr, w, f);
    if f < |fr.filters[w]| {
      TopOn(fr, w, f);
      WindowHas(fr, w, f + 1);
      WindowFirst(fr, w, f);
      var gs, rest := WindowSegments(fr, w, f, Top(fr, w, f)), WindowSegments(fr, w, f + 1, Top(fr, w, f + 1));
      if gs != rest { FirstHas(fr, w, f, gs); }
      forall k, x: nat | f <= k < |fr.filters[w]| && Shapes(fr, w, k, x) ensures Has(fr, w, k, gs) {
        if k > f && gs != rest { RestHas(fr, w, k, gs); }
      }
      forall i | 0 <= i < |gs| ensures OfWindow(fr, w, gs[i]) {
        if gs != rest && i > 0 { assert gs[i] == rest[i - 1]; }
      }
    } else {
      NoMore(fr, w, f);
    }
  }

  lemma NoMore(fr: Frame, w: nat, f: nat)
    requires FrameOk(fr) && w < |fr.filters| && f == |fr.filters[w]| && Top(fr, w, f) < |fr.swb|
    ensures WindowSegments(fr, w, f, Top(fr, w, f)) == []
  {}

  lemma FirstHas(fr: Frame, w: nat, f: nat, gs: seq<Segment>)
    requires FrameOk(fr) && w < |fr.filters| && f < |fr.filters[w]| && |gs| > 0 && IsFor(fr, w, f, gs[0])
    ensures Has(fr, w, f, gs) && OfWindow(fr, w, gs[0])
  {
    hide IsFor;
  }

  lemma RestHas(fr: Frame, w: nat, f: nat, gs: seq<Segment>)
    requires FrameOk(fr) && w < |fr.filters| && f < |fr.filters[w]| && |gs| > 0 && Has(fr, w, f, gs[1..])
    ensures Has(fr, w, f, gs)
  {
    hide IsFor;
    var i: nat :| i < |gs[1..]| && IsFor(fr, w, f, gs[1..][i]);
    assert gs[i + 1] == gs[1..][i];
  }

  lemma TopBelow(fr: Frame, w: nat, f: nat)
    requires 1 <= |fr.swb| && w < |fr.filters| && f <= |fr.filters[w]|
    ensures Top(fr, w, f) < |fr.swb|
  {}

  lemma WindowFirst(fr: Frame, w: nat, f: nat)
    requires FrameOk(fr) && w < |fr.filters| && f < |fr.filters[w]|
    ensures Top(fr, w, f) < |fr.swb| && Top(fr, w, f + 1) < |fr.swb|
    ensures var gs, rest := WindowSegments(fr, w, f, Top(fr, w, f)), WindowSegments(fr, w, f + 1, Top(fr, w, f + 1));
            if exists x: nat :: Shapes(fr, w, f, x) then |gs| > 0 && gs[1..] == rest && IsFor(fr, w, f, gs[0])
            else gs == rest
  {
    hide Top, Edge, Lpc, Shapes, Base;
    TopOn(fr, w, f);
    TopBelow(fr, w, f + 1);
    var h, low, high, base := fr.filters[w][f], Top(fr, w, f + 1), Top(fr, w, f), Base(fr, w);
    assert FilterOk(h);
    if h.order > 0 {
      forall x: nat ensures base + Edge(fr, low) <= x < base + Edge(fr, high) <==> Shapes(fr, w, f, x) {
        BinsBetween(fr, w, f, x);
      }
      assert Edge(fr, low) < Edge(fr, high) ==> Shapes(fr, w, f, base + Edge(fr, low));
    } else {
      forall x: nat ensures !Shapes(fr, w, f, x) { NoOrder(fr, w, f, x); }
    }
  }

  lemma NoOrder(fr: Frame, w: nat, f: nat, x: nat)
    requires 1 <= |fr.swb| && w < |fr.filters| && f < |fr.filters[w]| && fr.filters[w][f].order == 0
    ensures !Shapes(fr, w, f, x)
  {}

  lemma TopFirst(fr: Frame, w: nat)
    requires 1 <= |fr.swb| && w < |fr.filters|
    ensures Top(fr, w, 0) == |fr.swb| - 1
  {}

  lemma {:induction false} FrameHas(fr: Frame, w: nat)
    requires FrameOk(fr) && w <= |fr.filters|
    ensures var gs := Segments(fr, w);
            && (forall i :: 0 <= i < |gs| ==> OfFrame(fr, w, gs[i]))
            && (forall v, k, x: nat :: w <= v < |fr.filters| && 0 <= k < |fr.filters[v]| && Shapes(fr, v, k, x) ==>
                  Has(fr, v, k, gs))
    decreases |fr.filters| - w
  {
    hide WindowSegments, Segments, Shapes, IsFor, Has, OfWindow, OfFrame, Top;
    SegmentsOn(fr, w);
    if w < |fr.filters| {
      FrameHas(fr, w + 1);
      WindowHas(fr, w, 0);
      TopFirst(fr, w);
      var top := Top(fr, w, 0);
      assert WindowSegments(fr, w, 0, top) == WindowSegments(fr, w, 0, |fr.swb| - 1);
      var gs, mine, rest := Segments(fr, w), WindowSegments(fr, w, 0, |fr.swb| - 1), Segments(fr, w + 1);
      forall i | 0 <= i < |gs| ensures OfFrame(fr, w, gs[i]) {
        if i < |mine| {
          assert gs[i] == mine[i];
          OfFrameToo(fr, w, gs[i]);
        } else {
          assert gs[i] == rest[i - |mine|];
          OfFrameToo(fr, w, gs[i]);
        }
      }
      forall v, k, x: nat | w <= v < |fr.filters| && 0 <= k < |fr.filters[v]| && Shapes(fr, v, k, x)
        ensures Has(fr, v, k, gs)
      {
        PartHas(fr, v, k, mine, rest);
      }
    }
  }

  lemma SegmentsOn(fr: Frame, w: nat)
    requires FrameOk(fr) && w <= |fr.filters|
    ensures Segments(fr, w)
            == if w == |fr.filters| then [] else WindowSegments(fr, w, 0, |fr.swb| - 1) + Segments(fr, w + 1)
  {
    hide WindowSegments;
  }

  lemma OfFrameToo(fr: Frame, w: nat, g: Segment)
    requires FrameOk(fr) && w < |fr.filters| && (OfWindow(fr, w, g) || OfFrame(fr, w + 1, g))
    ensures OfFrame(fr, w, g)
  {
    hide OfWindow;
  }

  lemma PartHas(fr: Frame, w: nat, f: nat, gs: seq<Segment>, hs: seq<Segment>)
    requires FrameOk(fr) && w < |fr.filters| && f < |fr.filters[w]|
    ensures Has(fr, w, f, gs) || Has(fr, w, f, hs) ==> Has(fr, w, f, gs + hs)
  {
    hide IsFor;
    var all := gs + hs;
    if Has(fr, w, f, gs) {
      var i: nat :| i < |gs| && IsFor(fr, w, f, gs[i]);
      assert all[i] == gs[i];
    } else if Has(fr, w, f, hs) {
      var i: nat :| i < |hs| && IsFor(fr, w, f, hs[i]);
      assert all[|gs| + i] == hs[i];
    }
  }

  // A frame shaped: each filter's bins are its lattice, and a bin that is no
  // filter's stays as it was.
  lemma FrameIsLattice(fr: Frame, x: seq<real>, inverse: bool, w: nat, f: nat, bin: nat) returns (g: Segment)
    requires FrameOk(fr) && |x| == Base(fr, |fr.filters|) && w < |fr.filters| && f < |fr.filters[w]|
    requires Shapes(fr, w, f, bin)
    ensures AllApart(Segments(fr, 0), |x|)
    ensures var h := fr.filters[w][f];
            && g.lo <= g.hi <= |x| && g.down == h.down && h.order <= |h.coef|
            && (forall k: nat :: g.lo <= k < g.hi <==> Shapes(fr, w, f, k))
            && IsLattice(x, Applied(x, Segments(fr, 0), inverse), g, h.coef, h.order, inverse)
  {
    hide Shapes, Segments, Lpc, IsLattice, Applied;
    SegmentsApart(fr, 0);
    FrameHas(fr, 0);
    var gs := Segments(fr, 0);
    assert Has(fr, w, f, gs);
    var i: nat :| i < |gs| && IsFor(fr, w, f, gs[i]);
    g := gs[i];
    AppliedIsLattice(x, gs, inverse, i, fr.filters[w][f].coef, fr.filters[w][f].order);
  }

  lemma UnshapedStays(fr: Frame, x: seq<real>, inverse: bool, bin: nat)
    requires FrameOk(fr) && |x| == Base(fr, |fr.filters|) && bin < |x|
    requires forall w, f :: 0 <= w < |fr.filters| && 0 <= f < |fr.filters[w]| ==> !Shapes(fr, w, f, bin)
    ensures AllApart(Segments(fr, 0), |x|) && Applied(x, Segments(fr, 0), inverse)[bin] == x[bin]
  {
    hide Shapes, Segments, Lpc, Applied;
    SegmentsApart(fr, 0);
    FrameHas(fr, 0);
    forall g | g in Segments(fr, 0) ensures bin < g.lo || g.hi <= bin {
      var i :| 0 <= i < |Segments(fr, 0)| && Segments(fr, 0)[i] == g;
      assert OfFrame(fr, 0, g);
      var v: nat :| v < |fr.filters| && OfWindow(fr, v, g);
      var k: nat :| k < |fr.filters[v]| && IsFor(fr, v, k, g);
      assert !Shapes(fr, v, k, bin);
    }
    AppliedElsewhere(x, Segments(fr, 0), inverse, bin);
  }
}
