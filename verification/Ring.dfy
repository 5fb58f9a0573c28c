// The outlines of the seas in tools/gen_geo.c: simplify is Douglas and
// Peucker's, over exact coordinates, and add_ring uses it on a closed ring.
// Distances are kept squared, so that no root is taken.

module Ring {

  datatype Point = Point(x: real, y: real)

  // How far, in degrees, an outline may move.
  const SIMPLIFY: real := 0.01

  // ---- distances ----

  function Dot(a: Point, b: Point, p: Point, q: Point): real {
    (b.x - a.x) * (q.x - p.x) + (b.y - a.y) * (q.y - p.y)
  }

  function Cross(a: Point, b: Point, p: Point): real {
    (b.y - a.y) * p.x - (b.x - a.x) * p.y + b.x * a.y - b.y * a.x
  }

  function Square(x: real): real { x * x }

  // The square of the distance between two points.
  function Apart(p: Point, q: Point): real {
    Square(p.x - q.x) + Square(p.y - q.y)
  }

  // The square of the distance from p to the line through a and b, or to the
  // point they are.
  function Off(a: Point, b: Point, p: Point): real {
    if Apart(a, b) > 0.0 then Square(Cross(a, b, p)) / Apart(a, b) else Apart(p, a)
  }

  // The point of the line at t, a at 0 and b at 1.
  function Along(a: Point, b: Point, t: real): Point {
    Point(a.x + t * (b.x - a.x), a.y + t * (b.y - a.y))
  }

  lemma SquareNonneg(x: real)
    ensures Square(x) >= 0.0
  {}

  function Times(x: real, y: real): real { x * y }

  // The product of two lengths, from the angle between them.
  lemma Lagrange(u: real, v: real, x: real, y: real)
    ensures Times(Square(u) + Square(v), Square(x) + Square(y)) == Square(v * x - u * y) + Square(u * x + v * y)
  {}

  // The same for the line from a to b and a place on it.
  lemma FromTheLine(a: Point, b: Point, p: Point, t: real)
    ensures var q := Along(a, b, t);
            Times(Apart(a, b), Apart(p, q)) == Square(Cross(a, b, p)) + Square(Dot(a, b, q, p))
  {
    hide Square, Along, Cross, Times;
    var q := Along(a, b, t);
    var u, v, x, y := b.x - a.x, b.y - a.y, p.x - q.x, p.y - q.y;
    Lagrange(u, v, x, y);
    assert v * x - u * y == Cross(a, b, p) by { CrossAlong(a, b, p, t); }
    assert Apart(a, b) == Square(u) + Square(v) by {
      SquareSigns(a.x, b.x);
      SquareSigns(a.y, b.y);
    }
    assert Dot(a, b, q, p) == u * x + v * y;
    assert Apart(p, q) == Square(x) + Square(y);
  }

  lemma SquareSigns(x: real, y: real)
    ensures Square(x - y) == Square(y - x)
  {}

  lemma CrossAlong(a: Point, b: Point, p: Point, t: real)
    ensures var q := Along(a, b, t);
            (b.y - a.y) * (p.x - q.x) - (b.x - a.x) * (p.y - q.y) == Cross(a, b, p)
  {
    var u, v := b.x - a.x, b.y - a.y;
    assert v * (p.x - a.x - t * u) - u * (p.y - a.y - t * v) == v * (p.x - a.x) - u * (p.y - a.y);
  }

  lemma Quotient(l: real, c: real, d: real)
    requires l > 0.0
    ensures Times(l, d) >= c ==> d >= c / l
    ensures Times(l, d) == c ==> d == c / l
  {
    assert l * (d - c / l) == l * d - c;
  }

  // The distance is the least to any place of the line, and it is met.
  lemma OffIsLeast(a: Point, b: Point, p: Point, t: real)
    requires Apart(a, b) > 0.0
    ensures Apart(p, Along(a, b, t)) >= Off(a, b, p)
  {
    hide Apart, Square, Cross, Dot, Along, Times;
    FromTheLine(a, b, p, t);
    SquareNonneg(Dot(a, b, Along(a, b, t), p));
    Quotient(Apart(a, b), Square(Cross(a, b, p)), Apart(p, Along(a, b, t)));
  }

  lemma OffIsMet(a: Point, b: Point, p: Point) returns (t: real)
    requires Apart(a, b) > 0.0
    ensures Apart(p, Along(a, b, t)) == Off(a, b, p)
  {
    t := Dot(a, b, a, p) / Apart(a, b);
    Foot(a, b, p, t);
    FootMeets(a, b, p, t);
  }

  lemma Foot(a: Point, b: Point, p: Point, t: real)
    requires t * Apart(a, b) == Dot(a, b, a, p)
    ensures Dot(a, b, Along(a, b, t), p) == 0.0
  {
    var u, v := b.x - a.x, b.y - a.y;
    assert Apart(a, b) == u * u + v * v;
    assert u * (p.x - a.x - t * u) + v * (p.y - a.y - t * v) == u * (p.x - a.x) + v * (p.y - a.y) - t * (u * u + v * v);
  }

  lemma FootMeets(a: Point, b: Point, p: Point, t: real)
    requires Apart(a, b) > 0.0 && Dot(a, b, Along(a, b, t), p) == 0.0
    ensures Apart(p, Along(a, b, t)) == Off(a, b, p)
  {
    hide Apart, Cross, Dot, Along, Times;
    FromTheLine(a, b, p, t);
    Quotient(Apart(a, b), Square(Cross(a, b, p)), Apart(p, Along(a, b, t)));
  }

  lemma OffNonneg(a: Point, b: Point, p: Point)
    ensures Off(a, b, p) >= 0.0
  {
    hide Cross, Square, Apart;
    SquareNonneg(Cross(a, b, p));
    ApartNonneg(p, a);
    if Apart(a, b) > 0.0 { OverPositive(Square(Cross(a, b, p)), Apart(a, b)); }
  }

  lemma OverPositive(c: real, l: real)
    requires c >= 0.0 && l > 0.0
    ensures c / l >= 0.0
  {}

  // ---- what is kept ----

  // The first of the points strictly between a and b that is furthest from
  // the line through them.
  ghost predicate Furthest(v: seq<Point>, a: nat, b: nat, far: nat) {
    && a < far < b < |v|
    && (forall i :: a < i < b ==> Off(v[a], v[b], v[i]) <= Off(v[a], v[b], v[far]))
    && (forall i :: a < i < far ==> Off(v[a], v[b], v[i]) < Off(v[a], v[b], v[far]))
  }

  // Nothing is kept between a and b, and all is near.
  ghost predicate Blank(v: seq<Point>, a: nat, b: nat, keep: seq<bool>) {
    b < |v| == |keep| && forall i :: a < i < b ==> !keep[i] && Off(v[a], v[b], v[i]) <= Square(SIMPLIFY)
  }

  // The furthest point between a and b is too far.
  ghost predicate Splits(v: seq<Point>, a: nat, b: nat, far: nat) {
    Furthest(v, a, b, far) && Off(v[a], v[b], v[far]) > Square(SIMPLIFY)
  }

  // What simplify leaves marked between a and b: nothing where all is near;
  // or the furthest point, and the same on both sides of it.
  ghost predicate Simplified(v: seq<Point>, a: nat, b: nat, keep: seq<bool>)
    decreases b - a
  {
    && b < |v| == |keep|
    && (Blank(v, a, b, keep)
        || exists far: nat ::
             && a < far < b && Splits(v, a, b, far) && keep[far]
             && Simplified(v, a, far, keep) && Simplified(v, far, b, keep))
  }

  // Two kept points with none kept between them.
  ghost predicate Next(keep: seq<bool>, p: nat, q: nat) {
    p < q < |keep| && keep[p] && keep[q] && forall k :: p < k < q ==> !keep[k]
  }

  // What lies between two is near the line through them.
  ghost predicate Near(v: seq<Point>, p: nat, q: nat) {
    q < |v| && forall k :: p < k < q ==> Off(v[p], v[q], v[k]) <= Square(SIMPLIFY)
  }

  // Where it was split.
  lemma SplitOf(v: seq<Point>, a: nat, b: nat, keep: seq<bool>) returns (far: nat)
    requires Simplified(v, a, b, keep) && !Blank(v, a, b, keep)
    ensures a < far < b < |v| == |keep| && Splits(v, a, b, far) && keep[far]
    ensures Simplified(v, a, far, keep) && Simplified(v, far, b, keep)
  {
    hide Blank, Splits;
    far :| a < far < b && Splits(v, a, b, far) && keep[far] && Simplified(v, a, far, keep)
        && Simplified(v, far, b, keep);
  }

  lemma NotBlank(v: seq<Point>, a: nat, b: nat, keep: seq<bool>, far: nat)
    requires Splits(v, a, b, far)
    ensures !Blank(v, a, b, keep)
  {
    hide Off, Square;
  }

  lemma OneSplit(v: seq<Point>, a: nat, b: nat, far: nat, far': nat)
    requires Splits(v, a, b, far) && Splits(v, a, b, far')
    ensures far == far'
  {
    hide Off, Square;
  }

  lemma BlankNear(v: seq<Point>, a: nat, b: nat, keep: seq<bool>, p: nat, q: nat)
    requires Blank(v, a, b, keep) && a <= p < q <= b && Next(keep, p, q)
    ensures Near(v, p, q)
  {
    hide Off, Square;
  }

  // Every dropped point is near the line through its nearest kept neighbours.
  lemma {:induction false} DroppedAreNear(v: seq<Point>, a: nat, b: nat, keep: seq<bool>, p: nat, q: nat)
    requires Simplified(v, a, b, keep)
    requires a <= p < q <= b && Next(keep, p, q)
    ensures Near(v, p, q)
    decreases b - a
  {
    hide Simplified, Blank, Splits, Near;
    if Blank(v, a, b, keep) {
      BlankNear(v, a, b, keep, p, q);
    } else {
      var far := SplitOf(v, a, b, keep);
      if q <= far { DroppedAreNear(v, a, far, keep, p, q); }
      else { DroppedAreNear(v, far, b, keep, p, q); }
    }
  }

  // A dropped point has kept points on both sides.
  lemma {:induction false} HasNeighbours(keep: seq<bool>, a: nat, k: nat, b: nat) returns (p: nat, q: nat)
    requires a < k < b < |keep| && keep[a] && keep[b] && !keep[k]
    ensures a <= p < k < q <= b && Next(keep, p, q)
  {
    p, q := k - 1, k + 1;
    while !keep[p]
      invariant a <= p < k && forall i :: p < i < k ==> !keep[i]
      decreases p
    {
      p := p - 1;
    }
    while !keep[q]
      invariant k < q <= b && forall i :: k < i < q ==> !keep[i]
      decreases b - q
    {
      q := q + 1;
    }
  }

  // There is one way to simplify.
  lemma {:induction false} SimplifiedIsOne(v: seq<Point>, a: nat, b: nat, keep: seq<bool>, keep': seq<bool>, k: nat)
    requires Simplified(v, a, b, keep) && Simplified(v, a, b, keep') && a < k < b
    ensures b < |keep| == |keep'| && keep[k] == keep'[k]
    decreases b - a
  {
    hide Simplified, Blank, Splits;
    SameLength(v, a, b, keep);
    SameLength(v, a, b, keep');
    if Blank(v, a, b, keep) {
      BlankTogether(v, a, b, keep, keep');
      BothBlank(v, a, b, keep, keep', k);
    } else {
      if Blank(v, a, b, keep') { BlankTogether(v, a, b, keep', keep); }
      var far := SplitOf(v, a, b, keep);
      var far' := SplitOf(v, a, b, keep');
      OneSplit(v, a, b, far, far');
      if k < far { SimplifiedIsOne(v, a, far, keep, keep', k); }
      if k > far { SimplifiedIsOne(v, far, b, keep, keep', k); }
    }
  }

  lemma BothBlank(v: seq<Point>, a: nat, b: nat, keep: seq<bool>, keep': seq<bool>, k: nat)
    requires Blank(v, a, b, keep) && Blank(v, a, b, keep') && a < k < b
    ensures b < |keep| == |keep'| && keep[k] == keep'[k]
  {}

  lemma SameLength(v: seq<Point>, a: nat, b: nat, keep: seq<bool>)
    requires Simplified(v, a, b, keep)
    ensures b < |keep| == |v|
  {}

  lemma BlankTogether(v: seq<Point>, a: nat, b: nat, keep: seq<bool>, keep': seq<bool>)
    requires Simplified(v, a, b, keep) && Simplified(v, a, b, keep') && Blank(v, a, b, keep)
    ensures Blank(v, a, b, keep')
  {
    hide Splits, Off, Square, Simplified;
    if !Blank(v, a, b, keep') {
      var far := SplitOf(v, a, b, keep');
      NotBlank(v, a, b, keep, far);
    }
  }

  // Marks elsewhere do not matter.
  lemma {:induction false} SimplifiedInside(v: seq<Point>, a: nat, b: nat, keep: seq<bool>, keep': seq<bool>)
    requires |keep| == |v| == |keep'| && Simplified(v, a, b, keep)
    requires forall k :: a < k < b && k < |v| ==> keep[k] == keep'[k]
    ensures Simplified(v, a, b, keep')
    decreases b - a
  {
    hide Splits, Blank, Simplified;
    if Blank(v, a, b, keep) {
      BlankInside(v, a, b, keep, keep');
    } else {
      var far := SplitOf(v, a, b, keep);
      SimplifiedInside(v, a, far, keep, keep');
      SimplifiedInside(v, far, b, keep, keep');
      MakesSimplified(v, a, b, keep', far);
    }
  }

  lemma MakesSimplified(v: seq<Point>, a: nat, b: nat, keep: seq<bool>, far: nat)
    requires b < |v| == |keep| && a < far < b && Splits(v, a, b, far) && keep[far]
    requires Simplified(v, a, far, keep) && Simplified(v, far, b, keep)
    ensures Simplified(v, a, b, keep)
  {
    hide Splits, Blank;
  }

  lemma BlankInside(v: seq<Point>, a: nat, b: nat, keep: seq<bool>, keep': seq<bool>)
    requires |keep| == |v| == |keep'| && Blank(v, a, b, keep)
    requires forall k :: a < k < b && k < |v| ==> keep[k] == keep'[k]
    ensures Simplified(v, a, b, keep')
  {
    hide Off, Square, Splits;
  }

  // ---- the code ----

  // The furthest so far, before any is met the first end.
  ghost predicate SoFar(v: seq<Point>, a: nat, b: nat, i: nat, far: nat, most: real)
    requires a < i <= b < |v|
  {
    if i == a + 1 then far == a && most == -1.0
    else
      && a < far < i && most == Off(v[a], v[b], v[far])
      && (forall k :: a < k < i ==> Off(v[a], v[b], v[k]) <= most)
      && (forall k :: a < k < far ==> Off(v[a], v[b], v[k]) < most)
  }

  lemma SoFarOn(v: seq<Point>, a: nat, b: nat, i: nat, far: nat, most: real)
    requires a < i < b < |v| && SoFar(v, a, b, i, far, most)
    ensures var d := Off(v[a], v[b], v[i]);
            if d > most then SoFar(v, a, b, i + 1, i, d) else SoFar(v, a, b, i + 1, far, most)
  {
    hide Off;
    OffNonneg(v[a], v[b], v[i]);
  }

  lemma AllNear(v: seq<Point>, a: nat, b: nat, keep: seq<bool>, far: nat)
    requires b < |v| == |keep| && Furthest(v, a, b, far) && Off(v[a], v[b], v[far]) <= Square(SIMPLIFY)
    requires forall k :: a < k < b ==> !keep[k]
    ensures Simplified(v, a, b, keep)
  {
    hide Off, Square, Splits;
  }

  // Both sides of the furthest point are done.
  lemma SplitAt(v: seq<Point>, a: nat, b: nat, far: nat, left: seq<bool>, keep: seq<bool>)
    requires |left| == |v| == |keep| && Furthest(v, a, b, far) && Off(v[a], v[b], v[far]) > Square(SIMPLIFY)
    requires keep[far]
    requires Simplified(v, a, far, left) && Simplified(v, far, b, keep)
    requires forall k :: a < k < far ==> keep[k] == left[k]
    ensures Simplified(v, a, b, keep)
  {
    hide Off, Square, Simplified;
    SimplifiedInside(v, a, far, left, keep);
    MakesSimplified(v, a, b, keep, far);
  }

  // Marks the points between a and b that are to be kept; the point it splits
  // at is strictly between.
  method Simplify(v: seq<Point>, a: nat, b: nat, keep: array<bool>)
    requires a <= b < |v| == keep.Length && forall k :: a < k < b ==> !keep[k]
    modifies keep
    ensures Simplified(v, a, b, keep[..])
    ensures forall k :: 0 <= k < keep.Length && !(a < k < b) ==> keep[k] == old(keep[k])
    decreases b - a
  {
    hide Off, Simplified, Square, SoFar, Furthest;
    if b <= a + 1 {
      NothingBetween(v, a, b, keep[..]);
      return;
    }
    var far, most := Farthest(v, a, b);
    if most > Square(SIMPLIFY) {
      keep[far] := true;
      Simplify(v, a, far, keep);
      ghost var left := keep[..];
      Simplify(v, far, b, keep);
      SplitAt(v, a, b, far, left, keep[..]);
    } else {
      AllNear(v, a, b, keep[..], far);
    }
  }

  lemma NothingBetween(v: seq<Point>, a: nat, b: nat, keep: seq<bool>)
    requires a <= b <= a + 1 && b < |v| == |keep|
    ensures Simplified(v, a, b, keep)
  {}

  // The scan for it.
  method Farthest(v: seq<Point>, a: nat, b: nat) returns (far: nat, most: real)
    requires a + 1 < b < |v|
    ensures Furthest(v, a, b, far) && most == Off(v[a], v[b], v[far]) && a < far < b
  {
    hide Off;
    far, most := a, -1.0;
    var i := a + 1;
    while i < b
      invariant a < i <= b && SoFar(v, a, b, i, far, most)
    {
      SoFarOn(v, a, b, i, far, most);
      var d := Off(v[a], v[b], v[i]);
      if d > most {
        most := d;
        far := i;
      }
      i := i + 1;
    }
  }

  // ---- a ring ----

  // The points marked, in order.
  function Marked(v: seq<Point>, keep: seq<bool>): (pts: seq<Point>)
    requires |keep| == |v|
  {
    if v == [] then []
    else Marked(v[..|v| - 1], keep[..|v| - 1]) + if keep[|v| - 1] then [v[|v| - 1]] else []
  }

  // The places of the points marked among the first n, in order.
  ghost predicate Places(v: seq<Point>, keep: seq<bool>, n: nat, pts: seq<Point>, at: seq<nat>) {
    && n <= |v| == |keep| && |at| == |pts| && (forall j, k :: 0 <= j < k < |at| ==> at[j] < at[k])
    && (forall j :: 0 <= j < |at| ==> at[j] < n && keep[at[j]] && pts[j] == v[at[j]])
    && (forall k: nat :: k < n && keep[k] ==> k in at)
  }

  lemma PlacesOn(v: seq<Point>, keep: seq<bool>, n: nat, pts: seq<Point>, at: seq<nat>)
    requires Places(v, keep, n, pts, at) && n < |v|
    ensures if keep[n] then Places(v, keep, n + 1, pts + [v[n]], at + [n]) else Places(v, keep, n + 1, pts, at)
  {
    if keep[n] {
      var all := at + [n];
      forall k: nat | k < n + 1 && keep[k] ensures k in all {
        if k < n { assert k in at; } else { assert all[|at|] == n; }
      }
    }
  }

  lemma EndsMarked(v: seq<Point>, keep: seq<bool>, pts: seq<Point>, at: seq<nat>)
    requires Places(v, keep, |v|, pts, at) && |v| >= 1 && keep[0] && keep[|v| - 1]
    ensures |pts| >= 1 && pts[0] == v[0] && pts[|pts| - 1] == v[|v| - 1]
  {
    var last: nat := |v| - 1;
    assert (0 as nat) in at && last in at;
    var j :| 0 <= j < |at| && at[j] == 0;
    var k :| 0 <= k < |at| && at[k] == last;
  }

  // The first of the points that is furthest from where the ring begins.
  ghost predicate Opposite(v: seq<Point>, far: nat) {
    && 1 <= far < |v| && (forall k :: 1 <= k < |v| ==> Apart(v[k], v[0]) <= Apart(v[far], v[0]))
    && (forall k :: 1 <= k < far ==> Apart(v[k], v[0]) < Apart(v[far], v[0]))
  }

  // A ring is simplified in two halves.
  ghost predicate RingSimplified(v: seq<Point>, keep: seq<bool>, far: nat) {
    && |keep| == |v| && Opposite(v, far) && keep[0] && keep[far] && keep[|v| - 1]
    && Simplified(v, 0, far, keep) && Simplified(v, far, |v| - 1, keep)
  }

  // Every dropped point of a ring is near the line through its nearest kept
  // neighbours, which it has.
  lemma RingStaysNear(v: seq<Point>, keep: seq<bool>, far: nat, k: nat) returns (p: nat, q: nat)
    requires RingSimplified(v, keep, far) && k < |v| && !keep[k]
    ensures p < k < q < |v| && Next(keep, p, q) && Off(v[p], v[q], v[k]) <= 0.01 * 0.01
  {
    hide Off, Simplified, Square, Opposite;
    p, q := HasNeighbours(keep, 0, k, |v| - 1);
    if q <= far { DroppedAreNear(v, 0, far, keep, p, q); }
    else { DroppedAreNear(v, far, |v| - 1, keep, p, q); }
    assert Near(v, p, q);
    Tolerance();
  }

  // A hundredth of a degree, squared.
  lemma Tolerance()
    ensures Square(SIMPLIFY) == 0.01 * 0.01
  {}

  // The points a ring keeps; a ring of fewer than four is left out.
  method AddRing(v: seq<Point>)
      returns (pts: seq<Point>, ghost keep: seq<bool>, ghost opposite: nat, ghost at: seq<nat>)
    ensures |v| < 4 ==> pts == []
    ensures |v| >= 4 ==> RingSimplified(v, keep, opposite) && pts == Marked(v, keep)
    ensures |v| >= 4 ==> Places(v, keep, |v|, pts, at) && |pts| >= 1 && pts[0] == v[0] && pts[|pts| - 1] == v[|v| - 1]
  {
    hide Off, Simplified, Square, Marked, Apart, Opposite, Places;
    var n := |v|;
    keep, opposite, pts, at := [], 0, [], [];
    if n < 4 {
      return;
    }
    var marks := new bool[n](_ => false);
    marks[0] := true;
    marks[n - 1] := true;
    var far := FarFromFirst(v);
    marks[far] := true;
    Simplify(v, 0, far, marks);
    ghost var half := marks[..];
    Simplify(v, far, n - 1, marks);
    keep, opposite := marks[..], far;
    SimplifiedInside(v, 0, far, half, keep);
    pts, at := Collect(v, marks);
    EndsMarked(v, keep, pts, at);
  }

  method FarFromFirst(v: seq<Point>) returns (far: nat)
    requires |v| >= 2
    ensures Opposite(v, far) && 1 <= far < |v|
  {
    hide Apart;
    far := 0;
    var most := -1.0;
    var k := 1;
    while k < |v|
      invariant 1 <= k <= |v|
      invariant if k == 1 then most == -1.0 && far == 0 else 1 <= far < k && most == Apart(v[far], v[0])
      invariant forall j :: 1 <= j < k ==> Apart(v[j], v[0]) <= most
      invariant forall j :: 1 <= j < far ==> Apart(v[j], v[0]) < most
    {
      var d := Apart(v[k], v[0]);
      ApartNonneg(v[k], v[0]);
      if d > most {
        most := d;
        far := k;
      }
      k := k + 1;
    }
  }

  lemma ApartNonneg(p: Point, q: Point)
    ensures Apart(p, q) >= 0.0
  {
    SquareNonneg(p.x - q.x);
    SquareNonneg(p.y - q.y);
  }

  method Collect(v: seq<Point>, keep: array<bool>) returns (pts: seq<Point>, ghost at: seq<nat>)
    requires keep.Length == |v|
    ensures pts == Marked(v, keep[..]) && Places(v, keep[..], |v|, pts, at)
  {
    hide Places;
    pts, at := [], [];
    assert v[..0] == [] && keep[..0] == [];
    NoPlaces(v, keep[..]);
    for k := 0 to |v|
      invariant pts == Marked(v[..k], keep[..k]) && Places(v, keep[..], k, pts, at)
    {
      assert v[..k + 1][..k] == v[..k] && keep[..k + 1][..k] == keep[..k];
      PlacesOn(v, keep[..], k, pts, at);
      if keep[k] {
        pts := pts + [v[k]];
        at := at + [k];
      }
    }
    assert v[..|v|] == v && keep[..|v|] == keep[..];
  }

  lemma NoPlaces(v: seq<Point>, keep: seq<bool>)
    requires |keep| == |v|
    ensures Places(v, keep, 0, [], [])
  {}
}
