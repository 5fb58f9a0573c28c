// Text as code points: the places that src/chat/term.h steps to are the ends
// of whole characters, and where they are not.

module Characters {
  import opened Bits
  import opened Ints
  import opened Wrap

  // ---- UTF-8, written out (section 3 of RFC 3629) ----

  type Points = seq<nat>

  predicate PointsOk(cs: Points) {
    forall k :: 0 <= k < |cs| ==> cs[k] < 0x11_0000
  }

  // A byte that is not the first of a character, for six bits of it.
  function Further(bits: nat): byte {
    0x80 + bits % 64
  }

  function Utf8(c: nat): (b: Text)
    requires c < 0x11_0000
    ensures |b| > 0
  {
    if c < 0x80 then [c]
    else if c < 0x800 then [0xc0 + c / 64, Further(c)]
    else if c < 0x1_0000 then [0xe0 + c / 4096, Further(c / 64), Further(c)]
    else [0xf0 + c / 262144, Further(c / 4096), Further(c / 64), Further(c)]
  }

  function Spelled(cs: Points): Text
    requires PointsOk(cs)
  {
    if cs == [] then [] else Spelled(cs[..|cs| - 1]) + Utf8(cs[|cs| - 1])
  }

  // Where the k-th character begins, and the one before it ends.
  function Edge(cs: Points, k: nat): nat
    requires PointsOk(cs) && k <= |cs|
  {
    |Spelled(cs[..k])|
  }

  // A place where a whole character ends, or the text begins.
  ghost predicate IsEdge(cs: Points, p: nat)
    requires PointsOk(cs)
  {
    exists k :: 0 <= k <= |cs| && Edge(cs, k) == p
  }

  lemma EdgeOn(cs: Points, k: nat)
    requires PointsOk(cs) && k < |cs|
    ensures Edge(cs, k + 1) == Edge(cs, k) + |Utf8(cs[k])| && Edge(cs, 0) == 0
    ensures Edge(cs, |cs|) == |Spelled(cs)|
  {
    hide Utf8;
    assert cs[..k + 1][..k] == cs[..k];
    assert cs[..|cs|] == cs;
  }

  lemma {:induction false} EdgesGrow(cs: Points, j: nat, k: nat)
    requires PointsOk(cs) && j <= k <= |cs|
    ensures Edge(cs, j) + (k - j) <= Edge(cs, k)
    decreases k - j
  {
    hide Edge, Utf8;
    if j < k {
      EdgesGrow(cs, j, k - 1);
      EdgeOn(cs, k - 1);
    }
  }

  // A character's bytes stand from its edge on.
  lemma {:induction false} SpelledAt(cs: Points, k: nat)
    requires PointsOk(cs) && k < |cs|
    ensures Edge(cs, k) + |Utf8(cs[k])| <= |Spelled(cs)|
    ensures Spelled(cs)[Edge(cs, k)..Edge(cs, k) + |Utf8(cs[k])|] == Utf8(cs[k])
    decreases |cs|
  {
    hide Utf8;
    var n := |cs| - 1;
    if k < n {
      SpelledAt(cs[..n], k);
      assert cs[..n][..k] == cs[..k];
      var a, b := Edge(cs, k), Edge(cs, k) + |Utf8(cs[k])|;
      assert Spelled(cs)[a..b] == Spelled(cs[..n])[a..b];
    } else {
      assert cs[..k] == cs[..n];
    }
  }

  // ---- a step is a character ----

  lemma Utf8Len(c: nat)
    requires c < 0x11_0000
    ensures var b := Utf8(c);
            && |b| == (if b[0] < 0x80 then 1 else if b[0] < 0xc0 then 1 else if b[0] < 0xe0 then 2
                       else if b[0] < 0xf0 then 3 else 4)
            && (c < 0x80 <==> b[0] < 0x80) && (c < 0x80 ==> b[0] == c)
  {}

  lemma FirstByte(cs: Points, k: nat)
    requires PointsOk(cs) && k < |cs|
    ensures var s, at := Spelled(cs), Edge(cs, k);
            && at < |s| && s[at] == Utf8(cs[k])[0] && (cs[k] < 0x80 <==> s[at] < 0x80)
            && (cs[k] < 0x80 ==> s[at] == cs[k] && Edge(cs, k + 1) == at + 1)
            && CharLen(s, at) == |Utf8(cs[k])| && s[at..at + CharLen(s, at)] == Utf8(cs[k])
  {
    hide Utf8;
    SpelledAt(cs, k);
    EdgeOn(cs, k);
    Utf8Len(cs[k]);
    var s, at := Spelled(cs), Edge(cs, k);
    assert s[at] == s[at..at + |Utf8(cs[k])|][0];
  }

  // ---- escapes, by code points ----

  predicate IsParam(c: nat) {
    0x20 <= c < 0x40
  }

  // Where the parameters of an escape end.
  function ParamPoints(cs: Points, k: nat): (j: nat)
    requires k <= |cs|
    ensures k <= j <= |cs|
    decreases |cs| - k
  {
    if k < |cs| && IsParam(cs[k]) then ParamPoints(cs, k + 1) else k
  }

  predicate Escapes(cs: Points, k: nat, escapes: bool)
    requires k < |cs|
  {
    escapes && cs[k] == 0x1b && k + 1 < |cs|
  }

  // The code point after the one at k, or after the escape it begins: ESC
  // with one more, or with a bracket, parameters and one more.
  function After(cs: Points, k: nat, escapes: bool): (j: nat)
    requires k < |cs|
    ensures k < j <= |cs|
  {
    if !Escapes(cs, k, escapes) then k + 1
    else if cs[k + 1] != 0x5b then k + 2
    else
      var j := ParamPoints(cs, k + 2);
      if j < |cs| then j + 1 else j
  }

  // Every escape from k on ends in ASCII.
  predicate Tidy(cs: Points, k: nat, escapes: bool)
    requires k <= |cs|
    decreases |cs| - k
  {
    k < |cs| ==>
      var j := After(cs, k, escapes);
      (Escapes(cs, k, escapes) ==> cs[j - 1] < 0x80) && Tidy(cs, j, escapes)
  }

  // Met going from a a character or an escape at a time.
  predicate Meets(cs: Points, a: nat, c: nat, escapes: bool)
    requires a <= |cs|
    decreases |cs| - a
  {
    a == c || (a < |cs| && Meets(cs, After(cs, a, escapes), c, escapes))
  }

  lemma {:induction false} ParamsAre(cs: Points, k: nat)
    requires PointsOk(cs) && k <= |cs|
    ensures Edge(cs, k) <= |Spelled(cs)| && ParamsEnd(Spelled(cs), Edge(cs, k)) == Edge(cs, ParamPoints(cs, k))
    decreases |cs| - k
  {
    hide Edge, Spelled, Utf8, CharLen;
    if k < |cs| {
      FirstByte(cs, k);
      if IsParam(cs[k]) { ParamsAre(cs, k + 1); }
    } else {
      LastEdge(cs);
    }
  }

  lemma LastEdge(cs: Points)
    requires PointsOk(cs)
    ensures Edge(cs, |cs|) == |Spelled(cs)| && Edge(cs, 0) == 0
  {
    assert cs[..|cs|] == cs;
  }

  // One step of the code's is one step of the code points' where the escape
  // ends in ASCII, and a step into a character where it does not.
  lemma StepIs(m: Metric, cs: Points, k: nat)
    requires PointsOk(cs) && k < |cs|
    ensures var s, at, j := Spelled(cs), Edge(cs, k), After(cs, k, m.escapes);
            && at < |s| && (IsChar(m, s, at) <==> !Escapes(cs, k, m.escapes))
            && (if Escapes(cs, k, m.escapes) && cs[j - 1] >= 0x80 then Edge(cs, j - 1) < Next(m, s, at) < Edge(cs, j)
                else Next(m, s, at) == Edge(cs, j))
            && Cols(m, s, at) == if Escapes(cs, k, m.escapes) then 0 else m.width(Utf8(cs[k]))
  {
    hide Edge, Spelled, Utf8, CharLen, ParamsEnd, ParamPoints;
    FirstByte(cs, k);
    EdgeOn(cs, k);
    LastEdge(cs);
    EdgesGrow(cs, k + 1, |cs|);
    if k + 1 < |cs| { EscapeIs(m, cs, k); }
  }

  lemma EscapeIs(m: Metric, cs: Points, k: nat)
    requires PointsOk(cs) && k + 1 < |cs|
    ensures var s, at, j := Spelled(cs), Edge(cs, k), After(cs, k, m.escapes);
            && at < |s| && (EscLen(m, s, at) > 0 <==> Escapes(cs, k, m.escapes))
            && (Escapes(cs, k, m.escapes) ==>
                  if cs[j - 1] >= 0x80 then Edge(cs, j - 1) < at + EscLen(m, s, at) < Edge(cs, j)
                  else at + EscLen(m, s, at) == Edge(cs, j))
  {
    hide Edge, Spelled, Utf8, CharLen, ParamsEnd, ParamPoints;
    FirstByte(cs, k);
    FirstByte(cs, k + 1);
    EdgeOn(cs, k);
    EdgesGrow(cs, k + 1, |cs|);
    LastEdge(cs);
    if Escapes(cs, k, m.escapes) {
      OneMore(cs, k + 1);
      if cs[k + 1] == 0x5b {
        ParamsAre(cs, k + 2);
        var j := ParamPoints(cs, k + 2);
        if j < |cs| { FirstByte(cs, j); OneMore(cs, j); }
        if j == |cs| { LastParam(cs, k + 2); }
      }
    }
  }

  // One byte into a character is its end where it is ASCII alone.
  lemma OneMore(cs: Points, k: nat)
    requires PointsOk(cs) && k < |cs|
    ensures if cs[k] >= 0x80 then Edge(cs, k) < Edge(cs, k) + 1 < Edge(cs, k + 1)
            else Edge(cs, k) + 1 == Edge(cs, k + 1)
  {
    hide Edge;
    EdgeOn(cs, k);
  }

  lemma {:induction false} LastParam(cs: Points, k: nat)
    requires 0 < k <= |cs| && ParamPoints(cs, k) == |cs| && (k == |cs| ==> cs[k - 1] < 0x80)
    ensures cs[|cs| - 1] < 0x80
    decreases |cs| - k
  {
    if k < |cs| { LastParam(cs, k + 1); }
  }

  // ---- the places that are met ----

  lemma EdgesApart(cs: Points, j: nat, k: nat)
    requires PointsOk(cs) && j <= |cs| && k <= |cs|
    ensures Edge(cs, j) == Edge(cs, k) <==> j == k
    ensures Edge(cs, j) < Edge(cs, k) <==> j < k
  {
    hide Edge;
    if j < k { EdgesGrow(cs, j, k); } else { EdgesGrow(cs, k, j); }
  }

  lemma {:induction false} MeetsAhead(cs: Points, a: nat, k: nat, escapes: bool)
    requires a <= |cs| && Meets(cs, a, k, escapes)
    ensures a <= k <= |cs|
    decreases |cs| - a
  {
    hide After;
    if a != k { MeetsAhead(cs, After(cs, a, escapes), k, escapes); }
  }

  // In a tidy text the places met are the edges of the code points met.
  lemma {:induction false} PlacesMet(m: Metric, cs: Points, a: nat, p: nat)
    requires PointsOk(cs) && a <= |cs| && Tidy(cs, a, m.escapes)
    ensures Reaches(m, Spelled(cs), Edge(cs, a), p)
            <==> exists k :: a <= k <= |cs| && Meets(cs, a, k, m.escapes) && Edge(cs, k) == p
    decreases |cs| - a
  {
    hide Edge, Spelled, After, Escapes, Next, Cols, IsChar;
    LastEdge(cs);
    if a < |cs| {
      StepIs(m, cs, a);
      var j := After(cs, a, m.escapes);
      PlacesMet(m, cs, j, p);
      assert Meets(cs, a, a, m.escapes);
      EdgesGrow(cs, a, |cs|);
      if Reaches(m, Spelled(cs), Edge(cs, a), p) && p != Edge(cs, a) {
        var k :| j <= k <= |cs| && Meets(cs, j, k, m.escapes) && Edge(cs, k) == p;
        assert Meets(cs, a, k, m.escapes);
      }
      if k :| a < k <= |cs| && Meets(cs, a, k, m.escapes) && Edge(cs, k) == p {
        MeetsAhead(cs, j, k, m.escapes);
        EdgesApart(cs, a, k);
        EdgesGrow(cs, k, |cs|);
        Ahead(m, Spelled(cs), Edge(cs, a), p);
      }
    } else if p == Edge(cs, a) {
      assert Meets(cs, a, a, m.escapes);
    }
  }

  // Measured without escapes, the places met are the ends of the characters,
  // all of them and no other.
  lemma CharactersMet(m: Metric, cs: Points, p: nat)
    requires PointsOk(cs) && !m.escapes
    ensures Reaches(m, Spelled(cs), 0, p) <==> IsEdge(cs, p)
  {
    hide Spelled, Reaches, Meets, Edge;
    AllTidy(cs, 0);
    LastEdge(cs);
    PlacesMet(m, cs, 0, p);
    if IsEdge(cs, p) {
      var k :| 0 <= k <= |cs| && Edge(cs, k) == p;
      AllMeet(cs, 0, k);
    }
  }

  lemma {:induction false} AllTidy(cs: Points, k: nat)
    requires k <= |cs|
    ensures Tidy(cs, k, false)
    decreases |cs| - k
  {
    if k < |cs| { AllTidy(cs, k + 1); }
  }

  lemma {:induction false} AllMeet(cs: Points, a: nat, k: nat)
    requires a <= k <= |cs|
    ensures Meets(cs, a, k, false)
    decreases k - a
  {
    if a < k { AllMeet(cs, a + 1, k); }
  }

  // With escapes known, every place met is a character's end exactly when
  // each escape that is met ends in ASCII.
  lemma WholeExactlyWhenTidy(m: Metric, cs: Points)
    requires PointsOk(cs)
    ensures (forall p :: Reaches(m, Spelled(cs), 0, p) ==> IsEdge(cs, p)) <==> Tidy(cs, 0, m.escapes)
  {
    hide Spelled, Reaches, Meets, Edge, Tidy;
    LastEdge(cs);
    if Tidy(cs, 0, m.escapes) {
      forall p | Reaches(m, Spelled(cs), 0, p) ensures IsEdge(cs, p) { PlacesMet(m, cs, 0, p); }
    } else {
      var p := MetInside(m, cs, 0);
    }
  }

  lemma {:induction false} MetInside(m: Metric, cs: Points, a: nat) returns (p: nat)
    requires PointsOk(cs) && a <= |cs| && !Tidy(cs, a, m.escapes)
    ensures Reaches(m, Spelled(cs), Edge(cs, a), p) && !IsEdge(cs, p)
    decreases |cs| - a
  {
    hide Edge, Spelled, After, Escapes, Next, Cols, IsChar;
    StepIs(m, cs, a);
    LastEdge(cs);
    EdgesGrow(cs, a, |cs|);
    var j := After(cs, a, m.escapes);
    EdgesGrow(cs, j, |cs|);
    if Escapes(cs, a, m.escapes) && cs[j - 1] >= 0x80 {
      p := Next(m, Spelled(cs), Edge(cs, a));
      forall k | 0 <= k <= |cs| ensures Edge(cs, k) != p {
        if k < j { EdgesGrow(cs, k, j - 1); } else { EdgesGrow(cs, j, k); }
      }
      OneStep(m, Spelled(cs), Edge(cs, a));
    } else {
      p := MetInside(m, cs, j);
      Ahead(m, Spelled(cs), Edge(cs, a), p);
    }
  }

  lemma OneStep(m: Metric, s: Text, a: nat)
    requires a < |s|
    ensures Reaches(m, s, a, Next(m, s, a))
  {
    hide Next;
    var b := Next(m, s, a);
    assert Reaches(m, s, b, b);
  }

  lemma Ahead(m: Metric, s: Text, a: nat, p: nat)
    requires a < |s| && Reaches(m, s, Next(m, s, a), p)
    ensures Reaches(m, s, a, p)
  {
    hide Next;
  }

  // ---- rows and the cursor ----

  // So a row of a line begins at a character's end.
  lemma RowsAreWhole(width: Width, cs: Points, cols: int, k: nat)
    requires PointsOk(cs) && Tidy(cs, 0, true) && k < |LineRows(width, Spelled(cs), cols)|
    ensures IsEdge(cs, LineRows(width, Spelled(cs), cols)[k])
  {
    hide Spelled, Reaches, Rows, IsEdge, Tidy;
    var m := Metric(width, true);
    WholeExactlyWhenTidy(m, cs);
    RowIsMet(m, Spelled(cs), cols, cols - UsedHang(Spelled(cs), cols), 0, k);
  }

  lemma {:induction false} RowIsMet(m: Metric, s: Text, limit: int, room: int, a: nat, k: nat)
    requires a <= |s| && k < |Rows(m, s, limit, room, a)|
    ensures Reaches(m, s, a, Rows(m, s, limit, room, a)[k])
    decreases |s| - a
  {
    hide RowBreak, RightBreak, RightEnd;
    if k > 0 {
      RowBreakIsRight(m, s, limit, a);
      var b := RowBreak(m, s, limit, a).value;
      RightBreakAhead(m, s, limit, a, b);
      BreakIsMet(m, s, limit, a, b);
      RowIsMet(m, s, room, room, b, k - 1);
      ReachesOn(m, s, a, b, Rows(m, s, room, room, b)[k - 1]);
    }
  }

  lemma BreakIsMet(m: Metric, s: Text, limit: int, a: nat, b: nat)
    requires RightBreak(m, s, limit, a, b)
    ensures Reaches(m, s, a, b)
  {}
}
