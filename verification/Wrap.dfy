// How src/chat/term.h parts a line into screen rows. A row breaks after its
// last space; when the word in hand does not fit, the scan goes back to its
// start.

module Wrap {
  import opened Bits
  import opened Ints

  type Text = seq<byte>

  // The columns of a character from its bytes, as wcwidth says them.
  type Width = Text -> nat

  // How text is measured: its characters' columns, and whether escape
  // sequences are known and take none.
  datatype Metric = Metric(width: Width, escapes: bool)

  const ESC: byte := 0x1b
  const SPACE: byte := 0x20
  const BRACKET: byte := 0x5b

  // ---- characters and escapes ----

  // The bytes of the character at i, cut at the end.
  function CharLen(s: Text, i: nat): (len: nat)
    requires i < |s|
    ensures 1 <= len <= |s| - i
  {
    var c := s[i];
    var len := if c < 0x80 then 1 else if c < 0xc0 then 1 else if c < 0xe0 then 2 else if c < 0xf0 then 3 else 4;
    if len > |s| - i then |s| - i else len
  }

  function CharCols(m: Metric, s: Text, i: nat): nat
    requires i < |s|
  {
    m.width(s[i..i + CharLen(s, i)])
  }

  // Where the parameters of an escape end.
  function ParamsEnd(s: Text, i: nat): (j: nat)
    requires i <= |s|
    ensures i <= j <= |s|
    decreases |s| - i
  {
    if i < |s| && 0x20 <= s[i] < 0x40 then ParamsEnd(s, i + 1) else i
  }

  // The length of an escape sequence that begins at i; 0 when none does.
  function EscLen(m: Metric, s: Text, i: nat): (e: nat)
    requires i <= |s|
    ensures i + e <= |s|
  {
    if !m.escapes || |s| - i < 2 || s[i] != ESC then 0
    else if s[i + 1] != BRACKET then 2
    else
      var j := ParamsEnd(s, i + 2);
      if j < |s| then j + 1 - i else |s| - i
  }

  // A character that is no part of an escape.
  predicate IsChar(m: Metric, s: Text, i: nat)
    requires i < |s|
  {
    EscLen(m, s, i) == 0
  }

  // The next character or escape.
  function Next(m: Metric, s: Text, i: nat): (j: nat)
    requires i < |s|
    ensures i < j <= |s|
  {
    if IsChar(m, s, i) then i + CharLen(s, i) else i + EscLen(m, s, i)
  }

  // Escapes take no room.
  function Cols(m: Metric, s: Text, i: nat): nat
    requires i < |s|
  {
    if IsChar(m, s, i) then CharCols(m, s, i) else 0
  }

  // c is met going from a a character or an escape at a time.
  predicate Reaches(m: Metric, s: Text, a: nat, c: nat)
    decreases c - a
  {
    (a == c && c <= |s|) || (a < c <= |s| && Reaches(m, s, Next(m, s, a), c))
  }

  // The columns from a to c.
  function Span(m: Metric, s: Text, a: nat, c: nat): nat
    requires Reaches(m, s, a, c)
    decreases c - a
  {
    if a == c then 0 else Cols(m, s, a) + Span(m, s, Next(m, s, a), c)
  }

  predicate IsSpace(m: Metric, s: Text, i: nat)
    requires i < |s|
  {
    IsChar(m, s, i) && s[i] == SPACE
  }

  // A space stands between a and c.
  ghost predicate HasSpace(m: Metric, s: Text, a: nat, c: nat) {
    exists i :: a <= i < c && i < |s| && Reaches(m, s, a, i) && IsSpace(m, s, i)
  }

  lemma {:induction false} ReachesOn(m: Metric, s: Text, a: nat, b: nat, c: nat)
    requires Reaches(m, s, a, b) && Reaches(m, s, b, c)
    ensures Reaches(m, s, a, c)
    decreases b - a
  {
    if a < b { ReachesOn(m, s, Next(m, s, a), b, c); }
  }

  lemma {:induction false} SpanOn(m: Metric, s: Text, a: nat, b: nat, c: nat)
    requires Reaches(m, s, a, b) && Reaches(m, s, b, c)
    ensures Reaches(m, s, a, c) && Span(m, s, a, c) == Span(m, s, a, b) + Span(m, s, b, c)
    decreases b - a
  {
    if a < b { SpanOn(m, s, Next(m, s, a), b, c); }
  }

  lemma OneOn(m: Metric, s: Text, a: nat, b: nat)
    requires Reaches(m, s, a, b) && b < |s|
    ensures Reaches(m, s, a, Next(m, s, b)) && Span(m, s, a, Next(m, s, b)) == Span(m, s, a, b) + Cols(m, s, b)
  {
    assert Reaches(m, s, b, Next(m, s, b));
    SpanOn(m, s, a, b, Next(m, s, b));
  }

  // Of two places met from a, the further is met from the nearer.
  lemma {:induction false} ReachesBetween(m: Metric, s: Text, a: nat, b: nat, c: nat)
    requires Reaches(m, s, a, b) && Reaches(m, s, a, c) && b <= c
    ensures Reaches(m, s, b, c)
    decreases b - a
  {
    if a < b { ReachesBetween(m, s, Next(m, s, a), b, c); }
  }

  // ---- one row ----

  // Where the row from a ends, the scan at i with used columns taken and the
  // place after the last space, 0 for none: None where the text ends first.
  function Break(m: Metric, s: Text, limit: int, i: nat, used: nat, space: nat): (r: Option<nat>)
    requires i <= |s| && space <= i
    ensures r.Some? ==> r.value <= |s|
    decreases |s| - i
  {
    if i == |s| then None
    else if !IsChar(m, s, i) then Break(m, s, limit, Next(m, s, i), used, space)
    else
      var w := CharCols(m, s, i);
      if used + w > limit && used > 0 && s[i] != SPACE then Some(if space > 0 then space else i)
      else Break(m, s, limit, Next(m, s, i), used + w, if s[i] == SPACE then i + 1 else space)
  }

  function RowBreak(m: Metric, s: Text, limit: int, a: nat): Option<nat>
    requires a <= |s|
  {
    Break(m, s, limit, a, 0, 0)
  }

  // The scan's state at i of the row from a: space is after the last space.
  ghost predicate Scanning(m: Metric, s: Text, limit: int, a: nat, i: nat, used: nat, space: nat) {
    && Reaches(m, s, a, i) && used == Span(m, s, a, i) && space <= i
    && (space == 0 ==> !HasSpace(m, s, a, i))
    && (space > 0 ==>
          && AfterSpace(m, s, a, space) && Reaches(m, s, a, space)
          && Reaches(m, s, space, i) && !HasSpace(m, s, space, i))
    && AllFit(m, s, limit, a, i)
  }

  // The character at c of the row from a ends within the limit, or it is a
  // space, or the row's first to take room.
  predicate CharFits(m: Metric, s: Text, limit: int, a: nat, c: nat)
    requires c < |s| && Reaches(m, s, a, c)
  {
    IsChar(m, s, c) && s[c] != SPACE && Span(m, s, a, c) > 0 ==> Span(m, s, a, c) + Cols(m, s, c) <= limit
  }

  ghost predicate AllFit(m: Metric, s: Text, limit: int, a: nat, b: nat) {
    forall c :: a <= c < b && c < |s| && Reaches(m, s, a, c) ==> CharFits(m, s, limit, a, c)
  }

  // A place the row from a may break at: right after a space.
  ghost predicate AfterSpace(m: Metric, s: Text, a: nat, b: nat) {
    a < b <= |s| && Reaches(m, s, a, b - 1) && IsSpace(m, s, b - 1)
  }

  // What makes b the end of the row from a: all before it fits; and either
  // it comes after a space and the word that begins there does not fit, or
  // the row has no space and b is the first character that does not fit.
  ghost predicate RightBreak(m: Metric, s: Text, limit: int, a: nat, b: nat) {
    && a < b && Reaches(m, s, a, b) && AllFit(m, s, limit, a, b)
    && ((AfterSpace(m, s, a, b) && exists c: nat :: Overflows(m, s, limit, a, b, c))
        || (!HasSpace(m, s, a, b) && Overflows(m, s, limit, a, b, b)))
  }

  // The word that begins at b goes over the limit at c.
  ghost predicate Overflows(m: Metric, s: Text, limit: int, a: nat, b: nat, c: nat) {
    b <= c < |s| && Reaches(m, s, b, c) && !HasSpace(m, s, b, c) && Reaches(m, s, a, c) && !CharFits(m, s, limit, a, c)
  }

  ghost predicate RightEnd(m: Metric, s: Text, limit: int, a: nat) {
    Reaches(m, s, a, |s|) && AllFit(m, s, limit, a, |s|)
  }

  lemma {:induction false} ReachesBefore(m: Metric, s: Text, a: nat, i: nat, c: nat)
    requires Reaches(m, s, a, i) && i < |s| && Reaches(m, s, a, c) && c < Next(m, s, i)
    ensures c <= i
  {
    if c > i {
      ReachesBetween(m, s, a, i, c);
    }
  }

  lemma SpaceAdded(m: Metric, s: Text, a: nat, i: nat)
    requires Reaches(m, s, a, i) && i < |s| && !HasSpace(m, s, a, i) && !IsSpace(m, s, i)
    ensures !HasSpace(m, s, a, Next(m, s, i))
  {
    if HasSpace(m, s, a, Next(m, s, i)) {
      var c :| a <= c < Next(m, s, i) && c < |s| && Reaches(m, s, a, c) && IsSpace(m, s, c);
      ReachesBefore(m, s, a, i, c);
    }
  }

  lemma ScanningNext(m: Metric, s: Text, limit: int, a: nat, i: nat, used: nat, space: nat)
    requires Scanning(m, s, limit, a, i, used, space) && i < |s| && CharFits(m, s, limit, a, i)
    ensures Scanning(m, s, limit, a, Next(m, s, i), used + Cols(m, s, i), if IsSpace(m, s, i) then i + 1 else space)
  {
    hide IsChar, CharCols, CharLen, EscLen;
    OneOn(m, s, a, i);
    var j := Next(m, s, i);
    forall c | a <= c < j && c < |s| && Reaches(m, s, a, c) ensures CharFits(m, s, limit, a, c) {
      ReachesBefore(m, s, a, i, c);
    }
    if IsSpace(m, s, i) {
      SpaceLen(m, s, i);
    } else if space == 0 {
      SpaceAdded(m, s, a, i);
    } else {
      SpaceAdded(m, s, space, i);
      ReachesOn(m, s, space, i, j);
    }
  }

  lemma SpaceLen(m: Metric, s: Text, i: nat)
    requires i < |s| && IsSpace(m, s, i)
    ensures Next(m, s, i) == i + 1
  {}

  // The scan ends where it must.
  lemma {:induction false} BreakIsRight(m: Metric, s: Text, limit: int, a: nat, i: nat, used: nat, space: nat)
    requires Scanning(m, s, limit, a, i, used, space)
    ensures var r := Break(m, s, limit, i, used, space);
            if r.Some? then RightBreak(m, s, limit, a, r.value) else RightEnd(m, s, limit, a)
    decreases |s| - i
  {
    hide HasSpace, CharCols, CharLen, EscLen, AllFit;
    if i < |s| {
      if IsChar(m, s, i) && used + CharCols(m, s, i) > limit && used > 0 && s[i] != SPACE {
        var b := if space > 0 then space else i;
        AllFitPart(m, s, limit, a, b, i);
        if space == 0 { NoSpaceAt(m, s, i); }
        assert Overflows(m, s, limit, a, b, i);
      } else {
        ScanningNext(m, s, limit, a, i, used, space);
        BreakIsRight(m, s, limit, a, Next(m, s, i), used + Cols(m, s, i), if IsSpace(m, s, i) then i + 1 else space);
      }
    }
  }

  lemma AllFitPart(m: Metric, s: Text, limit: int, a: nat, b: nat, c: nat)
    requires AllFit(m, s, limit, a, c) && b <= c
    ensures AllFit(m, s, limit, a, b)
  {}

  lemma NoSpaceAt(m: Metric, s: Text, i: nat)
    ensures !HasSpace(m, s, i, i)
  {}

  lemma ScanningStarts(m: Metric, s: Text, limit: int, a: nat)
    requires a <= |s|
    ensures Scanning(m, s, limit, a, a, 0, 0)
  {}

  lemma RowBreakIsRight(m: Metric, s: Text, limit: int, a: nat)
    requires a <= |s|
    ensures var r := RowBreak(m, s, limit, a);
            if r.Some? then RightBreak(m, s, limit, a, r.value) else RightEnd(m, s, limit, a)
  {
    ScanningStarts(m, s, limit, a);
    BreakIsRight(m, s, limit, a, a, 0, 0);
  }

  // And there is no other place it could end.
  lemma BreakIsTheOnlyOne(m: Metric, s: Text, limit: int, a: nat, b: nat, b': nat)
    requires RightBreak(m, s, limit, a, b) && RightBreak(m, s, limit, a, b')
    ensures b == b'
  {
    hide RightBreak, CharFits, IsSpace;
    BreakNotLater(m, s, limit, a, b, b');
    BreakNotLater(m, s, limit, a, b', b);
  }

  lemma BreakNotLater(m: Metric, s: Text, limit: int, a: nat, b: nat, b': nat)
    requires RightBreak(m, s, limit, a, b) && RightBreak(m, s, limit, a, b')
    ensures b >= b'
  {
    hide CharFits, IsSpace;
    if b < b' && AfterSpace(m, s, a, b) {
      assert HasSpace(m, s, a, b');
      var c: nat :| Overflows(m, s, limit, a, b, c);
      assert c >= b' by { assert !CharFits(m, s, limit, a, c) && AllFit(m, s, limit, a, b'); }
      ReachesBetween(m, s, a, b, b' - 1);
    }
  }

  lemma NoBreakWhereItEnds(m: Metric, s: Text, limit: int, a: nat, b: nat)
    ensures !(RightBreak(m, s, limit, a, b) && RightEnd(m, s, limit, a))
  {
    hide CharFits, IsSpace;
  }

  // ---- the rows of a line ----

  // Where the rows from a on begin, the first within limit and the others
  // within the room of a continuation.
  function Rows(m: Metric, s: Text, limit: int, room: int, a: nat): (r: seq<nat>)
    requires a <= |s|
    ensures |r| >= 1 && r[0] == a
    decreases |s| - a
  {
    var b := RowBreak(m, s, limit, a);
    if b.None? then [a]
    else
      RowBreakIsRight(m, s, limit, a);
      [a] + Rows(m, s, room, room, b.value)
  }

  // Rows follow one another through the whole text; each but the last ends
  // where it must, and the last holds the rest.
  ghost predicate LaidOut(m: Metric, s: Text, limit: int, room: int, r: seq<nat>) {
    && |r| >= 1 && (forall k :: 0 <= k < |r| ==> r[k] <= |s|)
    && (forall k :: 0 <= k < |r| - 1 ==> RightBreak(m, s, if k == 0 then limit else room, r[k], r[k + 1]))
    && RightEnd(m, s, if |r| == 1 then limit else room, r[|r| - 1])
  }

  lemma RowBefore(m: Metric, s: Text, limit: int, room: int, a: nat, rest: seq<nat>)
    requires LaidOut(m, s, room, room, rest) && RightBreak(m, s, limit, a, rest[0])
    ensures LaidOut(m, s, limit, room, [a] + rest)
  {
    hide RightBreak, RightEnd;
    RightBreakAhead(m, s, limit, a, rest[0]);
    var r := [a] + rest;
    forall k | 0 <= k < |r| - 1
      ensures RightBreak(m, s, if k == 0 then limit else room, r[k], r[k + 1])
    {
      if k > 0 { assert RightBreak(m, s, if k - 1 == 0 then room else room, rest[k - 1], rest[k - 1 + 1]); }
    }
    assert r[|r| - 1] == rest[|rest| - 1];
  }

  lemma {:induction false} RowsAreLaidOut(m: Metric, s: Text, limit: int, room: int, a: nat)
    requires a <= |s|
    ensures LaidOut(m, s, limit, room, Rows(m, s, limit, room, a))
    decreases |s| - a
  {
    hide RightBreak, RightEnd, RowBreak, LaidOut;
    RowBreakIsRight(m, s, limit, a);
    var b := RowBreak(m, s, limit, a);
    if b.Some? {
      RightBreakAhead(m, s, limit, a, b.value);
      RowsAreLaidOut(m, s, room, room, b.value);
      RowBefore(m, s, limit, room, a, Rows(m, s, room, room, b.value));
    } else {
      OneRow(m, s, limit, room, a);
    }
  }

  lemma OneRow(m: Metric, s: Text, limit: int, room: int, a: nat)
    requires a <= |s| && RightEnd(m, s, limit, a)
    ensures LaidOut(m, s, limit, room, [a])
  {}

  lemma RightBreakAhead(m: Metric, s: Text, limit: int, a: nat, b: nat)
    requires RightBreak(m, s, limit, a, b)
    ensures a < b <= |s|
  {}

  // The rows are the only ones so laid out.
  lemma {:induction false} RowsAreTheOnlyOnes(m: Metric, s: Text, limit: int, room: int, r: seq<nat>)
    requires LaidOut(m, s, limit, room, r)
    ensures r == Rows(m, s, limit, room, r[0])
    decreases |r|
  {
    hide RightBreak, RightEnd, RowBreak;
    var a := r[0];
    RowBreakIsRight(m, s, limit, a);
    var b := RowBreak(m, s, limit, a);
    if |r| == 1 {
      if b.Some? { NoBreakWhereItEnds(m, s, limit, a, b.value); }
    } else {
      assert RightBreak(m, s, limit, r[0], r[0 + 1]);
      if b.None? { NoBreakWhereItEnds(m, s, limit, a, r[1]); }
      BreakIsTheOnlyOne(m, s, limit, a, r[1], b.value);
      var rest := r[1..];
      forall k | 0 <= k < |rest| - 1
        ensures RightBreak(m, s, if k == 0 then room else room, rest[k], rest[k + 1])
      {
        assert RightBreak(m, s, if k + 1 == 0 then limit else room, r[k + 1], r[k + 1 + 1]);
      }
      RowsAreTheOnlyOnes(m, s, room, room, rest);
    }
  }

  // Rows begin further and further on, so together they are the text.
  lemma {:induction false} RowsAdvance(m: Metric, s: Text, limit: int, room: int, r: seq<nat>, j: nat, k: nat)
    requires LaidOut(m, s, limit, room, r) && j < k < |r|
    ensures r[j] < r[k]
    decreases k
  {
    hide RightBreak, RightEnd;
    assert RightBreak(m, s, if k - 1 == 0 then limit else room, r[k - 1], r[k - 1 + 1]);
    RightBreakAhead(m, s, if k - 1 == 0 then limit else room, r[k - 1], r[k]);
    if j < k - 1 { RowsAdvance(m, s, limit, room, r, j, k - 1); }
  }

  // ---- a list item's continuation ----

  // An escape, in text whose escapes are known.
  function Escape(s: Text, i: nat): (e: nat)
    requires i <= |s|
    ensures i + e <= |s|
  {
    EscLen(Metric(_ => 0, true), s, i)
  }

  const TAB: byte := 0x09

  predicate IsBlank(b: byte) {
    b == SPACE || b == TAB
  }

  predicate IsDigit(b: byte) {
    0x30 <= b <= 0x39
  }

  // The place past a line's indent, and its columns.
  function Indent(s: Text, i: nat, cols: nat): (nat, nat)
    requires i <= |s|
    ensures i <= Indent(s, i, cols).0 <= |s|
    decreases |s| - i
  {
    if i == |s| then (i, cols)
    else if Escape(s, i) > 0 then Indent(s, i + Escape(s, i), cols)
    else if IsBlank(s[i]) then Indent(s, i + 1, cols + 1)
    else (i, cols)
  }

  function DigitsEnd(s: Text, i: nat): (j: nat)
    requires i <= |s|
    ensures i <= j <= |s|
    decreases |s| - i
  {
    if i < |s| && IsDigit(s[i]) then DigitsEnd(s, i + 1) else i
  }

  function SpacesEnd(s: Text, i: nat): (j: nat)
    requires i <= |s|
    ensures i <= j <= |s|
    decreases |s| - i
  {
    if i < |s| && s[i] == SPACE then SpacesEnd(s, i + 1) else i
  }

  // U+2022 in UTF-8, a list item's bullet.
  const BULLET: Text := [0xe2, 0x80, 0xa2]

  predicate BulletAt(s: Text, i: nat) {
    i + 3 <= |s| && s[i..i + 3] == BULLET
  }

  const DOT: byte := 0x2e
  const CLOSING: byte := 0x29

  // The columns of a list item's indent, mark and spaces; 0 for a line that
  // is no item.
  function Hang(s: Text): nat {
    var (i, cols) := Indent(s, 0, 0);
    if i == |s| then 0
    else if BulletAt(s, i) then HangFrom(s, i + 3, cols + 1)
    else
      var j := DigitsEnd(s, i);
      if j == i || j == |s| || (s[j] != DOT && s[j] != CLOSING) then 0
      else HangFrom(s, j + 1, cols + (j - i) + 1)
  }

  function HangFrom(s: Text, i: nat, cols: nat): nat
    requires i <= |s|
  {
    if i == |s| || s[i] != SPACE then 0 else cols + (SpacesEnd(s, i) - i)
  }

  // The hang a window of this width uses: none where it would not help.
  function UsedHang(s: Text, cols: int): nat {
    if Hang(s) >= cols - 8 then 0 else Hang(s)
  }

  // The rows of a line in a window of cols columns.
  function LineRows(width: Width, s: Text, cols: int): (r: seq<nat>)
    ensures |r| >= 1
  {
    Rows(Metric(width, true), s, cols, cols - UsedHang(s, cols), 0)
  }

  // ---- the code ----

  method Esc(s: Text, at: nat) returns (e: nat)
    requires at <= |s|
    ensures e == Escape(s, at)
  {
    if |s| - at < 2 || s[at] != ESC {
      return 0;
    }
    if s[at + 1] != BRACKET {
      return 2;
    }
    var i := at + 2;
    while i < |s| && 0x20 <= s[i] < 0x40
      invariant at + 2 <= i <= |s| && ParamsEnd(s, at + 2) == ParamsEnd(s, i)
    {
      i := i + 1;
    }
    e := if i < |s| then i + 1 - at else |s| - at;
  }

  // Past a line's indent.
  method SkipIndent(s: Text) returns (i: nat, cols: nat)
    ensures Indent(s, 0, 0) == (i, cols)
  {
    hide Escape, EscLen;
    i, cols := 0, 0;
    while i < |s|
      invariant 0 <= i <= |s| && Indent(s, 0, 0) == Indent(s, i, cols)
    {
      var e := Esc(s, i);
      if e > 0 {
        i := i + e;
        continue;
      }
      if s[i] == SPACE || s[i] == TAB {
        cols := cols + 1;
        i := i + 1;
        continue;
      }
      break;
    }
  }

  method ScHang(s: Text) returns (hang: nat)
    ensures hang == Hang(s)
  {
    hide Indent, DigitsEnd;
    var digits := 0;
    var i, cols := SkipIndent(s);
    if i >= |s| {
      return 0;
    }
    if i + 3 <= |s| && s[i..i + 3] == BULLET {
      i := i + 3;
      cols := cols + 1;
    } else {
      digits := CountDigits(s, i);
      i := i + digits;
      cols := cols + digits;
      if digits == 0 || i >= |s| || (s[i] != DOT && s[i] != CLOSING) {
        return 0;
      }
      i := i + 1;
      cols := cols + 1;
    }
    assert Hang(s) == HangFrom(s, i, cols);
    if i >= |s| || s[i] != SPACE {
      return 0;
    }
    ghost var gap, cols1 := i, cols;
    while i < |s| && s[i] == SPACE
      invariant gap <= i <= |s| && SpacesEnd(s, gap) == SpacesEnd(s, i)
      invariant cols == cols1 + (i - gap)
    {
      cols := cols + 1;
      i := i + 1;
    }
    hang := cols;
  }

  method CountDigits(s: Text, from: nat) returns (digits: nat)
    requires from <= |s|
    ensures from + digits == DigitsEnd(s, from)
  {
    var i := from;
    digits := 0;
    while i < |s| && IsDigit(s[i])
      invariant from <= i <= |s| && DigitsEnd(s, from) == DigitsEnd(s, i) && digits == i - from
    {
      digits := digits + 1;
      i := i + 1;
    }
  }

  // The count of a line's rows, and the starts of those that max allows.
  // The scan goes back, to the start of a word that did not fit: what
  // decreases is the text after the row's start, then that after the scan.
  method ScWrap(width: Width, s: Text, cols: int, start: array<nat>, max: nat) returns (rows: nat)
    requires max <= start.Length
    modifies start
    ensures rows == |LineRows(width, s, cols)|
    ensures forall k :: 0 <= k < start.Length ==>
      start[k] == if k < rows && k < max then LineRows(width, s, cols)[k] else old(start[k])
  {
    hide CharCols, CharLen, EscLen, Hang, Rows, Break, StartsAre, Wrapping;
    var n, m := |s|, Metric(width, true);
    rows := 1;
    var used: nat, i: nat, space: nat := 0, 0, 0;
    var hang := ScHang(s);
    var limit := cols;
    if hang >= cols - 8 {
      hang := 0;
    }
    ghost var was := start[..];
    if max > 0 {
      start[0] := 0;
    }
    ghost var goal, room := LineRows(width, s, cols), cols - hang;
    ghost var a, done: seq<nat> := 0, [];
    FirstStart(start[..], was, max);
    WrapStarts(m, s, cols, room, goal);
    while i < n
      invariant Wrapping(m, s, cols, room, goal, limit, done, a, i, used, space) && a <= i <= n
      invariant rows == |done| + 1 && StartsAre(start[..], was, done + [a], max)
      decreases n - a, n - i
    {
      var e := Esc(s, i);
      EscapeOf(m, s, i);
      if e > 0 {
        WrapEscape(m, s, cols, room, goal, limit, done, a, i, used, space);
        i := i + e;
        continue;
      }
      var bytes := CharLen(s, i);
      var w := CharCols(m, s, i);
      if used + w > limit && used > 0 && s[i] != SPACE {
        var at := if space > 0 then space else i;
        WrapBreak(m, s, cols, room, goal, limit, done, a, i, used, space);
        PutStart(start, max, rows, at, was, done + [a]);
        done := done + [a];
        a := at;
        rows := rows + 1;
        used := 0;
        space := 0;
        limit := cols - hang;
        if at != i {
          i := at;
          continue;
        }
      }
      WrapChar(m, s, cols, room, goal, limit, done, a, i, used, space);
      if s[i] == SPACE {
        space := i + 1;
      }
      used := used + w;
      i := i + bytes;
    }
    WrapEnds(m, s, cols, room, goal, limit, done, a, used, space);
    StartsRead(start[..], was, goal, max);
  }

  // The scan is at i in the row from a, the rows before it done: the row ends
  // where the scan will end it.
  ghost predicate Wrapping(m: Metric, s: Text, cols: int, room: int, goal: seq<nat>, limit: int, done: seq<nat>,
                           a: nat, i: nat, used: nat, space: nat) {
    && a <= i <= |s| && space <= i && (space > 0 ==> a < space) && (used > 0 ==> a < i)
    && limit == (if done == [] then cols else room) && goal == done + Rows(m, s, limit, room, a)
    && Break(m, s, limit, a, 0, 0) == Break(m, s, limit, i, used, space)
  }

  lemma WrapStarts(m: Metric, s: Text, cols: int, room: int, goal: seq<nat>)
    requires goal == Rows(m, s, cols, room, 0)
    ensures Wrapping(m, s, cols, room, goal, cols, [], 0, 0, 0, 0)
  {
    hide Rows, Break;
    assert [] + goal == goal;
  }

  lemma WrapEscape(m: Metric, s: Text, cols: int, room: int, goal: seq<nat>, limit: int, done: seq<nat>,
                   a: nat, i: nat, used: nat, space: nat)
    requires Wrapping(m, s, cols, room, goal, limit, done, a, i, used, space) && i < |s| && EscLen(m, s, i) > 0
    ensures Wrapping(m, s, cols, room, goal, limit, done, a, i + EscLen(m, s, i), used, space)
  {
    hide Rows, Break, EscLen;
    BreakStep(m, s, limit, i, used, space);
  }

  lemma WrapChar(m: Metric, s: Text, cols: int, room: int, goal: seq<nat>, limit: int, done: seq<nat>,
                 a: nat, i: nat, used: nat, space: nat)
    requires Wrapping(m, s, cols, room, goal, limit, done, a, i, used, space) && i < |s| && EscLen(m, s, i) == 0
    requires !(used + CharCols(m, s, i) > limit && used > 0 && s[i] != SPACE)
    ensures Wrapping(m, s, cols, room, goal, limit, done, a, i + CharLen(s, i), used + CharCols(m, s, i),
                     if s[i] == SPACE then i + 1 else space)
  {
    hide Rows, Break, EscLen, CharCols, CharLen;
    BreakStep(m, s, limit, i, used, space);
  }

  // The row is full: the next begins after its last space, or here.
  lemma WrapBreak(m: Metric, s: Text, cols: int, room: int, goal: seq<nat>, limit: int, done: seq<nat>,
                  a: nat, i: nat, used: nat, space: nat)
    requires Wrapping(m, s, cols, room, goal, limit, done, a, i, used, space) && i < |s| && EscLen(m, s, i) == 0
    requires used + CharCols(m, s, i) > limit && used > 0 && s[i] != SPACE
    ensures var at := if space > 0 then space else i;
            a < at <= i && Wrapping(m, s, cols, room, goal, room, done + [a], at, at, 0, 0)
  {
    hide Rows, Break, EscLen, CharCols, CharLen;
    BreakStep(m, s, limit, i, used, space);
    RowsNext(m, s, limit, room, a, done);
  }

  lemma WrapEnds(m: Metric, s: Text, cols: int, room: int, goal: seq<nat>, limit: int, done: seq<nat>,
                 a: nat, used: nat, space: nat)
    requires Wrapping(m, s, cols, room, goal, limit, done, a, |s|, used, space)
    ensures goal == done + [a]
  {
    hide Rows, Break;
    BreakAtEnd(m, s, limit, used, space);
    RowsLast(m, s, limit, room, a);
  }

  // The starts written, as many as there is room for; the others as they were.
  ghost predicate StartsAre(now: seq<nat>, was: seq<nat>, rows: seq<nat>, max: nat) {
    && |now| == |was| && max <= |now|
    && forall k :: 0 <= k < |now| ==> now[k] == if k < max && k < |rows| then rows[k] else was[k]
  }

  lemma FirstStart(now: seq<nat>, was: seq<nat>, max: nat)
    requires max <= |was| && now == if max > 0 then was[0 := 0] else was
    ensures StartsAre(now, was, [] + [0], max)
  {}

  // Where the next row begins, where there is room for it.
  method PutStart(start: array<nat>, max: nat, rows: nat, at: nat, ghost was: seq<nat>, ghost done: seq<nat>)
    requires StartsAre(start[..], was, done, max) && rows == |done|
    modifies start
    ensures StartsAre(start[..], was, done + [at], max)
  {
    if rows < max {
      start[rows] := at;
    }
  }

  lemma StartsRead(now: seq<nat>, was: seq<nat>, rows: seq<nat>, max: nat)
    requires StartsAre(now, was, rows, max)
    ensures |now| == |was| && forall k :: 0 <= k < |now| ==> now[k] == if k < |rows| && k < max then rows[k] else was[k]
  {}

  lemma BreakAtEnd(m: Metric, s: Text, limit: int, used: nat, space: nat)
    requires space <= |s|
    ensures Break(m, s, limit, |s|, used, space) == None
  {}

  // One turn of the scan.
  lemma BreakStep(m: Metric, s: Text, limit: int, i: nat, used: nat, space: nat)
    requires i < |s| && space <= i
    ensures var w, e := CharCols(m, s, i), EscLen(m, s, i);
            Break(m, s, limit, i, used, space)
            == if e > 0 then Break(m, s, limit, i + e, used, space)
               else if used + w > limit && used > 0 && s[i] != SPACE then Some(if space > 0 then space else i)
               else Break(m, s, limit, i + CharLen(s, i), used + w, if s[i] == SPACE then i + 1 else space)
  {
    hide CharCols, CharLen, EscLen;
  }

  lemma RowsNext(m: Metric, s: Text, limit: int, room: int, a: nat, done: seq<nat>)
    requires a <= |s| && Break(m, s, limit, a, 0, 0).Some?
    ensures var b := Break(m, s, limit, a, 0, 0).value;
            a < b <= |s| && done + Rows(m, s, limit, room, a) == (done + [a]) + Rows(m, s, room, room, b)
  {
    hide Break, RightBreak, RightEnd;
    RowBreakIsRight(m, s, limit, a);
    var b := RowBreak(m, s, limit, a).value;
    RightBreakAhead(m, s, limit, a, b);
    assert done + ([a] + Rows(m, s, room, room, b)) == (done + [a]) + Rows(m, s, room, room, b);
  }

  lemma RowsLast(m: Metric, s: Text, limit: int, room: int, a: nat)
    requires a <= |s| && Break(m, s, limit, a, 0, 0).None?
    ensures Rows(m, s, limit, room, a) == [a]
  {
    hide Break;
  }

  lemma EscapeOf(m: Metric, s: Text, i: nat)
    requires m.escapes && i <= |s|
    ensures Escape(s, i) == EscLen(m, s, i)
  {}
}
