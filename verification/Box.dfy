// The box a message is written in (src/chat/term.h): its rows, broken at
// newlines and by the conversation's rule, and the cursor found on them and
// put back.

module Box {
  import opened Bits
  import opened Ints
  import opened Wrap
  import opened Characters

  const NEWLINE: byte := 0x0a
  const MAX_ROWS: nat := 512

  // A message is measured without escapes.
  function Plain(width: Width): Metric {
    Metric(width, false)
  }

  // ---- one row ----

  // How a row ends: before a newline, where the next one begins, or with the
  // message.
  datatype Cut = AtNewline(at: nat) | AtWrap(at: nat) | AtEnd

  function BoxCut(m: Metric, s: Text, room: nat, i: nat, used: nat, space: nat): (r: Cut)
    requires i <= |s| && space <= i
    ensures r.AtNewline? ==> i <= r.at < |s|
    ensures r.AtWrap? ==> r.at < |s|
    decreases |s| - i
  {
    if i == |s| then AtEnd
    else if s[i] == NEWLINE then AtNewline(i)
    else
      var w := CharCols(m, s, i);
      if used + w > room && used > 0 && s[i] != SPACE then AtWrap(if space > 0 then space else i)
      else BoxCut(m, s, room, i + CharLen(s, i), used + w, if s[i] == SPACE then i + 1 else space)
  }

  // No newline is met from a before c.
  ghost predicate NoNewline(m: Metric, s: Text, a: nat, c: nat) {
    forall i :: a <= i < c && i < |s| && Reaches(m, s, a, i) ==> s[i] != NEWLINE
  }

  // What makes a cut of the row from a right: before a newline all the line
  // fits; elsewhere it is the conversation's break, or its end.
  ghost predicate RightCut(m: Metric, s: Text, room: nat, a: nat, r: Cut) {
    match r
    case AtNewline(at) =>
      a <= at < |s| && s[at] == NEWLINE && Reaches(m, s, a, at) && NoNewline(m, s, a, at) && AllFit(m, s, room, a, at)
    case AtWrap(at) => RightBreak(m, s, room, a, at) && NoNewline(m, s, a, at)
    case AtEnd => RightEnd(m, s, room, a) && NoNewline(m, s, a, |s|)
  }

  lemma NoNewlineNext(m: Metric, s: Text, a: nat, i: nat)
    requires Reaches(m, s, a, i) && i < |s| && NoNewline(m, s, a, i) && s[i] != NEWLINE
    ensures NoNewline(m, s, a, Next(m, s, i))
  {
    forall c | a <= c < Next(m, s, i) && c < |s| && Reaches(m, s, a, c) ensures s[c] != NEWLINE {
      ReachesBefore(m, s, a, i, c);
    }
  }

  lemma PlainNext(m: Metric, s: Text, i: nat)
    requires !m.escapes && i < |s|
    ensures IsChar(m, s, i) && Next(m, s, i) == i + CharLen(s, i) && Cols(m, s, i) == CharCols(m, s, i)
  {}

  lemma {:induction false} CutIsRight(m: Metric, s: Text, room: nat, a: nat, i: nat, used: nat, space: nat)
    requires !m.escapes && Scanning(m, s, room, a, i, used, space) && NoNewline(m, s, a, i)
    ensures RightCut(m, s, room, a, BoxCut(m, s, room, i, used, space))
    decreases |s| - i
  {
    hide HasSpace, CharCols, CharLen, EscLen, AllFit, NoNewline, Next, IsChar;
    if i < |s| && s[i] != NEWLINE {
      PlainNext(m, s, i);
      if used + CharCols(m, s, i) > room && used > 0 && s[i] != SPACE {
        var b := if space > 0 then space else i;
        AllFitPart(m, s, room, a, b, i);
        NoNewlinePart(m, s, a, b, i);
        if space == 0 { NoSpaceAt(m, s, i); }
        assert Overflows(m, s, room, a, b, i);
      } else {
        ScanningNext(m, s, room, a, i, used, space);
        NoNewlineNext(m, s, a, i);
        CutIsRight(m, s, room, a, Next(m, s, i), used + Cols(m, s, i), if IsSpace(m, s, i) then i + 1 else space);
      }
    }
  }

  lemma NoNewlinePart(m: Metric, s: Text, a: nat, b: nat, c: nat)
    requires NoNewline(m, s, a, c) && b <= c
    ensures NoNewline(m, s, a, b)
  {}

  lemma RowCutIsRight(m: Metric, s: Text, room: nat, a: nat)
    requires !m.escapes && a <= |s|
    ensures RightCut(m, s, room, a, BoxCut(m, s, room, a, 0, 0))
  {
    ScanningStarts(m, s, room, a);
    CutIsRight(m, s, room, a, a, 0, 0);
  }

  // ---- the rows of a message ----

  datatype BoxRow = BoxRow(begin: nat, stop: nat)

  function Stop(s: Text, r: Cut): nat {
    if r.AtEnd? then |s| else r.at
  }

  function BoxRows(m: Metric, s: Text, room: nat, a: nat): (rows: seq<BoxRow>)
    requires !m.escapes && a <= |s|
    ensures |rows| >= 1 && rows[0].begin == a
    decreases |s| - a
  {
    var r := BoxCut(m, s, room, a, 0, 0);
    if r.AtEnd? then [BoxRow(a, |s|)]
    else
      RowCutIsRight(m, s, room, a);
      [BoxRow(a, r.at)] + BoxRows(m, s, room, if r.AtNewline? then r.at + 1 else r.at)
  }

  // Rows follow one another, the newlines between them left out; each ends
  // where it must.
  ghost predicate BoxLaidOut(m: Metric, s: Text, room: nat, rows: seq<BoxRow>) {
    && |rows| >= 1
    && (forall k :: 0 <= k < |rows| - 1 ==>
          || (rows[k].stop < |s| && rows[k + 1].begin == rows[k].stop + 1
             && RightCut(m, s, room, rows[k].begin, AtNewline(rows[k].stop)))
          || (rows[k + 1].begin == rows[k].stop && RightCut(m, s, room, rows[k].begin, AtWrap(rows[k].stop))))
    && rows[|rows| - 1].stop == |s| && RightCut(m, s, room, rows[|rows| - 1].begin, AtEnd)
  }

  lemma {:induction false} BoxRowsAreLaidOut(m: Metric, s: Text, room: nat, a: nat)
    requires !m.escapes && a <= |s|
    ensures BoxLaidOut(m, s, room, BoxRows(m, s, room, a))
    decreases |s| - a
  {
    hide RightCut, BoxCut;
    RowCutIsRight(m, s, room, a);
    var r := BoxCut(m, s, room, a, 0, 0);
    if !r.AtEnd? {
      var b := if r.AtNewline? then r.at + 1 else r.at;
      CutAhead(m, s, room, a, r);
      BoxRowsAreLaidOut(m, s, room, b);
      BoxRowBefore(m, s, room, BoxRow(a, r.at), BoxRows(m, s, room, b), r);
    }
  }

  lemma CutAhead(m: Metric, s: Text, room: nat, a: nat, r: Cut)
    requires RightCut(m, s, room, a, r) && !r.AtEnd?
    ensures a <= r.at <= |s| && (r.AtWrap? ==> a < r.at) && (r.AtNewline? ==> r.at < |s| && s[r.at] == NEWLINE)
    ensures Reaches(m, s, a, r.at)
  {}

  lemma BoxRowBefore(m: Metric, s: Text, room: nat, row: BoxRow, rest: seq<BoxRow>, r: Cut)
    requires BoxLaidOut(m, s, room, rest) && RightCut(m, s, room, row.begin, r) && !r.AtEnd? && row.stop == r.at
    requires rest[0].begin == if r.AtNewline? then r.at + 1 else r.at
    ensures BoxLaidOut(m, s, room, [row] + rest)
  {
    CutAhead(m, s, room, row.begin, r);
    hide RightCut;
    var rows := [row] + rest;
    forall k | 0 <= k < |rows| - 1
      ensures || (rows[k].stop < |s| && rows[k + 1].begin == rows[k].stop + 1
              && RightCut(m, s, room, rows[k].begin, AtNewline(rows[k].stop)))
              || (rows[k + 1].begin == rows[k].stop && RightCut(m, s, room, rows[k].begin, AtWrap(rows[k].stop)))
    {
      if k > 0 { assert rows[k] == rest[k - 1] && rows[k + 1] == rest[k - 1 + 1]; }
      else { assert rows[1] == rest[0]; }
    }
    assert rows[|rows| - 1] == rest[|rest| - 1];
  }

  // ---- the cursor ----

  // The columns of t from at to its end.
  function TermCols(m: Metric, t: Text, at: nat): nat
    requires at <= |t|
    decreases |t| - at
  {
    if at == |t| then 0 else CharCols(m, t, at) + TermCols(m, t, at + CharLen(t, at))
  }

  // Where column col of the row that ends with t is, from at with used
  // columns passed.
  function Walk(m: Metric, t: Text, col: int, at: nat, used: nat): (r: nat)
    requires at <= |t|
    ensures at <= r <= |t|
    decreases |t| - at
  {
    if at == |t| || used + CharCols(m, t, at) > col then at
    else Walk(m, t, col, at + CharLen(t, at), used + CharCols(m, t, at))
  }

  // Cut at a place that is met, text reads the same before it.
  lemma CharBefore(m: Metric, s: Text, i: nat, b: nat)
    requires !m.escapes && Reaches(m, s, i, b) && i < b
    ensures CharLen(s[..b], i) == CharLen(s, i) && CharCols(m, s[..b], i) == CharCols(m, s, i)
    ensures i + CharLen(s, i) <= b && Reaches(m, s, i + CharLen(s, i), b)
  {
    PlainNext(m, s, i);
    ReachesAhead(m, s, Next(m, s, i), b);
    assert s[..b][i..i + CharLen(s, i)] == s[i..i + CharLen(s, i)];
  }

  lemma ReachesAhead(m: Metric, s: Text, a: nat, b: nat)
    requires Reaches(m, s, a, b)
    ensures a <= b <= |s|
  {}

  lemma {:induction false} TermColsIsSpan(m: Metric, s: Text, a: nat, b: nat)
    requires !m.escapes && Reaches(m, s, a, b)
    ensures a <= b <= |s| && TermCols(m, s[..b], a) == Span(m, s, a, b)
    decreases b - a
  {
    hide CharCols, CharLen, EscLen;
    ReachesAhead(m, s, a, b);
    if a < b {
      CharBefore(m, s, a, b);
      PlainNext(m, s, a);
      TermColsIsSpan(m, s, a + CharLen(s, a), b);
    }
  }

  // The walk stops at a place that is met, as far as the columns allow.
  lemma {:induction false} WalkStops(m: Metric, s: Text, stop: nat, col: int, a: nat, at: nat)
    requires !m.escapes && Reaches(m, s, a, at) && Reaches(m, s, at, stop) && at <= stop <= |s|
    requires Span(m, s, a, at) <= col || a == at
    ensures var r := Walk(m, s[..stop], col, at, Span(m, s, a, at));
            && at <= r <= stop && Reaches(m, s, a, r) && Reaches(m, s, r, stop)
            && (Span(m, s, a, r) <= col || r == a)
            && (r == stop || Span(m, s, a, r) + CharCols(m, s, r) > col)
    decreases stop - at
  {
    hide CharCols, CharLen, EscLen;
    if at < stop {
      CharBefore(m, s, at, stop);
      PlainNext(m, s, at);
      if Span(m, s, a, at) + CharCols(m, s, at) <= col {
        OneOn(m, s, a, at);
        WalkStops(m, s, stop, col, a, at + CharLen(s, at));
      }
    }
  }

  lemma {:induction false} SpanMonotone(m: Metric, s: Text, a: nat, b: nat, c: nat)
    requires Reaches(m, s, a, b) && Reaches(m, s, b, c)
    ensures Reaches(m, s, a, c) && Span(m, s, a, b) <= Span(m, s, a, c)
  {
    SpanOn(m, s, a, b, c);
  }

  // The column of a place in a row leads back to it, past the characters of
  // no width right after it.
  lemma ColumnLeadsBack(m: Metric, s: Text, begin: nat, stop: nat, pos: nat)
    requires !m.escapes && Reaches(m, s, begin, pos) && Reaches(m, s, pos, stop) && begin <= pos <= stop <= |s|
    ensures var r := Walk(m, s[..stop], TermCols(m, s[..pos], begin), begin, 0);
            && pos <= r <= stop && Reaches(m, s, pos, r) && Span(m, s, pos, r) == 0
            && (r == stop || CharCols(m, s, r) > 0)
  {
    hide CharCols, CharLen, EscLen, Walk, TermCols;
    var col := TermCols(m, s[..pos], begin);
    TermColsIsSpan(m, s, begin, pos);
    ReachesOn(m, s, begin, pos, stop);
    WalkStops(m, s, stop, col, begin, begin);
    var r := Walk(m, s[..stop], col, begin, 0);
    if r < pos {
      // then the character at r would still have fitted
      ReachesBetween(m, s, begin, r, pos);
      PlainNext(m, s, r);
      OneOn(m, s, begin, r);
      SpanMonotone(m, s, begin, Next(m, s, r), pos);
    } else {
      ReachesBetween(m, s, begin, pos, r);
      SpanOn(m, s, begin, pos, r);
    }
  }

  // ---- the rows of the cursor ----

  predicate Holds(row: BoxRow, pos: nat) {
    row.begin <= pos <= row.stop
  }

  ghost predicate RowMet(m: Metric, s: Text, row: BoxRow) {
    row.begin <= row.stop <= |s| && Reaches(m, s, 0, row.begin) && Reaches(m, s, row.begin, row.stop)
  }

  // The place after a cut, where the next row begins.
  lemma CutMet(m: Metric, s: Text, room: nat, a: nat) returns (b: nat)
    requires !m.escapes && Reaches(m, s, 0, a) && a <= |s|
    ensures var r := BoxCut(m, s, room, a, 0, 0);
            && RowMet(m, s, BoxRow(a, Stop(s, r)))
            && (!r.AtEnd? ==> a < b <= |s| && r.at <= b <= r.at + 1 && Reaches(m, s, 0, b)
                              && BoxRows(m, s, room, a) == [BoxRow(a, r.at)] + BoxRows(m, s, room, b))
            && (r.AtEnd? ==> BoxRows(m, s, room, a) == [BoxRow(a, |s|)])
  {
    hide RightCut, BoxCut, Reaches;
    RowCutIsRight(m, s, room, a);
    var r := BoxCut(m, s, room, a, 0, 0);
    if r.AtEnd? {
      EndMet(m, s, room, a);
      b := |s|;
    } else {
      CutAhead(m, s, room, a, r);
      ReachesOn(m, s, 0, a, r.at);
      b := if r.AtNewline? then r.at + 1 else r.at;
      if r.AtNewline? { NewlineMet(m, s, r.at); ReachesOn(m, s, 0, r.at, b); }
    }
  }

  // Every row begins and ends where the text is met from its start.
  lemma {:induction false} RowsMet(m: Metric, s: Text, room: nat, a: nat, k: nat)
    requires !m.escapes && Reaches(m, s, 0, a) && a <= |s| && k < |BoxRows(m, s, room, a)|
    ensures RowMet(m, s, BoxRows(m, s, room, a)[k])
    decreases |s| - a
  {
    hide RightCut, BoxCut, Reaches, RowMet, BoxRows;
    var b := CutMet(m, s, room, a);
    if k > 0 { RowsMet(m, s, room, b, k - 1); }
  }

  // Every place is in a row.
  lemma {:induction false} RowsCover(m: Metric, s: Text, room: nat, a: nat, pos: nat) returns (k: nat)
    requires !m.escapes && Reaches(m, s, 0, a) && a <= pos <= |s|
    ensures k < |BoxRows(m, s, room, a)| && Holds(BoxRows(m, s, room, a)[k], pos)
    decreases |s| - a
  {
    hide RightCut, BoxCut, Reaches, BoxRows;
    var b := CutMet(m, s, room, a);
    var r := BoxCut(m, s, room, a, 0, 0);
    if r.AtEnd? || pos <= r.at {
      k := 0;
    } else {
      k := RowsCover(m, s, room, b, pos);
      k := k + 1;
    }
  }

  lemma EndMet(m: Metric, s: Text, room: nat, a: nat)
    requires RightCut(m, s, room, a, AtEnd)
    ensures Reaches(m, s, a, |s|)
  {}

  lemma NewlineMet(m: Metric, s: Text, at: nat)
    requires !m.escapes && at < |s| && s[at] == NEWLINE
    ensures Reaches(m, s, at, at + 1)
  {
    PlainNext(m, s, at);
    assert Reaches(m, s, at + 1, at + 1);
  }

  // The first row, from k on, that holds a place.
  function FindRow(rows: seq<BoxRow>, pos: nat, k: nat): (r: nat)
    requires k <= |rows| && |rows| >= 1
    ensures r < |rows|
    ensures (exists i :: k <= i < |rows| && Holds(rows[i], pos)) ==> k <= r && Holds(rows[r], pos)
    decreases |rows| - k
  {
    if k == |rows| then |rows| - 1 else if Holds(rows[k], pos) then k else FindRow(rows, pos, k + 1)
  }

  // The row and column found for a cursor put it back where it was.
  lemma FoundIsPutBack(m: Metric, s: Text, room: nat, pos: nat)
    requires !m.escapes && Reaches(m, s, 0, pos)
    ensures pos <= |s|
    ensures var rows := BoxRows(m, s, room, 0);
            var row := rows[FindRow(rows, pos, 0)];
            && row.begin <= pos <= row.stop <= |s|
            && var r := Walk(m, s[..row.stop], TermCols(m, s[..pos], row.begin), row.begin, 0);
               && pos <= r <= row.stop && Reaches(m, s, pos, r) && Span(m, s, pos, r) == 0
               && (r == row.stop || CharCols(m, s, r) > 0)
  {
    hide Walk, TermCols, BoxRows, Reaches, CharCols, Span;
    ReachesAhead(m, s, 0, pos);
    StartMet(m, s);
    var rows := BoxRows(m, s, room, 0);
    var held := RowsCover(m, s, room, 0, pos);
    var k := FindRow(rows, pos, 0);
    RowsMet(m, s, room, 0, k);
    PlaceInRow(m, s, rows[k], pos);
    ColumnLeadsBack(m, s, rows[k].begin, rows[k].stop, pos);
  }

  lemma PlaceInRow(m: Metric, s: Text, row: BoxRow, pos: nat)
    requires RowMet(m, s, row) && Holds(row, pos) && Reaches(m, s, 0, pos)
    ensures Reaches(m, s, row.begin, pos) && Reaches(m, s, pos, row.stop)
  {
    hide Reaches;
    ReachesBetween(m, s, 0, row.begin, pos);
    ReachesOn(m, s, 0, row.begin, row.stop);
    ReachesBetween(m, s, 0, pos, row.stop);
  }

  lemma StartMet(m: Metric, s: Text)
    ensures Reaches(m, s, 0, 0)
  {}

  // Any column of any row is a place that is met, inside the row.
  lemma PutIsMet(m: Metric, s: Text, room: nat, row: nat, col: int)
    requires !m.escapes && row < |BoxRows(m, s, room, 0)|
    ensures var r := BoxRows(m, s, room, 0)[row];
            && r.begin <= r.stop <= |s|
            && var at := Walk(m, s[..r.stop], col, r.begin, 0);
               r.begin <= at <= r.stop && Reaches(m, s, 0, at)
  {
    hide Walk, BoxRows, Reaches, CharCols;
    StartMet(m, s);
    RowsMet(m, s, room, 0, row);
    var r := BoxRows(m, s, room, 0)[row];
    SpanNone(m, s, r.begin);
    WalkStops(m, s, r.stop, col, r.begin, r.begin);
    ReachesOn(m, s, 0, r.begin, Walk(m, s[..r.stop], col, r.begin, 0));
  }

  lemma SpanNone(m: Metric, s: Text, a: nat)
    requires a <= |s|
    ensures Reaches(m, s, a, a) && Span(m, s, a, a) == 0
  {}

  // ---- the code ----

  // The room of a row beside the prompt, never too narrow to write in.
  function Room(m: Metric, prompt: Text, cols: int): int {
    if cols - TermCols(m, prompt, 0) as int - 1 < 4 then 4 else cols - TermCols(m, prompt, 0) as int - 1
  }

  // A column is left free after the prompt and the row, and four at least are
  // written in; a newline is its own character.
  lemma RoomIs(m: Metric, prompt: Text, cols: int)
    ensures Room(m, prompt, cols) == 4 || Room(m, prompt, cols) + TermCols(m, prompt, 0) + 1 == cols
    ensures Room(m, prompt, cols) >= 4 && Room(m, prompt, cols) + TermCols(m, prompt, 0) + 1 >= cols
    ensures NEWLINE == '\n' as int && MAX_ROWS == 512
  {}

  // The rows of a message in a window of cols columns.
  function Message(m: Metric, prompt: Text, s: Text, cols: int): (rows: seq<BoxRow>)
    requires !m.escapes
    ensures |rows| >= 1
  {
    BoxRows(m, s, Room(m, prompt, cols), 0)
  }

  method CountCols(width: Width, s: Text) returns (cols: nat)
    ensures cols == TermCols(Plain(width), s, 0)
  {
    hide CharCols;
    var i: nat := 0;
    cols := 0;
    while i < |s|
      invariant 0 <= i <= |s| && cols + TermCols(Plain(width), s, i) == TermCols(Plain(width), s, 0)
    {
      cols := cols + CharCols(Plain(width), s, i);
      i := i + CharLen(s, i);
    }
  }

  // The rows written so far: a row past the arrays is counted and not
  // written, and the last of them keeps its end to itself until then.
  ghost predicate Written(begin: seq<nat>, stop: seq<nat>, rows: seq<BoxRow>, open: nat) {
    && (forall k :: 0 <= k < |rows| && k < |begin| ==> begin[k] == rows[k].begin)
    && (forall k :: 0 <= k < |rows| - open && k < |stop| - open ==> stop[k] == rows[k].stop)
  }

  lemma WrittenOn(begin: seq<nat>, stop: seq<nat>, rows: seq<BoxRow>, a: nat, at: nat, next: nat, begin': seq<nat>,
                  stop': seq<nat>)
    requires Written(begin, stop, rows + [BoxRow(a, at)], 1) && |begin| == |stop| == |begin'| == |stop'|
    requires begin' == if |rows| + 1 < |begin| then begin[|rows| + 1 := next] else begin
    requires stop' == if |rows| + 1 < |stop| then stop[|rows| := at] else stop
    ensures Written(begin', stop', rows + [BoxRow(a, at), BoxRow(next, 0)], 1)
  {
    var was, now := rows + [BoxRow(a, at)], rows + [BoxRow(a, at), BoxRow(next, 0)];
    forall k | 0 <= k < |now| && k < |begin'| ensures begin'[k] == now[k].begin {
      if k <= |rows| { assert was[k] == now[k]; }
    }
    forall k | 0 <= k < |now| - 1 && k < |stop'| - 1 ensures stop'[k] == now[k].stop {
      assert was[k] == now[k];
    }
  }

  // One turn of the scan of a row.
  lemma CutStep(m: Metric, s: Text, room: nat, i: nat, used: nat, space: nat)
    requires i <= |s| && space <= i
    ensures BoxCut(m, s, room, i, used, space)
            == if i == |s| then AtEnd
               else if s[i] == NEWLINE then AtNewline(i)
               else if used + CharCols(m, s, i) > room && used > 0 && s[i] != SPACE then
                 AtWrap(if space > 0 then space else i)
               else
                 BoxCut(m, s, room, i + CharLen(s, i), used + CharCols(m, s, i),
                        if s[i] == SPACE then i + 1 else space)
  {
    hide CharCols, CharLen;
  }

  // The row from a ended where its cut says.
  lemma RowsStep(m: Metric, s: Text, room: nat, a: nat, done: seq<BoxRow>)
    requires !m.escapes && a <= |s|
    ensures var r := BoxCut(m, s, room, a, 0, 0);
            if r.AtEnd? then BoxRows(m, s, room, a) == [BoxRow(a, |s|)]
            else
              var b := if r.AtNewline? then r.at + 1 else r.at;
              a < b <= |s| && done + BoxRows(m, s, room, a) == (done + [BoxRow(a, r.at)]) + BoxRows(m, s, room, b)
  {
    hide BoxCut, RightCut;
    RowCutIsRight(m, s, room, a);
    var r := BoxCut(m, s, room, a, 0, 0);
    if !r.AtEnd? {
      CutAhead(m, s, room, a, r);
      var b := if r.AtNewline? then r.at + 1 else r.at;
      assert done + ([BoxRow(a, r.at)] + BoxRows(m, s, room, b)) == (done + [BoxRow(a, r.at)]) + BoxRows(m, s, room, b);
    }
  }

  // Where each row begins and stops. The scan goes back to the start of a
  // word that did not fit, as the conversation's does.
  method Layout(width: Width, prompt: Text, s: Text, cols: int, begin: array<nat>, stop: array<nat>) returns (rows: nat)
    requires begin.Length == stop.Length == MAX_ROWS && begin != stop
    modifies begin, stop
    ensures rows == |Message(Plain(width), prompt, s, cols)|
    ensures Written(begin[..], stop[..], Message(Plain(width), prompt, s, cols), if rows <= MAX_ROWS then 0 else 1)
  {
    hide CharCols, CharLen, BoxCut, BoxRows, Written;
    var m := Plain(width);
    var pc := CountCols(width, prompt);
    var room := cols - pc - 1;
    if room < 4 {
      room := 4;
    }
    rows := 1;
    var used: nat, i: nat, space: nat := 0, 0, 0;
    begin[0] := 0;
    ghost var goal, a: nat, done: seq<BoxRow> := Message(m, prompt, s, cols), 0, [];
    assert goal == [] + BoxRows(m, s, room, 0);
    StartWritten(begin[..], stop[..]);
    while i < |s|
      invariant a <= i <= |s| && space <= i && (space > 0 ==> a < space) && (used > 0 ==> a < i)
      invariant rows == |done| + 1
      invariant goal == done + BoxRows(m, s, room, a)
      invariant BoxCut(m, s, room, a, 0, 0) == BoxCut(m, s, room, i, used, space)
      invariant Written(begin[..], stop[..], done + [BoxRow(a, 0)], 1)
      decreases |s| - a, |s| - i
    {
      CutStep(m, s, room, i, used, space);
      RowsStep(m, s, room, a, done);
      if s[i] == NEWLINE {
        BreakRow(begin, stop, rows, i, i + 1, done, a);
        done, a := done + [BoxRow(a, i)], i + 1;
        rows := rows + 1;
        used := 0;
        space := 0;
        i := i + 1;
        continue;
      }
      var bytes := CharLen(s, i);
      var w := CharCols(m, s, i);
      if used + w > room && used > 0 && s[i] != SPACE {
        var at := if space > 0 then space else i;
        BreakRow(begin, stop, rows, at, at, done, a);
        done, a := done + [BoxRow(a, at)], at;
        rows := rows + 1;
        used := 0;
        space := 0;
        if at != i {
          i := at;
          continue;
        }
        CutStep(m, s, room, i, 0, 0);
      }
      if s[i] == SPACE {
        space := i + 1;
      }
      used := used + w;
      i := i + bytes;
    }
    CutStep(m, s, room, i, used, space);
    RowsStep(m, s, room, a, done);
    ghost var stop0 := stop[..];
    if rows <= MAX_ROWS {
      stop[rows - 1] := |s|;
    }
    LastWritten(begin[..], stop0, done, a, |s|, stop[..]);
  }

  lemma StartWritten(begin: seq<nat>, stop: seq<nat>)
    requires |begin| > 0 && begin[0] == 0
    ensures Written(begin, stop, [] + [BoxRow(0, 0)], 1)
  {}

  lemma LastWritten(begin: seq<nat>, stop: seq<nat>, done: seq<BoxRow>, a: nat, n: nat, stop': seq<nat>)
    requires Written(begin, stop, done + [BoxRow(a, 0)], 1) && |begin| == |stop|
    requires stop' == if |done| < |stop| then stop[|done| := n] else stop
    ensures Written(begin, stop', done + [BoxRow(a, n)], if |done| < |stop| then 0 else 1)
  {
    var was, now := done + [BoxRow(a, 0)], done + [BoxRow(a, n)];
    assert forall k :: 0 <= k < |done| ==> was[k] == now[k];
    forall k | 0 <= k < |now| && k < |begin| ensures begin[k] == now[k].begin {
      assert was[k].begin == now[k].begin;
    }
  }

  // A row ends at at and the next begins at next.
  method BreakRow(begin: array<nat>, stop: array<nat>, rows: nat, at: nat, next: nat, ghost done: seq<BoxRow>,
                  ghost a: nat)
    requires begin.Length == stop.Length == MAX_ROWS && begin != stop && rows == |done| + 1
    requires Written(begin[..], stop[..], done + [BoxRow(a, 0)], 1)
    modifies begin, stop
    ensures Written(begin[..], stop[..], (done + [BoxRow(a, at)]) + [BoxRow(next, 0)], 1)
  {
    hide Written;
    ghost var begin0, stop0 := begin[..], stop[..];
    OpenEnd(begin0, stop0, done, a, at);
    if rows < MAX_ROWS {
      stop[rows - 1] := at;
      begin[rows] := next;
    }
    WrittenOn(begin0, stop0, done, a, at, next, begin[..], stop[..]);
    assert (done + [BoxRow(a, at)]) + [BoxRow(next, 0)] == done + [BoxRow(a, at), BoxRow(next, 0)];
  }

  lemma OpenEnd(begin: seq<nat>, stop: seq<nat>, done: seq<BoxRow>, a: nat, at: nat)
    requires Written(begin, stop, done + [BoxRow(a, 0)], 1)
    ensures Written(begin, stop, done + [BoxRow(a, at)], 1)
  {
    var was, now := done + [BoxRow(a, 0)], done + [BoxRow(a, at)];
    assert forall k :: 0 <= k < |done| ==> was[k] == now[k];
    forall k | 0 <= k < |now| && k < |begin| ensures begin[k] == now[k].begin {
      assert was[k].begin == now[k].begin;
    }
  }

  // Where the cursor stands, and the height of the box.
  method Find(width: Width, prompt: Text, s: Text, cols: int, pos: nat) returns (row: nat, col: nat, total: nat)
    requires |Message(Plain(width), prompt, s, cols)| <= MAX_ROWS
    ensures var rows := Message(Plain(width), prompt, s, cols);
            && total == |rows| && row == FindRow(rows, pos, 0)
            && (Holds(rows[row], pos) <==> pos <= |s|)
            && (pos <= |s| ==> col == TermCols(Plain(width), s[..pos], rows[row].begin))
            && (pos > |s| ==> row == total - 1 && col == 0)
  {
    hide CharCols, BoxRows, Reaches, TermCols, Written;
    ghost var m, all := Plain(width), Message(Plain(width), prompt, s, cols);
    if pos <= |s| { HeldInside(m, s, Room(m, prompt, cols), pos); }
    var begin, stop := new nat[MAX_ROWS], new nat[MAX_ROWS];
    var rows := Layout(width, prompt, s, cols, begin, stop);
    total := rows;
    row := 0;
    WrittenAt(begin[..], stop[..], all);
    while row < rows
      invariant forall k :: 0 <= k < |all| ==> begin[k] == all[k].begin && stop[k] == all[k].stop
      invariant row <= rows && FindRow(all, pos, 0) == FindRow(all, pos, row)
      invariant forall k :: 0 <= k < row ==> !Holds(all[k], pos)
      decreases rows - row
    {
      StopsInside(m, s, Room(m, prompt, cols), row);
      if pos >= begin[row] && pos <= stop[row] {
        col := CountColsFrom(width, s, begin[row], pos);
        return;
      }
      row := row + 1;
    }
    col := 0;
    row := rows - 1;
  }

  lemma WrittenAt(begin: seq<nat>, stop: seq<nat>, rows: seq<BoxRow>)
    requires Written(begin, stop, rows, 0) && |rows| <= |begin| == |stop|
    ensures forall k :: 0 <= k < |rows| ==> begin[k] == rows[k].begin && stop[k] == rows[k].stop
  {}

  lemma HeldInside(m: Metric, s: Text, room: nat, pos: nat)
    requires !m.escapes && pos <= |s|
    ensures exists k :: 0 <= k < |BoxRows(m, s, room, 0)| && Holds(BoxRows(m, s, room, 0)[k], pos)
  {
    hide BoxRows;
    StartMet(m, s);
    var k := RowsCover(m, s, room, 0, pos);
  }

  lemma StopsInside(m: Metric, s: Text, room: nat, k: nat)
    requires !m.escapes && k < |BoxRows(m, s, room, 0)|
    ensures BoxRows(m, s, room, 0)[k].begin <= BoxRows(m, s, room, 0)[k].stop <= |s|
  {
    hide BoxRows, Reaches;
    StartMet(m, s);
    RowsMet(m, s, room, 0, k);
  }

  // The columns of the bytes from at to pos.
  method CountColsFrom(width: Width, s: Text, at: nat, pos: nat) returns (cols: nat)
    requires at <= pos <= |s|
    ensures cols == TermCols(Plain(width), s[..pos], at)
  {
    TermColsOfPart(Plain(width), s, at, pos, at);
    cols := CountCols(width, s[at..pos]);
  }

  lemma {:induction false} TermColsOfPart(m: Metric, s: Text, at: nat, pos: nat, i: nat)
    requires at <= i <= pos <= |s|
    ensures TermCols(m, s[at..pos], i - at) == TermCols(m, s[..pos], i)
    decreases pos - i
  {
    hide CharCols;
    if i < pos {
      PartChar(m, s, at, pos, i);
      TermColsOfPart(m, s, at, pos, i + CharLen(s[..pos], i));
    }
  }

  lemma PartChar(m: Metric, s: Text, at: nat, pos: nat, i: nat)
    requires at <= i < pos <= |s|
    ensures CharLen(s[at..pos], i - at) == CharLen(s[..pos], i)
    ensures CharCols(m, s[at..pos], i - at) == CharCols(m, s[..pos], i)
  {
    var len := CharLen(s[..pos], i);
    assert s[at..pos][i - at..i - at + len] == s[..pos][i..i + len];
  }

  // The place of a column of a row, or the row's end when it is shorter.
  method At(width: Width, prompt: Text, s: Text, cols: int, row: int, col: int) returns (at: nat)
    requires |Message(Plain(width), prompt, s, cols)| <= MAX_ROWS
    ensures var rows := Message(Plain(width), prompt, s, cols);
            var r := rows[if row < 0 then 0 else if row >= |rows| then |rows| - 1 else row];
            && r.begin <= r.stop <= |s| && at == Walk(Plain(width), s[..r.stop], col, r.begin, 0)
            && r.begin <= at <= r.stop && Reaches(Plain(width), s, 0, at)
    ensures forall cs :: PointsOk(cs) && s == Spelled(cs) ==> IsEdge(cs, at)
  {
    hide CharCols, BoxRows, Reaches, Written, Spelled, IsEdge;
    var begin, stop := new nat[MAX_ROWS], new nat[MAX_ROWS];
    var rows := Layout(width, prompt, s, cols, begin, stop);
    var row := row;
    if row < 0 {
      row := 0;
    }
    if row >= rows {
      row := rows - 1;
    }
    ghost var m := Plain(width);
    WrittenAt(begin[..], stop[..], Message(m, prompt, s, cols));
    PutIsMet(m, s, Room(m, prompt, cols), row, col);
    at := WalkTo(width, s[..stop[row]], col, begin[row]);
    forall cs | PointsOk(cs) && s == Spelled(cs) ensures IsEdge(cs, at) { CharactersMet(m, cs, at); }
  }

  // The rows of a message stand at whole characters.
  lemma BoxRowsAreWhole(width: Width, prompt: Text, cs: Points, cols: int, k: nat)
    requires PointsOk(cs) && k < |Message(Plain(width), prompt, Spelled(cs), cols)|
    ensures var r := Message(Plain(width), prompt, Spelled(cs), cols)[k]; IsEdge(cs, r.begin) && IsEdge(cs, r.stop)
  {
    hide Spelled, Reaches, BoxRows, IsEdge;
    var m, s := Plain(width), Spelled(cs);
    StartMet(m, s);
    RowsMet(m, s, Room(m, prompt, cols), 0, k);
    var r := Message(m, prompt, s, cols)[k];
    ReachesOn(m, s, 0, r.begin, r.stop);
    CharactersMet(m, cs, r.begin);
    CharactersMet(m, cs, r.stop);
  }

  // Along the text from at, as far as column col.
  method WalkTo(width: Width, part: Text, col: int, from: nat) returns (at: nat)
    requires from <= |part|
    ensures at == Walk(Plain(width), part, col, from, 0)
  {
    hide CharCols;
    at := from;
    var used: nat := 0;
    while at < |part|
      invariant from <= at <= |part|
      invariant Walk(Plain(width), part, col, from, 0) == Walk(Plain(width), part, col, at, used)
      decreases |part| - at
    {
      var w := CharCols(Plain(width), part, at);
      if used + w > col {
        break;
      }
      used := used + w;
      at := at + CharLen(part, at);
    }
  }

  // A cursor found and put back is where it was, past the characters of no
  // width right after it.
  method ThereAndBack(width: Width, prompt: Text, s: Text, cols: int, pos: nat) returns (back: nat)
    requires pos <= |s| && Reaches(Plain(width), s, 0, pos)
    requires |Message(Plain(width), prompt, s, cols)| <= MAX_ROWS
    ensures pos <= back <= |s| && Reaches(Plain(width), s, pos, back) && Span(Plain(width), s, pos, back) == 0
    ensures (forall c: Text :: width(c) > 0) ==> back == pos
  {
    hide CharCols, BoxRows, TermCols, Walk;
    var row, col, total := Find(width, prompt, s, cols, pos);
    FoundIsPutBack(Plain(width), s, Room(Plain(width), prompt, cols), pos);
    back := At(width, prompt, s, cols, row, col);
    if pos < back { SpanPositive(Plain(width), s, pos, back); }
  }

  lemma SpanPositive(m: Metric, s: Text, a: nat, b: nat)
    requires !m.escapes && a < b && Reaches(m, s, a, b)
    ensures (forall c: Text :: m.width(c) > 0) ==> Span(m, s, a, b) > 0
  {
    PlainNext(m, s, a);
  }
}
