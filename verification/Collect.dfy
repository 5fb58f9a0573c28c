// The window on the conversation in src/chat/scroll.h: which rows it shows,
// counted back from the end, and how far it may be moved.

module Collect {
  import opened Bits
  import opened Ints
  import opened Wrap

  const SC_MAX_ROWS: nat := 1024

  // A screen row: its line, its bytes there (end below 0: to the line's end),
  // and the indent it is drawn with.
  datatype ScRow = ScRow(line: nat, off: nat, end: int, hang: nat)

  function Capped(n: nat): nat {
    if n > SC_MAX_ROWS then SC_MAX_ROWS else n
  }

  // The rows of line i, the first SC_MAX_ROWS of them.
  function Slots(width: Width, s: Text, cols: int, i: nat): (r: seq<ScRow>)
    ensures |r| == Capped(|LineRows(width, s, cols)|)
  {
    var start := LineRows(width, s, cols);
    var n := Capped(|start|);
    seq(n, k requires 0 <= k < n => Slot(start, n, i, k, UsedHang(s, cols)))
  }

  function Slot(start: seq<nat>, n: nat, i: nat, k: nat, hang: nat): ScRow
    requires k < n <= |start|
  {
    ScRow(i, start[k], if k + 1 < n then start[k + 1] else -1, if k > 0 then hang else 0)
  }

  // The last k of s, the last first.
  function Backwards<T>(s: seq<T>, k: nat): (r: seq<T>)
    requires k <= |s|
    ensures |r| == k
  {
    seq(k, i requires 0 <= i < k => s[|s| - 1 - i])
  }

  // What a store holds: the lines written, oldest first, and the one being
  // written.
  datatype Lines = Lines(line: seq<Text>, pend: Text)

  function TextOf(l: Lines, i: nat): Text {
    if i < |l.line| then l.line[i] else l.pend
  }

  // The rows of the first n lines, newest first.
  function AllRows(width: Width, l: Lines, cols: int, n: nat): seq<ScRow> {
    if n == 0 then []
    else
      var r := Slots(width, TextOf(l, n - 1), cols, n - 1);
      Backwards(r, |r|) + AllRows(width, l, cols, n - 1)
  }

  function Low(a: nat, b: nat): nat {
    if a < b then a else b
  }

  // view of the rows, back of them passed over.
  function Clip<T>(rows: seq<T>, back: nat, view: nat): (r: seq<T>)
    ensures |r| <= view
  {
    rows[Low(back, |rows|)..Low(back + view, |rows|)]
  }

  lemma ClipOneMore<T>(rows: seq<T>, x: T, back: nat, view: nat)
    ensures |rows| < back ==> Clip(rows + [x], back, view) == []
    ensures |rows| >= back && |Clip(rows, back, view)| < view ==>
            Clip(rows + [x], back, view) == Clip(rows, back, view) + [x]
  {}

  lemma ClipFull<T>(rows: seq<T>, more: seq<T>, back: nat, view: nat)
    requires |Clip(rows, back, view)| == view
    ensures Clip(rows + more, back, view) == Clip(rows, back, view)
  {}

  // How many rows the first n lines take in all.
  function Total(width: Width, l: Lines, cols: int, n: nat): nat {
    if n == 0 then 0 else Total(width, l, cols, n - 1) + |LineRows(width, TextOf(l, n - 1), cols)|
  }

  // No line is longer than what sc_collect keeps of one.
  predicate NoneCut(width: Width, l: Lines, cols: int) {
    forall i :: 0 <= i <= |l.line| ==> |LineRows(width, TextOf(l, i), cols)| <= SC_MAX_ROWS
  }

  lemma {:induction false} RowsCounted(width: Width, l: Lines, cols: int, n: nat)
    requires n <= |l.line| + 1
    ensures |AllRows(width, l, cols, n)| <= Total(width, l, cols, n)
    ensures NoneCut(width, l, cols) ==> |AllRows(width, l, cols, n)| == Total(width, l, cols, n)
  {
    hide LineRows;
    if n > 0 { RowsCounted(width, l, cols, n - 1); }
  }

  // A line that is cut makes the count of rows more than there are.
  lemma {:induction false} RowsCutAreCounted(width: Width, l: Lines, cols: int, n: nat, i: nat)
    requires i < n <= |l.line| + 1 && |LineRows(width, TextOf(l, i), cols)| > SC_MAX_ROWS
    ensures |AllRows(width, l, cols, n)| < Total(width, l, cols, n)
  {
    hide LineRows, Slots, Backwards;
    RowsCounted(width, l, cols, n - 1);
    if i < n - 1 { RowsCutAreCounted(width, l, cols, n - 1, i); }
  }

  // The row above another: the same line's, which ends where that one begins,
  // or the last of the line before.
  predicate Above(high: ScRow, low: ScRow) {
    if low.off > 0 then high.line == low.line && high.end == low.off && high.off < low.off
    else high.line + 1 == low.line && high.end == -1
  }

  // A row of a line: set in after the first by the line's hang.
  predicate IsRowOf(width: Width, l: Lines, cols: int, row: ScRow, n: nat) {
    && row.line < n && row.hang == (if row.off == 0 then 0 else UsedHang(TextOf(l, row.line), cols))
    && row.off in LineRows(width, TextOf(l, row.line), cols)
  }

  lemma SlotsFollow(width: Width, s: Text, cols: int, i: nat, k: nat)
    requires k < |Slots(width, s, cols, i)|
    ensures var r, n := Slots(width, s, cols, i), |LineRows(width, s, cols)|;
            && |r| == (if n > 1024 then 1024 else n)
            && r[k].line == i && (r[k].off > 0 <==> k > 0) && (r[k].end == -1 <==> k + 1 == |r|)
            && r[k].off in LineRows(width, s, cols) && r[k].hang == (if k == 0 then 0 else UsedHang(s, cols))
            && (k > 0 ==> Above(r[k - 1], r[k]))
  {
    hide UsedHang, LaidOut, Rows;
    var m, room := Metric(width, true), cols - UsedHang(s, cols);
    RowsAreLaidOut(m, s, cols, room, 0);
    assert LineRows(width, s, cols)[k] in LineRows(width, s, cols);
    if k > 0 {
      RowsAdvance(m, s, cols, room, LineRows(width, s, cols), 0, k);
      RowsAdvance(m, s, cols, room, LineRows(width, s, cols), k - 1, k);
    }
  }

  // So the rows, newest first, are the text: each goes on where the one after
  // it ends, and the lowest is the end of the last line.
  lemma {:induction false} RowsFollow(width: Width, l: Lines, cols: int, n: nat, k: nat)
    requires k < |AllRows(width, l, cols, n)|
    ensures var rows := AllRows(width, l, cols, n);
            && IsRowOf(width, l, cols, rows[k], n) && (k == 0 ==> rows[k].line + 1 == n && rows[k].end == -1)
            && (k > 0 ==> Above(rows[k], rows[k - 1])) && (k + 1 == |rows| ==> rows[k].line == 0 && rows[k].off == 0)
    decreases n
  {
    hide LineRows, Slots, UsedHang, Backwards, Above, IsRowOf, TextOf, AllRows;
    NoRows(width, l, cols);
    assert n > 0;
    AllRowsNext(width, l, cols, n - 1);
    var s, rest := TextOf(l, n - 1), AllRows(width, l, cols, n - 1);
    var r := Slots(width, s, cols, n - 1);
    SomeSlots(width, s, cols, n - 1);
    if k < |r| {
      LineFollows(width, l, cols, n, k);
      if n > 1 { SomeRows(width, l, cols, n - 1); }
    } else {
      RowsFollow(width, l, cols, n - 1, k - |r|);
      RowOfMore(width, l, cols, rest[k - |r|], n);
      if k == |r| {
        LineFollows(width, l, cols, n, k - 1);
        FirstAbove(rest[0], Backwards(r, |r|)[k - 1], n);
      }
    }
  }

  // The k-th row from the end of line n - 1.
  lemma LineFollows(width: Width, l: Lines, cols: int, n: nat, k: nat)
    requires n > 0 && k < |Slots(width, TextOf(l, n - 1), cols, n - 1)|
    ensures var r := Slots(width, TextOf(l, n - 1), cols, n - 1);
            var low := Backwards(r, |r|);
            && IsRowOf(width, l, cols, low[k], n) && low[k].line + 1 == n && (k == 0 ==> low[k].end == -1)
            && (k > 0 ==> Above(low[k], low[k - 1])) && (k + 1 == |r| <==> low[k].off == 0)
  {
    hide LineRows, Slots, UsedHang, Above;
    var s := TextOf(l, n - 1);
    var r := Slots(width, s, cols, n - 1);
    SlotsFollow(width, s, cols, n - 1, |r| - 1 - k);
    if k > 0 { SlotsFollow(width, s, cols, n - 1, |r| - k); }
  }

  lemma RowOfMore(width: Width, l: Lines, cols: int, row: ScRow, n: nat)
    requires n > 0 && IsRowOf(width, l, cols, row, n - 1)
    ensures IsRowOf(width, l, cols, row, n)
  {}

  lemma FirstAbove(high: ScRow, low: ScRow, n: nat)
    requires high.line + 2 == n && high.end == -1 && low.line + 1 == n && low.off == 0
    ensures Above(high, low)
  {}

  lemma SomeSlots(width: Width, s: Text, cols: int, i: nat)
    ensures |Slots(width, s, cols, i)| > 0
  {
    hide LineRows;
  }

  lemma SomeRows(width: Width, l: Lines, cols: int, n: nat)
    requires n > 0
    ensures |AllRows(width, l, cols, n)| > 0
  {
    hide Slots;
    SomeSlots(width, TextOf(l, n - 1), cols, n - 1);
  }

  // What a window shows is view rows of them, back of them below it.
  lemma WindowFollows(rows: seq<ScRow>, back: nat, view: nat, k: nat)
    requires k < |Clip(rows, back, view)|
    ensures back + k < |rows| && Clip(rows, back, view)[k] == rows[back + k]
    ensures |Clip(rows, back, view)| == if |rows| - back > view then view else |rows| - back
  {}

  class Conversation {
    var lines: Lines
    // how far up the window was moved, in rows
    var back: nat

    constructor ()
      ensures lines == Lines([], []) && back == 0
    {
      lines := Lines([], []);
      back := 0;
    }

    // Fills the window from its lowest row up, skipping the rows below it, and
    // visits no line above the window.
    method ScCollect(width: Width, cols: int, view: nat, out: array<ScRow>) returns (got: nat)
      requires view <= out.Length
      modifies out
      ensures got <= view && out[..got] == Clip(AllRows(width, lines, cols, |lines.line| + 1), back, view)
    {
      hide LineRows, Clip, Slots, UsedHang, Backwards, AllRows;
      var skipped := 0;
      got := 0;
      var start := new nat[SC_MAX_ROWS];
      ghost var all, past: seq<ScRow> := AllRows(width, lines, cols, |lines.line| + 1), [];
      ClipShort<ScRow>([], back, view);
      var i: nat := |lines.line| + 1;
      while i > 0 && got < view
        invariant i <= |lines.line| + 1
        invariant got <= view && out[..got] == Clip(past, back, view) && skipped == Low(back, |past|)
        invariant past <= all && (got < view ==> all == past + AllRows(width, lines, cols, i))
      {
        i := i - 1;
        ghost var slots, before := Slots(width, TextOf(lines, i), cols, i), past;
        ghost var rest := AllRows(width, lines, cols, i);
        AllRowsNext(width, lines, cols, i);
        ghost var taken;
        got, skipped, taken := CollectLine(width, cols, i, start, view, out, got, skipped, past);
        past := past + Backwards(slots, taken);
        RestUnread(before, slots, taken, rest, all);
      }
      if got == view {
        assert all == past + all[|past|..];
        ClipFull(past, all[|past|..], back, view);
      } else {
        NoRows(width, lines, cols);
        assert past + [] == past;
      }
    }

    // The rows of line i on those of the lines after it.
    method CollectLine(width: Width, cols: int, i: nat, start: array<nat>, view: nat, out: array<ScRow>,
        got0: nat, skipped0: nat, ghost past: seq<ScRow>)
      returns (got: nat, skipped: nat, ghost taken: nat)
      requires start.Length == SC_MAX_ROWS && view <= out.Length
      requires got0 <= view && out[..got0] == Clip(past, back, view) && skipped0 == Low(back, |past|)
      modifies out, start
      ensures var slots := Slots(width, TextOf(lines, i), cols, i);
              && got <= view && taken <= |slots| && (got < view ==> taken == |slots|)
              && out[..got] == Clip(past + Backwards(slots, taken), back, view)
              && skipped == Low(back, |past + Backwards(slots, taken)|)
    {
      hide LineRows, Clip, Slots, UsedHang, Backwards;
      var text := TextOf(lines, i);
      var r := ScWrap(width, text, cols, start, SC_MAX_ROWS);
      if r > SC_MAX_ROWS {
        r := SC_MAX_ROWS;
      }
      var hang := ScHang(text);
      if hang >= cols - 8 {
        hang := 0;
      }
      HangUsed(text, cols, hang);
      ghost var slots := Slots(width, text, cols, i);
      SlotsAre(width, text, cols, i, start[..r], r, hang);
      got, skipped, taken := TakeRows(i, start, r, hang, view, out, got0, skipped0, past, slots);
    }

    // The rows of one line, the last first, past those to skip.
    method TakeRows(i: nat, start: array<nat>, r: nat, hang: nat, view: nat, out: array<ScRow>, got0: nat,
                    skipped0: nat,
        ghost past: seq<ScRow>, ghost slots: seq<ScRow>)
      returns (got: nat, skipped: nat, ghost taken: nat)
      requires r == |slots| <= start.Length && view <= out.Length
      requires forall k :: 0 <= k < r ==> slots[k] == Slot(start[..r], r, i, k, hang)
      requires got0 <= view && out[..got0] == Clip(past, back, view) && skipped0 == Low(back, |past|)
      modifies out
      ensures got <= view && taken <= r && (got < view ==> taken == r)
      ensures var now := past + Backwards(slots, taken);
              out[..got] == Clip(now, back, view) && skipped == Low(back, |now|)
    {
      hide Clip, Backwards;
      got, skipped, taken := got0, skipped0, 0;
      ghost var now, st := past, start[..r];
      assert Backwards(slots, 0) == [] && past + [] == past;
      var k := r;
      while k > 0 && got < view
        invariant 0 <= k <= r && taken == r - k && got <= view && start[..r] == st
        invariant out[..got] == Clip(now, back, view) && skipped == Low(back, |now|)
        invariant now == past + Backwards(slots, taken)
        decreases k
      {
        k := k - 1;
        var row := ScRow(i, start[k], if k + 1 < r then start[k + 1] else -1, if k > 0 then hang else 0);
        assert start[k] == st[k] && (k + 1 < r ==> start[k + 1] == st[k + 1]);
        assert row == slots[k];
        BackwardsNext(slots, taken);
        ClipOneMore(now, row, back, view);
        if |now| <= back { ClipShort(now, back, view); }
        taken := taken + 1;
        assert past + (Backwards(slots, taken - 1) + [row]) == now + [row];
        now := now + [row];
        if skipped < back {
          skipped := skipped + 1;
          continue;
        }
        out[got] := row;
        got := got + 1;
      }
    }

    // The rows of the whole conversation.
    method ScrollRows(width: Width, cols: int) returns (rows: nat)
      ensures rows == Total(width, lines, cols, |lines.line| + 1)
    {
      hide LineRows;
      var start := new nat[1];
      rows := 0;
      for i := 0 to |lines.line| + 1
        invariant rows == Total(width, lines, cols, i)
      {
        var r := ScWrap(width, TextOf(lines, i), cols, start, 1);
        rows := rows + r;
      }
    }

    // The window moved by rows, up above 0, and no further than there is
    // text; moved tells the caller to draw it.
    method ScrollMove(width: Width, cols: int, view: nat, rows: int) returns (moved: bool)
      modifies this`back
      ensures var most := Total(width, lines, cols, |lines.line| + 1) - view;
              var to := old(back) + rows;
              back == (if to > most then if most > 0 then most else 0 else if to > 0 then to else 0)
              && moved == (back != old(back))
    {
      var total := ScrollRows(width, cols);
      var most := total - view;
      if most < 0 {
        most := 0;
      }
      var to := back + rows;
      if to < 0 {
        to := 0;
      }
      if to > most {
        to := most;
      }
      if to == back {
        return false;
      }
      back := to;
      moved := true;
    }
  }

  lemma AllRowsNext(width: Width, l: Lines, cols: int, i: nat)
    ensures var slots := Slots(width, TextOf(l, i), cols, i);
            AllRows(width, l, cols, i + 1) == Backwards(slots, |slots|) + AllRows(width, l, cols, i)
  {
    hide Slots, Backwards;
  }

  lemma NoRows(width: Width, l: Lines, cols: int)
    ensures AllRows(width, l, cols, 0) == []
  {}

  lemma ClipShort<T>(rows: seq<T>, back: nat, view: nat)
    requires |rows| <= back
    ensures Clip(rows, back, view) == []
  {}

  lemma BackwardsNext<T>(s: seq<T>, k: nat)
    requires k < |s|
    ensures Backwards(s, k + 1) == Backwards(s, k) + [s[|s| - 1 - k]]
  {}

  lemma RestUnread<T>(before: seq<T>, slots: seq<T>, k: nat, rest: seq<T>, all: seq<T>)
    requires k <= |slots| && all == before + (Backwards(slots, |slots|) + rest)
    ensures before + Backwards(slots, k) <= all
    ensures k == |slots| ==> all == before + Backwards(slots, k) + rest
  {
    assert Backwards(slots, |slots|)[..k] == Backwards(slots, k);
    assert all[..|before| + k] == before + Backwards(slots, k);
  }

  lemma HangUsed(s: Text, cols: int, hang: nat)
    requires hang == if Hang(s) >= cols - 8 then 0 else Hang(s)
    ensures hang == UsedHang(s, cols)
  {}

  lemma SlotsAre(width: Width, s: Text, cols: int, i: nat, start: seq<nat>, r: nat, hang: nat)
    requires r == |start| == Capped(|LineRows(width, s, cols)|) && start == LineRows(width, s, cols)[..r]
    requires hang == UsedHang(s, cols)
    ensures forall k :: 0 <= k < r ==> Slots(width, s, cols, i)[k] == Slot(start, r, i, k, hang)
  {
    hide LineRows, UsedHang;
  }

  // After a move, where no line is cut, the window is full whenever there are
  // rows enough, and holds every row when there are not.
  lemma MovedWindowIsFull(width: Width, l: Lines, cols: int, view: nat, back: nat)
    requires NoneCut(width, l, cols)
    requires back == 0 || back + view <= Total(width, l, cols, |l.line| + 1)
    ensures var total := Total(width, l, cols, |l.line| + 1);
            |Clip(AllRows(width, l, cols, |l.line| + 1), back, view)| == Low(view, total)
  {
    hide LineRows;
    RowsCounted(width, l, cols, |l.line| + 1);
  }
}
