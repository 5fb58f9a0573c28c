// The conversation's window of src/chat/scroll.h: scroll_draw_rows remembers
// the bytes each row was drawn with, moves the region where that spares rows,
// and sends only the rows that changed.

module ScrollDraw {
  import opened Bits
  import opened Ints

  // The bytes of a row, escapes and all.
  type Bytes = seq<byte>

  // What a row of the terminal shows: what it was last drawn with since it
  // was erased, or None for anything else.
  type Row = Option<Bytes>

  const MAX_MOVE: nat := 4

  // ---- rows moved and rows that match ----

  // The first view rows of s moved up by k, blank rows coming in below.
  function Moved(s: seq<Row>, view: nat, k: nat): (r: seq<Row>)
    requires k <= view <= |s|
    ensures |r| == |s|
    ensures forall i :: 0 <= i < |s| ==> r[i] == if i >= view then s[i] else if i + k < view then s[i + k] else None
  {
    seq(|s|, i requires 0 <= i < |s| => if i >= view then s[i] else if i + k < view then s[i + k] else None)
  }

  // Of the first n rows of now, the count of those found k places on in shown.
  function Matches(shown: seq<Row>, now: seq<Bytes>, k: nat, n: nat): (m: nat)
    requires n + k <= |shown| && n <= |now|
    ensures m <= n
  {
    if n == 0 then 0
    else Matches(shown, now, k, n - 1) + if shown[n - 1 + k] == Some(now[n - 1]) then 1 else 0
  }

  // Rows of now that are not as shown, of the first n: those to send.
  function Different(shown: seq<Row>, now: seq<Bytes>, n: nat): (m: nat)
    requires n <= |shown| && n <= |now|
    ensures m <= n
  {
    if n == 0 then 0
    else Different(shown, now, n - 1) + if shown[n - 1] == Some(now[n - 1]) then 0 else 1
  }

  // A move spares as many rows as match.
  lemma {:induction false} MoveSpares(shown: seq<Row>, now: seq<Bytes>, view: nat, k: nat, n: nat)
    requires k <= view <= |shown| && n <= view <= |now|
    ensures n + k <= view ==> Different(Moved(shown, view, k), now, n) == n - Matches(shown, now, k, n)
    ensures n + k > view ==> Different(Moved(shown, view, k), now, n) == n - Matches(shown, now, k, view - k)
  {
    if n > 0 { MoveSpares(shown, now, view, k, n - 1); }
  }

  // The rows a move by k spares.
  function Spared(shown: seq<Row>, now: seq<Bytes>, view: nat, k: nat): nat
    requires k <= view <= |shown| && view <= |now|
  {
    Matches(shown, now, k, view - k)
  }

  lemma MovedDiffers(shown: seq<Row>, now: seq<Bytes>, view: nat, k: nat)
    requires k <= view <= |shown| && view <= |now|
    ensures Different(Moved(shown, view, k), now, view) == view - Spared(shown, now, view, k)
  {
    MoveSpares(shown, now, view, k, view);
  }

  // A move of at most 4 rows, and less than the window.
  predicate MoveOk(view: nat, k: nat) {
    k <= MAX_MOVE && k < view
  }

  lemma MovesAre(view: nat)
    ensures forall k: nat :: MoveOk(view, k) <==> k < view && k <= 4
  {}

  // k leaves the fewest rows to send, and is the smallest that does.
  ghost predicate BestMove(shown: seq<Row>, now: seq<Bytes>, view: nat, k: nat)
    requires view <= |shown| && view <= |now|
  {
    && MoveOk(view, k)
    && forall j: nat :: MoveOk(view, j) ==>
         && Different(Moved(shown, view, k), now, view) <= Different(Moved(shown, view, j), now, view)
         && (j < k ==> Different(Moved(shown, view, k), now, view) < Different(Moved(shown, view, j), now, view))
  }

  // ---- one drawing ----

  // Terminal and store together, and whether the terminal's rows have been
  // touched since the last drawing.
  datatype State = State(view: nat, cols: nat, cleared: u32, screen: seq<Row>,
                         shown: seq<Row>, shownView: nat, shownCols: nat, shownCleared: u32, shownFull: bool,
                         touched: bool)

  predicate StateOk(s: State) {
    1 <= s.view <= |s.screen| && |s.shown| == s.shownView
  }

  predicate Trusts(s: State, partial: bool) {
    partial && s.shownView == s.view && s.shownCols == s.cols && s.shownCleared == s.cleared
  }

  // s' is s after a drawing that moved the window by move.
  ghost predicate DrawnBy(s: State, now: seq<Bytes>, got: nat, partial: bool, s': State, move: nat)
    requires StateOk(s) && |now| == s.view
  {
    var known := Trusts(s, partial);
    && move < s.view
    && (!known || got < s.view || !s.shownFull ==> move == 0)
    && (known && got >= s.view && s.shownFull ==> BestMove(s.shown, now, s.view, move))
    && s'.view == s.view == s'.shownView && s'.cols == s.cols == s'.shownCols
    && s'.cleared == s.cleared == s'.shownCleared && s'.shownFull == (got >= s.view) && !s'.touched
    && |s'.shown| == s.view && (forall r :: 0 <= r < s.view ==> s'.shown[r] == Some(now[r]))
    && |s'.screen| == |s.screen| && s'.screen[s.view..] == s.screen[s.view..]
    && forall r :: 0 <= r < s.view ==>
         s'.screen[r] == if known && Moved(s.shown, s.view, move)[r] == Some(now[r])
                         then Moved(s.screen, s.view, move)[r] else Some(now[r])
  }

  // ---- what the store tells of a drawing ----

  // The best of the moves up to k.
  function BestUpTo(shown: seq<Row>, now: seq<Bytes>, view: nat, k: nat): (best: nat)
    requires k <= view <= |shown| && view <= |now|
    ensures best <= k
  {
    if k == 0 then 0
    else
      var best := BestUpTo(shown, now, view, k - 1);
      if Spared(shown, now, view, k) > Spared(shown, now, view, best) then k else best
  }

  lemma {:induction false} BestIsBest(shown: seq<Row>, now: seq<Bytes>, view: nat, k: nat)
    requires k <= view <= |shown| && view <= |now|
    ensures var best := BestUpTo(shown, now, view, k);
            forall j: nat :: j <= k ==>
              && Spared(shown, now, view, j) <= Spared(shown, now, view, best)
              && (j < best ==> Spared(shown, now, view, j) < Spared(shown, now, view, best))
  {
    hide Spared;
    if k > 0 { BestIsBest(shown, now, view, k - 1); }
  }

  // The move of a drawing that trusts what is remembered.
  function MoveOf(s: State, now: seq<Bytes>, got: nat): (move: nat)
    requires StateOk(s) && s.shownView == s.view == |now|
    ensures move < s.view
  {
    if got >= s.view && s.shownFull then
      BestUpTo(s.shown, now, s.view, if s.view <= MAX_MOVE then s.view - 1 else MAX_MOVE)
    else 0
  }

  // A drawing leaves a row of the screen as it is.
  predicate LeavesRows(s: State, now: seq<Bytes>, got: nat, partial: bool)
    requires StateOk(s) && |now| == s.view
  {
    && Trusts(s, partial)
    && var move := MoveOf(s, now, got); exists r :: 0 <= r < s.view - move && s.shown[r + move] == Some(now[r])
  }

  // There is no other move it could make.
  lemma OneMove(s: State, now: seq<Bytes>, got: nat, partial: bool, s': State, move: nat)
    requires StateOk(s) && |now| == s.view && Trusts(s, partial) && DrawnBy(s, now, got, partial, s', move)
    ensures move == MoveOf(s, now, got)
  {
    hide Different, Spared, Moved;
    if got >= s.view && s.shownFull {
      MoveIsBest(s, now, got);
      assert MoveOk(s.view, move) && MoveOk(s.view, MoveOf(s, now, got));
    }
  }

  lemma MoveIsBest(s: State, now: seq<Bytes>, got: nat)
    requires StateOk(s) && s.shownView == s.view == |now| && got >= s.view && s.shownFull
    ensures BestMove(s.shown, now, s.view, MoveOf(s, now, got))
  {
    hide Different, Spared, Moved;
    var most := if s.view <= MAX_MOVE then s.view - 1 else MAX_MOVE;
    BestIsBest(s.shown, now, s.view, most);
    var best := MoveOf(s, now, got);
    forall j: nat | MoveOk(s.view, j)
      ensures Different(Moved(s.shown, s.view, best), now, s.view) <= Different(Moved(s.shown, s.view, j), now, s.view)
      ensures j < best ==>
        Different(Moved(s.shown, s.view, best), now, s.view) < Different(Moved(s.shown, s.view, j), now, s.view)
    {
      MovedDiffers(s.shown, now, s.view, best);
      MovedDiffers(s.shown, now, s.view, j);
    }
  }

  // ---- terminal and store ----

  class Term {
    var rows: nat
    var cols: nat
    var footerRows: nat
    var cleared: u32
    // the rows from the top, row 1 first
    var screen: seq<Row>

    constructor (rows: nat, cols: nat, footerRows: nat)
      ensures this.rows == rows && this.cols == cols && this.footerRows == footerRows && cleared == 0
      ensures screen == seq(rows, _ => None)
    {
      this.rows := rows;
      this.cols := cols;
      this.footerRows := footerRows;
      cleared := 0;
      screen := seq(rows, _ => None);
    }

    // The rows above the footer, one at the least.
    function View(): (v: nat)
      reads this
      ensures if footerRows < rows then v + footerRows == rows else v == 1
    {
      if rows < footerRows + 1 then 1 else rows - footerRows
    }

    // Erase row r, and write bytes from its first column.
    method DrawRow(r: nat, bytes: Bytes)
      requires 1 <= r <= |screen|
      modifies this`screen
      ensures screen == old(screen)[r - 1 := Some(bytes)]
    {
      screen := screen[r - 1 := Some(bytes)];
    }

    // The region is rows 1 to view: k newlines on its last row.
    method Newlines(view: nat, k: nat)
      requires k <= view <= |screen|
      modifies this`screen
      ensures screen == Moved(old(screen), view, k)
    {
      screen := Moved(screen, view, k);
    }

    // The screen cleared, and counted.
    method Clear()
      modifies this`screen, this`cleared
      ensures screen == seq(|old(screen)|, _ => None) && cleared == U32(old(cleared) + 1)
    {
      screen := seq(|screen|, _ => None);
      cleared := U32(cleared + 1);
    }
  }

  class Scroll {
    // what the last drawing put in each row, None where that is unknown
    var shown: seq<Row>
    var shownView: nat
    var shownCols: nat
    var shownFull: bool
    var shownCleared: u32

    ghost predicate Valid()
      reads this
    {
      |shown| == shownView
    }

    // The terminal and the store as one state.
    ghost function With(t: Term, touched: bool): State
      reads this, t
    {
      State(t.View(), t.cols, t.cleared, t.screen, shown, shownView, shownCols, shownCleared, shownFull, touched)
    }

    constructor ()
      ensures Valid() && shownView == 0 && shownCols == 0
    {
      shown, shownView, shownCols, shownFull, shownCleared := [], 0, 0, false, 0;
    }

    // The store trusts what it remembers.
    predicate Known(t: Term, partial: bool)
      reads this, t
    {
      partial && shownView == t.View() && shownCols == t.cols && shownCleared == t.cleared
    }

    // The move that spares most rows: 0 when none does.
    method FindMove(now: seq<Bytes>, view: nat) returns (best: nat)
      requires Valid() && view >= 1 && |now| == view == |shown|
      ensures best < view && BestMove(shown, now, view, best)
    {
      best := 0;
      var most := -1;
      var k := 0;
      while k <= MAX_MOVE && k < view
        invariant 0 <= k <= MAX_MOVE + 1 && k <= view
        invariant k == 0 ==> most == -1 && best == 0
        invariant k > 0 ==> best < k && MoveOk(view, best) && most == Spared(shown, now, view, best)
        invariant forall j :: 0 <= j < k ==> Spared(shown, now, view, j) <= most
        invariant forall j :: 0 <= j < best ==> Spared(shown, now, view, j) < most
        decreases view - k
      {
        var match_ := 0;
        for r := 1 to view - k + 1
          invariant match_ == Matches(shown, now, k, r - 1)
        {
          match_ := match_ + if shown[r + k - 1] == Some(now[r - 1]) then 1 else 0;
        }
        if match_ > most {
          most := match_;
          best := k;
        }
        k := k + 1;
      }
      forall j: nat | MoveOk(view, j)
        ensures Different(Moved(shown, view, best), now, view) <= Different(Moved(shown, view, j), now, view)
        ensures j < best ==>
                  Different(Moved(shown, view, best), now, view) < Different(Moved(shown, view, j), now, view)
      {
        MovedDiffers(shown, now, view, best);
        MovedDiffers(shown, now, view, j);
      }
    }

    // The rows sent whose bytes are not those remembered, all of them when
    // nothing is trusted.
    method SendRows(t: Term, now: seq<Bytes>, known: bool) returns (sent: nat)
      requires |shown| == |now| <= |t.screen|
      modifies this`shown, t`screen
      ensures |shown| == |now| && forall r :: 0 <= r < |now| ==> shown[r] == Some(now[r])
      ensures |t.screen| == |old(t.screen)| && t.screen[|now|..] == old(t.screen)[|now|..]
      ensures forall r :: 0 <= r < |now| ==>
        t.screen[r] == if known && old(shown)[r] == Some(now[r]) then old(t.screen)[r] else Some(now[r])
      ensures sent == if known then Different(old(shown), now, |now|) else |now|
    {
      ghost var shown0, screen0 := shown, t.screen;
      sent := 0;
      for r := 1 to |now| + 1
        invariant |shown| == |now| && |t.screen| == |screen0|
        invariant forall i :: r - 1 <= i < |now| ==> shown[i] == shown0[i]
        invariant forall i :: r - 1 <= i < |t.screen| ==> t.screen[i] == screen0[i]
        invariant forall i :: 0 <= i < r - 1 ==> shown[i] == Some(now[i])
        invariant forall i :: 0 <= i < r - 1 ==>
          t.screen[i] == if known && shown0[i] == Some(now[i]) then screen0[i] else Some(now[i])
        invariant sent == if known then Different(shown0, now, r - 1) else r - 1
      {
        if known && shown[r - 1] == Some(now[r - 1]) {
          continue;
        }
        t.DrawRow(r, now[r - 1]);
        sent := sent + 1;
        shown := shown[r - 1 := Some(now[r - 1])];
      }
    }

    // The window drawn with now, of which got rows have text. Rows the store
    // trusts are not sent again; sent counts those that are.
    method DrawRows(t: Term, now: seq<Bytes>, got: nat, partial: bool) returns (sent: nat, ghost move: nat)
      requires Valid() && |now| == t.View() <= |t.screen|
      modifies this, t`screen
      ensures Valid() && StateOk(old(With(t, false)))
      ensures DrawnBy(old(With(t, false)), now, got, partial, With(t, false), move)
      ensures sent == if old(Known(t, partial)) then Different(Moved(old(shown), t.View(), move), now, t.View())
              else t.View()
      ensures t.footerRows < t.rows ==>
                && |now| + t.footerRows == t.rows
                && t.screen[t.rows - t.footerRows..] == old(t.screen[t.rows - t.footerRows..])
    {
      hide BestMove, Different;
      var view := t.View();
      var known := Known(t, partial);
      if !known {
        shown := seq(view, _ => None);
        shownView := view;
        shownCols := t.cols;
        shownCleared := t.cleared;
      }
      move := 0;
      assert Moved(shown, view, 0) == shown && Moved(t.screen, view, 0) == t.screen;
      if known && got >= view && shownFull {
        var best := FindMove(now, view);
        move := best;
        if best > 0 {
          t.Newlines(view, best);
          shown := Moved(shown, view, best);
        }
      }
      sent := SendRows(t, now, known);
      shownFull := got >= view;
    }
  }

  // ---- every run ----

  // What can happen: a drawing of view rows; the screen cleared and counted;
  // the window or the footer given another size, its rows then anything.
  datatype Event =
    | Draw(now: seq<Bytes>, got: nat, partial: bool)
    | Clear
    | Resize(view: nat, cols: nat, screen: seq<Row>)

  ghost predicate Truthful(s: State) {
    forall r :: 0 <= r < |s.shown| && r < |s.screen| && s.shown[r].Some? ==> s.screen[r] == s.shown[r]
  }

  ghost predicate Shows(s: State, now: seq<Bytes>) {
    |now| <= |s.screen| && forall r :: 0 <= r < |now| ==> s.screen[r] == Some(now[r])
  }

  predicate EventOk(s: State, e: Event) {
    match e
    case Draw(now, _, _) => |now| == s.view
    case Clear => true
    case Resize(view, _, screen) => 1 <= view <= |screen|
  }

  // What DrawRows ensures, with a move the search could have given.
  ghost predicate Drawn(s: State, now: seq<Bytes>, got: nat, partial: bool, s': State)
    requires StateOk(s) && |now| == s.view
  {
    exists move: nat :: DrawnBy(s, now, got, partial, s', move)
  }

  ghost predicate Step(s: State, e: Event, s': State)
    requires StateOk(s) && EventOk(s, e)
  {
    match e
    case Draw(now, got, partial) => Drawn(s, now, got, partial, s')
    case Clear => s' == s.(screen := seq(|s.screen|, _ => None), cleared := U32(s.cleared + 1), touched := true)
    case Resize(view, cols, screen) => s' == s.(view := view, cols := cols, screen := screen, touched := true)
  }

  // Before any drawing nothing is remembered.
  predicate Initial(s: State) {
    StateOk(s) && s.shownView == 0 && s.shown == []
  }

  // A touch is harmless to a drawing that does not trust what is remembered,
  // or that leaves no row of it alone: the store alone tells.
  predicate Harmless(s: State, e: Event)
    requires StateOk(s) && EventOk(s, e)
  {
    e.Draw? && s.touched ==> !LeavesRows(s, e.now, e.got, e.partial)
  }

  // A run from its states and events.
  ghost predicate IsRun(states: seq<State>, events: seq<Event>) {
    && |states| == |events| + 1 && Initial(states[0])
    && forall i :: 0 <= i < |events| ==>
         StateOk(states[i]) && EventOk(states[i], events[i]) && Step(states[i], events[i], states[i + 1])
  }

  // Kept by every step: what is remembered is shown, unless the window has
  // been touched since.
  ghost predicate Inv(s: State) {
    StateOk(s) && (!s.touched ==> Truthful(s))
  }

  lemma InitialInv(s: State)
    requires Initial(s)
    ensures Inv(s)
  {}

  lemma DrawGives(s: State, now: seq<Bytes>, got: nat, partial: bool, s': State)
    requires StateOk(s) && |now| == s.view && Drawn(s, now, got, partial, s')
    requires LeavesRows(s, now, got, partial) ==> Truthful(s)
    ensures Inv(s') && Shows(s', now)
  {
    hide DrawnBy, MoveOf;
    var move: nat :| DrawnBy(s, now, got, partial, s', move);
    if Trusts(s, partial) { OneMove(s, now, got, partial, s', move); }
    RightExactlyWhen(s, now, got, partial, s', move);
    DrawRemembers(s, now, got, partial, s', move);
  }

  lemma DrawRemembers(s: State, now: seq<Bytes>, got: nat, partial: bool, s': State, move: nat)
    requires StateOk(s) && |now| == s.view && DrawnBy(s, now, got, partial, s', move)
    ensures StateOk(s') && |s'.shown| == |now| && forall r :: 0 <= r < |now| ==> s'.shown[r] == Some(now[r])
  {
    hide BestMove, Moved;
  }

  lemma StepKeepsInv(s: State, e: Event, s': State)
    requires Inv(s) && EventOk(s, e) && Step(s, e, s') && Harmless(s, e)
    ensures Inv(s')
    ensures e.Draw? ==> Shows(s', e.now)
  {
    hide BestMove, Drawn, MoveOf;
    if e.Draw? { DrawGives(s, e.now, e.got, e.partial, s'); }
  }

  // In every run whose touches are harmless, after every drawing the screen
  // is what a full drawing gives, and what is remembered is what is shown.
  lemma {:induction false} RunsShow(states: seq<State>, events: seq<Event>, n: nat)
    requires IsRun(states, events) && n <= |events|
    requires forall i :: 0 <= i < n ==> Harmless(states[i], events[i])
    ensures Inv(states[n])
    ensures n > 0 && events[n - 1].Draw? ==> Shows(states[n], events[n - 1].now)
  {
    hide Step, Harmless, Inv, Shows;
    if n == 0 {
      InitialInv(states[0]);
    } else {
      RunsShow(states, events, n - 1);
      StepKeepsInv(states[n - 1], events[n - 1], states[n]);
    }
  }

  // A drawing is right exactly when every row it left alone showed what was
  // remembered of it.
  lemma RightExactlyWhen(s: State, now: seq<Bytes>, got: nat, partial: bool, s': State, move: nat)
    requires StateOk(s) && |now| == s.view && DrawnBy(s, now, got, partial, s', move)
    ensures Shows(s', now) <==>
      (Trusts(s, partial) ==>
        forall r :: 0 <= r < s.view - move && s.shown[r + move] == Some(now[r]) ==> s.screen[r + move] == Some(now[r]))
  {
    hide BestMove;
    if Trusts(s, partial) {
      if Shows(s', now) {
        forall r | 0 <= r < s.view - move && s.shown[r + move] == Some(now[r])
          ensures s.screen[r + move] == Some(now[r])
        {
          assert Moved(s.shown, s.view, move)[r] == Some(now[r]);
        }
      } else {
        assert forall r :: 0 <= r < s.view && Moved(s.shown, s.view, move)[r] == Some(now[r]) ==> r < s.view - move;
      }
    }
  }

  // ---- touches ----

  // s with its window touched, which leaves screen on the terminal.
  function Touched(s: State, screen: seq<Row>): State {
    s.(screen := screen, touched := true)
  }

  // However a drawing goes on, the window shows it.
  ghost predicate RightFrom(s: State, now: seq<Bytes>, got: nat, partial: bool) {
    StateOk(s) && |now| == s.view ==> forall s' :: Drawn(s, now, got, partial, s') ==> Shows(s', now)
  }

  // A drawing can be made from any state.
  lemma CanDraw(s: State, now: seq<Bytes>, got: nat, partial: bool) returns (s': State)
    requires StateOk(s) && |now| == s.view
    ensures Drawn(s, now, got, partial, s')
  {
    hide BestMove, MoveOf;
    var known := Trusts(s, partial);
    var move := if known then MoveOf(s, now, got) else 0;
    if known && got >= s.view && s.shownFull { MoveIsBest(s, now, got); }
    var moved := Moved(s.screen, s.view, move);
    var was := if known then Moved(s.shown, s.view, move) else seq(s.view, _ => None);
    s' := s.(shownView := s.view, shownCols := s.cols, shownCleared := s.cleared, shownFull := got >= s.view,
      touched := false,
             shown := seq(s.view, r requires 0 <= r < s.view => Some(now[r])),
             screen := seq(s.view, r requires 0 <= r < s.view =>
               if known && was[r] == Some(now[r]) then moved[r] else Some(now[r])) + s.screen[s.view..]);
    if known && !(got >= s.view && s.shownFull) { MoveOfNone(s, now, got, partial); }
    assert DrawnBy(s, now, got, partial, s', move);
  }

  lemma MoveOfNone(s: State, now: seq<Bytes>, got: nat, partial: bool)
    requires StateOk(s) && |now| == s.view && Trusts(s, partial)
    ensures got < s.view || !s.shownFull ==> MoveOf(s, now, got) == 0
  {}

  // A drawing is right whatever a touch before it has left on the terminal
  // exactly when it leaves no row alone.
  lemma RightHoweverTouched(s: State, now: seq<Bytes>, got: nat, partial: bool)
    requires StateOk(s) && |now| == s.view
    ensures (forall screen: seq<Row> :: s.view <= |screen| ==> RightFrom(Touched(s, screen), now, got, partial))
            <==> !LeavesRows(s, now, got, partial)
  {
    hide Drawn, DrawnBy, MoveOf, Shows;
    if LeavesRows(s, now, got, partial) {
      var blank: seq<Row> := seq(s.view, _ => None);
      BlankIsWrong(s, blank, now, got, partial);
    } else {
      forall screen: seq<Row> | s.view <= |screen| ensures RightFrom(Touched(s, screen), now, got, partial) {
        SameMove(s, screen, now, got, partial);
        forall s' | Drawn(Touched(s, screen), now, got, partial, s') ensures Shows(s', now) {
          DrawGives(Touched(s, screen), now, got, partial, s');
        }
      }
    }
  }

  // What is on the terminal does not change what a drawing leaves alone.
  lemma SameMove(s: State, screen: seq<Row>, now: seq<Bytes>, got: nat, partial: bool)
    requires StateOk(s) && |now| == s.view <= |screen|
    ensures LeavesRows(Touched(s, screen), now, got, partial) <==> LeavesRows(s, now, got, partial)
  {}

  lemma BlankIsWrong(s: State, blank: seq<Row>, now: seq<Bytes>, got: nat, partial: bool)
    requires StateOk(s) && |now| == s.view && LeavesRows(s, now, got, partial)
    requires |blank| == s.view && forall r :: 0 <= r < |blank| ==> blank[r] == None
    ensures !RightFrom(Touched(s, blank), now, got, partial)
  {
    hide DrawnBy, MoveOf, Shows;
    var t := Touched(s, blank);
    SameMove(s, blank, now, got, partial);
    var s' := CanDraw(t, now, got, partial);
    var move: nat :| DrawnBy(t, now, got, partial, s', move);
    OneMove(t, now, got, partial, s', move);
    RightExactlyWhen(t, now, got, partial, s', move);
  }

  // So it is in every run: a window touched once more, its size given back,
  // is drawn right whatever the touch left exactly when no row is left alone.
  lemma TouchedRunIsRight(states: seq<State>, events: seq<Event>, now: seq<Bytes>, got: nat, partial: bool)
    requires IsRun(states, events) && StateOk(states[|events|]) && |now| == states[|events|].view
    ensures var s := states[|events|];
            (forall screen: seq<Row>, s' :: s.view <= |screen|
               && IsRun(states + [Touched(s, screen), s'],
                        events + [Resize(s.view, s.cols, screen), Draw(now, got, partial)])
               ==> Shows(s', now))
            <==> !LeavesRows(s, now, got, partial)
  {
    hide Drawn, LeavesRows, Shows;
    var s := states[|events|];
    RightHoweverTouched(s, now, got, partial);
    forall screen: seq<Row>, s' | s.view <= |screen|
      ensures IsRun(states + [Touched(s, screen), s'],
                    events + [Resize(s.view, s.cols, screen), Draw(now, got, partial)])
              <==> Drawn(Touched(s, screen), now, got, partial, s')
    {
      RunGoesOn(states, events, screen, s', now, got, partial);
    }
    if LeavesRows(s, now, got, partial) {
      var screen: seq<Row> :| s.view <= |screen| && !RightFrom(Touched(s, screen), now, got, partial);
      var s' :| Drawn(Touched(s, screen), now, got, partial, s') && !Shows(s', now);
      assert IsRun(states + [Touched(s, screen), s'],
                   events + [Resize(s.view, s.cols, screen), Draw(now, got, partial)]);
    } else {
      forall screen: seq<Row>, s' | s.view <= |screen|
        && IsRun(states + [Touched(s, screen), s'], events + [Resize(s.view, s.cols, screen), Draw(now, got, partial)])
        ensures Shows(s', now)
      {
        assert RightFrom(Touched(s, screen), now, got, partial);
      }
    }
  }

  lemma RunGoesOn(states: seq<State>, events: seq<Event>, screen: seq<Row>, s': State, now: seq<Bytes>, got: nat,
                  partial: bool)
    requires IsRun(states, events) && StateOk(states[|events|])
    requires |now| == states[|events|].view <= |screen|
    ensures var s := states[|events|];
            IsRun(states + [Touched(s, screen), s'], events + [Resize(s.view, s.cols, screen), Draw(now, got, partial)])
            <==> Drawn(Touched(s, screen), now, got, partial, s')
  {
    hide Drawn;
    var s, n := states[|events|], |events|;
    var on := states + [Touched(s, screen), s'];
    var more := events + [Resize(s.view, s.cols, screen), Draw(now, got, partial)];
    assert on[n] == s && on[n + 1] == Touched(s, screen) && on[n + 2] == s';
    assert more[n] == Resize(s.view, s.cols, screen) && more[n + 1] == Draw(now, got, partial);
    forall i | 0 <= i < n ensures StateOk(on[i]) && EventOk(on[i], more[i]) && Step(on[i], more[i], on[i + 1]) {
      assert on[i] == states[i] && on[i + 1] == states[i + 1] && more[i] == events[i];
    }
    if IsRun(on, more) {
      assert Step(on[n + 1], more[n + 1], on[n + 1 + 1]);
    }
  }

  // A window made smaller and given its size back between two drawings is
  // not seen: the row the terminal lost stays lost.
  lemma ResizeBackIsNotSeen(row: Bytes) returns (states: seq<State>, events: seq<Event>)
    ensures IsRun(states, events) && |events| == 4
    ensures events[3] == Draw([row], 1, true) && !Shows(states[4], [row])
  {
    hide BestMove;
    var blank: seq<Row> := [None];
    var s0 := State(1, 80, 0, blank, [], 0, 0, 0, false, false);
    var s1 := State(1, 80, 0, [Some(row)], [Some(row)], 1, 80, 0, true, false);
    var s2 := s1.(cols := 40, screen := blank, touched := true);
    var s3 := s2.(cols := 80, screen := blank, touched := true);
    var s4 := s3.(touched := false);
    states := [s0, s1, s2, s3, s4];
    events := [Draw([row], 1, false), Resize(1, 40, blank), Resize(1, 80, blank), Draw([row], 1, true)];
    assert DrawnBy(s0, [row], 1, false, s1, 0);
    OnlyMove([Some(row)], [row]);
    assert DrawnBy(s3, [row], 1, true, s4, 0);
    assert s4.screen[0] != Some(row);
  }

  lemma OnlyMove(shown: seq<Row>, now: seq<Bytes>)
    requires |shown| == |now| == 1
    ensures BestMove(shown, now, 1, 0)
  {}
}
