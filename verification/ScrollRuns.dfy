// Every run of drawings, clears and changes of size in src/chat/scroll.h, by
// its events alone: when the screen is right after every drawing.

module ScrollRuns {
  import opened Bits
  import opened Ints
  import opened ScrollDraw

  // ---- what the events tell ----

  // A state without what its screen shows.
  function Bare(s: State): State {
    s.(screen := seq(s.view, _ => None))
  }

  function Known(now: seq<Bytes>): seq<Row> {
    seq(|now|, r requires 0 <= r < |now| => Some(now[r]))
  }

  // What an event does to it.
  function Next(t: State, e: Event): State {
    if e.Draw? then
      t.(shownView := t.view, shownCols := t.cols, shownCleared := t.cleared, shownFull := e.got >= t.view,
         shown := Known(e.now), touched := false)
    else if e.Clear? then t.(cleared := U32(t.cleared + 1), touched := true)
    else Bare(t.(view := e.view, cols := e.cols, touched := true))
  }

  // What the store knows after events from s0, whatever the screen shows.
  function Told(s0: State, events: seq<Event>): State {
    if events == [] then Bare(s0) else Next(Told(s0, events[..|events| - 1]), events[|events| - 1])
  }

  lemma ToldOn(s0: State, events: seq<Event>, e: Event)
    ensures Told(s0, events + [e]) == Next(Told(s0, events), e)
  {
    assert (events + [e])[..|events|] == events;
  }

  // A step does to a state what the events tell.
  lemma StepTells(s: State, e: Event, s': State, s0: State, events: seq<Event>)
    requires StateOk(s) && EventOk(s, e) && Step(s, e, s') && Told(s0, events) == Bare(s)
    ensures Told(s0, events + [e]) == Bare(s') && StateOk(s')
  {
    hide BestMove, Told, MoveOf;
    ToldOn(s0, events, e);
    if e.Draw? {
      var move: nat :| DrawnBy(s, e.now, e.got, e.partial, s', move);
      assert s'.shown == Known(e.now);
    }
  }

  lemma {:induction false} EventsTell(states: seq<State>, events: seq<Event>, n: nat)
    requires IsRun(states, events) && n <= |events|
    ensures Told(states[0], events[..n]) == Bare(states[n]) && StateOk(states[n])
  {
    hide Told, Step;
    if n == 0 {
      NothingTold(states[0]);
      assert events[..0] == [];
    } else {
      EventsTell(states, events, n - 1);
      StepTells(states[n - 1], events[n - 1], states[n], states[0], events[..n - 1]);
      assert events[..n] == events[..n - 1] + [events[n - 1]];
    }
  }

  lemma NothingTold(s0: State)
    ensures Told(s0, []) == Bare(s0)
  {}

  // The events can be, one after another.
  predicate EventsOk(s0: State, events: seq<Event>) {
    forall i :: 0 <= i < |events| ==> StateOk(Told(s0, events[..i])) && EventOk(Told(s0, events[..i]), events[i])
  }

  // Event i is no drawing of a touched window, or one that leaves no row
  // alone.
  predicate HarmlessAt(s0: State, events: seq<Event>, i: nat)
    requires EventsOk(s0, events) && i < |events|
  {
    Harmless(Told(s0, events[..i]), events[i])
  }

  lemma HarmlessTold(states: seq<State>, events: seq<Event>, i: nat)
    requires IsRun(states, events) && i < |events|
    ensures EventsOk(states[0], events) && (HarmlessAt(states[0], events, i) <==> Harmless(states[i], events[i]))
  {
    hide Told, Step, LeavesRows;
    RunIsOk(states, events);
    EventsTell(states, events, i);
    if events[i].Draw? {
      SameMove(states[i], Bare(states[i]).screen, events[i].now, events[i].got, events[i].partial);
      SameLeft(Bare(states[i]), events[i].now, events[i].got, events[i].partial);
    }
  }

  lemma SameLeft(s: State, now: seq<Bytes>, got: nat, partial: bool)
    requires StateOk(s) && |now| == s.view
    ensures LeavesRows(Touched(s, s.screen), now, got, partial) <==> LeavesRows(s, now, got, partial)
  {}

  lemma RunIsOk(states: seq<State>, events: seq<Event>)
    requires IsRun(states, events)
    ensures EventsOk(states[0], events)
  {
    hide Told, Step;
    forall i | 0 <= i < |events|
      ensures StateOk(Told(states[0], events[..i])) && EventOk(Told(states[0], events[..i]), events[i])
    {
      EventsTell(states, events, i);
    }
  }

  // ---- when every drawing is right ----

  // The same events, but for what a change of size leaves on the screen.
  predicate SameEvent(e: Event, f: Event) {
    if e.Resize? && f.Resize? then e.view == f.view && e.cols == f.cols else e == f
  }

  predicate SameEvents(es: seq<Event>, fs: seq<Event>) {
    |es| == |fs| && forall i :: 0 <= i < |es| ==> SameEvent(es[i], fs[i])
  }

  lemma {:induction false} SameTold(s0: State, es: seq<Event>, fs: seq<Event>)
    requires SameEvents(es, fs)
    ensures Told(s0, es) == Told(s0, fs)
    decreases |es|
  {
    if es != [] {
      var n := |es| - 1;
      SameTold(s0, es[..n], fs[..n]);
      assert SameEvent(es[n], fs[n]);
    }
  }

  // After every drawing the screen is what a full drawing gives.
  ghost predicate AllShow(states: seq<State>, events: seq<Event>)
    requires |states| == |events| + 1
  {
    forall i :: 0 <= i < |events| && events[i].Draw? ==> Shows(states[i + 1], events[i].now)
  }

  lemma HarmlessRunsShow(states: seq<State>, events: seq<Event>)
    requires IsRun(states, events) && EventsOk(states[0], events)
    requires forall i :: 0 <= i < |events| ==> HarmlessAt(states[0], events, i)
    ensures AllShow(states, events)
  {
    hide Told, Step, Shows, EventsOk, HarmlessAt, Harmless;
    forall i | 0 <= i < |events| ensures Harmless(states[i], events[i]) { HarmlessTold(states, events, i); }
    forall i | 0 <= i < |events| && events[i].Draw? ensures Shows(states[i + 1], events[i].now) {
      RunsShow(states, events, i + 1);
    }
  }

  // Every change of size leaves nothing on the screen.
  function Blanked(events: seq<Event>): (es: seq<Event>)
    ensures SameEvents(es, events)
  {
    seq(|events|, i requires 0 <= i < |events| =>
          if events[i].Resize? then Resize(events[i].view, events[i].cols, seq(events[i].view, _ => None))
          else events[i])
  }

  // A touched window that was drawn before shows nothing.
  ghost predicate BlankIfTouched(s: State) {
    s.touched && s.shownView > 0 ==> forall r :: 0 <= r < |s.screen| ==> s.screen[r] == None
  }

  lemma BlankStep(s: State, e: Event) returns (s': State)
    requires StateOk(s) && EventOk(s, e) && BlankIfTouched(s)
    requires e.Resize? ==> forall r :: 0 <= r < |e.screen| ==> e.screen[r] == None
    ensures Step(s, e, s') && BlankIfTouched(s')
  {
    hide Drawn, MoveOf;
    match e {
      case Draw(now, got, partial) =>
        s' := CanDraw(s, now, got, partial);
        DrawnIsUntouched(s, now, got, partial, s');
      case Clear =>
        s' := s.(screen := seq(|s.screen|, _ => None), cleared := U32(s.cleared + 1), touched := true);
      case Resize(view, cols, screen) =>
        s' := s.(view := view, cols := cols, screen := screen, touched := true);
    }
  }

  lemma DrawnIsUntouched(s: State, now: seq<Bytes>, got: nat, partial: bool, s': State)
    requires StateOk(s) && |now| == s.view && Drawn(s, now, got, partial, s')
    ensures !s'.touched
  {
    hide BestMove, MoveOf, Moved;
  }

  // Such a run can be, whatever the events.
  lemma {:induction false} BlankRun(s0: State, events: seq<Event>) returns (states: seq<State>)
    requires Initial(s0) && EventsOk(s0, events)
    ensures IsRun(states, Blanked(events)) && states[0] == s0
    ensures forall i :: 0 <= i < |states| ==> StateOk(states[i]) && BlankIfTouched(states[i])
    decreases |events|
  {
    hide Told, Step;
    if events == [] {
      states := [s0];
    } else {
      var n := |events| - 1;
      var front := events[..n];
      EventsOkFront(s0, events);
      var before := BlankRun(s0, front);
      BlankedFront(events);
      var e := Blanked(events)[n];
      EventsTell(before, Blanked(front), n);
      assert Blanked(front)[..n] == Blanked(front);
      SameTold(s0, Blanked(front), front);
      BlankedOk(s0, events, n, before[n]);
      var s' := BlankStep(before[n], e);
      StepIsOk(before[n], e, s');
      states := before + [s'];
      RunOn(before, Blanked(front), e, s');
      assert Blanked(events) == Blanked(front) + [e];
    }
  }

  lemma EventsOkFront(s0: State, events: seq<Event>)
    requires EventsOk(s0, events) && events != []
    ensures EventsOk(s0, events[..|events| - 1])
  {
    hide Told;
    var front := events[..|events| - 1];
    forall i | 0 <= i < |front| ensures StateOk(Told(s0, front[..i])) && EventOk(Told(s0, front[..i]), front[i]) {
      assert front[..i] == events[..i];
    }
  }

  lemma BlankedFront(events: seq<Event>)
    requires events != []
    ensures Blanked(events)[..|events| - 1] == Blanked(events[..|events| - 1])
  {}

  lemma BlankedOk(s0: State, events: seq<Event>, n: nat, s: State)
    requires EventsOk(s0, events) && n < |events| && Told(s0, events[..n]) == Bare(s)
    ensures EventOk(s, Blanked(events)[n])
  {
    hide Told;
    assert EventOk(Told(s0, events[..n]), events[n]);
  }

  lemma StepIsOk(s: State, e: Event, s': State)
    requires StateOk(s) && EventOk(s, e) && Step(s, e, s')
    ensures StateOk(s')
  {
    hide BestMove, MoveOf, Moved;
  }

  lemma RunOn(states: seq<State>, events: seq<Event>, e: Event, s': State)
    requires IsRun(states, events) && StateOk(states[|events|])
    requires EventOk(states[|events|], e) && Step(states[|events|], e, s')
    ensures IsRun(states + [s'], events + [e])
  {
    hide Step;
    var on, es := states + [s'], events + [e];
    forall i | 0 <= i < |es| ensures StateOk(on[i]) && EventOk(on[i], es[i]) && Step(on[i], es[i], on[i + 1]) {
      if i < |events| { assert on[i] == states[i] && on[i + 1] == states[i + 1] && es[i] == events[i]; }
    }
  }

  // A drawing that leaves a row of a blank window alone is wrong.
  lemma BlankIsWrong(s: State, now: seq<Bytes>, got: nat, partial: bool, s': State)
    requires StateOk(s) && |now| == s.view && BlankIfTouched(s) && s.touched
    requires LeavesRows(s, now, got, partial) && Drawn(s, now, got, partial, s')
    ensures !Shows(s', now)
  {
    hide DrawnBy, MoveOf, Shows;
    var move: nat :| DrawnBy(s, now, got, partial, s', move);
    OneMove(s, now, got, partial, s', move);
    RightExactlyWhen(s, now, got, partial, s', move);
  }

  // In every run of these events, whatever the changes of size leave on the
  // screen, every drawing is right: exactly when each is harmless, as the
  // events tell.
  lemma RunsShowExactlyWhen(s0: State, events: seq<Event>)
    requires Initial(s0) && EventsOk(s0, events)
    ensures (forall states, es ::
               IsRun(states, es) && states[0] == s0 && SameEvents(es, events) ==> AllShow(states, es))
            <==> forall i :: 0 <= i < |events| ==> HarmlessAt(s0, events, i)
  {
    hide Told, Step, HarmlessAt, AllShow, EventsOk;
    if forall i :: 0 <= i < |events| ==> HarmlessAt(s0, events, i) {
      forall states, es | IsRun(states, es) && states[0] == s0 && SameEvents(es, events) ensures AllShow(states, es) {
        RunIsOk(states, es);
        forall i | 0 <= i < |es| ensures HarmlessAt(s0, es, i) { SameHarmless(s0, es, events, i); }
        HarmlessRunsShow(states, es);
      }
    } else {
      var i :| 0 <= i < |events| && !HarmlessAt(s0, events, i);
      var states := BlankRun(s0, events);
      BlankRunFails(states, s0, events, i);
    }
  }

  lemma SameHarmless(s0: State, es: seq<Event>, fs: seq<Event>, i: nat)
    requires EventsOk(s0, es) && EventsOk(s0, fs) && SameEvents(es, fs) && i < |es|
    ensures HarmlessAt(s0, es, i) <==> HarmlessAt(s0, fs, i)
  {
    hide Told, EventsOk, LeavesRows;
    SameTold(s0, es[..i], fs[..i]);
    assert SameEvent(es[i], fs[i]);
    OkAt(s0, es, i);
    OkAt(s0, fs, i);
  }

  lemma OkAt(s0: State, events: seq<Event>, i: nat)
    requires EventsOk(s0, events) && i < |events|
    ensures StateOk(Told(s0, events[..i])) && EventOk(Told(s0, events[..i]), events[i])
  {
    hide Told;
  }

  lemma BlankRunFails(states: seq<State>, s0: State, events: seq<Event>, i: nat)
    requires EventsOk(s0, events) && IsRun(states, Blanked(events)) && states[0] == s0
    requires forall k :: 0 <= k < |states| ==> StateOk(states[k]) && BlankIfTouched(states[k])
    requires i < |events| && !HarmlessAt(s0, events, i)
    ensures !AllShow(states, Blanked(events))
  {
    hide Told, HarmlessAt, EventsOk, LeavesRows, Drawn, BlankIfTouched, Shows;
    var es := Blanked(events);
    HarmlessTold(states, es, i);
    SameHarmless(s0, es, events, i);
    BlankIsWrong(states[i], es[i].now, es[i].got, es[i].partial, states[i + 1]);
  }

  // ---- touches that are noticed ----

  // The clears since the last drawing, and whether the size was changed.
  function Clears(events: seq<Event>): nat {
    if events == [] || events[|events| - 1].Draw? then 0
    else Clears(events[..|events| - 1]) + if events[|events| - 1].Clear? then 1 else 0
  }

  predicate Resized(events: seq<Event>) {
    events != [] && !events[|events| - 1].Draw? && (events[|events| - 1].Resize? || Resized(events[..|events| - 1]))
  }

  // The window's size, and that of the last drawing.
  function SizeNow(s0: State, events: seq<Event>): (nat, nat) {
    if events == [] then (s0.view, s0.cols)
    else
      var e := events[|events| - 1];
      if e.Resize? then (e.view, e.cols) else SizeNow(s0, events[..|events| - 1])
  }

  function SizeDrawn(s0: State, events: seq<Event>): Option<(nat, nat)> {
    if events == [] then None
    else
      var front := events[..|events| - 1];
      if events[|events| - 1].Draw? then Some(SizeNow(s0, front)) else SizeDrawn(s0, front)
  }

  // Before event i the window was not touched since the last drawing; or its
  // size is another; or it was cleared, and not a multiple of 2^32 times.
  predicate Noticed(s0: State, events: seq<Event>, i: nat)
    requires i < |events|
  {
    var before := events[..i];
    || (Clears(before) == 0 && !Resized(before)) || SizeDrawn(s0, before) != Some(SizeNow(s0, before))
    || Clears(before) % TWO32 != 0
  }

  // A count of clears is not the remembered one, unless they are a multiple
  // of 2^32.
  lemma ClearsAreSeen(s: State, clears: nat, partial: bool)
    requires s.cleared == U32(s.shownCleared + clears) && clears % TWO32 != 0
    ensures !Trusts(s, partial)
  {
    if s.cleared == s.shownCleared {
      DivModUnique(s.shownCleared + clears, TWO32, (s.shownCleared + clears) / TWO32, s.shownCleared);
      DivModUnique(clears, TWO32, (s.shownCleared + clears) / TWO32, 0);
    }
  }

  // The counts are those of the store.
  predicate Counted(s0: State, events: seq<Event>, t: State) {
    && (t.view, t.cols) == SizeNow(s0, events)
    && match SizeDrawn(s0, events)
       case None => t.shownView == 0
       case Some(size) =>
         && (t.shownView, t.shownCols) == size && t.cleared == U32(t.shownCleared + Clears(events))
         && (t.touched ==> Clears(events) > 0 || Resized(events))
  }

  lemma {:induction false} CountsTell(s0: State, events: seq<Event>)
    requires Initial(s0)
    ensures Counted(s0, events, Told(s0, events))
    decreases |events|
  {
    hide Counted;
    if events == [] {
      NoneCounted(s0);
    } else {
      var front, e := events[..|events| - 1], events[|events| - 1];
      CountsTell(s0, front);
      CountedOn(s0, front, Told(s0, front), e);
      assert events == front + [e];
    }
  }

  lemma NoneCounted(s0: State)
    requires Initial(s0)
    ensures Counted(s0, [], Told(s0, []))
  {}

  lemma CountedOn(s0: State, events: seq<Event>, t: State, e: Event)
    requires Counted(s0, events, t)
    ensures Counted(s0, events + [e], Next(t, e))
  {
    hide Known, U32;
    assert (events + [e])[..|events|] == events;
    OneMore(t.shownCleared + Clears(events));
    UnitOf(t.cleared);
  }

  lemma UnitOf(x: u32)
    ensures U32(x + 0) == x
  {}

  lemma OneMore(x: nat)
    ensures U32(U32(x) + 1) == U32(x + 1) && U32(U32(x)) == U32(x)
  {
    DivModUnique(x + 1, TWO32, (x + 1) / TWO32, (x + 1) % TWO32);
  }

  lemma {:induction false} SizeStays(s0: State, events: seq<Event>)
    requires !Resized(events) && SizeDrawn(s0, events).Some?
    ensures SizeDrawn(s0, events) == Some(SizeNow(s0, events))
    decreases |events|
  {
    if events != [] && !events[|events| - 1].Draw? { SizeStays(s0, events[..|events| - 1]); }
  }

  // And a window that was drawn and not touched since is trusted: of a
  // partial drawing only the rows that changed are sent.
  lemma UntouchedIsTrusted(s0: State, events: seq<Event>)
    requires Initial(s0) && SizeDrawn(s0, events).Some? && !Resized(events) && Clears(events) == 0
    ensures Trusts(Told(s0, events), true)
  {
    hide Told, Clears, Resized, SizeNow, SizeDrawn;
    CountsTell(s0, events);
    SizeStays(s0, events);
    UnitOf(Told(s0, events).shownCleared);
  }

  lemma NoticedIsHarmless(s0: State, events: seq<Event>, i: nat)
    requires Initial(s0) && EventsOk(s0, events) && i < |events| && Noticed(s0, events, i)
    ensures HarmlessAt(s0, events, i)
  {
    hide Told, EventsOk, MoveOf, Clears, Resized, SizeNow, SizeDrawn;
    OkAt(s0, events, i);
    CountsTell(s0, events[..i]);
    var t := Told(s0, events[..i]);
    if Clears(events[..i]) % TWO32 != 0 && SizeDrawn(s0, events[..i]).Some? && events[i].Draw? {
      ClearsAreSeen(t, Clears(events[..i]), events[i].partial);
    }
  }

  // So in every run whose touches are noticed every drawing is right.
  lemma NoticedRunsShow(states: seq<State>, events: seq<Event>)
    requires IsRun(states, events) && forall i :: 0 <= i < |events| && events[i].Draw? ==> Noticed(states[0], events, i)
    ensures AllShow(states, events)
  {
    hide Told, Step, HarmlessAt, EventsOk, Noticed, AllShow;
    RunIsOk(states, events);
    forall i | 0 <= i < |events| ensures HarmlessAt(states[0], events, i) {
      if events[i].Draw? {
        NoticedIsHarmless(states[0], events, i);
      } else {
        NoDrawIsHarmless(states[0], events, i);
      }
    }
    HarmlessRunsShow(states, events);
  }

  lemma NoDrawIsHarmless(s0: State, events: seq<Event>, i: nat)
    requires EventsOk(s0, events) && i < |events| && !events[i].Draw?
    ensures HarmlessAt(s0, events, i)
  {
    hide Told;
  }

  // And in every run of drawings and clears, fewer than 2^32 of these between
  // two drawings.
  lemma DrawsAndClearsShow(states: seq<State>, events: seq<Event>)
    requires IsRun(states, events) && forall i :: 0 <= i < |events| ==> !events[i].Resize?
    requires forall i :: 0 <= i < |events| && events[i].Draw? ==> Clears(events[..i]) < TWO32
    ensures AllShow(states, events)
  {
    hide Step, AllShow, Clears, SizeNow, SizeDrawn;
    forall i | 0 <= i < |events| && events[i].Draw? ensures Noticed(states[0], events, i) {
      NotResized(events[..i]);
    }
    NoticedRunsShow(states, events);
  }

  lemma {:induction false} NotResized(events: seq<Event>)
    requires forall i :: 0 <= i < |events| ==> !events[i].Resize?
    ensures !Resized(events)
    decreases |events|
  {
    if events != [] { NotResized(events[..|events| - 1]); }
  }
}
