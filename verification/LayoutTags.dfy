// The text that comes out of src/chat/layout.c as a template: its tags are
// those of the markers, and its texts the answer's but for blanks.

module LayoutTags {
  import opened Bits
  import opened Ints
  import opened ByteText
  import opened Layout

  // A template with text before it.
  function Before(s: Text, p: Template): Template {
    p.(lit := s + p.lit)
  }

  // The answer's text from i on, parted at its markers.
  function Parted(a: Text, i: nat): Template
    requires i <= |a|
    decreases |a| - i
  {
    if i == |a| then End([])
    else
      var m := MarkerAt(a, i);
      if m.None? then Before([a[i]], Parted(a, i + 1)) else Tagged([], a[i..m.value.1], Parted(a, m.value.1))
  }

  // A text without the blanks and line ends it begins with.
  function Tail(s: Text): Text {
    s[Run(s, 0)..]
  }

  // The same texts, but for the blanks each begins with after its tag.
  predicate Alike(p: Template, q: Template) {
    p.lit == q.lit && Behind(p, q)
  }

  predicate Behind(p: Template, q: Template) {
    p.Tagged? == q.Tagged? && (p.Tagged? ==> Tail(p.rest.lit) == Tail(q.rest.lit) && Behind(p.rest, q.rest))
  }

  lemma AlikeBefore(s: Text, t: Text, p: Template, q: Template)
    requires Alike(p, q)
    ensures Behind(Before(s, p), Before(t, q)) && (s == t ==> Alike(Before(s, p), Before(t, q)))
  {}

  lemma {:induction false} TailPast(s: Text, x: Text, i: nat)
    requires i <= |s| && (forall k :: i <= k < |s| ==> IsGap(s[k])) && (x != [] ==> !IsGap(x[0]))
    ensures Run(s + x, i) == |s| && (i == 0 ==> Tail(s + x) == x)
    decreases |s| - i
  {
    if i < |s| {
      TailPast(s, x, i + 1);
    }
    assert (s + x)[|s|..] == x;
  }

  lemma WholeBefore(s: Text, p: Template)
    ensures Whole(Before(s, p)) == s + Whole(p) && Tags(Before(s, p)) == Tags(p)
  {
    if p.Tagged? { assert s + p.lit + p.tag + Whole(p.rest) == s + (p.lit + p.tag + Whole(p.rest)); }
  }

  // The parts are the text.
  lemma {:induction false} PartedWhole(a: Text, i: nat)
    requires i <= |a|
    ensures Whole(Parted(a, i)) == a[i..] && |Tags(Parted(a, i))| == |MarkersOf(a, i)|
    decreases |a| - i
  {
    hide MarkerAt;
    if i < |a| {
      var m := MarkerAt(a, i);
      if m.None? {
        PartedWhole(a, i + 1);
        WholeBefore([a[i]], Parted(a, i + 1));
      } else {
        PartedWhole(a, m.value.1);
        assert a[i..] == a[i..m.value.1] + a[m.value.1..];
      }
    }
  }

  lemma {:induction false} PartedBlanks(a: Text, i: nat, j: nat)
    requires i <= j <= |a| && forall k :: i <= k < j ==> IsGap(a[k])
    ensures Parted(a, i) == Before(a[i..j], Parted(a, j))
    decreases j - i
  {
    hide MarkerAt;
    if i < j {
      NoMarkerAt(a, i);
      PartedBlanks(a, i + 1, j);
      assert a[i..j] == [a[i]] + a[i + 1..j];
      Regroup([a[i]], a[i + 1..j], Parted(a, j).lit);
    }
  }

  // What the tags were followed by in the English text is blank.
  predicate GapsBlank(c: Coded) {
    forall k :: 0 <= k < |c.gaps| ==> forall i :: 0 <= i < |c.gaps[k]| ==> IsGap(c.gaps[k][i])
  }

  lemma CodedGapsBlank(p: Template)
    ensures GapsBlank(CodedOf(p))
  {
    GapsAreBlank(p);
  }

  lemma {:induction false} GapsAreBlank(p: Template)
    ensures forall k :: 0 <= k < |Gaps(p)| ==> forall i :: 0 <= i < |Gaps(p)[k]| ==> IsGap(Gaps(p)[k][i])
  {
    if p.Tagged? {
      GapsAreBlank(p.rest);
      BlanksBlank(p.rest.lit, 0);
    }
  }

  lemma {:induction false} BlanksBlank(s: Text, i: nat)
    requires i <= |s|
    ensures forall k :: i <= k < Blanks(s, i) ==> IsBlank(s[k])
    decreases |s| - i
  {
    if i < |s| && IsBlank(s[i]) { BlanksBlank(s, i + 1); }
  }

  predicate InRange(c: Coded, ks: seq<nat>) {
    forall i :: 0 <= i < |ks| ==> 1 <= ks[i] <= |c.tags|
  }

  // What comes out, parted: each marker's tag, and the texts after them.
  function Placed(c: Coded, a: Text, i: nat): Template
    requires Matching(c) && i <= |a|
    decreases |a| - i
  {
    if i == |a| then End([])
    else
      var m := MarkerAt(a, i);
      if m.None? then Before([a[i]], Placed(c, a, i + 1))
      else
        var (k, next) := m.value;
        if k < 1 || k > |c.tags| then End([])
        else if Takes(c, a, k, next) then
          Tagged([], c.tags[k - 1], Before(c.gaps[k - 1], Placed(c, a, Run(a, next))))
        else Tagged([], c.tags[k - 1], Placed(c, a, next))
  }

  // What comes out is the answer's text with each marker's tag in its place,
  // and no change but of the blanks right after a tag.
  lemma {:induction false} PutsTags(c: Coded, a: Text, i: nat)
    requires Matching(c) && GapsBlank(c) && i <= |a| && InRange(c, MarkersOf(a, i))
    ensures Whole(Placed(c, a, i)) == Put(c, a, i) && Tags(Placed(c, a, i)) == Chosen(c.tags, MarkersOf(a, i))
    ensures Alike(Placed(c, a, i), Parted(a, i))
    decreases |a| - i
  {
    hide MarkerAt, Takes, Put, MarkersOf, Parted, Placed, Alike;
    PartedStep(a, i);
    PlacedStep(c, a, i);
    if i == |a| {
      PutNothing(c, a);
      AlikeEnds();
    } else if MarkerAt(a, i).None? {
      PutByte(c, a, i);
      PutsTags(c, a, i + 1);
      WholeBefore([a[i]], Placed(c, a, i + 1));
      AlikeBefore([a[i]], [a[i]], Placed(c, a, i + 1), Parted(a, i + 1));
    } else {
      var (k, next) := MarkerAt(a, i).value;
      assert 1 <= k <= |c.tags| by { MarkerFirst(a, i); }
      PutStep(c, a, i, k, next);
      InRangeRest(c, k, MarkersOf(a, next));
      PutsTag(c, a, i, k, next);
      ChosenFirst(c.tags, k, MarkersOf(a, next));
    }
  }

  // A tag, and what comes out after it.
  lemma PutsTag(c: Coded, a: Text, i: nat, k: nat, next: nat)
    requires Matching(c) && GapsBlank(c) && i < |a| && MarkerAt(a, i) == Some((k, next)) && 1 <= k <= |c.tags|
    requires InRange(c, MarkersOf(a, next))
    ensures Whole(Placed(c, a, i)) == Put(c, a, i)
    ensures Tags(Placed(c, a, i)) == [c.tags[k - 1]] + Chosen(c.tags, MarkersOf(a, next))
    ensures Alike(Placed(c, a, i), Parted(a, i))
    decreases |a| - i, 0
  {
    hide MarkerAt, Takes, Put, MarkersOf, Parted, Placed, Run, Alike, Behind, Tail, Whole, Tags, Chosen;
    PartedStep(a, i);
    PlacedStep(c, a, i);
    PutStep(c, a, i, k, next);
    if Takes(c, a, k, next) {
      var j, g := Run(a, next), c.gaps[k - 1];
      PutBlanks(c, a, next, j);
      PartedBlanks(a, next, j);
      PutsTags(c, a, j);
      var rest := Placed(c, a, j);
      WholeBefore(g, rest);
      AlikeAfterGap(g, a, next, j, rest);
      AlikeTagged(c.tags[k - 1], a[i..next], Before(g, rest), Before(a[next..j], Parted(a, j)));
      TaggedWhole(c.tags[k - 1], Before(g, rest));
      Regroup(c.tags[k - 1], g, Whole(rest));
    } else {
      PutsTags(c, a, next);
      var rest := Placed(c, a, next);
      AlikeIsBehind(rest, Parted(a, next));
      AlikeTagged(c.tags[k - 1], a[i..next], rest, Parted(a, next));
      TaggedWhole(c.tags[k - 1], rest);
    }
  }

  lemma TaggedWhole(tag: Text, p: Template)
    ensures Whole(Tagged([], tag, p)) == tag + Whole(p) && Tags(Tagged([], tag, p)) == [tag] + Tags(p)
  {
    assert [] + tag + Whole(p) == tag + Whole(p);
  }

  lemma AlikeEnds()
    ensures Alike(End([]), End([]))
  {}

  lemma AlikeIsBehind(p: Template, q: Template)
    requires Alike(p, q)
    ensures Tail(p.lit) == Tail(q.lit) && Behind(p, q)
  {}

  lemma AlikeTagged(tag: Text, mark: Text, p: Template, q: Template)
    requires Tail(p.lit) == Tail(q.lit) && Behind(p, q)
    ensures Alike(Tagged([], tag, p), Tagged([], mark, q))
  {}

  // The English blanks after a tag in place of the answer's.
  lemma AlikeAfterGap(g: Text, a: Text, next: nat, j: nat, rest: Template)
    requires next <= j <= |a| && (forall k :: next <= k < j ==> IsGap(a[k])) && (j < |a| ==> !IsGap(a[j]))
    requires (forall k :: 0 <= k < |g| ==> IsGap(g[k])) && Alike(rest, Parted(a, j))
    ensures Tail(Before(g, rest).lit) == Tail(Before(a[next..j], Parted(a, j)).lit)
    ensures Behind(Before(g, rest), Before(a[next..j], Parted(a, j)))
  {
    hide Run, Tail, Behind, MarkerAt, Parted;
    PartedStep(a, j);
    TailPast(g, rest.lit, 0);
    TailPast(a[next..j], rest.lit, 0);
    AlikeBefore(g, a[next..j], rest, Parted(a, j));
  }

  lemma PlacedStep(c: Coded, a: Text, i: nat)
    requires Matching(c) && i <= |a|
    ensures i == |a| ==> Placed(c, a, i) == End([])
    ensures i < |a| && MarkerAt(a, i).None? ==> Placed(c, a, i) == Before([a[i]], Placed(c, a, i + 1))
    ensures i < |a| && MarkerAt(a, i).Some? ==>
      var (k, next) := MarkerAt(a, i).value;
      1 <= k <= |c.tags| ==>
        Placed(c, a, i)
        == if Takes(c, a, k, next) then Tagged([], c.tags[k - 1], Before(c.gaps[k - 1], Placed(c, a, Run(a, next))))
           else Tagged([], c.tags[k - 1], Placed(c, a, next))
  {
    hide MarkerAt, Takes, Run;
  }

  lemma PartedStep(a: Text, i: nat)
    requires i <= |a|
    ensures i == |a| ==> Parted(a, i) == End([])
    ensures i < |a| && MarkerAt(a, i).None? ==> Parted(a, i) == Before([a[i]], Parted(a, i + 1))
    ensures i < |a| && MarkerAt(a, i).Some? ==>
      Parted(a, i) == Tagged([], a[i..MarkerAt(a, i).value.1], Parted(a, MarkerAt(a, i).value.1))
  {
    hide MarkerAt;
  }

  lemma MarkerFirst(a: Text, i: nat)
    requires i < |a| && MarkerAt(a, i).Some?
    ensures |MarkersOf(a, i)| > 0 && MarkersOf(a, i)[0] == MarkerAt(a, i).value.0
  {
    hide MarkerAt;
  }

  lemma InRangeRest(c: Coded, k: nat, ks: seq<nat>)
    requires InRange(c, [k] + ks)
    ensures InRange(c, ks)
  {
    assert forall i :: 0 <= i < |ks| ==> ks[i] == ([k] + ks)[i + 1];
  }

  lemma ChosenFirst(tags: seq<Text>, k: nat, ks: seq<nat>)
    requires 1 <= k <= |tags| && forall i :: 0 <= i < |ks| ==> 1 <= ks[i] <= |tags|
    ensures Chosen(tags, [k] + ks) == [tags[k - 1]] + Chosen(tags, ks)
  {}
}
