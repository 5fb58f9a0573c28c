// The layout that src/chat/layout.c makes of an answer, read as a layout in
// its turn: which answers give one whose tags are the English ones.

module LayoutRead {
  import opened Bits
  import opened Ints
  import opened ByteText
  import opened Layout
  import opened LayoutWords
  import opened LayoutRun
  import opened LayoutTags

  // ---- texts that are read as they stand ----

  // A text opens a tag, alone or with the braces of a tag after it.
  ghost predicate Opens(s: Text, tagged: bool) {
    exists k :: 0 <= k < |s| && OpensAt(s, tagged, k)
  }

  predicate OpensAt(s: Text, tagged: bool, k: nat)
    requires k < |s|
  {
    s[k] == OPENING && if k + 1 < |s| then s[k + 1] == OPENING else tagged
  }

  // No text of the template opens a tag.
  ghost predicate Plain(p: Template) {
    !Opens(p.lit, p.Tagged?) && (p.Tagged? ==> Plain(p.rest))
  }

  // No line of three dashes begins before n.
  ghost predicate Clear(s: Text, n: nat) {
    forall k :: 0 <= k < n ==> !Holds(s, k, DASHES)
  }

  // No text of the template holds such a line, nor its last one with the
  // line that ends it.
  ghost predicate Undashed(p: Template) {
    if p.End? then Clear(p.lit + DASHES, |p.lit|) else Clear(p.lit, |p.lit|) && Undashed(p.rest)
  }

  // A tag as Parse reads it in a template.
  ghost predicate TagOk(tag: Text) {
    && |tag| >= 4 && tag[0] == OPENING && tag[1] == OPENING && Pair(tag, 0, CLOSING) == |tag| - 2
    && Clear(tag, |tag|)
  }

  ghost predicate TagsOk(tags: seq<Text>) {
    forall k :: 0 <= k < |tags| ==> TagOk(tags[k])
  }

  // ---- the tags of the English text ----

  lemma HoldsInside(s: Text, i: nat, j: nat, k: nat)
    requires i <= j <= |s| && Holds(s[i..j], k, DASHES)
    ensures Holds(s, i + k, DASHES)
  {
    SliceOfSlice(s, i, j, k, |DASHES|);
  }

  lemma SliceOfSlice(s: Text, i: nat, j: nat, k: nat, n: nat)
    requires i <= j <= |s| && k + n <= |s[i..j]|
    ensures s[i..j][k..k + n] == s[i + k..i + k + n]
  {
    var a, b := s[i..j][k..k + n], s[i + k..i + k + n];
    forall x | 0 <= x < n ensures a[x] == b[x] {
      assert a[x] == s[i..j][k + x];
    }
  }

  lemma ClearPart(s: Text, i: nat, j: nat)
    requires i <= j <= |s| && Clear(s, |s|)
    ensures Clear(s[i..j], |s[i..j]|)
  {
    forall k | 0 <= k < j - i ensures !Holds(s[i..j], k, DASHES) {
      if Holds(s[i..j], k, DASHES) { HoldsInside(s, i, j, k); }
    }
  }

  lemma TemplateIsClear(en: Text)
    ensures Clear(TemplatePart(en), |TemplatePart(en)|)
  {
    hide Seek, Holds;
    var t := TemplatePart(en);
    if Seek(en, 0, DASHES).Some? { SeekInside(en); }
    assert t == en[0..|t|];
    forall k | 0 <= k < |t| ensures !Holds(t, k, DASHES) {
      if Holds(t, k, DASHES) { HoldsInside(en, 0, |t|, k); }
    }
  }

  lemma SeekInside(en: Text)
    requires Seek(en, 0, DASHES).Some?
    ensures Seek(en, 0, DASHES).value <= |en|
  {}

  lemma PairInPart(t: Text, i: nat, j: nat)
    requires i <= |t| && Pair(t, i, CLOSING) == j && j + 2 <= |t|
    ensures Pair(t[i..j + 2], 0, CLOSING) == j - i
  {
    hide Pair;
    var s := t[i..j + 2];
    forall k | 0 <= k < j - i && k + 1 < |s| ensures !(s[k] == CLOSING && s[k + 1] == CLOSING) {
      assert s[k] == t[i + k] && s[k + 1] == t[i + k + 1];
    }
    PairIs(s, 0, CLOSING, j - i);
  }

  lemma {:induction false} ParsedTagsOk(t: Text, i: nat)
    requires i <= |t| && Clear(t, |t|) && Parse(t, i).Some?
    ensures TagsOk(Tags(Parse(t, i).value))
    decreases |t| - i
  {
    hide Pair, Parse, Clear;
    ParseStep(t, i);
    var open := Pair(t, i, OPENING);
    if open < |t| {
      var close := Pair(t, open, CLOSING);
      assert open + 2 <= close by { assert t[open] != CLOSING && t[open + 1] != CLOSING; }
      PairInPart(t, open, close);
      ClearPart(t, open, close + 2);
      ParsedTagsOk(t, close + 2);
    }
  }

  // The tags that encode keeps are such.
  lemma CodedTagsOk(en: Text)
    requires Parse(TemplatePart(en), 0).Some?
    ensures TagsOk(CodedOf(Parse(TemplatePart(en), 0).value).tags)
  {
    hide Parse, TagsOk;
    TemplateIsClear(en);
    ParsedTagsOk(TemplatePart(en), 0);
  }

  // ---- a template read where it was put ----

  // The bytes of a text, with those after it.
  lemma Reads(s: Text, i: nat, a: Text, rest: Text)
    requires GoesOn(s, i, a + rest)
    ensures i + |a| <= |s| && s[i..i + |a|] == a && GoesOn(s, i + |a|, rest) && i + |a| + |rest| == |s|
  {
    Past(s, i, a, rest);
    assert s[i..i + |a|] == s[i..][..|a|];
  }

  lemma GoesOnInside(s: Text, i: nat, rest: Text)
    requires GoesOn(s, i, rest)
    ensures i <= |s| && s[i..] == rest
  {}

  lemma OpensWhere(s: Text, i: nat, lit: Text)
    requires i + |lit| <= |s| && s[i..i + |lit|] == lit
    requires i + |lit| < |s| ==> i + |lit| + 1 < |s| && s[i + |lit|] == OPENING && s[i + |lit| + 1] == OPENING
    ensures Pair(s, i, OPENING) <= i + |lit|
    ensures Pair(s, i, OPENING) == i + |lit| <==> !Opens(lit, i + |lit| < |s|)
  {
    hide Pair;
    var open, o := Pair(s, i, OPENING), i + |lit|;
    var tagged := o < |s|;
    assert forall k :: 0 <= k < |lit| ==> lit[k] == s[i + k];
    if open < o {
      assert OpensAt(lit, tagged, open - i);
    } else {
      forall k | 0 <= k < |lit| ensures !OpensAt(lit, tagged, k) {
        assert lit[k] == s[i + k];
      }
    }
  }

  lemma ClosesWhere(s: Text, i: nat, tag: Text)
    requires i + |tag| <= |s| && s[i..i + |tag|] == tag && TagOk(tag)
    ensures Pair(s, i, CLOSING) == i + |tag| - 2
    ensures |tag| >= 4 && s[i] == OPENING && s[i + 1] == OPENING
  {
    hide Pair;
    var r := |tag| - 2;
    assert forall k :: 0 <= k < |tag| ==> tag[k] == s[i + k];
    forall k | i <= k < i + r && k + 1 < |s| ensures !(s[k] == CLOSING && s[k + 1] == CLOSING) {
      assert s[k] == tag[k - i] && s[k + 1] == tag[k - i + 1];
    }
    PairIs(s, i, CLOSING, i + r);
  }

  // A template is read as it was put exactly when none of its texts opens a
  // tag.
  lemma {:induction false} ReadWhere(s: Text, i: nat, p: Template)
    requires GoesOn(s, i, Whole(p)) && TagsOk(Tags(p))
    ensures i <= |s| && (Parse(s, i) == Some(p) <==> Plain(p))
    decreases p
  {
    hide Pair, Parse, Opens, GoesOn, TagOk, TagsOk, Whole, Tags, Plain;
    PlainIs(p);
    GoesOnInside(s, i, Whole(p));
    WholeOf(p);
    if p.End? {
      LitRead(s, i, p);
    } else {
      TagsOkRest(p);
      TagWhere(s, i, p);
      ReadWhere(s, i + |p.lit| + |p.tag|, p.rest);
      TagRead(s, i, p, Plain(p.rest));
    }
  }

  lemma LitRead(s: Text, i: nat, p: Template)
    requires p.End? && GoesOn(s, i, p.lit)
    ensures i <= |s| && (Parse(s, i) == Some(p) <==> !Opens(p.lit, false))
  {
    hide Pair, Parse, Opens, GoesOn;
    assert p.lit + [] == p.lit;
    GoesOnInside(s, i, p.lit);
    Reads(s, i, p.lit, []);
    OpensWhere(s, i, p.lit);
    ParseStep(s, i);
  }

  lemma TagRead(s: Text, i: nat, p: Template, plain: bool)
    requires p.Tagged? && GoesOn(s, i, p.lit + p.tag + Whole(p.rest)) && TagOk(p.tag)
    requires i + |p.lit| + |p.tag| <= |s| && (Parse(s, i + |p.lit| + |p.tag|) == Some(p.rest) <==> plain)
    ensures Parse(s, i) == Some(p) <==> !Opens(p.lit, true) && plain
  {
    hide Pair, Parse, Opens, GoesOn, TagOk, Whole;
    TagWhere(s, i, p);
    ParseStep(s, i);
  }

  lemma PlainIs(p: Template)
    ensures Plain(p) <==> !Opens(p.lit, p.Tagged?) && (p.Tagged? ==> Plain(p.rest))
  {
    hide Opens;
  }

  // A text and the tag after it.
  lemma TagWhere(s: Text, i: nat, p: Template)
    requires p.Tagged? && GoesOn(s, i, p.lit + p.tag + Whole(p.rest)) && TagOk(p.tag)
    ensures var o := i + |p.lit|;
            && o + |p.tag| <= |s| && s[i..o] == p.lit && s[o..o + |p.tag|] == p.tag && |p.tag| >= 4
            && GoesOn(s, o + |p.tag|, Whole(p.rest)) && Pair(s, i, OPENING) <= o < |s|
            && (Pair(s, i, OPENING) == o <==> !Opens(p.lit, true)) && Pair(s, o, CLOSING) == o + |p.tag| - 2
  {
    hide Pair, Opens, GoesOn, Whole, TagOk;
    var o := i + |p.lit|;
    Regroup(p.lit, p.tag, Whole(p.rest));
    Reads(s, i, p.lit, p.tag + Whole(p.rest));
    Reads(s, o, p.tag, Whole(p.rest));
    ClosesWhere(s, o, p.tag);
    OpensWhere(s, i, p.lit);
  }

  lemma TagsOkRest(p: Template)
    requires p.Tagged? && TagsOk(Tags(p))
    ensures TagOk(p.tag) && TagsOk(Tags(p.rest))
  {
    hide TagOk;
    assert Tags(p)[0] == p.tag;
    assert forall k :: 0 <= k < |Tags(p.rest)| ==> Tags(p.rest)[k] == Tags(p)[k + 1];
  }

  // ---- where the template ends ----

  // A line of dashes is in one of two texts where a brace parts them.
  lemma ClearApart(a: Text, b: Text, m: nat)
    requires b != []
    requires (a != [] && a[|a| - 1] == CLOSING) || b[0] == OPENING
    ensures Clear(a + b, |a| + m) <==> Clear(a, |a|) && Clear(b, m)
  {
    var s := a + b;
    forall k: nat ensures Holds(s, k, DASHES) <==> if k < |a| then Holds(a, k, DASHES) else Holds(b, k - |a|, DASHES) {
      HoldsApart(a, b, k);
    }
    if Clear(s, |a| + m) {
      forall k | 0 <= k < m ensures !Holds(b, k, DASHES) {
        assert !Holds(s, |a| + k, DASHES);
      }
    }
  }

  lemma HoldsApart(a: Text, b: Text, k: nat)
    requires b != []
    requires (a != [] && a[|a| - 1] == CLOSING) || b[0] == OPENING
    ensures Holds(a + b, k, DASHES) <==> if k < |a| then Holds(a, k, DASHES) else Holds(b, k - |a|, DASHES)
  {
    var s, n := a + b, |DASHES|;
    assert forall j :: 0 <= j < n ==> DASHES[j] != OPENING && DASHES[j] != CLOSING;
    if k + n <= |a| {
      assert s[k..k + n] == a[k..k + n];
    } else if |a| <= k && k + n <= |s| {
      assert s[k..k + n] == b[k - |a|..k - |a| + n];
    } else if k < |a| && k + n <= |s| {
      assert s[|a|] == b[0] && s[|a| - 1] == a[|a| - 1];
      assert s[k..k + n][|a| - k] == s[|a|] && s[k..k + n][|a| - 1 - k] == s[|a| - 1];
    }
  }

  lemma {:induction false} UndashedWhen(p: Template)
    requires TagsOk(Tags(p))
    ensures Clear(Whole(p) + DASHES, |Whole(p)|) <==> Undashed(p)
    decreases p
  {
    hide Clear, Pair;
    if p.Tagged? {
      var rest := Whole(p.rest) + DASHES;
      TagsOkRest(p);
      UndashedWhen(p.rest);
      ClearApart(p.tag, rest, |Whole(p.rest)|);
      ClearApart(p.lit, p.tag + rest, |p.tag| + |Whole(p.rest)|);
      assert Whole(p) + DASHES == p.lit + (p.tag + rest);
    }
  }

  // The line that ends the template is the first exactly when no text of it
  // holds one.
  lemma CutWhere(t: Text, rest: Text)
    ensures Clear(t + DASHES, |t|) <==> Seek(t + DASHES + rest, 0, DASHES) == Some(|t|)
    ensures var cut := Seek(t + DASHES + rest, 0, DASHES); cut.Some? && cut.value <= |t|
  {
    hide Seek;
    var s, n := t + DASHES + rest, |DASHES|;
    assert Holds(s, |t|, DASHES) by { assert s[|t|..|t| + n] == DASHES; }
    forall k | 0 <= k < |t| ensures Holds(s, k, DASHES) <==> Holds(t + DASHES, k, DASHES) {
      assert s[k..k + n] == (t + DASHES)[k..k + n];
    }
    if Clear(t + DASHES, |t|) { SeekIs(s, 0, DASHES, |t|); }
  }

  // What is read of a layout is what was put exactly when its texts open no
  // tag and hold no line of dashes.
  lemma ReadBack(p: Template, rest: Text)
    requires TagsOk(Tags(p))
    ensures var layout := Whole(p) + DASHES + rest;
            && (Parse(TemplatePart(layout), 0) == Some(p) <==> Plain(p) && Undashed(p))
            && (Undashed(p) ==> TemplatePart(layout) == Whole(p) && WordsPart(layout) == rest)
  {
    hide Seek, Clear, Plain, Undashed, Parse, TagsOk, Whole;
    var t := Whole(p);
    var layout := t + DASHES + rest;
    UndashedWhen(p);
    CutWhere(t, rest);
    var cut := Seek(layout, 0, DASHES).value;
    if cut == |t| {
      assert layout[..cut] == t && layout[cut + |DASHES|..] == rest;
      ReadWhere(t, 0, p);
    } else if Parse(layout[..cut], 0).Some? {
      ParseWhole(layout[..cut], 0);
      assert |layout[..cut]| == cut;
    }
  }

  // ---- what decode accepts ----

  lemma OpensTail(s: Text, tagged: bool)
    ensures Opens(s, tagged) <==> Opens(Tail(s), tagged)
  {
    var n, t := Run(s, 0), Tail(s);
    if Opens(s, tagged) {
      var k :| 0 <= k < |s| && OpensAt(s, tagged, k);
      assert OpensAt(t, tagged, k - n);
    }
    if Opens(t, tagged) {
      var k :| 0 <= k < |t| && OpensAt(t, tagged, k);
      assert OpensAt(s, tagged, k + n);
    }
  }

  // Blanks open no tag.
  lemma {:induction false} PlainBehind(p: Template, q: Template)
    requires Behind(p, q) && (Opens(p.lit, p.Tagged?) <==> Opens(q.lit, p.Tagged?))
    ensures Plain(p) <==> Plain(q)
    decreases p
  {
    hide Opens, Tail;
    if p.Tagged? {
      OpensTail(p.rest.lit, p.rest.Tagged?);
      OpensTail(q.rest.lit, p.rest.Tagged?);
      PlainBehind(p.rest, q.rest);
    }
  }

  lemma ChosenOk(tags: seq<Text>, ks: seq<nat>)
    requires TagsOk(tags) && forall i :: 0 <= i < |ks| ==> 1 <= ks[i] <= |tags|
    ensures TagsOk(Chosen(tags, ks))
  {
    hide TagOk;
  }

  // The text before the words of an answer.
  function AnswerText(ans: Text): Text {
    var w := Seek(ans, 0, WORDS);
    if w.Some? then ans[..TextEnd(ans, w.value)] else ans
  }

  // The layout that comes out, when one does, is read in its turn as the
  // English tags in another order with the answer's texts between its
  // markers, but for the blanks after a tag, exactly when none of those
  // texts opens a tag and none that comes out holds a line of dashes.
  lemma AcceptedArePermuted(lang: Language, comma: bool, c: Coded, words: seq<Word>, ans: Text)
    requires Matching(c) && GapsBlank(c) && TagsOk(c.tags) && Decoded(lang, comma, c, words, ans).Done?
    ensures var layout, a := Decoded(lang, comma, c, words, ans).layout, AnswerText(ans);
            var t := Placed(c, a, 0);
            && multiset(Tags(t)) == multiset(c.tags) && Alike(t, Parted(a, 0))
            && (Parse(TemplatePart(layout), 0) == Some(t) <==> Plain(Parted(a, 0)) && Undashed(t))
            && (Undashed(t) ==> TemplatePart(layout) == Whole(t))
  {
    hide EachOnce, Put, Placed, Values, MarkersOf, Parted, Seek, Parse, Plain, Undashed, Lines, TagsOk, Opens, Behind,
      TemplatePart, WordsPart, TextEnd, Filled, Given;
    var w := Seek(ans, 0, WORDS).value;
    var a, ks := AnswerText(ans), MarkersOf(AnswerText(ans), 0);
    var t := Placed(c, a, 0);
    TagsArePermuted(c.tags, ks);
    AllInRange(c, ks);
    PutsTags(c, a, 0);
    ChosenOk(c.tags, ks);
    PlainBehind(t, Parted(a, 0));
    var vals := Filled(words, Values(ans, w, Given(lang, words)).value);
    var rest := Lines(words, vals) + if comma then DECIMAL else [];
    assert Layed(Whole(t), words, vals, comma) == Whole(t) + DASHES + rest;
    ReadBack(t, rest);
  }

  lemma AllInRange(c: Coded, ks: seq<nat>)
    requires EachOnce(ks, |c.tags|)
    ensures InRange(c, ks)
  {}

  // ---- answers whose layout is read otherwise ----

  lemma {:induction false} NoValues(ans: Text, p: nat)
    requires p <= |ans|
    ensures Values(ans, p, []) == Some([])
    decreases |ans| - p
  {
    if p < |ans| { NoValues(ans, NextLine(ans, Find(ans, p, LF))); }
  }

  const NOTHING: Coded := Coded([], [], [])

  // A layout of no tags and no words takes any text that holds neither
  // marker nor "=== words".
  lemma TextTaken(lang: Language, a: Text)
    requires a != [] && !Layout.IsBlank(a[|a| - 1]) && forall k :: 0 <= k < |a| ==> MarkerAt(a, k).None?
    requires forall k :: 0 <= k < |a| ==> !Holds(a + WORDS, k, WORDS)
    ensures Decoded(lang, false, NOTHING, [], a + WORDS) == Done(a + DASHES)
    ensures AnswerText(a + WORDS) == a && Placed(NOTHING, a, 0) == End(a)
  {
    hide MarkerAt, Seek, Values, MarkersOf, Put, Placed, Layed, TextEnd, EachOnce, Filled, Given, Holds;
    WordsAfter(a);
    TextPut(a);
    NothingAsked(lang);
    NoValues(a + WORDS, |a|);
    NothingLayed(a);
  }

  lemma TextPut(a: Text)
    requires forall k :: 0 <= k < |a| ==> MarkerAt(a, k).None?
    ensures Put(NOTHING, a, 0) == a && MarkersOf(a, 0) == [] && Placed(NOTHING, a, 0) == End(a)
  {
    hide MarkerAt, Put, MarkersOf, Placed;
    PutText(NOTHING, a, 0, a, 0);
    PutNothing(NOTHING, a);
    PlacedText(NOTHING, a, 0);
    assert a[0..] == a && a + [] == a;
  }

  lemma NothingLayed(a: Text)
    ensures Layed(a, [], [], false) == a + DASHES
  {}

  lemma WordsAfter(a: Text)
    requires a != [] && !Layout.IsBlank(a[|a| - 1])
    requires forall k :: 0 <= k < |a| ==> !Holds(a + WORDS, k, WORDS)
    ensures Seek(a + WORDS, 0, WORDS) == Some(|a|) && (a + WORDS)[..TextEnd(a + WORDS, |a|)] == a
  {
    hide Seek;
    var ans := a + WORDS;
    assert ans[|a|..|a| + |WORDS|] == WORDS;
    SeekIs(ans, 0, WORDS, |a|);
    assert ans[..|a|] == a;
  }

  lemma NothingAsked(lang: Language)
    ensures Given(lang, []) == [] && Filled([], []) == [] && EachOnce([], 0)
  {}

  lemma {:induction false} PlacedText(c: Coded, a: Text, i: nat)
    requires Matching(c) && i <= |a| && forall k :: i <= k < |a| ==> MarkerAt(a, k).None?
    ensures Placed(c, a, i) == End(a[i..])
    decreases |a| - i
  {
    hide MarkerAt, Placed;
    PlacedStep(c, a, i);
    if i < |a| {
      PlacedText(c, a, i + 1);
      assert a[i..] == [a[i]] + a[i + 1..];
    }
  }

  // "{{x}}" in an answer is taken, and read as a tag.
  lemma TagIsMadeUp(lang: Language)
    ensures Decoded(lang, false, NOTHING, [], XTAG + WORDS) == Done(XTAG + DASHES)
    ensures Parse(TemplatePart(XTAG + DASHES), 0) == Some(Tagged([], XTAG, End([])))
  {
    hide MarkerAt, Decoded, TemplatePart, Parse, Holds;
    forall k | 0 <= k < |XTAG| ensures !Holds(XTAG + WORDS, k, WORDS) {
      WordsHaveNone(XTAG + WORDS, k, if k == 2 then 3 else k);
    }
    forall k | 0 <= k < |XTAG| ensures MarkerAt(XTAG, k).None? { NoMarkerInTag(k); }
    TextTaken(lang, XTAG);
    XTagIsRead();
  }

  lemma XTagIsRead()
    ensures Parse(TemplatePart(XTAG + DASHES), 0) == Some(Tagged([], XTAG, End([])))
  {
    hide TemplatePart, Parse, Pair, Clear;
    var t := Tagged([], XTAG, End([]));
    PairIs(XTAG, 0, CLOSING, 3);
    assert Whole(t) == XTAG && XTAG + DASHES + [] == XTAG + DASHES;
    XTagIsClear();
    ReadBack(t, []);
  }

  lemma NoMarkerInTag(k: nat)
    requires k < |XTAG|
    ensures MarkerAt(XTAG, k).None?
  {
    if k < 2 { assert Number(XTAG, k + 1) == (0, k + 1); }
  }

  lemma XTagIsClear()
    ensures Clear(XTAG, |XTAG|) && Clear([] + DASHES, 0) && Clear([], 0)
  {
    forall k | 0 <= k < |XTAG| ensures !Holds(XTAG, k, DASHES) {
      if k + |DASHES| <= |XTAG| { assert XTAG[k..k + |DASHES|][0] == XTAG[k]; }
    }
  }

  // "A", a line of three dashes and "B".
  const CUT: Text := [0x41] + DASHES + [0x42]

  // Of such an answer the template that is read ends at its line of dashes.
  lemma TemplateIsCut(lang: Language)
    ensures Decoded(lang, false, NOTHING, [], CUT + WORDS) == Done(CUT + DASHES)
    ensures TemplatePart(CUT + DASHES) == [0x41] && Plain(End(CUT)) && !Undashed(End(CUT))
  {
    hide MarkerAt, Decoded, Seek;
    forall k | 0 <= k < |CUT| ensures !Holds(CUT + WORDS, k, WORDS) {
      NoWordsInCut(k);
    }
    forall k | 0 <= k < |CUT| ensures MarkerAt(CUT, k).None? { NoMarkerAt(CUT, k); }
    TextTaken(lang, CUT);
    var s := CUT + DASHES;
    assert s[1..1 + |DASHES|] == DASHES;
    assert s[0..|DASHES|][0] == s[0];
    SeekIs(s, 0, DASHES, 1);
  }

  lemma NoWordsInCut(k: nat)
    requires k < |CUT|
    ensures !Holds(CUT + WORDS, k, WORDS)
  {
    assert (CUT + WORDS)[k] != EQUALS && WORDS[0] == EQUALS;
    if k + |WORDS| <= |CUT + WORDS| { assert (CUT + WORDS)[k..k + |WORDS|][0] == (CUT + WORDS)[k]; }
  }
}
