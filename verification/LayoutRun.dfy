// encode and decode of src/chat/layout.c, and what a layout becomes when its
// own text is the answer.

module LayoutRun {
  import opened Bits
  import opened Ints
  import opened ByteText
  import opened Layout
  import opened LayoutAnswer
  import opened LayoutWords

  // ---- the parts of a layout and of an answer ----

  // A line of three dashes, and "=== words".
  const DASHES: Text := [LF, 0x2d, 0x2d, 0x2d, LF]
  const WORDS: Text := [0x3d, 0x3d, 0x3d, 0x20, 0x77, 0x6f, 0x72, 0x64, 0x73]

  predicate Holds(s: Text, i: nat, what: Text) {
    i + |what| <= |s| && s[i..i + |what|] == what
  }

  // The first place of what from i on, as strstr finds it.
  function Seek(s: Text, i: nat, what: Text): (r: Option<nat>)
    requires i <= |s|
    ensures r.Some? ==> i <= r.value && Holds(s, r.value, what) && forall k :: i <= k < r.value ==> !Holds(s, k, what)
    ensures r.None? ==> forall k :: i <= k <= |s| ==> !Holds(s, k, what)
    decreases |s| - i
  {
    if Holds(s, i, what) then Some(i) else if i == |s| then None else Seek(s, i + 1, what)
  }

  // The template of a layout, and its words.
  function TemplatePart(en: Text): Text {
    var sep := Seek(en, 0, DASHES);
    if sep.Some? then en[..sep.value] else en
  }

  function WordsPart(en: Text): Text {
    var sep := Seek(en, 0, DASHES);
    if sep.Some? then en[sep.value + |DASHES|..] else []
  }

  // ---- what comes out ----

  // A layout: its text, and a line for each word.
  function Lines(words: seq<Word>, vals: seq<Text>): Text
    requires |words| == |vals|
  {
    if words == [] then []
    else
      Lines(words[..|words| - 1], vals[..|vals| - 1])
      + words[|words| - 1].key + [SPACE, EQUALS, SPACE] + vals[|words| - 1] + [LF]
  }

  // "decimal = ,", written where the language asks for it.
  const DECIMAL: Text := [0x64, 0x65, 0x63, 0x69, 0x6d, 0x61, 0x6c, 0x20, 0x3d, 0x20, 0x2c, LF]

  function Layed(text: Text, words: seq<Word>, vals: seq<Text>, comma: bool): Text
    requires |words| == |vals|
  {
    text + DASHES + Lines(words, vals) + if comma then DECIMAL else []
  }

  // The English word where there is no value.
  function Filled(words: seq<Word>, vals: seq<Option<Text>>): (r: seq<Text>)
    requires |words| == |vals|
    ensures |r| == |words|
  {
    seq(|words|, k requires 0 <= k < |words| => if vals[k].Some? then vals[k].value else words[k].english)
  }

  // How decode ends: with a layout, refused, or in a value read astray.
  datatype Outcome = Done(layout: Text) | Refused | Lost

  // The end of the answer's text, before the blanks before its words.
  function TextEnd(ans: Text, w: nat): (tn: nat)
    requires w <= |ans|
    ensures tn <= w
  {
    |Trimmed(ans[..w])|
  }

  function Decoded(lang: Language, comma: bool, c: Coded, words: seq<Word>, ans: Text): Outcome
    requires Matching(c)
  {
    var w := Seek(ans, 0, WORDS);
    if w.None? then Refused
    else
      var a := ans[..TextEnd(ans, w.value)];
      if !EachOnce(MarkersOf(a, 0), |c.tags|) then Refused
      else
        var vals := Values(ans, w.value, Given(lang, words));
        if vals.None? then Lost else Done(Layed(Put(c, a, 0), words, Filled(words, vals.value), comma))
  }

  // What the model is asked.
  function Asks(lang: Language, p: Template, words: seq<Word>): Text {
    Marked(p, 0) + [LF] + WORDS + [LF] + Asking(lang, words, 0)
  }

  // ---- what decode loses ----

  // A layout is lost exactly when its markers are right and a blank line of
  // its words takes the number of a word that has no value yet.
  lemma LostLayout(lang: Language, comma: bool, c: Coded, words: seq<Word>, ans: Text)
    requires Matching(c)
    ensures Decoded(lang, comma, c, words, ans).Lost?
            <==> && Seek(ans, 0, WORDS).Some?
                 && var w := Seek(ans, 0, WORDS).value;
                    && EachOnce(MarkersOf(ans[..TextEnd(ans, w)], 0), |c.tags|)
                    && exists q: nat :: Loses(ans, w, Given(lang, words), q)
  {
    hide EachOnce, Layed, Put, Values, MarkersOf, Seek, Loses;
    var w := Seek(ans, 0, WORDS);
    if w.Some? { LostExactlyWhen(ans, w.value, Given(lang, words)); }
  }

  // A blank line before the first word loses it: "=== words", a blank line,
  // and "1:a".
  lemma BlankLineLoses(lang: Language, comma: bool, word: Word)
    requires lang.glossary(word.key).None?
    ensures Decoded(lang, comma, Coded([], [], []), [word], WORDS + [LF, LF, ZERO + 1, COLON, 0x61]) == Lost
  {
    hide Layed, Put, Seek, Values, MarkersOf;
    var rest: Text := [LF, ZERO + 1, COLON, 0x61];
    var ans := WORDS + [LF] + rest;
    assert ans == WORDS + [LF, LF, ZERO + 1, COLON, 0x61];
    assert Holds(ans, 0, WORDS);
    SeekIs(ans, 0, WORDS, 0);
    assert ans[..TextEnd(ans, 0)] == [];
    PutNothing(Coded([], [], []), []);
    assert Given(lang, [word]) == [None];
    assert ans[0..] == ans && GoesOn(ans, 0, ans);
    FirstLine(ans, 0, rest, [None]);
    SecondLineLost(ans, |WORDS| + 1);
  }

  lemma SecondLineLost(ans: Text, p: nat)
    requires GoesOn(ans, p, [LF, ZERO + 1, COLON, 0x61])
    ensures p <= |ans| && Values(ans, p, [None]) == None
  {
    hide ReplyAt, Strays, NextNumber;
    assert |ans[p..]| == 4;
    BlankStrays(ans, p);
    AstrayExactlyWhen(ans, p);
  }

  // ---- the end of the text ----

  lemma {:induction false} TrimmedIs(s: Text)
    ensures Trimmed(s) == s[..|Trimmed(s)|] && forall k :: |Trimmed(s)| <= k < |s| ==> Layout.IsBlank(s[k])
  {
    if s != [] && Layout.IsBlank(s[|s| - 1]) { TrimmedIs(s[..|s| - 1]); }
  }

  lemma {:induction false} BlanksUpTo(ans: Text, i: nat, w: nat)
    requires i <= w < |ans| && !Layout.IsBlank(ans[w]) && forall k :: i <= k < w ==> Layout.IsBlank(ans[k])
    ensures Blanks(ans, i) == w
    decreases w - i
  {
    if i < w { BlanksUpTo(ans, i + 1, w); }
  }

  lemma TextDoesEnd(ans: Text, w: nat)
    requires Holds(ans, w, WORDS)
    ensures w < |ans| && TextEnds(ans, TextEnd(ans, w)) && ans[..TextEnd(ans, w)] == Trimmed(ans[..w])
  {
    var s := ans[..w];
    TrimmedIs(s);
    assert ans[w] == ans[w..w + |WORDS|][0];
    forall k | TextEnd(ans, w) <= k < w ensures Layout.IsBlank(ans[k]) {
      assert s[k] == ans[k];
    }
    BlanksUpTo(ans, TextEnd(ans, w), w);
  }

  // ---- the code ----

  lemma {:induction false} AskingOn(lang: Language, words: seq<Word>, word: Word, n: nat)
    ensures Asking(lang, words + [word], n) == Asking(lang, words, n) + Asked(lang, word, n + |words| + 1)
    decreases |words|
  {
    hide Asked;
    var on := words + [word];
    if words == [] {
      assert on[1..] == [];
      assert Asking(lang, on, n) == Asked(lang, word, n + 1) + [];
    } else {
      assert on[1..] == words[1..] + [word];
      AskingOn(lang, words[1..], word, n + 1);
    }
  }

  // The words of a layout, and the lines they are asked with.
  method EncodeWords(lang: Language, w: Text) returns (words: seq<Word>, text: Text)
    ensures words == Words(w, 0) && text == Asking(lang, words, 0)
  {
    hide WordOf, Asked, Words, Asking;
    words, text := [], [];
    var p: nat := 0;
    WordsStart(lang, w);
    while p < |w|
      invariant p <= |w| && Words(w, |w|) == [] && Words(w, 0) == words + Words(w, p) && text == Asking(lang, words, 0)
      decreases |w| - p
    {
      var nl := Find(w, p, LF);
      var word := WordOf(w[p..nl]);
      WordsStep(w, p, words);
      if word.Some? {
        AskingOn(lang, words, word.value, 0);
        words := words + [word.value];
        text := text + Asked(lang, word.value, |words|);
      }
      p := NextLine(w, nl);
    }
  }

  lemma WordsStart(lang: Language, w: Text)
    ensures Words(w, 0) == [] + Words(w, 0) && Asking(lang, [], 0) == [] && Words(w, |w|) == []
  {
    assert [] + Words(w, 0) == Words(w, 0);
  }

  lemma WordsStep(w: Text, p: nat, words: seq<Word>)
    requires p < |w|
    ensures var nl := Find(w, p, LF);
            var word := WordOf(w[p..nl]);
            words + Words(w, p) == (if word.Some? then words + [word.value] else words) + Words(w, NextLine(w, nl))
  {
    hide WordOf;
    var rest := Words(w, NextLine(w, Find(w, p, LF)));
    var word := WordOf(w[p..Find(w, p, LF)]);
    if word.Some? { Regroup(words, [word.value], rest); } else { assert [] + rest == rest; }
  }

  // What the model is asked about a layout, and what its answer is decoded
  // with; false where the template does not parse.
  method Encode(lang: Language, en: Text) returns (ok: bool, text: Text, c: Coded, words: seq<Word>)
    ensures ok <==> Parse(TemplatePart(en), 0).Some?
    ensures ok ==> var p := Parse(TemplatePart(en), 0).value;
                   c == CodedOf(p) && words == Words(WordsPart(en), 0) && text == Asks(lang, p, words)
  {
    hide Marked, Asking, Seek;
    ok, text, c := EncodeText(TemplatePart(en));
    words := [];
    if !ok {
      return;
    }
    var asked;
    words, asked := EncodeWords(lang, WordsPart(en));
    text := text + [LF] + WORDS + [LF] + asked;
  }

  // The values of the answer's words; None where one is read astray.
  method DecodeWords(lang: Language, words: seq<Word>, ans: Text, w: nat) returns (vals: Option<seq<Text>>)
    requires w <= |ans|
    ensures var r := Values(ans, w, Given(lang, words));
            vals == if r.None? then None else Some(Filled(words, r.value))
  {
    hide ReplyAt;
    var n := |words|;
    var val: array<Option<Text>> := new Option<Text>[n](_ => None);
    for k := 0 to n
      invariant forall j :: 0 <= j < k ==> val[j] == Given(lang, words)[j]
    {
      val[k] := lang.glossary(words[k].key);
    }
    assert val[..] == Given(lang, words);
    var p := w;
    while p < |ans|
      invariant p <= |ans| && Values(ans, w, Given(lang, words)) == Values(ans, p, val[..])
      decreases |ans| - p
    {
      var reply := ReplyAt(ans, p);
      if !reply.NoWord? && 1 <= reply.k <= n && val[reply.k - 1].None? {
        if reply.Astray? {
          return None;
        }
        val[reply.k - 1] := Some(reply.text);
      }
      p := NextLine(ans, Find(ans, p, LF));
    }
    ghost var all := val[..];
    var filled: seq<Text> := [];
    for k := 0 to n
      invariant val[..] == all && filled == Filled(words, all)[..k]
    {
      filled := filled + [if val[k].Some? then val[k].value else words[k].english];
    }
    assert filled == Filled(words, all);
    vals := Some(filled);
  }

  // The answer with the tags and the keys put back.
  method Decode(lang: Language, comma: bool, c: Coded, words: seq<Word>, ans: Text) returns (r: Outcome)
    requires Matching(c)
    ensures r == Decoded(lang, comma, c, words, ans)
  {
    hide EachOnce, Put, Values, MarkersOf, Filled, Given, TextEnds, Lines;
    var w := Seek(ans, 0, WORDS);
    if w.None? {
      return Refused;
    }
    TextDoesEnd(ans, w.value);
    var tn := TrimEnd(ans, w.value);
    var text := DecodeText(c, ans, tn);
    if text.None? {
      return Refused;
    }
    var vals := DecodeWords(lang, words, ans, w.value);
    if vals.None? {
      return Lost;
    }
    var lines := PutLines(words, vals.value);
    r := Done(text.value + DASHES + lines + if comma then DECIMAL else []);
  }

  method TrimEnd(ans: Text, w: nat) returns (tn: nat)
    requires w <= |ans|
    ensures tn == TextEnd(ans, w)
  {
    tn := w;
    while tn > 0 && (ans[tn - 1] == LF || ans[tn - 1] == SPACE)
      invariant tn <= w && TextEnd(ans, w) == |Trimmed(ans[..tn])|
    {
      assert ans[..tn][..tn - 1] == ans[..tn - 1];
      tn := tn - 1;
    }
  }

  method PutLines(words: seq<Word>, vals: seq<Text>) returns (out: Text)
    requires |words| == |vals|
    ensures out == Lines(words, vals)
  {
    hide Lines;
    var n := |words|;
    out := [];
    NoLines();
    for k := 0 to n
      invariant out == Lines(words[..k], vals[..k])
    {
      LinesOn(words, vals, k);
      out := out + words[k].key + [SPACE, EQUALS, SPACE] + vals[k] + [LF];
    }
    assert words[..n] == words && vals[..n] == vals;
  }

  lemma NoLines()
    ensures Lines([], []) == []
  {}

  lemma LinesOn(words: seq<Word>, vals: seq<Text>, k: nat)
    requires k < |words| == |vals|
    ensures Lines(words[..k + 1], vals[..k + 1])
            == Lines(words[..k], vals[..k]) + words[k].key + [SPACE, EQUALS, SPACE] + vals[k] + [LF]
  {
    assert words[..k + 1][..k] == words[..k] && vals[..k + 1][..k] == vals[..k];
  }

  // ---- the way back ----

  // None of the template's texts holds "=== words".
  predicate Silent(p: Template) {
    (forall i :: 0 <= i <= |p.lit| ==> !Holds(p.lit, i, WORDS)) && (p.Tagged? ==> Silent(p.rest))
  }

  // The bytes of a marker, and the end of a line.
  predicate IsMarkerByte(b: byte) {
    b == OPENING || b == CLOSING || Layout.IsDigit(b) || b == LF
  }

  lemma MarkerBytes(k: nat)
    ensures forall i :: 0 <= i < |Marker(k)| ==> IsMarkerByte(Marker(k)[i])
  {
    hide Digits;
  }

  // It cannot be where one of them is.
  lemma WordsHaveNone(s: Text, i: nat, at: nat)
    requires i <= at < i + |WORDS| && at < |s| && IsMarkerByte(s[at])
    ensures !Holds(s, i, WORDS)
  {
    assert forall k :: 0 <= k < |WORDS| ==> !IsMarkerByte(WORDS[k]);
    if i + |WORDS| <= |s| {
      assert s[i..i + |WORDS|][at - i] == s[at];
    }
  }

  lemma HoldsInPart(a: Text, b: Text, i: nat)
    ensures i + |WORDS| <= |a| ==> (Holds(a + b, i, WORDS) <==> Holds(a, i, WORDS))
    ensures i >= |a| ==> (Holds(a + b, i, WORDS) <==> Holds(b, i - |a|, WORDS))
  {
    if i + |WORDS| <= |a| {
      assert (a + b)[i..i + |WORDS|] == a[i..i + |WORDS|];
    }
    if |a| <= i && i + |WORDS| <= |a| + |b| {
      assert (a + b)[i..i + |WORDS|] == b[i - |a|..i - |a| + |WORDS|];
    }
  }

  lemma {:induction false} MarkedIsSilent(p: Template, n: nat, i: nat)
    requires Silent(p)
    ensures !Holds(Marked(p, n), i, WORDS)
    decreases p
  {
    hide Holds, Marker;
    if p.Tagged? {
      var a, m, rest := p.lit, Marker(n + 1), Marked(p.rest, n + 1);
      assert Marked(p, n) == (a + m) + rest == a + (m + rest);
      if i + |WORDS| <= |a| {
        HoldsInPart(a, m + rest, i);
      } else if i < |a + m| {
        var at := if i < |a| then |a| else i;
        MarkerBytes(n + 1);
        MarkerNotEmpty(n + 1);
        assert Marked(p, n)[at] == m[at - |a|];
        WordsHaveNone(Marked(p, n), i, at);
      } else {
        HoldsInPart(a + m, rest, i);
        MarkedIsSilent(p.rest, n + 1, i - |a + m|);
      }
    } else if i > |p.lit| {
      PastTheEnd(p.lit, i);
    }
  }

  lemma PastTheEnd(s: Text, i: nat)
    requires i > |s|
    ensures !Holds(s, i, WORDS)
  {}

  lemma MarkerNotEmpty(k: nat)
    ensures |Marker(k)| > 0
  {}

  lemma SeekIs(s: Text, i: nat, what: Text, w: nat)
    requires i <= w <= |s| && Holds(s, w, what) && forall k :: i <= k < w ==> !Holds(s, k, what)
    ensures Seek(s, i, what) == Some(w)
  {}

  // The words are where they were put.
  lemma WordsFound(m: Text, rest: Text)
    requires forall i: nat :: !Holds(m, i, WORDS)
    ensures Seek(m + [LF] + WORDS + rest, 0, WORDS) == Some(|m| + 1)
  {
    hide Seek;
    var s := m + [LF] + WORDS + rest;
    assert s[|m| + 1..|m| + 1 + |WORDS|] == WORDS;
    forall i | 0 <= i < |m| + 1 ensures !Holds(s, i, WORDS) {
      assert s == m + ([LF] + WORDS + rest);
      if i + |WORDS| <= |m| { HoldsInPart(m, [LF] + WORDS + rest, i); } else { WordsHaveNone(s, i, |m|); }
    }
    SeekIs(s, 0, WORDS, |m| + 1);
  }

  // The coded tags are those of the template without the blanks at its end.
  lemma {:induction false} CodedIsOf(c: Coded, p: Template, n: nat)
    requires Matching(c) && n <= |c.tags| && c.tags[n..] == Tags(p) && c.gaps[n..] == Gaps(p)
    requires c.toTag[n..] == ToTags(p)
    ensures IsOf(c, TrimmedTemplate(p), n)
    decreases p
  {
    hide Blanks, Trimmed;
    if p.Tagged? {
      TailIs(c.tags, n, p.tag, Tags(p.rest));
      TailIs(c.gaps, n, p.rest.lit[..Blanks(p.rest.lit, 0)], Gaps(p.rest));
      TailIs(c.toTag, n, p.rest.Tagged? && Blanks(p.rest.lit, 0) == |p.rest.lit|, ToTags(p.rest));
      CodedIsOf(c, p.rest, n + 1);
      if p.rest.End? { BlanksOfTrimmed(p.rest.lit); }
    }
  }

  lemma TailIs<T>(s: seq<T>, n: nat, x: T, rest: seq<T>)
    requires n <= |s| && s[n..] == [x] + rest
    ensures n < |s| && s[n] == x && s[n + 1..] == rest
  {
    assert s[n..][0] == s[n] && s[n + 1..] == s[n..][1..];
  }

  // Blanks dropped at the end are not among those a text begins with, unless
  // it has nothing else.
  lemma BlanksOfTrimmed(s: Text)
    ensures Trimmed(s) == [] || Trimmed(s)[..Blanks(Trimmed(s), 0)] == s[..Blanks(s, 0)]
  {
    TrimmedIs(s);
    var t := Trimmed(s);
    if t != [] {
      TrimmedEnds(s);
      BlanksAgree(t, s, 0);
    }
  }

  lemma {:induction false} TrimmedEnds(s: Text)
    requires Trimmed(s) != []
    ensures !Layout.IsBlank(Trimmed(s)[|Trimmed(s)| - 1])
  {
    if Layout.IsBlank(s[|s| - 1]) { TrimmedEnds(s[..|s| - 1]); }
  }

  lemma {:induction false} BlanksAgree(t: Text, s: Text, i: nat)
    requires i < |t| <= |s| && t == s[..|t|] && !Layout.IsBlank(t[|t| - 1])
    ensures Blanks(t, i) == Blanks(s, i) < |t|
    decreases |t| - i
  {
    if Layout.IsBlank(t[i]) { BlanksAgree(t, s, i + 1); }
  }

  lemma FromEachOnce(n: nat)
    ensures EachOnce(From(0, n), n)
  {
    forall k | 1 <= k <= n ensures k in From(0, n) {
      assert From(0, n)[k - 1] == k;
    }
  }

  // The first line of the words is no word.
  lemma FirstLine(ans: Text, w: nat, rest: Text, vals: seq<Option<Text>>)
    requires GoesOn(ans, w, WORDS + [LF] + rest)
    ensures w <= |ans| && GoesOn(ans, w + |WORDS| + 1, rest)
    ensures Values(ans, w, vals) == Values(ans, w + |WORDS| + 1, vals)
  {
    hide Values;
    assert |ans[w..]| == |ans| - w;
    assert forall k :: 0 <= k < |ans| - w ==> ans[w + k] == (WORDS + [LF] + rest)[k];
    assert ans[w + |WORDS| + 1..] == ans[w..][|WORDS| + 1..];
    FindIs(ans, w, LF, w + |WORDS|);
    NumberNone(ans, w);
    NoWordStep(ans, w, vals);
  }

  lemma NumberNone(ans: Text, w: nat)
    requires w < |ans| && ans[w] == EQUALS
    ensures Number(ans, w) == (0, w)
  {}

  lemma NoWordStep(ans: Text, p: nat, vals: seq<Option<Text>>)
    requires p < |ans| && ReplyAt(ans, p).NoWord?
    ensures Values(ans, p, vals) == Values(ans, NextLine(ans, Find(ans, p, LF)), vals)
  {}

  function Backs(lang: Language, words: seq<Word>): (vals: seq<Text>)
    ensures |vals| == |words|
  {
    seq(|words|, k requires 0 <= k < |words| => Back(lang, words[k]))
  }

  lemma WordsGivenBack(lang: Language, words: seq<Word>, ans: Text, w: nat)
    requires HintsOk(lang) && (forall k :: 0 <= k < |words| ==> WordOk(words[k])) && |words| < WORD
    requires GoesOn(ans, w, WORDS + [LF] + Asking(lang, words, 0))
    ensures w <= |ans| && Values(ans, w, Given(lang, words)).Some?
    ensures Filled(words, Values(ans, w, Given(lang, words)).value) == Backs(lang, words)
  {
    hide Values, Asking, Back;
    FirstLine(ans, w, Asking(lang, words, 0), Given(lang, words));
    assert words[0..] == words && BackTo(lang, words, 0) == Given(lang, words);
    ValuesBack(lang, words, 0, ans, w + |WORDS| + 1);
  }

  // The answer's text is the template's own, without the blanks at its end.
  lemma TextBack(p: Template, rest: Text)
    ensures var ans := Marked(p, 0) + [LF] + WORDS + rest;
            ans[..TextEnd(ans, |Marked(p, 0)| + 1)] == Marked(TrimmedTemplate(p), 0)
  {
    hide Marked, TextEnds, TrimmedTemplate;
    var m := Marked(p, 0);
    var ans, w := m + [LF] + WORDS + rest, |m| + 1;
    assert ans[w..w + |WORDS|] == WORDS;
    TextDoesEnd(ans, w);
    assert ans[..w] == m + [LF] && (m + [LF])[..|m|] == m;
    TrimmedMarked(p, 0);
  }

  // A layout whose own text is the answer comes back, its template without
  // the blanks at its end and its words, those of the glossary in place of
  // the English ones, exactly when no line break after a tag is followed by
  // a carriage return. That is when no text of the template holds a marker
  // or "=== words", and no word a bracket.
  lemma LayoutComesBack(lang: Language, comma: bool, en: Text)
    requires HintsOk(lang) && Parse(TemplatePart(en), 0).Some?
    requires var p := Parse(TemplatePart(en), 0).value;
             Silent(p) && Clean(TrimmedTemplate(p)) && |Tags(p)| < WORD
    requires var words := Words(WordsPart(en), 0);
             |words| < WORD && forall k :: 0 <= k < |words| ==> WordOk(words[k])
    ensures var p, words := Parse(TemplatePart(en), 0).value, Words(WordsPart(en), 0);
            Decoded(lang, comma, CodedOf(p), words, Asks(lang, p, words))
            == Done(Layed(Trimmed(TemplatePart(en)), words, Backs(lang, words), comma))
            <==> Unbroken(TrimmedTemplate(p))
  {
    hide Marked, Seek, Values, EachOnce, Layed, Put, MarkersOf, Asking, Parse, Words, Clean, Silent, IsOf, HintsOk,
      WordOk, Trimmed, TrimmedTemplate, Unbroken;
    var t, words := TemplatePart(en), Words(WordsPart(en), 0);
    var p := Parse(t, 0).value;
    var ans, w := Asks(lang, p, words), |Marked(p, 0)| + 1;
    AsksAre(lang, p, words);
    forall i: nat ensures !Holds(Marked(p, 0), i, WORDS) { MarkedIsSilent(p, 0, i); }
    WordsFound(Marked(p, 0), [LF] + Asking(lang, words, 0));
    TextBack(p, [LF] + Asking(lang, words, 0));
    TemplateBack(t, p);
    WordsGivenBack(lang, words, ans, w);
    LayedApart(Put(CodedOf(p), Marked(TrimmedTemplate(p), 0), 0), Trimmed(t), words, Backs(lang, words), comma);
  }

  // Layouts of the same words differ as their texts do.
  lemma LayedApart(s: Text, t: Text, words: seq<Word>, vals: seq<Text>, comma: bool)
    requires |words| == |vals|
    ensures Layed(s, words, vals, comma) == Layed(t, words, vals, comma) <==> s == t
  {
    hide Lines;
    var rest := DASHES + Lines(words, vals) + if comma then DECIMAL else [];
    assert Layed(s, words, vals, comma) == s + rest && Layed(t, words, vals, comma) == t + rest;
    if s + rest == t + rest {
      assert |s + rest| == |t + rest|;
      assert (s + rest)[..|s|] == s && (t + rest)[..|s|] == t;
    }
  }

  // "{{x}}", and a newline, a carriage return, a newline and "A".
  const XTAG: Text := [OPENING, OPENING, 0x78, CLOSING, CLOSING]
  const RETURN: Text := [LF, CR, LF, 0x41]

  // Of such a template the carriage return is lost.
  lemma ReturnIsLost()
    ensures var p := Tagged([], XTAG, End(RETURN));
            Parse(XTAG + RETURN, 0) == Some(p) && Clean(p) && Silent(p) && TrimmedTemplate(p) == p && !Unbroken(p)
  {
    hide Parse, Silent, Clean;
    ReturnParses();
    ReturnIsClean();
    assert Blanks(RETURN, 0) == 1 by { assert Blanks(RETURN, 1) == 1; }
    assert RETURN[..1] == [LF];
  }

  lemma ReturnParses()
    ensures Parse(XTAG + RETURN, 0) == Some(Tagged([], XTAG, End(RETURN)))
  {
    hide Parse, Pair;
    var t := XTAG + RETURN;
    PairIs(t, 0, OPENING, 0);
    PairIs(t, 0, CLOSING, 3);
    PairIs(t, 5, OPENING, 9);
    ParseStep(t, 5);
    ParseStep(t, 0);
    assert t[0..0] == [] && t[0..5] == XTAG && t[5..] == RETURN;
  }

  lemma ReturnIsClean()
    ensures Clean(Tagged([], XTAG, End(RETURN))) && Silent(Tagged([], XTAG, End(RETURN)))
  {
    hide MarkerAt;
    forall k | 0 <= k < |RETURN| ensures MarkerAt(RETURN, k).None? { NoMarkerAt(RETURN, k); }
  }

  lemma PairIs(s: Text, i: nat, b: byte, r: nat)
    requires i <= r <= |s| && (r < |s| ==> r + 1 < |s| && s[r] == b && s[r + 1] == b)
    requires forall k :: i <= k < r && k + 1 < |s| ==> !(s[k] == b && s[k + 1] == b)
    ensures Pair(s, i, b) == r
  {}

  lemma AsksAre(lang: Language, p: Template, words: seq<Word>)
    ensures Asks(lang, p, words) == Marked(p, 0) + [LF] + WORDS + ([LF] + Asking(lang, words, 0))
    ensures GoesOn(Asks(lang, p, words), |Marked(p, 0)| + 1, WORDS + [LF] + Asking(lang, words, 0))
  {
    hide Marked, Asking;
  }

  lemma TemplateBack(t: Text, p: Template)
    requires Parse(t, 0) == Some(p) && Clean(TrimmedTemplate(p)) && |Tags(p)| < WORD
    ensures var a := Marked(TrimmedTemplate(p), 0);
            && EachOnce(MarkersOf(a, 0), |CodedOf(p).tags|)
            && (Put(CodedOf(p), a, 0) == Trimmed(t) <==> Unbroken(TrimmedTemplate(p)))
  {
    hide Marked, EachOnce, Put, MarkersOf, Parse, Clean, IsOf, TrimmedTemplate, Whole, Trimmed, Unbroken;
    var c, q := CodedOf(p), TrimmedTemplate(p);
    CodedIsOf(c, p, 0);
    assert GoesOn(Marked(q, 0), 0, Marked(q, 0));
    PutsBack(c, Marked(q, 0), 0, q, 0);
    ParseWhole(t, 0);
    assert t[0..] == t;
    ParseCloses(t, 0);
    TrimmedWhole(p);
    FromEachOnce(|c.tags|);
  }
}
