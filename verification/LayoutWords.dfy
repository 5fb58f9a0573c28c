// The words of a layout in src/chat/layout.c: asked one a line by number, and
// put back under their keys.

module LayoutWords {
  import opened Bits
  import opened Ints
  import opened ByteText
  import opened Layout

  const COLON: byte := 0x3a
  const COMMENT: byte := 0x23
  const BRACKET: byte := 0x5b

  // A word: its key and its English text.
  datatype Word = Word(key: Text, english: Text)

  // A language: the words its glossary has; what the model is told of a key.
  datatype Language = Language(glossary: Text -> Option<Text>, hint: Text -> Text)

  // A hint is in brackets after spaces, and stays on its line.
  predicate HintOk(h: Text) {
    LF !in h && (h == [] || (|h| > 3 && h[..3] == [SPACE, SPACE, SPACE] && h[3] == BRACKET))
  }

  ghost predicate HintsOk(lang: Language) {
    forall key: Text :: LF !in key ==> HintOk(lang.hint(key))
  }

  // ---- lines ----

  // The first b from i on, or the end.
  function Find(s: Text, i: nat, b: byte): (j: nat)
    requires i <= |s|
    ensures i <= j <= |s| && (j < |s| ==> s[j] == b) && forall k :: i <= k < j ==> s[k] != b
    decreases |s| - i
  {
    if i < |s| && s[i] != b then Find(s, i + 1, b) else i
  }

  function NextLine(s: Text, nl: nat): (p: nat)
    requires nl <= |s|
    ensures nl <= p <= |s| && (nl < |s| ==> nl < p)
  {
    if nl < |s| then nl + 1 else nl
  }

  function Skip(s: Text, i: nat): (j: nat)
    requires i <= |s|
    ensures i <= j <= |s| && (j < |s| ==> s[j] != SPACE) && forall k :: i <= k < j ==> s[k] == SPACE
    decreases |s| - i
  {
    if i < |s| && s[i] == SPACE then Skip(s, i + 1) else i
  }

  predicate Trails(b: byte) {
    b == SPACE || b == CR
  }

  // Without the spaces and carriage returns at its end.
  function Shorn(s: Text): (r: Text)
    ensures |r| <= |s| && r == s[..|r|]
  {
    if s != [] && Trails(s[|s| - 1]) then Shorn(s[..|s| - 1]) else s
  }

  // Without the spaces at its end.
  function KeyOf(s: Text): (r: Text)
    ensures |r| <= |s| && r == s[..|r|]
  {
    if s != [] && s[|s| - 1] == SPACE then KeyOf(s[..|s| - 1]) else s
  }

  // ---- the words of a layout ----

  function WordOf(line: Text): (w: Option<Word>)
    ensures w.Some? && LF !in line ==> LF !in w.value.key && LF !in w.value.english
    ensures w.Some? && w.value.english != [] ==> w.value.english[0] != SPACE
  {
    var eq := Find(line, 0, EQUALS);
    if eq == |line| || line[0] == COMMENT then None
    else Some(Word(KeyOf(line[..eq]), line[Skip(line, eq + 1)..]))
  }

  // The words of the lines from p on.
  function Words(w: Text, p: nat): seq<Word>
    requires p <= |w|
    decreases |w| - p
  {
    if p == |w| then []
    else
      var nl := Find(w, p, LF);
      (match WordOf(w[p..nl]) case None => [] case Some(word) => [word]) + Words(w, NextLine(w, nl))
  }

  // The line a word is asked with; none for one the glossary has.
  function Asked(lang: Language, word: Word, k: nat): Text {
    if lang.glossary(word.key).Some? then []
    else Digits(k) + [COLON, SPACE] + word.english + lang.hint(word.key) + [LF]
  }

  // Those of the words, numbered after n.
  function Asking(lang: Language, words: seq<Word>, n: nat): Text
    decreases |words|
  {
    if words == [] then [] else Asked(lang, words[0], n + 1) + Asking(lang, words[1..], n + 1)
  }

  // ---- the words of the answer ----

  // The value on a line from i on: up to a bracket, without what trails.
  function ValueOf(line: Text, i: nat): Text
    requires i <= |line|
  {
    var v := Skip(line, i);
    Shorn(line[v..Find(line, v, BRACKET)])
  }

  // A word's line: its number and its value. A number is read past the end of
  // a blank line; then the value has no length.
  datatype Reply = NoWord | Value(k: nat, text: Text) | Astray(k: nat)

  function ReplyAt(ans: Text, p: nat): Reply
    requires p <= |ans|
  {
    var nl := Find(ans, p, LF);
    var (k, e) := Number(ans, p);
    if e == p || e == |ans| || ans[e] != COLON then NoWord
    else if e >= nl then Astray(k)
    else Value(k, ValueOf(ans[..nl], e + 1))
  }

  // The values after the lines from p on, the first for each word; None
  // where one is read astray.
  function Values(ans: Text, p: nat, vals: seq<Option<Text>>): (r: Option<seq<Option<Text>>>)
    requires p <= |ans|
    ensures r.Some? ==> |r.value| == |vals|
    decreases |ans| - p
  {
    if p == |ans| then Some(vals)
    else
      var next, reply := NextLine(ans, Find(ans, p, LF)), ReplyAt(ans, p);
      if reply.NoWord? || reply.k < 1 || reply.k > |vals| || vals[reply.k - 1].Some? then Values(ans, next, vals)
      else if reply.Astray? then None
      else Values(ans, next, vals[reply.k - 1 := Some(reply.text)])
  }

  // ---- the way back ----

  lemma {:induction false} ShornOfSpaces(s: Text, h: Text)
    requires forall k :: 0 <= k < |h| ==> h[k] == SPACE
    ensures Shorn(s + h) == Shorn(s)
    decreases |h|
  {
    if h == [] {
      assert s + h == s;
    } else {
      assert (s + h)[..|s + h| - 1] == s + h[..|h| - 1];
      ShornOfSpaces(s, h[..|h| - 1]);
    }
  }

  lemma FindIs(s: Text, i: nat, b: byte, j: nat)
    requires i <= j <= |s| && (j < |s| ==> s[j] == b) && forall k :: i <= k < j ==> s[k] != b
    ensures Find(s, i, b) == j
  {}

  lemma SkipIs(s: Text, i: nat, j: nat)
    requires i <= j <= |s| && (j < |s| ==> s[j] != SPACE) && forall k :: i <= k < j ==> s[k] == SPACE
    ensures Skip(s, i) == j
  {}

  // What a word's line says is its English text, shorn.
  lemma ValueBack(line: Text, i: nat, english: Text, hint: Text)
    requires GoesOn(line, i, [SPACE] + english + hint) && HintOk(hint) && BRACKET !in english
    requires english != [] ==> english[0] != SPACE
    ensures i <= |line| && ValueOf(line, i) == Shorn(english)
  {
    hide HintOk, ValueOf, Shorn;
    assert |line[i..]| == |line| - i;
    if english == [] {
      EmptyBack(line, i, hint);
    } else {
      EnglishBack(line, i, english, hint);
    }
  }

  lemma EmptyBack(line: Text, i: nat, hint: Text)
    requires GoesOn(line, i, [SPACE] + [] + hint) && HintOk(hint)
    ensures i <= |line| && ValueOf(line, i) == Shorn([])
  {
    hide Shorn;
    assert |line[i..]| == |line| - i;
    assert forall k :: 0 <= k < |line| - i ==> line[i + k] == ([SPACE] + hint)[k];
    var v := if hint == [] then |line| else i + 4;
    if hint != [] { assert hint[..3][0] == hint[0] && hint[..3][1] == hint[1] && hint[..3][2] == hint[2]; }
    SkipIs(line, i, v);
    FindIs(line, v, BRACKET, v);
  }

  lemma EnglishBack(line: Text, i: nat, english: Text, hint: Text)
    requires GoesOn(line, i, [SPACE] + english + hint) && HintOk(hint) && BRACKET !in english && english != []
    requires english[0] != SPACE
    ensures i <= |line| && ValueOf(line, i) == Shorn(english)
  {
    hide Shorn;
    var n, at := |english|, i + 1;
    LineHas(line, i, english, hint);
    SkipIs(line, i, at);
    var b := if hint == [] then |line| else at + n + 3;
    HintSpaces(line, at + n, hint);
    FindIs(line, at, BRACKET, b);
    assert line[at..b] == english + line[at + n..b] by { assert line[at..at + n] == english; }
    ShornOfSpaces(english, line[at + n..b]);
  }

  lemma LineHas(line: Text, i: nat, english: Text, hint: Text)
    requires GoesOn(line, i, [SPACE] + english + hint)
    ensures i + 1 + |english| + |hint| == |line| && line[i] == SPACE
    ensures forall k :: 0 <= k < |english| ==> line[i + 1 + k] == english[k]
    ensures line[i + 1..i + 1 + |english|] == english && line[i + 1 + |english|..] == hint
  {
    var all := [SPACE] + english + hint;
    assert |line[i..]| == |line| - i;
    assert forall k :: 0 <= k < |all| ==> line[i + k] == all[k];
  }

  lemma HintSpaces(line: Text, at: nat, hint: Text)
    requires at <= |line| && line[at..] == hint && HintOk(hint)
    ensures hint != [] ==>
              at + 3 < |line| && line[at + 3] == BRACKET && forall k :: at <= k < at + 3 ==> line[k] == SPACE
    ensures hint == [] ==> at == |line|
  {
    assert |line[at..]| == |line| - at;
    if hint != [] {
      assert line[at + 3] == hint[3];
      forall k | at <= k < at + 3 ensures line[k] == SPACE {
        assert line[k] == hint[k - at] == hint[..3][k - at];
      }
    }
  }

  // Each word's value: the glossary's, or what was read.
  function Given(lang: Language, words: seq<Word>): (vals: seq<Option<Text>>)
    ensures |vals| == |words|
  {
    seq(|words|, k requires 0 <= k < |words| => lang.glossary(words[k].key))
  }

  function Back(lang: Language, word: Word): Text {
    var g := lang.glossary(word.key);
    if g.Some? then g.value else Shorn(word.english)
  }

  // The first n words have their values, the others those of the glossary.
  function BackTo(lang: Language, words: seq<Word>, n: nat): (vals: seq<Option<Text>>)
    ensures |vals| == |words|
  {
    seq(|words|, k requires 0 <= k < |words| =>
          if k < n then Some(Back(lang, words[k])) else lang.glossary(words[k].key))
  }

  predicate WordOk(word: Word) {
    LF !in word.key && LF !in word.english && BRACKET !in word.english
      && (word.english != [] ==> word.english[0] != SPACE)
  }

  // The line of word n + 1, read.
  lemma ReplyBack(lang: Language, word: Word, ans: Text, p: nat, k: nat, rest: Text)
    requires HintsOk(lang) && WordOk(word) && k < WORD && lang.glossary(word.key).None?
    requires GoesOn(ans, p, Asked(lang, word, k) + rest)
    ensures p < |ans| && ReplyAt(ans, p) == Value(k, Shorn(word.english))
    ensures GoesOn(ans, NextLine(ans, Find(ans, p, LF)), rest)
  {
    hide GoesOn, ValueOf, Shorn, Digits, HintOk, ReplyAt;
    var body := [SPACE] + word.english + lang.hint(word.key);
    assert HintOk(lang.hint(word.key));
    NoBreakInBody(word, lang.hint(word.key));
    assert Asked(lang, word, k) + rest == Digits(k) + ([COLON] + (body + ([LF] + rest)));
    LineReplies(ans, p, k, body, rest);
    ValueBack(ans[..p + |Digits(k)| + 1 + |body|], p + |Digits(k)| + 1, word.english, lang.hint(word.key));
  }

  // A number, a colon and what follows it on its line.
  lemma LineReplies(ans: Text, p: nat, k: nat, body: Text, rest: Text)
    requires GoesOn(ans, p, Digits(k) + ([COLON] + (body + ([LF] + rest)))) && LF !in body && k < WORD
    ensures var at := p + |Digits(k)| + 1;
            && p < at && at + |body| < |ans| && GoesOn(ans[..at + |body|], at, body)
            && ReplyAt(ans, p) == Value(k, ValueOf(ans[..at + |body|], at))
    ensures GoesOn(ans, NextLine(ans, Find(ans, p, LF)), rest)
  {
    hide GoesOn, Number, ValueOf, Digits;
    var line, e := Digits(k) + [COLON] + body, p + |Digits(k)|;
    NumberReadBack(ans, p, k, [COLON] + (body + ([LF] + rest)));
    Past(ans, e, [COLON], body + ([LF] + rest));
    Past(ans, e + 1, body, [LF] + rest);
    Past(ans, e + 1 + |body|, [LF], rest);
    assert Digits(k) + ([COLON] + (body + ([LF] + rest))) == line + ([LF] + rest);
    NoBreakOnLine(k, body);
    LineIs(ans, p, line, rest);
    BodyIs(ans, e + 1, body, [LF] + rest);
  }

  lemma NoBreakInBody(word: Word, hint: Text)
    requires WordOk(word) && HintOk(hint)
    ensures LF !in [SPACE] + word.english + hint
  {}

  lemma BodyIs(ans: Text, i: nat, body: Text, rest: Text)
    requires GoesOn(ans, i, body + rest)
    ensures i + |body| <= |ans| && GoesOn(ans[..i + |body|], i, body)
  {
    assert |ans[i..]| == |ans| - i;
    assert ans[..i + |body|][i..] == ans[i..][..|body|];
  }

  lemma LineIs(ans: Text, p: nat, line: Text, rest: Text)
    requires GoesOn(ans, p, line + ([LF] + rest)) && LF !in line
    ensures p + |line| < |ans| && Find(ans, p, LF) == p + |line|
  {
    assert |ans[p..]| == |ans| - p;
    forall i | p <= i < p + |line| ensures ans[i] != LF {
      assert ans[i] == ans[p..][i - p] == line[i - p];
    }
    assert ans[p + |line|] == ans[p..][|line|];
    FindIs(ans, p, LF, p + |line|);
  }

  lemma NoBreakOnLine(k: nat, body: Text)
    requires LF !in body
    ensures LF !in Digits(k) + [COLON] + body
  {
    hide Digits;
    assert forall i :: 0 <= i < |Digits(k)| ==> IsDigit(Digits(k)[i]);
  }

  // The lines asked give each word its value.
  lemma {:induction false} ValuesBack(lang: Language, words: seq<Word>, n: nat, ans: Text, p: nat)
    requires HintsOk(lang) && (forall k :: 0 <= k < |words| ==> WordOk(words[k])) && n <= |words| < WORD
    requires GoesOn(ans, p, Asking(lang, words[n..], n))
    ensures p <= |ans| && Values(ans, p, BackTo(lang, words, n)) == Some(BackTo(lang, words, |words|))
    decreases |words| - n
  {
    hide GoesOn, ReplyAt, Asked, Digits, Shorn, HintsOk;
    if n == |words| {
      Past(ans, p, [], []) by { assert [] + [] == Asking(lang, words[n..], n); }
    } else {
      var word, rest := words[n], Asking(lang, words[n + 1..], n + 1);
      assert words[n..][0] == word && words[n..][1..] == words[n + 1..];
      if lang.glossary(word.key).Some? {
        NotAsked(lang, word, n + 1);
        assert Asked(lang, word, n + 1) + rest == rest;
        assert BackTo(lang, words, n) == BackTo(lang, words, n + 1);
      } else {
        ReplyBack(lang, word, ans, p, n + 1, rest);
        assert BackTo(lang, words, n)[n := Some(Shorn(word.english))] == BackTo(lang, words, n + 1);
        ValuesStep(ans, p, BackTo(lang, words, n), n + 1, Shorn(word.english));
      }
      ValuesBack(lang, words, n + 1, ans, if lang.glossary(word.key).Some? then p else NextLine(ans, Find(ans, p, LF)));
    }
  }

  lemma NotAsked(lang: Language, word: Word, k: nat)
    requires lang.glossary(word.key).Some?
    ensures Asked(lang, word, k) == []
  {}

  lemma ValuesStep(ans: Text, p: nat, vals: seq<Option<Text>>, k: nat, text: Text)
    requires p < |ans| && ReplyAt(ans, p) == Value(k, text) && 1 <= k <= |vals| && vals[k - 1].None?
    ensures Values(ans, p, vals) == Values(ans, NextLine(ans, Find(ans, p, LF)), vals[k - 1 := Some(text)])
  {
    hide ReplyAt;
  }

  // ---- values read astray ----

  predicate IsBlankLine(ans: Text, p: nat)
    requires p <= |ans|
  {
    forall k :: p <= k < Find(ans, p, LF) ==> IsSpace(ans[k])
  }

  // A number and a colon are on the line after.
  predicate NamesNext(ans: Text, p: nat)
    requires p <= |ans|
  {
    var nl := Find(ans, p, LF);
    nl < |ans| && var (k, e) := Number(ans, nl + 1); e > nl + 1 && e < |ans| && ans[e] == COLON
  }

  // A blank line before a word: the word's number is read on it.
  predicate Strays(ans: Text, p: nat)
    requires p <= |ans|
  {
    IsBlankLine(ans, p) && NamesNext(ans, p)
  }

  // The number of the line after.
  function NextNumber(ans: Text, p: nat): nat
    requires p <= |ans| && NamesNext(ans, p)
  {
    Number(ans, Find(ans, p, LF) + 1).0
  }

  lemma {:induction false} SpacesEndHere(s: Text, i: nat, j: nat)
    requires i <= j < |s| && !IsSpace(s[j])
    ensures SpacesEnd(s, i) <= j
    decreases j - i
  {
    if i < j { SpacesEndHere(s, i + 1, j); }
  }

  lemma {:induction false} DigitsEndHere(s: Text, i: nat, j: nat)
    requires i <= j <= |s| && (j < |s| ==> !IsDigit(s[j]))
    ensures DigitsEnd(s, i) <= j
    decreases j - i
  {
    if i < j { DigitsEndHere(s, i + 1, j); }
  }

  // A number is read past its line only from a blank one.
  lemma AstrayFromBlank(ans: Text, p: nat)
    requires p < |ans| && ReplyAt(ans, p).Astray?
    ensures IsBlankLine(ans, p)
  {
    hide Decimal;
    var nl := Find(ans, p, LF);
    forall k | p <= k < nl ensures IsSpace(ans[k]) {
      if !IsSpace(ans[k]) {
        SpacesEndHere(ans, p, k);
        var x := SpacesEnd(ans, p);
        DigitsEndHere(ans, if x < |ans| && IsSign(ans[x]) then x + 1 else x, nl);
      }
    }
  }

  lemma {:induction false} SpacesOver(s: Text, i: nat, j: nat)
    requires i <= j <= |s| && forall k :: i <= k < j ==> IsSpace(s[k])
    ensures SpacesEnd(s, i) == SpacesEnd(s, j)
    decreases j - i
  {
    if i < j { SpacesOver(s, i + 1, j); }
  }

  // Over a blank line the same number is read as on the next.
  lemma NumberOver(ans: Text, p: nat)
    requires p <= |ans| && IsBlankLine(ans, p) && Find(ans, p, LF) < |ans|
    ensures var (k, e) := Number(ans, Find(ans, p, LF) + 1);
            Number(ans, p) == if e > Find(ans, p, LF) + 1 then (k, e) else (0, p)
  {
    hide Decimal, SpacesEnd, DigitsEnd;
    SpacesOver(ans, p, Find(ans, p, LF) + 1);
  }

  lemma NoNumberOnBlanks(ans: Text, p: nat)
    requires p <= |ans| && IsBlankLine(ans, p) && Find(ans, p, LF) == |ans|
    ensures Number(ans, p) == (0, p)
  {
    hide Decimal;
    SpacesOver(ans, p, |ans|);
  }

  // A value is read astray exactly there.
  lemma AstrayExactlyWhen(ans: Text, p: nat)
    requires p <= |ans|
    ensures ReplyAt(ans, p).Astray? <==> Strays(ans, p)
    ensures Strays(ans, p) ==> ReplyAt(ans, p) == Astray(NextNumber(ans, p))
  {
    hide Number, ValueOf;
    if IsBlankLine(ans, p) {
      if Find(ans, p, LF) < |ans| { NumberOver(ans, p); } else { NoNumberOnBlanks(ans, p); }
    } else if ReplyAt(ans, p).Astray? {
      AstrayFromBlank(ans, p);
    }
  }

  // q begins a line, from p on.
  predicate IsLine(ans: Text, p: nat, q: nat)
    requires p <= |ans|
    decreases |ans| - p
  {
    p == q || (p < |ans| && IsLine(ans, NextLine(ans, Find(ans, p, LF)), q))
  }

  lemma {:induction false} LinesGoOn(ans: Text, p: nat, q: nat)
    requires p <= |ans| && IsLine(ans, p, q)
    ensures p <= q <= |ans|
    decreases |ans| - p
  {
    if p != q { LinesGoOn(ans, NextLine(ans, Find(ans, p, LF)), q); }
  }

  // The line at q gives word k its value.
  predicate Gives(ans: Text, q: nat, k: nat) {
    q <= |ans| && var reply := ReplyAt(ans, q); reply.Value? && reply.k == k
  }

  // The blank line at q loses the value of the word after it: a word that
  // neither the glossary nor a line before it has given.
  ghost predicate Loses(ans: Text, p: nat, vals: seq<Option<Text>>, q: nat)
    requires p <= |ans|
  {
    && IsLine(ans, p, q) && q <= |ans| && Strays(ans, q)
    && 1 <= NextNumber(ans, q) <= |vals| && vals[NextNumber(ans, q) - 1].None?
    && forall r: nat :: IsLine(ans, p, r) && r < q ==> !Gives(ans, r, NextNumber(ans, q))
  }

  // The values are lost exactly when such a line is among those read.
  lemma {:induction false} LostExactlyWhen(ans: Text, p: nat, vals: seq<Option<Text>>)
    requires p <= |ans|
    ensures Values(ans, p, vals).None? <==> exists q: nat :: Loses(ans, p, vals, q)
    decreases |ans| - p
  {
    hide ReplyAt, Strays, NextNumber, NamesNext, Loses, IsLine, Gives;
    AstrayExactlyWhen(ans, p);
    if p == |ans| {
      NothingAtEnd(ans, vals);
    } else {
      var next, reply := NextLine(ans, Find(ans, p, LF)), ReplyAt(ans, p);
      if reply.NoWord? || reply.k < 1 || reply.k > |vals| || vals[reply.k - 1].Some? {
        LostExactlyWhen(ans, next, vals);
        forall q: nat ensures Loses(ans, p, vals, q) <==> Loses(ans, next, vals, q) { LineAside(ans, p, vals, q); }
      } else if reply.Astray? {
        LosesHere(ans, p, vals);
      } else {
        var on := vals[reply.k - 1 := Some(reply.text)];
        LostExactlyWhen(ans, next, on);
        forall q: nat ensures Loses(ans, p, vals, q) <==> Loses(ans, next, on, q) { LineGiven(ans, p, vals, q); }
      }
    }
  }

  lemma NothingAtEnd(ans: Text, vals: seq<Option<Text>>)
    ensures forall q: nat :: !Loses(ans, |ans|, vals, q)
  {
    hide ReplyAt, Number;
  }

  lemma LosesHere(ans: Text, p: nat, vals: seq<Option<Text>>)
    requires p < |ans| && ReplyAt(ans, p).Astray? && 1 <= ReplyAt(ans, p).k <= |vals|
    requires vals[ReplyAt(ans, p).k - 1].None?
    ensures Loses(ans, p, vals, p)
  {
    hide ReplyAt, Gives, NamesNext;
    AstrayExactlyWhen(ans, p);
    forall r: nat ensures IsLine(ans, p, r) ==> p <= r {
      if IsLine(ans, p, r) { LinesGoOn(ans, p, r); }
    }
  }

  // The lines from p on are the line at p and those after it.
  lemma LineOrNext(ans: Text, p: nat, q: nat)
    requires p < |ans|
    ensures IsLine(ans, p, q) <==> p == q || IsLine(ans, NextLine(ans, Find(ans, p, LF)), q)
    ensures IsLine(ans, NextLine(ans, Find(ans, p, LF)), q) ==> p < q
  {
    if IsLine(ans, NextLine(ans, Find(ans, p, LF)), q) { LinesGoOn(ans, NextLine(ans, Find(ans, p, LF)), q); }
  }

  // A line that changes nothing loses nothing.
  lemma LineAside(ans: Text, p: nat, vals: seq<Option<Text>>, q: nat)
    requires p < |ans|
    requires var reply := ReplyAt(ans, p);
             reply.NoWord? || reply.k < 1 || reply.k > |vals| || vals[reply.k - 1].Some?
    ensures Loses(ans, p, vals, q) <==> Loses(ans, NextLine(ans, Find(ans, p, LF)), vals, q)
  {
    hide ReplyAt, IsLine, Strays, NextNumber, NamesNext;
    AstrayExactlyWhen(ans, p);
    forall r: nat ensures IsLine(ans, p, r) <==> p == r || IsLine(ans, NextLine(ans, Find(ans, p, LF)), r) {
      LineOrNext(ans, p, r);
    }
    LineOrNext(ans, p, q);
  }

  // A line that gives a value keeps it from being lost.
  lemma LineGiven(ans: Text, p: nat, vals: seq<Option<Text>>, q: nat)
    requires p < |ans|
    requires var reply := ReplyAt(ans, p);
             reply.Value? && 1 <= reply.k <= |vals| && vals[reply.k - 1].None?
    ensures var reply := ReplyAt(ans, p);
            Loses(ans, p, vals, q)
            <==> Loses(ans, NextLine(ans, Find(ans, p, LF)), vals[reply.k - 1 := Some(reply.text)], q)
  {
    hide ReplyAt, IsLine, Strays, NextNumber, NamesNext;
    AstrayExactlyWhen(ans, p);
    forall r: nat ensures IsLine(ans, p, r) <==> p == r || IsLine(ans, NextLine(ans, Find(ans, p, LF)), r) {
      LineOrNext(ans, p, r);
    }
    LineOrNext(ans, p, q);
    assert IsLine(ans, p, p) by { LineOrNext(ans, p, p); }
  }

  // So an answer without blank lines among its words loses none.
  lemma NothingLost(ans: Text, p: nat, vals: seq<Option<Text>>)
    requires p <= |ans| && forall q: nat :: IsLine(ans, p, q) && q < |ans| ==> !IsBlankLine(ans, q)
    ensures Values(ans, p, vals).Some?
  {
    hide Values, IsLine, Gives, NextNumber;
    LostExactlyWhen(ans, p, vals);
  }

  // A blank line, and a word's number after it.
  lemma BlankStrays(ans: Text, p: nat)
    requires p + 4 == |ans| && ans[p..] == [LF, ZERO + 1, COLON, 0x61]
    ensures Find(ans, p, LF) == p && Strays(ans, p) && NextNumber(ans, p) == 1
  {
    assert ans[p] == ans[p..][0] && ans[p + 1] == ans[p..][1] && ans[p + 2] == ans[p..][2];
    FindIs(ans, p, LF, p);
    assert Digits(1) == [ZERO + 1];
    assert ans[p + 1..] == ans[p..][1..] == Digits(1) + [COLON, 0x61];
    NumberReadBack(ans, p + 1, 1, [COLON, 0x61]);
  }
}
