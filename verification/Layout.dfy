// The layouts of src/chat/layout.c: for the model that translates them the
// tags of a template become numbered markers, and are put back in its answer.

module Layout {
  import opened Bits
  import opened Ints
  import opened ByteText

  const LF: byte := 0x0a
  const CR: byte := 0x0d
  const SPACE: byte := 0x20
  const EQUALS: byte := 0x3d
  const ZERO: byte := 0x30
  const OPENING: byte := 0x7b
  const CLOSING: byte := 0x7d

  // ---- numbers, as strtoul reads them ----

  const WORD: nat := 0x1_0000_0000_0000_0000

  predicate IsSpace(b: byte) {
    b == SPACE || 9 <= b <= 13
  }

  predicate IsDigit(b: byte) {
    ZERO <= b <= ZERO + 9
  }

  predicate IsSign(b: byte) {
    b == 0x2b || b == 0x2d
  }

  function SpacesEnd(s: Text, i: nat): (j: nat)
    requires i <= |s|
    ensures i <= j <= |s|
    decreases |s| - i
  {
    if i < |s| && IsSpace(s[i]) then SpacesEnd(s, i + 1) else i
  }

  function DigitsEnd(s: Text, i: nat): (j: nat)
    requires i <= |s|
    ensures i <= j <= |s|
    decreases |s| - i
  {
    if i < |s| && IsDigit(s[i]) then DigitsEnd(s, i + 1) else i
  }

  function Decimal(d: Text): nat
    requires forall k :: 0 <= k < |d| ==> IsDigit(d[k])
  {
    if d == [] then 0
    else
      assert IsDigit(d[|d| - 1]);
      10 * Decimal(d[..|d| - 1]) + (d[|d| - 1] as int - ZERO as int)
  }

  lemma DigitsAre(s: Text, i: nat)
    requires i <= |s|
    ensures forall k :: i <= k < DigitsEnd(s, i) ==> IsDigit(s[k])
    decreases |s| - i
  {}

  // The number at i and where it ends, i where there is none: spaces, a sign
  // and digits; too large a number is the largest, and a minus wraps.
  function Number(s: Text, i: nat): (r: (nat, nat))
    requires i <= |s|
    ensures i <= r.1 <= |s|
  {
    var a := SpacesEnd(s, i);
    var b := if a < |s| && IsSign(s[a]) then a + 1 else a;
    var e := DigitsEnd(s, b);
    DigitsAre(s, b);
    if e == b then (0, i)
    else
      var v := Decimal(s[b..e]);
      (if v >= WORD then WORD - 1 else if a < b && s[a] == 0x2d then (WORD - v) % WORD else v, e)
  }

  // A number as printf writes it.
  function Digits(n: nat): (d: Text)
    ensures |d| > 0 && forall k :: 0 <= k < |d| ==> IsDigit(d[k])
  {
    if n < 10 then [ZERO + n] else Digits(n / 10) + [ZERO + n % 10]
  }

  lemma {:induction false} DecimalOfDigits(n: nat)
    ensures Decimal(Digits(n)) == n
  {
    if n >= 10 {
      DecimalOfDigits(n / 10);
      assert Digits(n)[..|Digits(n)| - 1] == Digits(n / 10);
    }
  }

  lemma {:induction false} DigitsEndAt(s: Text, i: nat, d: Text, rest: Text)
    requires GoesOn(s, i, d + rest) && (forall k :: 0 <= k < |d| ==> IsDigit(d[k]))
    requires rest != [] ==> !IsDigit(rest[0])
    ensures i <= |s| && DigitsEnd(s, i) == i + |d| <= |s| && s[i..i + |d|] == d
    decreases |d|
  {
    Past(s, i, d, rest);
    if d != [] {
      assert d + rest == [d[0]] + (d[1..] + rest);
      Past(s, i, [d[0]], d[1..] + rest);
      DigitsEndAt(s, i + 1, d[1..], rest);
    }
    assert s[i..i + |d|] == s[i..][..|d|];
  }

  // A number written is read back.
  lemma NumberReadBack(s: Text, i: nat, n: nat, rest: Text)
    requires GoesOn(s, i, Digits(n) + rest) && (rest != [] ==> !IsDigit(rest[0])) && n < WORD
    ensures i <= |s| && Number(s, i) == (n, i + |Digits(n)|) && GoesOn(s, i + |Digits(n)|, rest)
  {
    hide GoesOn;
    Past(s, i, Digits(n), rest);
    DigitsEndAt(s, i, Digits(n), rest);
    DecimalOfDigits(n);
    assert SpacesEnd(s, i) == i;
  }

  // ---- a template ----

  // Text and tags in turn.
  datatype Template = End(lit: Text) | Tagged(lit: Text, tag: Text, rest: Template)

  // The first place of two equal bytes from i on, before n; n where there is
  // none.
  function Pair(s: Text, i: nat, b: byte): (r: nat)
    requires i <= |s|
    ensures i <= r <= |s|
    ensures r < |s| ==> r + 1 < |s| && s[r] == b && s[r + 1] == b
    ensures forall k :: i <= k < r && k + 1 < |s| ==> !(s[k] == b && s[k + 1] == b)
    decreases |s| - i
  {
    if i == |s| then i
    else if i + 1 < |s| && s[i] == b && s[i + 1] == b then i
    else Pair(s, i + 1, b)
  }

  // The template of t from i on; None where a tag does not close.
  function Parse(t: Text, i: nat): Option<Template>
    requires i <= |t|
    decreases |t| - i
  {
    var open := Pair(t, i, OPENING);
    if open == |t| then Some(End(t[i..]))
    else
      var close := Pair(t, open, CLOSING);
      if close == |t| then None
      else
        var rest := Parse(t, close + 2);
        if rest.None? then None else Some(Tagged(t[i..open], t[open..close + 2], rest.value))
  }

  function Whole(p: Template): Text {
    match p
    case End(lit) => lit
    case Tagged(lit, tag, rest) => lit + tag + Whole(rest)
  }

  lemma ParseStep(t: Text, i: nat)
    requires i <= |t|
    ensures var open := Pair(t, i, OPENING);
            var close := Pair(t, open, CLOSING);
            && (open == |t| ==> Parse(t, i) == Some(End(t[i..])))
            && (open < |t| && close == |t| ==> Parse(t, i).None?)
            && (open < |t| && close < |t| ==>
                  var rest := Parse(t, close + 2);
                  Parse(t, i) == if rest.None? then None else Some(Tagged(t[i..open], t[open..close + 2], rest.value)))
  {
    hide Pair;
  }

  lemma {:induction false} ParseWhole(t: Text, i: nat)
    requires i <= |t| && Parse(t, i).Some?
    ensures Whole(Parse(t, i).value) == t[i..]
    decreases |t| - i
  {
    hide Pair, Parse, Whole;
    ParseStep(t, i);
    var open := Pair(t, i, OPENING);
    if open < |t| {
      var close := Pair(t, open, CLOSING);
      ParseWhole(t, close + 2);
      Apart(t, i, open, close + 2);
    }
    WholeOf(Parse(t, i).value);
  }

  lemma Apart(t: Text, i: nat, j: nat, k: nat)
    requires i <= j <= k <= |t|
    ensures t[i..] == t[i..j] + t[j..k] + t[k..]
  {
  }

  lemma WholeOf(p: Template)
    ensures Whole(p) == if p.End? then p.lit else p.lit + p.tag + Whole(p.rest)
  {}

  function Tags(p: Template): seq<Text> {
    if p.End? then [] else [p.tag] + Tags(p.rest)
  }

  // A tag's marker for the model.
  function Marker(k: nat): Text {
    [OPENING] + Digits(k) + [CLOSING]
  }

  // The text the model is given, the tags of p numbered after n.
  function Marked(p: Template, n: nat): Text {
    match p
    case End(lit) => lit
    case Tagged(lit, tag, rest) => lit + Marker(n + 1) + Marked(rest, n + 1)
  }

  predicate IsBlank(b: byte) {
    b == SPACE || b == LF
  }

  // The blanks a text begins with.
  function Blanks(s: Text, i: nat): (j: nat)
    requires i <= |s|
    ensures i <= j <= |s|
    decreases |s| - i
  {
    if i < |s| && IsBlank(s[i]) then Blanks(s, i + 1) else i
  }

  // For each tag, the blanks after it; and whether another tag comes right
  // after them.
  function Gaps(p: Template): seq<Text> {
    if p.End? then [] else [p.rest.lit[..Blanks(p.rest.lit, 0)]] + Gaps(p.rest)
  }

  function ToTags(p: Template): seq<bool> {
    if p.End? then [] else [p.rest.Tagged? && Blanks(p.rest.lit, 0) == |p.rest.lit|] + ToTags(p.rest)
  }

  lemma TagCounts(p: Template)
    ensures |Tags(p)| == |Gaps(p)| == |ToTags(p)|
  {}

  // ---- the answer's markers ----

  // A marker in a text: its number, and where it ends.
  function MarkerAt(a: Text, i: nat): (r: Option<(nat, nat)>)
    ensures r.Some? ==> i < r.value.1 <= |a| && a[i] == OPENING
  {
    if i < |a| && a[i] == OPENING then
      var (v, e) := Number(a, i + 1);
      if e > i + 1 && e < |a| && a[e] == CLOSING then Some((v, e + 1)) else None
    else None
  }

  // The numbers of the markers from i on.
  function MarkersOf(a: Text, i: nat): seq<nat>
    requires i <= |a|
    decreases |a| - i
  {
    if i == |a| then []
    else
      var m := MarkerAt(a, i);
      if m.Some? then [m.value.0] + MarkersOf(a, m.value.1) else MarkersOf(a, i + 1)
  }

  // What is known of the layout a text was made from.
  datatype Coded = Coded(tags: seq<Text>, gaps: seq<Text>, toTag: seq<bool>)

  predicate Matching(c: Coded) {
    |c.tags| == |c.gaps| == |c.toTag|
  }

  predicate IsGap(b: byte) {
    b == SPACE || b == LF || b == CR
  }

  // The blanks and line ends at i.
  function Run(a: Text, i: nat): (j: nat)
    requires i <= |a|
    ensures i <= j <= |a| && (j < |a| ==> !IsGap(a[j]))
    ensures forall k :: i <= k < j ==> IsGap(a[k])
    decreases |a| - i
  {
    if i < |a| && IsGap(a[i]) then Run(a, i + 1) else i
  }

  // Whether the blanks after tag k are to be the English ones: where the tag
  // after it is the next, or where both break the line.
  predicate Takes(c: Coded, a: Text, k: nat, i: nat)
    requires Matching(c) && 1 <= k <= |c.tags| && i <= |a|
  {
    var j := Run(a, i);
    || (c.toTag[k - 1] && j < |a| && a[j] == OPENING
        && var (v, e) := Number(a, j + 1); v == k + 1 && e < |a| && a[e] == CLOSING)
    || ((exists x :: i <= x < j && a[x] != SPACE) && LF in c.gaps[k - 1])
  }

  // The text with the tags put back; up to a marker made up.
  function Put(c: Coded, a: Text, i: nat): Text
    requires Matching(c) && i <= |a|
    decreases |a| - i
  {
    if i == |a| then []
    else
      var m := MarkerAt(a, i);
      if m.None? then [a[i]] + Put(c, a, i + 1)
      else
        var (k, next) := m.value;
        if k < 1 || k > |c.tags| then []
        else if Takes(c, a, k, next) then c.tags[k - 1] + c.gaps[k - 1] + Put(c, a, Run(a, next))
        else c.tags[k - 1] + Put(c, a, next)
  }

  // ---- what is accepted ----

  // Each of 1 to n once.
  predicate EachOnce(ks: seq<nat>, n: nat) {
    && (forall i :: 0 <= i < |ks| ==> 1 <= ks[i] <= n)
    && (forall i, j :: 0 <= i < j < |ks| ==> ks[i] != ks[j])
    && (forall k :: 1 <= k <= n ==> k in ks)
  }

  function Chosen(tags: seq<Text>, ks: seq<nat>): seq<Text>
    requires forall i :: 0 <= i < |ks| ==> 1 <= ks[i] <= |tags|
  {
    seq(|ks|, i requires 0 <= i < |ks| => tags[ks[i] - 1])
  }

  // So the tags put back are the English ones, in another order.
  lemma {:induction false} TagsArePermuted(tags: seq<Text>, ks: seq<nat>)
    requires EachOnce(ks, |tags|)
    ensures multiset(Chosen(tags, ks)) == multiset(tags)
    decreases |tags|
  {
    hide EachOnce, Chosen;
    if tags == [] {
      if ks != [] { SomeChosen(ks); }
      NoneChosen(tags);
    } else {
      var n := |tags|;
      var i := PlaceOf(ks, n);
      EachOnceWithout(ks, n, i);
      TagsArePermuted(tags[..n - 1], ks[..i] + ks[i + 1..]);
      ChosenWithout(tags, ks, i);
      assert tags == tags[..n - 1] + [tags[n - 1]];
    }
  }

  lemma NoneChosen(tags: seq<Text>)
    ensures Chosen(tags, []) == []
  {}

  lemma SomeChosen(ks: seq<nat>)
    requires ks != []
    ensures !EachOnce(ks, 0)
  {
    assert !(1 <= ks[0] <= 0);
  }

  lemma PlaceOf(ks: seq<nat>, n: nat) returns (i: nat)
    requires EachOnce(ks, n) && n > 0
    ensures i < |ks| && ks[i] == n
  {
    assert n in ks;
    i :| 0 <= i < |ks| && ks[i] == n;
  }

  lemma ChosenWithout(tags: seq<Text>, ks: seq<nat>, i: nat)
    requires tags != [] && i < |ks| && ks[i] == |tags| && EachOnce(ks, |tags|)
    requires EachOnce(ks[..i] + ks[i + 1..], |tags| - 1)
    ensures multiset(Chosen(tags, ks)) == multiset(Chosen(tags[..|tags| - 1], ks[..i] + ks[i + 1..]))
            + multiset{tags[|tags| - 1]}
  {
    var rest := ks[..i] + ks[i + 1..];
    var all, some := Chosen(tags, ks), Chosen(tags[..|tags| - 1], rest);
    assert |all| == |ks| && all[i] == tags[|tags| - 1];
    forall k | 0 <= k < |some| ensures some[k] == all[if k < i then k else k + 1] {
      assert rest[k] == ks[if k < i then k else k + 1];
    }
    Removed(all, some, i);
  }

  lemma Removed(all: seq<Text>, some: seq<Text>, i: nat)
    requires |all| == |some| + 1 && i < |all|
    requires forall k :: 0 <= k < |some| ==> some[k] == all[if k < i then k else k + 1]
    ensures multiset(all) == multiset(some) + multiset{all[i]}
  {
    assert all == some[..i] + [all[i]] + some[i..];
    assert some == some[..i] + some[i..];
  }

  lemma EachOnceWithout(ks: seq<nat>, n: nat, i: nat)
    requires EachOnce(ks, n) && n > 0 && i < |ks| && ks[i] == n
    ensures EachOnce(ks[..i] + ks[i + 1..], n - 1)
  {
    var rest := ks[..i] + ks[i + 1..];
    forall k | 1 <= k <= n - 1 ensures k in rest {
      assert k in ks;
      var j :| 0 <= j < |ks| && ks[j] == k;
      assert rest[if j < i then j else j - 1] == k;
    }
  }

  // ---- the way back ----

  // lit is at p, and a marker or the end comes after it.
  ghost predicate LitAt(a: Text, p: nat, lit: Text) {
    p + |lit| <= |a| && (forall k :: 0 <= k < |lit| ==> a[p + k] == lit[k])
      && (p + |lit| < |a| ==> a[p + |lit|] == OPENING)
  }

  lemma {:induction false} SpacesWithin(a: Text, p: nat, lit: Text, j: nat)
    requires LitAt(a, p, lit) && j <= |lit|
    ensures SpacesEnd(a, p + j) == p + SpacesEnd(lit, j)
    decreases |lit| - j
  {
    if j < |lit| && IsSpace(lit[j]) { SpacesWithin(a, p, lit, j + 1); }
  }

  lemma {:induction false} DigitsWithin(a: Text, p: nat, lit: Text, j: nat)
    requires LitAt(a, p, lit) && j <= |lit|
    ensures DigitsEnd(a, p + j) == p + DigitsEnd(lit, j)
    decreases |lit| - j
  {
    if j < |lit| && IsDigit(lit[j]) { DigitsWithin(a, p, lit, j + 1); }
  }

  // A text between markers holds a marker in the whole where it does alone.
  lemma MarkerWithin(a: Text, p: nat, lit: Text, i: nat)
    requires LitAt(a, p, lit) && i < |lit|
    ensures MarkerAt(a, p + i).Some? <==> MarkerAt(lit, i).Some?
  {
    hide SpacesEnd, DigitsEnd, Decimal;
    if lit[i] == OPENING {
      SpacesWithin(a, p, lit, i + 1);
      var x := SpacesEnd(lit, i + 1);
      var b := if x < |lit| && IsSign(lit[x]) then x + 1 else x;
      DigitsWithin(a, p, lit, b);
    }
  }

  lemma PutByte(c: Coded, a: Text, i: nat)
    requires Matching(c) && i < |a| && MarkerAt(a, i).None?
    ensures Put(c, a, i) == [a[i]] + Put(c, a, i + 1) && MarkersOf(a, i) == MarkersOf(a, i + 1)
  {
    hide MarkerAt, Takes;
  }

  // A text that holds none is put as it is.
  lemma {:induction false} PutText(c: Coded, a: Text, p: nat, lit: Text, i: nat)
    requires Matching(c) && LitAt(a, p, lit) && i <= |lit| && forall k :: 0 <= k < |lit| ==> MarkerAt(lit, k).None?
    ensures Put(c, a, p + i) == lit[i..] + Put(c, a, p + |lit|)
    ensures MarkersOf(a, p + i) == MarkersOf(a, p + |lit|)
    decreases |lit| - i
  {
    hide MarkerAt, Takes, Put, MarkersOf;
    if i < |lit| {
      MarkerWithin(a, p, lit, i);
      PutText(c, a, p, lit, i + 1);
      PutByte(c, a, p + i);
      assert lit[i..] == [lit[i]] + lit[i + 1..];
      Regroup([lit[i]], lit[i + 1..], Put(c, a, p + |lit|));
    }
  }

  lemma NoMarkerAt(a: Text, i: nat)
    requires i < |a| && a[i] != OPENING
    ensures MarkerAt(a, i).None?
  {}

  // So are blanks.
  lemma {:induction false} PutBlanks(c: Coded, a: Text, i: nat, j: nat)
    requires Matching(c) && i <= j <= |a| && forall k :: i <= k < j ==> IsGap(a[k])
    ensures Put(c, a, i) == a[i..j] + Put(c, a, j)
    ensures MarkersOf(a, i) == MarkersOf(a, j)
    decreases j - i
  {
    hide Takes, Put, MarkersOf, MarkerAt;
    if i < j {
      PutBlanks(c, a, i + 1, j);
      NoMarkerAt(a, i);
      PutByte(c, a, i);
      assert a[i..j] == [a[i]] + a[i + 1..j];
      Regroup([a[i]], a[i + 1..j], Put(c, a, j));
    } else {
      assert a[i..j] + Put(c, a, j) == Put(c, a, j);
    }
  }

  lemma MarkerReadBack(a: Text, i: nat, k: nat, rest: Text)
    requires GoesOn(a, i, Marker(k) + rest) && k < WORD
    ensures MarkerAt(a, i) == Some((k, i + |Marker(k)|)) && GoesOn(a, i + |Marker(k)|, rest)
  {
    hide GoesOn, Number, Digits;
    assert Marker(k) + rest == [OPENING] + (Digits(k) + ([CLOSING] + rest));
    Past(a, i, [OPENING], Digits(k) + ([CLOSING] + rest));
    NumberReadBack(a, i + 1, k, [CLOSING] + rest);
    Past(a, i + 1 + |Digits(k)|, [CLOSING], rest);
  }

  // No text of a template holds a marker of its own.
  predicate Clean(p: Template) {
    (forall k :: 0 <= k < |p.lit| ==> MarkerAt(p.lit, k).None?) && (p.Tagged? ==> Clean(p.rest))
  }

  // The blanks a text begins with break no line, or no carriage return comes
  // right after them.
  predicate Keeps(lit: Text) {
    var b := Blanks(lit, 0);
    LF in lit[..b] && b < |lit| ==> lit[b] != CR
  }

  // So it is after each tag of a template.
  predicate Unbroken(p: Template) {
    p.Tagged? ==> Keeps(p.rest.lit) && Unbroken(p.rest)
  }

  // c is of p's tags after the first n, save that blanks at p's end may have
  // been dropped.
  predicate IsOf(c: Coded, p: Template, n: nat)
    requires Matching(c)
    decreases p
  {
    if p.End? then n == |c.tags|
    else
      && n < |c.tags| && c.tags[n] == p.tag && c.toTag[n] == (p.rest.Tagged? && Blanks(p.rest.lit, 0) == |p.rest.lit|)
      && (p.rest == End([]) || c.gaps[n] == p.rest.lit[..Blanks(p.rest.lit, 0)])
      && IsOf(c, p.rest, n + 1)
  }

  // The blanks and line ends of a text between markers, in the whole.
  lemma {:induction false} RunWithin(a: Text, p: nat, lit: Text, i: nat)
    requires LitAt(a, p, lit) && i <= |lit|
    ensures Run(a, p + i) == p + Run(lit, i)
    decreases |lit| - i
  {
    if i < |lit| && IsGap(lit[i]) { RunWithin(a, p, lit, i + 1); }
  }

  lemma {:induction false} BlanksInRun(lit: Text, i: nat)
    requires i <= |lit|
    ensures Blanks(lit, i) <= Run(lit, i)
    ensures Blanks(lit, i) == Run(lit, i) <==> (Blanks(lit, i) < |lit| ==> lit[Blanks(lit, i)] != CR)
    decreases |lit| - i
  {
    if i < |lit| && IsBlank(lit[i]) { BlanksInRun(lit, i + 1); }
  }

  // What is taken after a tag: the blanks that are there, or those before a
  // carriage return.
  lemma TakesWhatIs(c: Coded, a: Text, k: nat, i: nat, p: Template)
    requires Matching(c) && 1 <= k <= |c.tags| && LitAt(a, i, p.lit)
    requires p == End([]) || c.gaps[k - 1] == p.lit[..Blanks(p.lit, 0)]
    requires c.toTag[k - 1] == (p.Tagged? && Blanks(p.lit, 0) == |p.lit|) && (p == End([]) ==> |a| == i)
    ensures Takes(c, a, k, i) && Keeps(p.lit) ==> c.gaps[k - 1] == a[i..Run(a, i)]
    ensures !Keeps(p.lit) ==> Takes(c, a, k, i) && |c.gaps[k - 1]| < Run(a, i) - i
  {
    hide Number, Run, Blanks;
    RunWithin(a, i, p.lit, 0);
    BlanksInRun(p.lit, 0);
    var b := Blanks(p.lit, 0);
    assert a[i..i + b] == p.lit[..b];
    if !Keeps(p.lit) {
      var x :| 0 <= x < b && p.lit[x] == LF;
      assert a[i + x] == LF;
    }
  }

  lemma LitIs(a: Text, i: nat, p: Template, n: nat)
    requires GoesOn(a, i, Marked(p, n))
    ensures LitAt(a, i, p.lit) && (p.End? ==> i + |p.lit| == |a|)
    ensures p.Tagged? ==> GoesOn(a, i + |p.lit|, Marker(n + 1) + Marked(p.rest, n + 1))
  {
    hide Digits;
    assert |a[i..]| == |a| - i;
    forall k | 0 <= k < |p.lit| ensures a[i + k] == p.lit[k] {
      assert a[i + k] == a[i..][k];
    }
    if p.Tagged? {
      var m := Marker(n + 1) + Marked(p.rest, n + 1);
      assert Marked(p, n) == p.lit + m;
      MarkerFollows(a, i, p.lit, m);
    }
  }

  lemma MarkerFollows(a: Text, i: nat, lit: Text, m: Text)
    requires GoesOn(a, i, lit + m) && m != [] && m[0] == OPENING
    ensures GoesOn(a, i + |lit|, m) && i + |lit| < |a| && a[i + |lit|] == OPENING
  {
    hide GoesOn;
    Past(a, i, lit, m);
    assert [] + m == m;
    Past(a, i + |lit|, [], m);
  }

  lemma Regroup<T>(a: seq<T>, b: seq<T>, c: seq<T>)
    ensures a + (b + c) == (a + b) + c
  {}

  lemma PutStep(c: Coded, a: Text, i: nat, k: nat, next: nat)
    requires Matching(c) && MarkerAt(a, i) == Some((k, next)) && 1 <= k <= |c.tags|
    ensures MarkersOf(a, i) == [k] + MarkersOf(a, next)
    ensures Put(c, a, i)
            == if Takes(c, a, k, next) then c.tags[k - 1] + c.gaps[k - 1] + Put(c, a, Run(a, next))
               else c.tags[k - 1] + Put(c, a, next)
  {
    hide MarkerAt, Takes, Run;
  }

  // A marker's tag, and what follows it: as it is, or with bytes lost.
  lemma PutTag(c: Coded, a: Text, i: nat, k: nat, next: nat, p: Template)
    requires Matching(c) && MarkerAt(a, i) == Some((k, next)) && 1 <= k <= |c.tags| && LitAt(a, next, p.lit)
    requires p == End([]) || c.gaps[k - 1] == p.lit[..Blanks(p.lit, 0)]
    requires c.toTag[k - 1] == (p.Tagged? && Blanks(p.lit, 0) == |p.lit|) && (p == End([]) ==> |a| == next)
    ensures MarkersOf(a, i) == [k] + MarkersOf(a, next)
    ensures Keeps(p.lit) ==> Put(c, a, i) == c.tags[k - 1] + Put(c, a, next)
    ensures !Keeps(p.lit) ==> |Put(c, a, i)| < |c.tags[k - 1]| + |Put(c, a, next)|
  {
    hide MarkerAt, Takes, Blanks, Put, MarkersOf, Run, LitAt, Keeps;
    PutStep(c, a, i, k, next);
    TakesWhatIs(c, a, k, next, p);
    PutBlanks(c, a, next, Run(a, next));
    Regroup(c.tags[k - 1], c.gaps[k - 1], Put(c, a, Run(a, next)));
  }

  function From(n: nat, m: nat): seq<nat>
    requires n <= m
  {
    seq(m - n, i requires 0 <= i < m - n => n + i + 1)
  }

  // The markers' tags put back in a template's own text, each marker met once
  // and in order, give the template exactly when it is unbroken.
  lemma {:induction false} PutsBack(c: Coded, a: Text, i: nat, p: Template, n: nat)
    requires Matching(c) && |c.tags| < WORD && n <= |c.tags| && IsOf(c, p, n) && Clean(p) && GoesOn(a, i, Marked(p, n))
    ensures i <= |a| && MarkersOf(a, i) == From(n, |c.tags|)
    ensures |Put(c, a, i)| <= |Whole(p)| && (Put(c, a, i) == Whole(p) <==> Unbroken(p))
    decreases p
  {
    hide MarkerAt, Takes, Blanks, Marker, GoesOn, LitAt, Put, MarkersOf, Number, Keeps, Marked, Whole;
    LitIs(a, i, p, n);
    LitInside(a, i, p.lit);
    PutText(c, a, i, p.lit, 0);
    WholeOf(p);
    assert p.lit[0..] == p.lit;
    if p.Tagged? {
      var at := i + |p.lit|;
      var next := at + |Marker(n + 1)|;
      MarkerReadBack(a, at, n + 1, Marked(p.rest, n + 1));
      LitIs(a, next, p.rest, n + 1);
      PutTag(c, a, at, n + 1, next, p.rest);
      PutsBack(c, a, next, p.rest, n + 1);
      FromOn(n, |c.tags|);
      JoinedBack(p.lit, p.tag, Put(c, a, at), Put(c, a, next), Whole(p.rest), Keeps(p.rest.lit));
    } else {
      PutNothing(c, a);
      assert p.lit + [] == p.lit;
    }
  }

  lemma FromOn(n: nat, m: nat)
    requires n < m
    ensures From(n, m) == [n + 1] + From(n + 1, m)
  {}

  // A text and a tag before what comes back.
  lemma JoinedBack(lit: Text, tag: Text, put: Text, x: Text, whole: Text, keeps: bool)
    requires |x| <= |whole| && if keeps then put == tag + x else |put| < |tag| + |x|
    ensures |lit + put| <= |lit + tag + whole|
    ensures lit + put == lit + tag + whole <==> keeps && x == whole
  {
    if keeps {
      assert (lit + put)[|lit| + |tag|..] == x && (lit + tag + whole)[|lit| + |tag|..] == whole;
      assert lit + (tag + x) == lit + tag + x;
    }
  }

  lemma LitInside(a: Text, i: nat, lit: Text)
    requires LitAt(a, i, lit)
    ensures i + |lit| <= |a|
  {}

  lemma PutNothing(c: Coded, a: Text)
    requires Matching(c)
    ensures Put(c, a, |a|) == [] && MarkersOf(a, |a|) == []
  {}

  // ---- the blanks at the end ----

  function Trimmed(s: Text): (r: Text)
    ensures |r| <= |s|
  {
    if s != [] && IsBlank(s[|s| - 1]) then Trimmed(s[..|s| - 1]) else s
  }

  lemma {:induction false} TrimmedAfter(a: Text, b: Text)
    requires a != [] && !IsBlank(a[|a| - 1])
    ensures Trimmed(a + b) == a + Trimmed(b)
    decreases |b|
  {
    if b != [] {
      assert (a + b)[..|a + b| - 1] == a + b[..|b| - 1];
      if IsBlank(b[|b| - 1]) { TrimmedAfter(a, b[..|b| - 1]); }
    } else {
      assert a + b == a;
    }
  }

  function TrimmedTemplate(p: Template): Template {
    if p.End? then End(Trimmed(p.lit)) else p.(rest := TrimmedTemplate(p.rest))
  }

  // Every tag ends as a tag does.
  predicate TagsClose(p: Template) {
    p.Tagged? ==> p.tag != [] && !IsBlank(p.tag[|p.tag| - 1]) && TagsClose(p.rest)
  }

  lemma {:induction false} ParseCloses(t: Text, i: nat)
    requires i <= |t| && Parse(t, i).Some?
    ensures TagsClose(Parse(t, i).value)
    decreases |t| - i
  {
    hide Pair, Parse;
    ParseStep(t, i);
    var open := Pair(t, i, OPENING);
    if open < |t| {
      var close := Pair(t, open, CLOSING);
      ParseCloses(t, close + 2);
    }
  }

  lemma {:induction false} TrimmedWhole(p: Template)
    requires TagsClose(p)
    ensures Trimmed(Whole(p)) == Whole(TrimmedTemplate(p))
  {
    if p.Tagged? {
      TrimmedWhole(p.rest);
      TrimmedAfter(p.lit + p.tag, Whole(p.rest));
    }
  }

  lemma {:induction false} TrimmedMarked(p: Template, n: nat)
    ensures Trimmed(Marked(p, n)) == Marked(TrimmedTemplate(p), n)
    decreases p
  {
    hide Digits;
    if p.Tagged? {
      TrimmedMarked(p.rest, n + 1);
      TrimmedAfter(p.lit + Marker(n + 1), Marked(p.rest, n + 1));
    }
  }

  // ---- the code ----

  // The blanks a template's text begins with, in the whole of it.
  lemma {:induction false} BlanksWithin(t: Text, i: nat, open: nat, j: nat)
    requires i <= open <= |t| && j <= open - i && (open < |t| ==> !IsBlank(t[open]))
    ensures Blanks(t, i + j) == i + Blanks(t[i..open], j)
    decreases open - i - j
  {
    if i + j < open && IsBlank(t[i + j]) { BlanksWithin(t, i, open, j + 1); }
  }

  lemma GapIs(t: Text, i: nat)
    requires i <= |t| && Parse(t, i).Some?
    ensures var p, sp := Parse(t, i).value, Blanks(t, i);
            && t[i..sp] == p.lit[..Blanks(p.lit, 0)]
            && (sp + 1 < |t| && t[sp] == OPENING && t[sp + 1] == OPENING <==> p.Tagged? && Blanks(p.lit, 0) == |p.lit|)
  {
    hide Pair;
    var open, p, sp := Pair(t, i, OPENING), Parse(t, i).value, Blanks(t, i);
    BlanksWithin(t, i, open, 0);
    assert p.lit == t[i..open];
    assert t[i..sp] == t[i..open][..sp - i];
  }

  function CodedOf(p: Template): (c: Coded)
    ensures Matching(c)
  {
    TagCounts(p);
    Coded(Tags(p), Gaps(p), ToTags(p))
  }

  // The text and the tags so far, with those of p, are those of all.
  ghost predicate Covers(text: Text, c: Coded, p: Template, all: Template) {
    && Matching(c) && text + Marked(p, |c.tags|) == Marked(all, 0) && c.tags + Tags(p) == Tags(all)
    && c.gaps + Gaps(p) == Gaps(all) && c.toTag + ToTags(p) == ToTags(all)
  }

  lemma CoversOn(text: Text, c: Coded, p: Template, all: Template)
    requires Covers(text, c, p, all) && p.Tagged?
    ensures Covers(text + p.lit + Marker(|c.tags| + 1),
                   Coded(c.tags + [p.tag], c.gaps + [p.rest.lit[..Blanks(p.rest.lit, 0)]],
                         c.toTag + [p.rest.Tagged? && Blanks(p.rest.lit, 0) == |p.rest.lit|]), p.rest, all)
  {
    hide Blanks, Marker;
    var m, r := Marker(|c.tags| + 1), Marked(p.rest, |c.tags| + 1);
    assert text + (p.lit + m + r) == (text + p.lit + m) + r;
    assert c.tags + ([p.tag] + Tags(p.rest)) == (c.tags + [p.tag]) + Tags(p.rest);
    Shifted(c.gaps, p.rest.lit[..Blanks(p.rest.lit, 0)], Gaps(p.rest));
    Shifted(c.toTag, p.rest.Tagged? && Blanks(p.rest.lit, 0) == |p.rest.lit|, ToTags(p.rest));
  }

  lemma Shifted<T>(a: seq<T>, x: T, b: seq<T>)
    ensures a + ([x] + b) == (a + [x]) + b
  {}

  lemma CoversEnd(text: Text, c: Coded, p: Template, all: Template)
    requires Covers(text, c, p, all) && p.End?
    ensures text + p.lit == Marked(all, 0) && c == CodedOf(all)
  {}

  // The text so far is of the template's beginning.
  ghost predicate Encoding(t: Text, i: nat, text: Text, c: Coded) {
    && i <= |t| && Matching(c) && (Parse(t, 0).None? <==> Parse(t, i).None?)
    && (Parse(t, i).Some? ==> Covers(text, c, Parse(t, i).value, Parse(t, 0).value))
  }

  // All of the template is in the text.
  ghost predicate Ended(t: Text, text: Text, c: Coded) {
    Parse(t, 0).Some? && text == Marked(Parse(t, 0).value, 0) && c == CodedOf(Parse(t, 0).value)
  }

  lemma EncodingEnds(t: Text, i: nat, text: Text, c: Coded)
    requires Encoding(t, i, text, c) && Pair(t, i, OPENING) == |t|
    ensures Ended(t, text + t[i..], c) && Parse(t, 0).Some?
  {
    hide Pair, Parse, Covers, Marked;
    ParseStep(t, i);
    CoversEnd(text, c, Parse(t, i).value, Parse(t, 0).value);
  }

  lemma EncodingFails(t: Text, i: nat, text: Text, c: Coded)
    requires Encoding(t, i, text, c) && Pair(t, i, OPENING) < |t| && Pair(t, Pair(t, i, OPENING), CLOSING) == |t|
    ensures Parse(t, 0).None?
  {
    hide Pair, Parse, Covers;
    ParseStep(t, i);
  }

  lemma EncodingOn(t: Text, i: nat, text: Text, c: Coded, open: nat, end: nat)
    requires Encoding(t, i, text, c) && open == Pair(t, i, OPENING) < |t| && end == Pair(t, open, CLOSING) + 2 <= |t|
    ensures var sp := Blanks(t, end);
            Encoding(t, end, text + t[i..open] + Marker(|c.tags| + 1),
                     Coded(c.tags + [t[open..end]], c.gaps + [t[end..sp]],
                           c.toTag + [sp + 1 < |t| && t[sp] == OPENING && t[sp + 1] == OPENING]))
  {
    hide Pair, Parse, Covers, Blanks, Marker;
    ParseStep(t, i);
    if Parse(t, end).Some? {
      GapIs(t, end);
      CoversOn(text, c, Parse(t, i).value, Parse(t, 0).value);
    }
  }

  // The template's text with its tags numbered, and what they were; or false
  // for a tag that does not close.
  method EncodeText(t: Text) returns (ok: bool, text: Text, c: Coded)
    ensures ok <==> Parse(t, 0).Some?
    ensures ok ==> Ended(t, text, c)
  {
    hide Encoding, Ended, Blanks, Marker, Pair, Parse;
    text, c := [], Coded([], [], []);
    EncodingStarts(t);
    var i: nat := 0;
    while i < |t|
      invariant Encoding(t, i, text, c) && i <= |t|
    {
      var open := Pair(t, i, OPENING);
      if open == |t| {
        EncodingEnds(t, i, text, c);
        assert t[i..open] == t[i..];
        text := text + t[i..open];
        return true, text, c;
      }
      var close := Pair(t, open, CLOSING);
      if close == |t| {
        EncodingFails(t, i, text, c);
        return false, text, c;
      }
      var end := close + 2;
      var sp := Blanks(t, end);
      EncodingOn(t, i, text, c, open, end);
      text := text + t[i..open] + Marker(|c.tags| + 1);
      c := Coded(c.tags + [t[open..end]], c.gaps + [t[end..sp]],
                 c.toTag + [sp + 1 < |t| && t[sp] == OPENING && t[sp + 1] == OPENING]);
      i := end;
    }
    EncodingEnds(t, i, text, c);
    assert text + t[i..] == text;
    ok := true;
  }

  lemma EncodingStarts(t: Text)
    ensures Encoding(t, 0, [], Coded([], [], [])) && Pair(t, |t|, OPENING) == |t|
  {
    if Parse(t, 0).Some? {
      var p := Parse(t, 0).value;
      assert [] + Marked(p, 0) == Marked(p, 0) && [] + Tags(p) == Tags(p) && [] + Gaps(p) == Gaps(p)
          && [] + ToTags(p) == ToTags(p);
    }
  }
}
