// The layouts of src/chat/layout.c in plain terms: the characters they are
// written with, the numbers in them, the lines of their words, and when the
// blanks after a tag are taken.

module LayoutPlain {
  import opened Bits
  import opened Ints
  import opened ByteText
  import opened Layout
  import opened LayoutWords
  import opened LayoutRun

  // ---- characters ----

  function Spell(s: string): Text
    requires forall k :: 0 <= k < |s| ==> s[k] as int < 256
  {
    seq(|s|, k requires 0 <= k < |s| => s[k] as int)
  }

  lemma Characters()
    ensures [LF, CR, SPACE, EQUALS, OPENING, CLOSING] == Spell("\n\r ={}")
    ensures [COLON, COMMENT, LayoutWords.BRACKET] == Spell(":#[")
    ensures DASHES == Spell("\n---\n") && WORDS == Spell("=== words") && DECIMAL == Spell("decimal = ,\n")
  {}

  lemma Classes()
    ensures forall b: byte :: IsSpace(b) <==> b in Spell(" \t\n\U{000b}\U{000c}\r")
    ensures forall b: byte :: IsDigit(b) <==> b in Spell("0123456789")
    ensures forall b: byte :: IsSign(b) <==> b in Spell("+-")
    ensures forall b: byte :: IsGap(b) <==> b in Spell(" \n\r")
    ensures forall b: byte :: Layout.IsBlank(b) <==> b in Spell(" \n")
    ensures forall b: byte :: Trails(b) <==> b in Spell(" \r")
  {
    AmongSpaces();
    AmongDigits();
    assert Spell("+-") == [0x2b, 0x2d] && Spell(" \n\r") == [0x20, 0x0a, 0x0d];
    assert Spell(" \n") == [0x20, 0x0a] && Spell(" \r") == [0x20, 0x0d];
  }

  lemma AmongSpaces()
    ensures forall b: byte :: IsSpace(b) <==> b in Spell(" \t\n\U{000b}\U{000c}\r")
  {
    assert Spell(" \t\n\U{000b}\U{000c}\r") == [0x20, 9, 10, 11, 12, 13];
  }

  lemma AmongDigits()
    ensures forall b: byte :: IsDigit(b) <==> b in Spell("0123456789")
  {
    assert Spell("0123456789") == [0x30, 0x31, 0x32, 0x33, 0x34, 0x35, 0x36, 0x37, 0x38, 0x39];
  }

  // ---- numbers ----

  lemma {:induction false} SpacesOver(s: Text, i: nat, spaces: Text, rest: Text)
    requires GoesOn(s, i, spaces + rest) && (forall k :: 0 <= k < |spaces| ==> IsSpace(spaces[k]))
    requires rest != [] && !IsSpace(rest[0])
    ensures i <= |s| && SpacesEnd(s, i) == i + |spaces| && GoesOn(s, i + |spaces|, rest)
    decreases |spaces|
  {
    Past(s, i, spaces, rest);
    if spaces != [] {
      assert spaces + rest == [spaces[0]] + (spaces[1..] + rest);
      Past(s, i, [spaces[0]], spaces[1..] + rest);
      SpacesOver(s, i + 1, spaces[1..], rest);
    }
  }

  // A number is written without zeros before it.
  lemma {:induction false} NoZerosBefore(n: nat)
    ensures if n == 0 then Digits(n) == Spell("0") else Digits(n)[0] as int != '0' as int
  {
    assert Spell("0") == [0x30];
    if n >= 10 { NoZerosBefore(n / 10); }
  }

  // A number is read past spaces and a sign: a minus takes it from 2^64, and
  // one of 2^64 or more is 2^64 - 1.
  lemma SignedRead(s: Text, i: nat, spaces: Text, sign: Text, n: nat, rest: Text)
    requires GoesOn(s, i, spaces + (sign + (Digits(n) + rest))) && (rest != [] ==> !IsDigit(rest[0]))
    requires (forall k :: 0 <= k < |spaces| ==> IsSpace(spaces[k]))
    requires sign == [] || sign == Spell("+") || sign == Spell("-")
    ensures i <= |s|
    ensures Number(s, i)
            == (if n >= 18446744073709551616 then 18446744073709551615
                else if sign == Spell("-") && n > 0 then 18446744073709551616 - n else n,
                i + |spaces| + |sign| + |Digits(n)|)
  {
    hide GoesOn, Digits, SpacesEnd, DigitsEnd, Decimal;
    assert Spell("+") == [0x2b] && Spell("-") == [0x2d];
    var more := sign + (Digits(n) + rest);
    if sign == [] { assert more[0] == Digits(n)[0]; } else { assert more[0] == sign[0]; }
    SpacesOver(s, i, spaces, more);
    var a := i + |spaces|;
    Past(s, a, sign, Digits(n) + rest);
    SignIs(s, a, sign, Digits(n), rest);
    var b := a + |sign|;
    DigitsEndAt(s, b, Digits(n), rest);
    DecimalOfDigits(n);
  }

  lemma SignIs(s: Text, a: nat, sign: Text, digits: Text, rest: Text)
    requires GoesOn(s, a, sign + (digits + rest)) && |digits| > 0 && IsDigit(digits[0])
    requires sign == [] || sign == [0x2b] || sign == [0x2d]
    ensures a < |s| && (if sign == [] then !IsSign(s[a]) else IsSign(s[a]) && (s[a] == 0x2d <==> sign == [0x2d]))
  {
    Past(s, a, sign, digits + rest);
    if sign == [] { assert (digits + rest)[0] == digits[0]; }
  }

  // ---- the blanks after a tag ----

  // They are the English ones where the English text has the next tag right
  // after them and so has the answer; or where both have a line break in
  // them.
  lemma TakesWhen(c: Coded, a: Text, k: nat, i: nat)
    requires Matching(c) && 1 <= k <= |c.tags| && i <= |a|
    ensures var j := Run(a, i);
            Takes(c, a, k, i)
            <==> || (c.toTag[k - 1] && MarkerAt(a, j).Some? && MarkerAt(a, j).value.0 == k + 1)
                 || ((exists x :: i <= x < j && (a[x] == '\n' as int || a[x] == '\r' as int))
                     && '\n' as int in c.gaps[k - 1])
  {
    hide Run, Number;
    var j := Run(a, i);
    if j < |a| && a[j] == OPENING { NoValue(a, j + 1); }
  }

  lemma NoValue(a: Text, i: nat)
    requires i <= |a|
    ensures Number(a, i).1 == i ==> Number(a, i).0 == 0
  {}

  // ---- the lines of words ----

  lemma {:induction false} ShornIs(s: Text, trail: Text)
    requires (s == [] || !Trails(s[|s| - 1])) && forall k :: 0 <= k < |trail| ==> Trails(trail[k])
    ensures Shorn(s + trail) == s
    decreases |trail|
  {
    if trail == [] {
      assert s + trail == s;
    } else {
      assert (s + trail)[..|s + trail| - 1] == s + trail[..|trail| - 1];
      ShornIs(s, trail[..|trail| - 1]);
    }
  }

  lemma {:induction false} KeyIs(s: Text, spaces: Text)
    requires (s == [] || s[|s| - 1] != SPACE) && forall k :: 0 <= k < |spaces| ==> spaces[k] == SPACE
    ensures KeyOf(s + spaces) == s
    decreases |spaces|
  {
    if spaces == [] {
      assert s + spaces == s;
    } else {
      assert (s + spaces)[..|s + spaces| - 1] == s + spaces[..|spaces| - 1];
      KeyIs(s, spaces[..|spaces| - 1]);
    }
  }

  lemma {:induction false} SkipIs(s: Text, i: nat, j: nat)
    requires i <= j <= |s| && (j < |s| ==> s[j] != SPACE) && forall k :: i <= k < j ==> s[k] == SPACE
    ensures Skip(s, i) == j
    decreases j - i
  {
    if i < j { SkipIs(s, i + 1, j); }
  }

  lemma {:induction false} FindFirst(s: Text, i: nat, j: nat, b: byte)
    requires i <= j <= |s| && (j < |s| ==> s[j] == b) && forall k :: i <= k < j ==> s[k] != b
    ensures Find(s, i, b) == j
    decreases j - i
  {
    if i < j { FindFirst(s, i + 1, j, b); }
  }

  // A line "key = text" is a word, its key without the spaces around it at
  // the equals sign, its text without those before it.
  lemma WordIs(key: Text, a: Text, b: Text, text: Text)
    requires EQUALS !in key && (key == [] || (key[0] != COMMENT && key[|key| - 1] != SPACE))
    requires (forall k :: 0 <= k < |a| ==> a[k] == SPACE) && (forall k :: 0 <= k < |b| ==> b[k] == SPACE)
    requires text == [] || text[0] != SPACE
    ensures WordOf(key + a + [EQUALS] + b + text) == Some(Word(key, text))
  {
    hide Find, Skip, KeyOf;
    var line, eq := key + a + [EQUALS] + b + text, |key| + |a|;
    LinePartsAre(key, a, b, text);
    FindFirst(line, 0, eq, EQUALS);
    KeyIs(key, a);
    SkipIs(line, eq + 1, eq + 1 + |b|);
  }

  lemma LinePartsAre(key: Text, a: Text, b: Text, text: Text)
    requires EQUALS !in key && (forall k :: 0 <= k < |a| ==> a[k] == SPACE)
    requires (forall k :: 0 <= k < |b| ==> b[k] == SPACE) && (text == [] || text[0] != SPACE)
    ensures var line, eq := key + a + [EQUALS] + b + text, |key| + |a|;
            && line[eq] == EQUALS && line[..eq] == key + a && line[eq + 1 + |b|..] == text
            && (forall k :: 0 <= k < eq ==> line[k] != EQUALS)
            && (forall k :: eq + 1 <= k < eq + 1 + |b| ==> line[k] == SPACE)
            && (text != [] ==> line[eq + 1 + |b|] != SPACE) && line[0] == if key + a == [] then EQUALS else (key + a)[0]
  {
    var line, eq := key + a + [EQUALS] + b + text, |key| + |a|;
    forall k | 0 <= k < eq ensures line[k] != EQUALS {
      if k < |key| { assert line[k] == key[k] && key[k] in key; } else { assert line[k] == a[k - |key|]; }
    }
    forall k | eq + 1 <= k < eq + 1 + |b| ensures line[k] == SPACE {
      assert line[k] == b[k - eq - 1];
    }
  }

  // Any other line is none: one without an equals sign, or a comment.
  lemma NoWord(line: Text)
    requires EQUALS !in line || (line != [] && line[0] == COMMENT)
    ensures WordOf(line).None?
  {
    hide Find;
    if EQUALS !in line { FindFirst(line, 0, |line|, EQUALS); }
  }

  // A value ends at a bracket or with its line, without what trails.
  lemma ValueIs(line: Text, i: nat, spaces: Text, text: Text, trail: Text, rest: Text)
    requires GoesOn(line, i, spaces + text + trail + rest) && (forall k :: 0 <= k < |spaces| ==> spaces[k] == SPACE)
    requires LayoutWords.BRACKET !in text && (rest != [] ==> rest[0] == LayoutWords.BRACKET)
    requires (forall k :: 0 <= k < |trail| ==> Trails(trail[k]))
    requires text != [] && text[0] != SPACE && !Trails(text[|text| - 1])
    ensures i <= |line| && ValueOf(line, i) == text
  {
    hide Find, Skip, Shorn;
    var v := i + |spaces|;
    assert |line[i..]| == |line| - i;
    var on := spaces + text + trail + rest;
    assert forall k :: 0 <= k < |on| ==> line[i + k] == on[k];
    assert forall k :: 0 <= k < |spaces| ==> on[k] == spaces[k];
    assert forall k :: 0 <= k < |text| ==> on[|spaces| + k] == text[k];
    SkipIs(line, i, v) by {
      assert line[i + |spaces|] == text[0];
      forall k | i <= k < v ensures line[k] == SPACE { assert line[i + (k - i)] == spaces[k - i]; }
    }
    var e := v + |text| + |trail|;
    EndOfValue(line, i, spaces, text, trail, rest);
    FindFirst(line, v, e, LayoutWords.BRACKET);
    assert line[v..e] == text + trail;
    ShornIs(text, trail);
  }

  lemma EndOfValue(line: Text, i: nat, spaces: Text, text: Text, trail: Text, rest: Text)
    requires GoesOn(line, i, spaces + text + trail + rest) && (forall k :: 0 <= k < |trail| ==> Trails(trail[k]))
    requires LayoutWords.BRACKET !in text && (rest != [] ==> rest[0] == LayoutWords.BRACKET)
    ensures var v := i + |spaces|;
            var e := v + |text| + |trail|;
            && e <= |line| && (e < |line| ==> line[e] == LayoutWords.BRACKET)
            && (forall k :: v <= k < e ==> line[k] != LayoutWords.BRACKET) && line[v..e] == text + trail
  {
    var on, v := spaces + text + trail + rest, i + |spaces|;
    var e := v + |text| + |trail|;
    assert |line[i..]| == |line| - i;
    assert forall k :: 0 <= k < |on| ==> line[i + k] == on[k];
    if rest != [] { assert on[e - i] == rest[0]; }
    forall k | v <= k < e ensures line[k] != LayoutWords.BRACKET {
      assert line[i + (k - i)] == on[k - i];
      if k < v + |text| { assert text[k - v] in text && on[k - i] == text[k - v]; }
      else { assert on[k - i] == trail[k - v - |text|]; }
    }
    assert on[|spaces|..|spaces| + |text| + |trail|] == text + trail;
    assert line[v..e] == line[i..][|spaces|..|spaces| + |text| + |trail|];
  }
}
