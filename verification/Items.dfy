// How far src/chat/term.h sets in the rows of a list item after its first.

module Items {
  import opened Bits
  import opened Ints
  import opened Wrap

  // The marks of an item: a bullet, or digits and a dot or a parenthesis.
  predicate IsItemMark(mark: Text) {
    || mark == [0xe2, 0x80, 0xa2]
    || (|mark| >= 2 && (forall k :: 0 <= k < |mark| - 1 ==> '0' as int <= mark[k] as int <= '9' as int)
        && (mark[|mark| - 1] as int == '.' as int || mark[|mark| - 1] as int == ')' as int))
  }

  lemma {:induction false} IndentOver(s: Text, i: nat, ind: Text, rest: Text)
    requires i <= |ind| && s == ind + rest && forall k :: 0 <= k < |ind| ==> ind[k] == 0x20 || ind[k] == 0x09
    requires rest != [] ==> rest[0] != 0x20 && rest[0] != 0x09 && rest[0] != 0x1b
    ensures Indent(s, i, i) == (|ind|, |ind|)
    decreases |ind| - i
  {
    if i < |ind| {
      assert s[i] == ind[i];
      IndentOver(s, i + 1, ind, rest);
    } else if rest != [] {
      assert s[i] == rest[0];
    }
  }

  lemma {:induction false} DigitsOver(s: Text, i: nat, e: nat)
    requires i <= e < |s| && !(0x30 <= s[e] <= 0x39) && forall k :: i <= k < e ==> 0x30 <= s[k] <= 0x39
    ensures DigitsEnd(s, i) == e
    decreases e - i
  {
    if i < e { DigitsOver(s, i + 1, e); }
  }

  lemma {:induction false} SpacesOver(s: Text, i: nat, e: nat)
    requires i <= e <= |s| && (e < |s| ==> s[e] != 0x20) && forall k :: i <= k < e ==> s[k] == 0x20
    ensures SpacesEnd(s, i) == e
    decreases e - i
  {
    if i < e { SpacesOver(s, i + 1, e); }
  }

  // An item's rows go under its text: the columns of its blanks, its mark and
  // the spaces after that; a mark with no space after it makes no item.
  lemma ItemHangs(ind: Text, mark: Text, spaces: Text, rest: Text)
    requires (forall k :: 0 <= k < |ind| ==> ind[k] == 0x20 || ind[k] == 0x09) && IsItemMark(mark)
    requires (forall k :: 0 <= k < |spaces| ==> spaces[k] == 0x20) && (rest != [] ==> rest[0] != 0x20)
    ensures Hang(ind + mark + spaces + rest)
            == if spaces == [] then 0 else |ind| + (if mark[0] == 0xe2 then 1 else |mark|) + |spaces|
  {
    hide Indent, Hang, HangFrom;
    var s := ind + mark + spaces + rest;
    var i, e := |ind|, |ind| + |mark|;
    assert s == ind + (mark + spaces + rest) && (mark + spaces + rest)[0] == mark[0];
    IndentOver(s, 0, ind, mark + spaces + rest);
    PartsAt(ind, mark, spaces, rest);
    if mark == [0xe2, 0x80, 0xa2] { BulletMark(s, i, e, mark); } else { NumberBytes(mark); NumberMark(s, i, e, mark); }
    var cols := if mark[0] == 0xe2 then 1 else |mark|;
    GapHangs(s, e, e + |spaces|, i + cols);
  }

  lemma PartsAt(ind: Text, mark: Text, spaces: Text, rest: Text)
    ensures var s, i, e := ind + mark + spaces + rest, |ind|, |ind| + |mark|;
            && s[i..e] == mark && (forall k :: 0 <= k < |spaces| ==> s[e + k] == spaces[k])
            && (forall k :: 0 <= k < |mark| ==> s[i + k] == mark[k]) && (rest != [] ==> s[e + |spaces|] == rest[0])
  {}

  lemma BulletMark(s: Text, i: nat, e: nat, mark: Text)
    requires i < e <= |s| && s[i..e] == mark && mark == [0xe2, 0x80, 0xa2] && Indent(s, 0, 0) == (i, i)
    ensures Hang(s) == HangFrom(s, e, i + 1)
  {
    hide Indent, HangFrom, BulletAt, Hang;
    assert |s[i..e]| == e - i;
    IsBullet(s, i);
    BulletHangs(s, i);
  }

  lemma NumberMark(s: Text, i: nat, e: nat, mark: Text)
    requires i < e <= |s| && s[i..e] == mark && mark != [0xe2, 0x80, 0xa2] && IsItemMark(mark)
    requires Indent(s, 0, 0) == (i, i)
    ensures Hang(s) == HangFrom(s, e, e)
  {
    hide Indent, HangFrom, BulletAt, Hang, IsItemMark;
    NumberBytes(mark);
    NumberPlaced(s, i, e, mark);
  }

  lemma NumberPlaced(s: Text, i: nat, e: nat, mark: Text)
    requires i < e <= |s| && s[i..e] == mark && |mark| >= 2 && Indent(s, 0, 0) == (i, i)
    requires forall k :: 0 <= k < |mark| - 1 ==> 0x30 <= mark[k] <= 0x39
    requires mark[|mark| - 1] == 0x2e || mark[|mark| - 1] == 0x29
    ensures Hang(s) == HangFrom(s, e, e)
  {
    hide Indent, HangFrom, Hang;
    NumberAt(s, i, e, mark);
    assert i + |mark| == e;
    NumberHangs(s, i, e);
  }

  lemma NumberBytes(mark: Text)
    requires IsItemMark(mark) && mark != [0xe2, 0x80, 0xa2]
    ensures |mark| >= 2 && forall k :: 0 <= k < |mark| - 1 ==> 0x30 <= mark[k] <= 0x39
    ensures mark[|mark| - 1] == 0x2e || mark[|mark| - 1] == 0x29
    ensures mark[0] != 0xe2
  {}

  lemma NumberAt(s: Text, i: nat, e: nat, mark: Text)
    requires i < e <= |s| && s[i..e] == mark && |mark| >= 2
    requires forall k :: 0 <= k < |mark| - 1 ==> 0x30 <= mark[k] <= 0x39
    requires mark[|mark| - 1] == 0x2e || mark[|mark| - 1] == 0x29
    ensures forall k :: i <= k < e - 1 ==> 0x30 <= s[k] <= 0x39
    ensures s[e - 1] == 0x2e || s[e - 1] == 0x29
  {
    forall k | i <= k < e - 1 ensures 0x30 <= s[k] <= 0x39 { assert s[k] == mark[k - i]; }
    assert s[e - 1] == mark[|mark| - 1];
  }

  lemma BulletHangs(s: Text, i: nat)
    requires i + 3 <= |s| && BulletAt(s, i) && Indent(s, 0, 0) == (i, i)
    ensures Hang(s) == HangFrom(s, i + 3, i + 1)
  {
    hide Indent, HangFrom, BulletAt;
  }

  lemma NumberHangs(s: Text, i: nat, e: nat)
    requires i + 2 <= e <= |s| && Indent(s, 0, 0) == (i, i) && forall k :: i <= k < e - 1 ==> 0x30 <= s[k] <= 0x39
    requires s[e - 1] == 0x2e || s[e - 1] == 0x29
    ensures Hang(s) == HangFrom(s, e, e)
  {
    hide Indent, HangFrom, BulletAt, DigitsEnd;
    NoBullet(s, i);
    DigitsOver(s, i, e - 1);
  }

  lemma IsBullet(s: Text, i: nat)
    requires i + 3 <= |s| && s[i..i + 3] == [0xe2, 0x80, 0xa2]
    ensures BulletAt(s, i)
  {}

  lemma NoBullet(s: Text, i: nat)
    requires i < |s| && s[i] != 0xe2
    ensures !BulletAt(s, i)
  {
    if i + 3 <= |s| { assert s[i..i + 3][0] == s[i]; }
  }

  lemma GapHangs(s: Text, e: nat, g: nat, cols: nat)
    requires e <= g <= |s| && (forall k :: e <= k < g ==> s[k] == 0x20) && (g < |s| ==> s[g] != 0x20)
    ensures HangFrom(s, e, cols) == if g == e then 0 else cols + (g - e)
  {
    SpacesOver(s, e, g);
  }

  // Any other line has no hang.
  lemma OthersDoNotHang(ind: Text, rest: Text)
    requires forall k :: 0 <= k < |ind| ==> ind[k] == 0x20 || ind[k] == 0x09
    requires rest != [] ==> rest[0] != 0x20 && rest[0] != 0x09 && rest[0] != 0x1b && rest[0] != 0xe2
                            && !(0x30 <= rest[0] <= 0x39)
    ensures Hang(ind + rest) == 0
  {
    hide Indent;
    var s := ind + rest;
    IndentOver(s, 0, ind, rest);
    if rest != [] {
      assert s[|ind|] == rest[0];
      assert |ind| + 3 <= |s| ==> s[|ind|..|ind| + 3][0] == rest[0];
    }
  }

  // A hang is used where it leaves a row more than eight columns.
  lemma RoomIsLeft(s: Text, cols: int)
    ensures if cols - Hang(s) > 8 then UsedHang(s, cols) == Hang(s) else UsedHang(s, cols) == 0
  {}
}
