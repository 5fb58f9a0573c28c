// Byte strings: what a text goes on with from a place.

module ByteText {
  import opened Bits

  type Text = seq<byte>

  // The text goes on with rest at i.
  ghost predicate GoesOn(t: Text, i: nat, rest: Text) {
    i <= |t| && t[i..] == rest
  }

  lemma Past(t: Text, i: nat, a: Text, rest: Text)
    requires GoesOn(t, i, a + rest)
    ensures GoesOn(t, i + |a|, rest) && i + |a| + |rest| == |t|
    ensures a != [] ==> i < |t| && t[i] == a[0]
    ensures a == [] && rest != [] ==> i < |t| && t[i] == rest[0]
  {
    assert |t[i..]| == |t| - i;
    assert t[i + |a|..] == t[i..][|a|..] == rest;
    if i < |t| { assert t[i] == t[i..][0]; }
  }
}
