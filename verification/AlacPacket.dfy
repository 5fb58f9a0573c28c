// A packet: elements after 3-bit tags, their channels summed into one
// (src/common/audio_alac.c:290-319).

module AlacPacket {
  import opened Bits
  import opened Ints
  import opened AlacElement
  import opened AlacDecode
  import opened AlacCode

  const END_TAG: nat := 7

  // The channels of a tag: 1 is a pair, 0 and 3 are single.
  function TagChannels(tag: nat): nat {
    if tag == 1 then 2 else 1
  }

  predicate TagOk(tag: nat) {
    tag <= 1 || tag == 3
  }

  // v added to the first samples of mix.
  function Added(mix: seq<int>, v: seq<i32>): (r: seq<int>)
    ensures |r| == |mix|
  {
    seq(|mix|, i requires 0 <= i < |mix| => mix[i] + if i < |v| then v[i] else 0)
  }

  datatype Packet = Packet(n: nat, mix: seq<int>)

  // The elements from pos on, ch channels and n samples known so far.
  function ReadPacket(s: seq<bit>, pos: nat, c: Config, channels: nat, ch: nat, n: nat,
                      mix: seq<int>): (r: Option<Packet>)
    requires Admitted(c) && ch <= channels
    decreases channels - ch
  {
    if LeftIn(s, pos) < 3 then Some(Packet(n, mix))
    else
      var tag := Window(s, pos, 3);
      if tag == END_TAG then Some(Packet(n, mix))
      else if !TagOk(tag) || ch + TagChannels(tag) > channels then None
      else
        var e := ReadElement(s, pos + 3, c, TagChannels(tag), n);
        if e.None? then None
        else ReadPacket(s, e.value.pos, c, channels, ch + TagChannels(tag), e.value.n,
                        Added(Added(mix, e.value.first), e.value.second))
  }

  // The tags in numbers: 7 ends the packet, 1 is a pair, 0 and 3 are single
  // channels, and nothing else is read; nor are more channels than there are.
  lemma TagsAre(s: seq<bit>, pos: nat, c: Config, channels: nat, ch: nat, n: nat, mix: seq<int>)
    requires Admitted(c) && ch <= channels && pos + 3 <= |s|
    ensures var tag, r := Window(s, pos, 3), ReadPacket(s, pos, c, channels, ch, n, mix);
            var k := if tag == 1 then 2 else 1;
            && (tag == 7 ==> r == Some(Packet(n, mix)))
            && (tag == 2 || 4 <= tag <= 6 ==> r.None?)
            && (tag <= 1 || tag == 3 ==>
                  if ch + k > channels || ReadElement(s, pos + 3, c, k, n).None? then r.None?
                  else
                    var e := ReadElement(s, pos + 3, c, k, n).value;
                    r == ReadPacket(s, e.pos, c, channels, ch + k, e.n, Added(Added(mix, e.first), e.second)))
  {
    hide ReadElement, Window, Added;
    assert Window(s, pos, 3) < 8 by { WindowBound(s, pos, 3); Pow2Small(); }
  }

  // An element as the encoder was given it.
  datatype Coded = Coded(tag: nat, plan: Plan, left: seq<i32>, right: seq<i32>)

  ghost predicate CodedOk(e: Coded, c: Config, n: nat) {
    && TagOk(e.tag) && |e.left| == n
    && PlanOk(e.plan, c, TagChannels(e.tag), n)
    && Carries(e.plan, c, TagChannels(e.tag), e.left, e.right)
  }

  function Channels(elements: seq<Coded>): nat {
    if elements == [] then 0 else TagChannels(elements[0].tag) + Channels(elements[1..])
  }

  // Every channel of every element added up.
  function MixOf(elements: seq<Coded>, mix: seq<int>): seq<int> {
    if elements == [] then mix
    else MixOf(elements[1..], Added(Added(mix, elements[0].left), elements[0].right))
  }

  // What the elements' channels hold of sample i, added up.
  function SumAt(elements: seq<Coded>, i: nat): int {
    if elements == [] then 0
    else
      var e := elements[0];
      (if i < |e.left| then e.left[i] as int else 0) + (if i < |e.right| then e.right[i] as int else 0)
      + SumAt(elements[1..], i)
  }

  lemma {:induction false} MixIsSum(elements: seq<Coded>, mix: seq<int>, i: nat)
    requires i < |mix|
    ensures |MixOf(elements, mix)| == |mix| && MixOf(elements, mix)[i] == mix[i] + SumAt(elements, i)
    decreases |elements|
  {
    if elements != [] {
      MixIsSum(elements[1..], Added(Added(mix, elements[0].left), elements[0].right), i);
    }
  }

  ghost function PacketBits(elements: seq<Coded>, c: Config, n: nat): seq<bit>
    requires Admitted(c) && forall e :: e in elements ==> CodedOk(e, c, n)
  {
    if elements == [] then ToBits(END_TAG, 3)
    else
      var e := elements[0];
      assert CodedOk(e, c, n);
      ToBits(e.tag, 3) + (ElementBits(e.plan, c, TagChannels(e.tag), e.left, e.right) + PacketBits(elements[1..], c, n))
  }

  lemma TagRead(s: seq<bit>, pos: nat, tag: nat, rest: seq<bit>)
    requires tag < 8 && At(s, pos, ToBits(tag, 3) + rest)
    ensures LeftIn(s, pos) >= 3 && Window(s, pos, 3) == tag && At(s, pos + 3, rest)
  {
    Pow2Small();
    FieldRead(s, pos, tag, 3, rest);
  }

  // A packet's elements are all found and their channels summed exactly.
  lemma {:induction false} PacketComesBack(s: seq<bit>, pos: nat, elements: seq<Coded>, c: Config, n: nat,
      channels: nat, ch: nat, known: nat, mix: seq<int>)
    requires Admitted(c) && forall e :: e in elements ==> CodedOk(e, c, n)
    requires ch + Channels(elements) <= channels && (known == 0 || known == n)
    requires At(s, pos, PacketBits(elements, c, n))
    ensures ReadPacket(s, pos, c, channels, ch, known, mix)
         == Some(Packet(if elements == [] then known else n, MixOf(elements, mix)))
    decreases |elements|
  {
    hide At, Window, ToBits, ReadElement, ElementBits, Added, Admitted, CodedOk, LeftIn;
    if elements == [] {
      AtRightUnit(s, pos, ToBits(END_TAG, 3));
      TagRead(s, pos, END_TAG, []);
    } else {
      var e, rest := elements[0], PacketBits(elements[1..], c, n);
      assert CodedOk(e, c, n);
      CodedParts(e, c, n);
      var bits := ElementBits(e.plan, c, TagChannels(e.tag), e.left, e.right);
      TagRead(s, pos, e.tag, bits + rest);
      AtConcat(s, pos + 3, bits, rest);
      ElementComesBack(s, pos + 3, e.plan, c, TagChannels(e.tag), e.left, e.right, known);
      PacketComesBack(s, pos + 3 + |bits|, elements[1..], c, n, channels, ch + TagChannels(e.tag), n,
        Added(Added(mix, e.left), e.right));
    }
  }

  lemma CodedParts(e: Coded, c: Config, n: nat)
    requires CodedOk(e, c, n)
    ensures TagOk(e.tag) && |e.left| == n && PlanOk(e.plan, c, TagChannels(e.tag), n)
    ensures Carries(e.plan, c, TagChannels(e.tag), e.left, e.right)
  {}

  lemma AtRightUnit(s: seq<bit>, pos: nat, e: seq<bit>)
    requires At(s, pos, e)
    ensures At(s, pos, e + [])
  {
    assert e + [] == e;
  }

  // From bytes to the sum, for a packet of its own: what the encoder packs
  // into bytes is decoded to the sum of the samples it was given.
  lemma PackedPacketComesBack(elements: seq<Coded>, c: Config, n: nat, channels: nat)
    requires Admitted(c) && elements != [] && forall e :: e in elements ==> CodedOk(e, c, n)
    requires Channels(elements) <= channels
    ensures ReadPacket(Unpack(Pack(PacketBits(elements, c, n))), 0, c, channels, 0, 0, Silence(c.frameLength))
         == Some(Packet(n, MixOf(elements, Silence(c.frameLength))))
  {
    hide Pack, Unpack, PacketBits, ReadPacket, MixOf, CodedOk, Admitted;
    UnpackPack(PacketBits(elements, c, n));
    PacketComesBack(Unpack(Pack(PacketBits(elements, c, n))), 0, elements, c, n, channels, 0, 0,
      Silence(c.frameLength));
  }

  function Silence(n: nat): (z: seq<int>)
    ensures |z| == n && forall i :: 0 <= i < n ==> z[i] == 0
  {
    seq(n, _ => 0)
  }

  // ---- the code ----

  method AddInto(mix: array<int>, v: array<i32>, n: nat)
    requires n <= v.Length && n <= mix.Length
    modifies mix
    ensures mix[..] == Added(old(mix[..]), v[..n])
  {
    for i := 0 to n
      invariant forall j :: 0 <= j < i ==> mix[j] == old(mix[j]) + v[j]
      invariant forall j :: i <= j < mix.Length ==> mix[j] == old(mix[j])
    {
      mix[i] := mix[i] + v[i];
    }
  }

  lemma AddedNothing(mix: seq<int>)
    ensures Added(mix, []) == mix
  {}

  // One packet into mix, silent before; what is left of the packet after a
  // refusal is not read.
  method DecodePacket(d: Alac, b: Reader, channels: nat, mix: array<int>) returns (ok: bool, n: nat)
    requires d.Valid() && mix.Length == d.c.frameLength && mix[..] == Silence(mix.Length)
    modifies b`pos, d.err0, d.err1, d.out0, d.out1, d.extra0, d.extra1, mix
    ensures var r := ReadPacket(b.Stream(), old(b.pos), d.c, channels, 0, 0, Silence(mix.Length));
            ok == r.Some? && (ok ==> r.value == Packet(n, mix[..]))
  {
    hide Window, ReadElement, Added, Admitted, Pow2;
    ghost var goal := ReadPacket(b.Stream(), b.pos, d.c, channels, 0, 0, mix[..]);
    var ch := 0;
    ok, n := true, 0;
    Pow2Small();
    while b.Left() >= 3
      invariant ch <= channels && d.Valid()
      invariant ok && goal == ReadPacket(b.Stream(), b.pos, d.c, channels, ch, n, mix[..])
      decreases channels - ch
    {
      var tag := b.Bits(3);
      if tag == END_TAG {
        break;
      }
      if tag > 1 && tag != 3 {
        return false, n;
      }
      var k := if tag == 1 then 2 else 1;
      if ch + k > channels {
        return false, n;
      }
      ok, n := d.DecodeElement(b, k, n);
      if !ok {
        return;
      }
      ghost var was := mix[..];
      AddInto(mix, d.out0, n);
      if k == 2 {
        AddInto(mix, d.out1, n);
      } else {
        AddedNothing(mix[..]);
      }
      ch := ch + k;
    }
  }
}
