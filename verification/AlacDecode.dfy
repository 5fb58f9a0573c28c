// A whole element of src/common/audio_alac.c (lines 156-233) decoded and
// encoded, and the theorem that what the mirrored encoder writes comes back
// sample for sample.

module AlacDecode {
  import opened Bits
  import opened Ints
  import opened AlacElement
  import opened AlacFrame
  import Rice = AlacRice
  import Lpc = AlacLpc

  // ---- decoding ----

  function LeftIn(s: seq<bit>, pos: nat): nat {
    if pos < |s| then |s| - pos else 0
  }

  // The two planes as they were sent, the low bits, and how to put them
  // together.
  datatype Body = Body(a: seq<i32>, b: seq<i32>, low: Planes, extra: nat, shift: nat, weight: nat, pos: nat)

  function Signed(v: seq<nat>, bits: nat): (r: seq<i32>)
    requires 1 <= bits <= 32
    ensures |r| == |v|
  {
    seq(|v|, i requires 0 <= i < |v| => Lpc.SignExtend(U32(v[i]), bits))
  }

  function NoPlanes(n: nat, ch: nat): (p: Planes) {
    Planes(seq(n, _ => 0), seq(if ch == 2 then n else 0, _ => 0))
  }

  function ReadPlain(s: seq<bit>, f: Front, c: Config, ch: nat): (r: Option<Body>)
    requires Admitted(c) && 1 <= ch <= 2
    ensures r.Some? ==> |r.value.a| == |r.value.low.first| == f.n
    ensures r.Some? ==> |r.value.b| == |r.value.low.second| == if ch == 2 then f.n else 0
  {
    if LeftIn(s, f.pos) < PlanesSize(f.n, ch, c.sampleSize) then None
    else
      var p := ReadPlanes(s, f.pos, f.n, ch, c.sampleSize);
      Some(Body(Signed(p.first, c.sampleSize), Signed(p.second, c.sampleSize), NoPlanes(f.n, ch), 0, 0, 0,
                f.pos + PlanesSize(f.n, ch, c.sampleSize)))
  }

  // The residuals of both channels, after their headers and the low bits.
  function ReadChannels(s: seq<bit>, pos: nat, f: Front, c: Config, ch: nat, h0: Chan, h1: Chan, shift: nat,
                        weight: nat):
    (r: Option<Body>)
    requires Admitted(c) && 1 <= ch <= 2 && c.kb >= 1 && 1 <= f.bps <= 32 && ChanOk(h0, c) && ChanOk(h1, c)
    ensures r.Some? ==> |r.value.a| == |r.value.low.first| == f.n
    ensures r.Some? ==> |r.value.b| == |r.value.low.second| == if ch == 2 then f.n else 0
  {
    if LeftIn(s, pos) < PlanesSize(f.n, ch, f.extra) then None
    else
      var low := ReadPlanes(s, pos, f.n, ch, f.extra);
      var c0 := ReadChannel(s, pos + PlanesSize(f.n, ch, f.extra), f.n, f.bps, h0, c);
      if c0.None? then None
      else if ch == 1 then Some(Body(c0.value.vals, [], low, f.extra, shift, weight, c0.value.pos))
      else
        var c1 := ReadChannel(s, c0.value.pos, f.n, f.bps, h1, c);
        if c1.None? then None
        else Some(Body(c0.value.vals, c1.value.vals, low, f.extra, shift, weight, c1.value.pos))
  }

  function ReadCompressed(s: seq<bit>, f: Front, c: Config, ch: nat): (r: Option<Body>)
    requires Admitted(c) && 1 <= ch <= 2 && 1 <= f.bps <= 32
    ensures r.Some? ==> |r.value.a| == |r.value.low.first| == f.n
    ensures r.Some? ==> |r.value.b| == |r.value.low.second| == if ch == 2 then f.n else 0
  {
    if c.kb == 0 then None
    else
      var shift, weight := Window(s, f.pos, 8), Window(s, f.pos + 8, 8);
      if ch == 2 && weight != 0 && shift > 31 then None
      else
        var h0 := ReadChan(s, f.pos + 16, c);
        if h0.None? then None
        else if ch == 1 then ReadChannels(s, h0.value.pos, f, c, ch, h0.value.h, h0.value.h, shift, weight)
        else
          var h1 := ReadChan(s, h0.value.pos, c);
          if h1.None? then None
          else ReadChannels(s, h1.value.pos, f, c, ch, h0.value.h, h1.value.h, shift, weight)
  }

  function Received(a: i32, b: i32, shift: nat, weight: nat): (i32, i32) {
    if weight != 0 then Unmix(a, b, weight, shift) else (a, b)
  }

  datatype Element = Element(first: seq<i32>, second: seq<i32>, n: nat, pos: nat)

  // The planes unmixed, and the low bits put back.
  function Finish(d: Body, n: nat, ch: nat): (e: Element)
    requires |d.a| == |d.low.first| == n && |d.b| == |d.low.second| == (if ch == 2 then n else 0)
    ensures |e.first| == n && |e.second| == (if ch == 2 then n else 0) && e.n == n && e.pos == d.pos
  {
    if ch == 2 then
      Element(seq(n, i requires 0 <= i < n =>
                       Restore(Received(d.a[i], d.b[i], d.shift, d.weight).0, d.low.first[i], d.extra)),
              seq(n, i requires 0 <= i < n =>
                       Restore(Received(d.a[i], d.b[i], d.shift, d.weight).1, d.low.second[i], d.extra)),
              n, d.pos)
    else
      Element(seq(n, i requires 0 <= i < n => Restore(d.a[i], d.low.first[i], d.extra)), [], n, d.pos)
  }

  // An element of ch channels at pos, None where decode_element refuses it.
  function ReadElement(s: seq<bit>, pos: nat, c: Config, ch: nat, nb: nat): (r: Option<Element>)
    requires Admitted(c) && 1 <= ch <= 2
  {
    var f := ReadFront(s, pos, c, ch, nb);
    if f.None? then None
    else
      var d := if f.value.compressed then ReadCompressed(s, f.value, c, ch) else ReadPlain(s, f.value, c, ch);
      if d.None? then None else Some(Finish(d.value, f.value.n, ch))
  }

  // ---- encoding ----

  // What an encoder chooses freely.
  datatype Plan = Plan(skip: seq<bit>, hasSize: bool, extra: nat, compressed: bool,
                       shift: nat, weight: nat, h0: Chan, h1: Chan)

  predicate PlanOk(p: Plan, c: Config, ch: nat, n: nat) {
    && FrontOk(p.skip, p.hasSize, p.extra, n, c, ch)
    && (p.compressed ==>
        && c.kb >= 1 && p.shift < 256 && p.weight < 256
        && (ch == 2 && p.weight != 0 ==> p.shift <= 31)
        && ChanOk(p.h0, c) && ChanOk(p.h1, c))
  }

  function Bps(p: Plan, c: Config, ch: nat): int {
    c.sampleSize - p.extra + ch - 1
  }

  // A pair of samples as it is sent.
  function SentPair(l: i32, r: i32, p: Plan): (i32, i32) {
    if p.weight != 0 then Mix(High(l, p.extra), High(r, p.extra), p.weight, p.shift)
    else (High(l, p.extra), High(r, p.extra))
  }

  function SentFirst(left: seq<i32>, right: seq<i32>, ch: nat, p: Plan): (a: seq<i32>)
    requires ch == 2 ==> |left| == |right|
    ensures |a| == |left|
  {
    seq(|left|, i requires 0 <= i < |left| =>
          if ch == 2 then SentPair(left[i], right[i], p).0 else High(left[i], p.extra))
  }

  function SentSecond(left: seq<i32>, right: seq<i32>, p: Plan): (b: seq<i32>)
    requires |left| == |right|
    ensures |b| == |left|
  {
    seq(|left|, i requires 0 <= i < |left| => SentPair(left[i], right[i], p).1)
  }

  function Lows(v: seq<i32>, extra: nat): (r: seq<nat>)
    ensures |r| == |v| && forall i :: 0 <= i < |r| ==> r[i] < Pow2(extra)
  {
    seq(|v|, i requires 0 <= i < |v| => Low(v[i], extra))
  }

  // The samples the plan can carry: plain, of the sample's size; compressed,
  // those whose high parts, mixed, fit the width the header gives them.
  ghost predicate Carries(p: Plan, c: Config, ch: nat, left: seq<i32>, right: seq<i32>)
    requires 1 <= Bps(p, c, ch) <= 32
  {
    && |left| <= 65536 && |right| == (if ch == 2 then |left| else 0)
    && if p.compressed then
         && Lpc.AllFit(SentFirst(left, right, ch, p), Bps(p, c, ch))
         && (ch == 2 ==> Lpc.AllFit(SentSecond(left, right, p), Bps(p, c, ch)))
       else Lpc.AllFit(left, c.sampleSize) && Lpc.AllFit(right, c.sampleSize)
  }

  ghost function LowPlanes(p: Plan, left: seq<i32>, right: seq<i32>): Planes {
    Planes(Lows(left, p.extra), Lows(right, p.extra))
  }

  ghost function PlainPlanes(c: Config, left: seq<i32>, right: seq<i32>): Planes {
    Planes(Lows(left, c.sampleSize), Lows(right, c.sampleSize))
  }

  // The low bits and the residuals of the planes a and b.
  ghost function ChannelsBits(low: Planes, a: seq<i32>, b: seq<i32>, bps: nat, extra: nat, h0: Chan, h1: Chan,
                              c: Config, ch: nat):
    seq<bit>
    requires c.kb >= 1 && c.mb < 256 && 1 <= bps <= 32 && 1 <= ch <= 2 && ChanOk(h0, c) && ChanOk(h1, c)
    requires |low.second| == (if ch == 2 then |low.first| else 0)
    requires Sendable(a, bps) && (ch == 2 ==> Sendable(b, bps))
  {
    PlanesBits(low, ch, extra) +
      (ChannelBits(a, bps, h0, c) + (if ch == 2 then ChannelBits(b, bps, h1, c) else []))
  }

  ghost function HeadersBits(p: Plan, ch: nat, rest: seq<bit>): seq<bit> {
    ToBits(p.shift, 8) + (ToBits(p.weight, 8) + (ChanBits(p.h0) + (if ch == 2 then ChanBits(p.h1) + rest else rest)))
  }

  ghost function BodyBits(p: Plan, c: Config, ch: nat, left: seq<i32>, right: seq<i32>): seq<bit>
    requires Admitted(c) && 1 <= ch <= 2 && PlanOk(p, c, ch, |left|) && Carries(p, c, ch, left, right)
  {
    if p.compressed then
      HeadersBits(p, ch, ChannelsBits(LowPlanes(p, left, right), SentFirst(left, right, ch, p),
        if ch == 2 then SentSecond(left, right, p) else [], Bps(p, c, ch), p.extra, p.h0, p.h1, c, ch))
    else PlanesBits(PlainPlanes(c, left, right), ch, c.sampleSize)
  }

  // The element the encoder writes.
  ghost function ElementBits(p: Plan, c: Config, ch: nat, left: seq<i32>, right: seq<i32>): seq<bit>
    requires Admitted(c) && 1 <= ch <= 2 && PlanOk(p, c, ch, |left|) && Carries(p, c, ch, left, right)
  {
    FrontBits(p.skip, p.hasSize, p.extra, p.compressed, |left|) + BodyBits(p, c, ch, left, right)
  }

  // ---- decoding inverts encoding ----

  lemma LeftEnough(s: seq<bit>, pos: nat, e: seq<bit>)
    requires At(s, pos, e)
    ensures LeftIn(s, pos) >= |e|
  {}

  // The reads of one element's channels put together.
  lemma ChannelsAssembled(s: seq<bit>, pos: nat, f: Front, c: Config, ch: nat, h0: Chan, h1: Chan,
      shift: nat, weight: nat, low: Planes, c0: Rice.Residual, c1: Rice.Residual)
    requires Admitted(c) && c.kb >= 1 && 1 <= ch <= 2 && 1 <= f.bps <= 32 && ChanOk(h0, c) && ChanOk(h1, c)
    requires LeftIn(s, pos) >= PlanesSize(f.n, ch, f.extra) && ReadPlanes(s, pos, f.n, ch, f.extra) == low
    requires ReadChannel(s, pos + PlanesSize(f.n, ch, f.extra), f.n, f.bps, h0, c) == Some(c0)
    requires ch == 2 ==> ReadChannel(s, c0.pos, f.n, f.bps, h1, c) == Some(c1)
    ensures ReadChannels(s, pos, f, c, ch, h0, if ch == 2 then h1 else h0, shift, weight)
         == Some(Body(c0.vals, if ch == 2 then c1.vals else [], low, f.extra, shift, weight,
                      if ch == 2 then c1.pos else c0.pos))
  {
    hide LeftIn, PlanesSize, ReadPlanes, ReadChannel, Admitted, ChanOk;
  }

  lemma ReadChannelsInverts(s: seq<bit>, pos: nat, low: Planes, a: seq<i32>, b: seq<i32>, h0: Chan, h1: Chan,
      shift: nat, weight: nat, c: Config, ch: nat, f: Front)
    requires Admitted(c) && c.kb >= 1 && c.mb < 256 && 1 <= ch <= 2 && 1 <= f.bps <= 32 && ChanOk(h0, c)
    requires ChanOk(h1, c)
    requires f.n == |a| && PlanesOk(low, f.n, ch, f.extra) && |low.second| == (if ch == 2 then |low.first| else 0)
    requires (if ch == 2 then |b| == f.n else b == [])
    requires Sendable(a, f.bps) && (ch == 2 ==> Sendable(b, f.bps))
    requires At(s, pos, ChannelsBits(low, a, b, f.bps, f.extra, h0, h1, c, ch))
    ensures ReadChannels(s, pos, f, c, ch, h0, if ch == 2 then h1 else h0, shift, weight)
         == Some(Body(a, b, low, f.extra, shift, weight,
                      pos + |ChannelsBits(low, a, b, f.bps, f.extra, h0, h1, c, ch)|))
  {
    hide ReadChannels, Sendable, At, PlanesBits, PlanesOk, PlanesSize, ReadPlanes, ReadChannel, ChannelBits, Pow2,
      LeftIn, Admitted, ChanOk;
    var first := ChannelBits(a, f.bps, h0, c);
    var second := if ch == 2 then ChannelBits(b, f.bps, h1, c) else [];
    AtConcat(s, pos, PlanesBits(low, ch, f.extra), first + second);
    LeftEnough(s, pos, PlanesBits(low, ch, f.extra));
    PlanesBitsLength(low, f.n, ch, f.extra);
    ReadPlanesInverts(s, pos, low, f.n, ch, f.extra);
    var at := pos + |PlanesBits(low, ch, f.extra)|;
    AtConcat(s, at, first, second);
    ReadChannelInverts(s, at, a, f.bps, h0, c);
    if ch == 2 {
      ReadChannelInverts(s, at + |first|, b, f.bps, h1, c);
    }
    ChannelsAssembled(s, pos, f, c, ch, h0, h1, shift, weight, low,
      Rice.Residual(a, at + |first|), Rice.Residual(b, at + |first| + |second|));
  }

  lemma HeadersRead(s: seq<bit>, p: Plan, c: Config, ch: nat, n: nat, pos: nat, rest: seq<bit>)
    requires 1 <= ch <= 2 && p.compressed && PlanOk(p, c, ch, n) && At(s, pos, HeadersBits(p, ch, rest))
    ensures |rest| <= |HeadersBits(p, ch, rest)|
    ensures var at, h1 := pos + |HeadersBits(p, ch, rest)| - |rest|, pos + 16 + |ChanBits(p.h0)|;
            && At(s, at, rest) && Window(s, pos, 8) == p.shift && Window(s, pos + 8, 8) == p.weight
            && ReadChan(s, pos + 16, c) == Some(ChanRead(p.h0, h1))
            && if ch == 2 then ReadChan(s, h1, c) == Some(ChanRead(p.h1, at)) else h1 == at
  {
    hide At, ToBits, Window, Pow2, ChanBits, ReadChan, ChanOk;
    var tail := if ch == 2 then ChanBits(p.h1) + rest else rest;
    Pow2Small();
    FieldRead(s, pos, p.shift, 8, ToBits(p.weight, 8) + (ChanBits(p.h0) + tail));
    FieldRead(s, pos + 8, p.weight, 8, ChanBits(p.h0) + tail);
    AtConcat(s, pos + 16, ChanBits(p.h0), tail);
    ReadChanInverts(s, pos + 16, p.h0, c);
    if ch == 2 {
      AtConcat(s, pos + 16 + |ChanBits(p.h0)|, ChanBits(p.h1), rest);
      ReadChanInverts(s, pos + 16 + |ChanBits(p.h0)|, p.h1, c);
    }
  }

  lemma ReadHeadersInverts(s: seq<bit>, p: Plan, c: Config, ch: nat, n: nat, f: Front, rest: seq<bit>)
    requires Admitted(c) && 1 <= ch <= 2 && p.compressed && PlanOk(p, c, ch, n) && 1 <= f.bps <= 32
    requires At(s, f.pos, HeadersBits(p, ch, rest))
    ensures |rest| <= |HeadersBits(p, ch, rest)|
    ensures var at := f.pos + |HeadersBits(p, ch, rest)| - |rest|;
            At(s, at, rest)
            && ReadCompressed(s, f, c, ch)
               == ReadChannels(s, at, f, c, ch, p.h0, if ch == 2 then p.h1 else p.h0, p.shift, p.weight)
  {
    hide At, Window, ChanBits, HeadersBits, ReadChan, ReadChannels, Admitted, ChanOk;
    HeadersRead(s, p, c, ch, n, f.pos, rest);
  }

  // A sample's pair comes back from what was sent of it and the low bits.
  lemma PairComesBack(l: i32, r: i32, p: Plan)
    ensures var sent := SentPair(l, r, p);
            var got := Received(sent.0, sent.1, p.shift, p.weight);
            && Restore(got.0, Low(l, p.extra), p.extra) == l
            && Restore(got.1, Low(r, p.extra), p.extra) == r
  {
    hide Restore, High, Low, Mix, Unmix;
    UnmixInvertsMix(High(l, p.extra), High(r, p.extra), p.weight, p.shift);
    RestoreInvertsSplit(l, p.extra);
    RestoreInvertsSplit(r, p.extra);
  }

  lemma FinishInverts(p: Plan, ch: nat, left: seq<i32>, right: seq<i32>, shift: nat, weight: nat, pos: nat)
    requires 1 <= ch <= 2 && |right| == (if ch == 2 then |left| else 0)
    requires shift == p.shift && weight == p.weight
    ensures Finish(Body(SentFirst(left, right, ch, p), if ch == 2 then SentSecond(left, right, p) else [],
                        LowPlanes(p, left, right), p.extra, shift, weight, pos), |left|, ch)
         == Element(left, right, |left|, pos)
  {
    var d := Body(SentFirst(left, right, ch, p), if ch == 2 then SentSecond(left, right, p) else [],
                  LowPlanes(p, left, right), p.extra, shift, weight, pos);
    var e := Finish(d, |left|, ch);
    hide Restore, High, Low, SentPair, Received;
    forall i | 0 <= i < |left|
      ensures e.first[i] == left[i] && (ch == 2 ==> e.second[i] == right[i])
    {
      if ch == 2 { PairComesBack(left[i], right[i], p); }
      else { RestoreInvertsSplit(left[i], p.extra); }
    }
    assert e.first == left && e.second == right;
  }

  // A sample of k bits sent plain.
  lemma PlainComesBack(x: i32, k: nat)
    requires 1 <= k <= 32 && Fits(x, k)
    ensures Restore(Lpc.SignExtend(U32(Low(x, k)), k), 0, 0) == x
  {
    hide Restore, Pow2, Fits, Lpc.SignExtend;
    var d: int, q: int := Pow2(k), x / Pow2(k);
    NegatedProduct(q, d);
    Lpc.SignExtendUnique(Low(x, k), x, -q, k);
    NothingRestored(x);
  }

  lemma NegatedProduct(q: int, d: int)
    ensures (-q) * d == -(q * d)
  {}

  lemma NothingRestored(x: i32)
    ensures Restore(x, 0, 0) == x
  {
    assert Pow2(0) == 1;
    hide Pow2;
    U32OfS32(x);
    S32Id(x);
  }

  lemma ReadPlainInverts(s: seq<bit>, p: Plan, c: Config, ch: nat, left: seq<i32>, right: seq<i32>, f: Front)
    requires Admitted(c) && 1 <= ch <= 2 && !p.compressed && PlanOk(p, c, ch, |left|) && Carries(p, c, ch, left, right)
    requires f.n == |left|
    requires At(s, f.pos, BodyBits(p, c, ch, left, right))
    ensures var d := ReadPlain(s, f, c, ch);
            d.Some? && Finish(d.value, f.n, ch)
                       == Element(left, right, |left|, f.pos + |BodyBits(p, c, ch, left, right)|)
  {
    hide At, PlanesBits, PlanesSize, ReadPlanes, Lows, Pow2, LeftIn, Signed, Finish, Fits;
    var n, w, planes := |left|, c.sampleSize, PlainPlanes(c, left, right);
    LeftEnough(s, f.pos, PlanesBits(planes, ch, w));
    PlanesBitsLength(planes, n, ch, w);
    ReadPlanesInverts(s, f.pos, planes, n, ch, w);
    FinishPlain(c, ch, left, right, f.pos + PlanesSize(n, ch, w));
  }

  // Samples sent plain, put together.
  lemma FinishPlain(c: Config, ch: nat, left: seq<i32>, right: seq<i32>, pos: nat)
    requires Admitted(c) && 1 <= ch <= 2 && |right| == (if ch == 2 then |left| else 0)
    requires Lpc.AllFit(left, c.sampleSize) && Lpc.AllFit(right, c.sampleSize)
    ensures var p, n := PlainPlanes(c, left, right), |left|;
            Finish(Body(Signed(p.first, c.sampleSize), Signed(p.second, c.sampleSize), NoPlanes(n, ch), 0, 0, 0, pos),
                   n, ch)
            == Element(left, right, n, pos)
  {
    hide Restore, Low, Unmix, Lpc.SignExtend, Fits, Pow2;
    var p, n, w := PlainPlanes(c, left, right), |left|, c.sampleSize;
    var e := Finish(Body(Signed(p.first, w), Signed(p.second, w), NoPlanes(n, ch), 0, 0, 0, pos), n, ch);
    forall i | 0 <= i < n ensures e.first[i] == left[i] && (ch == 2 ==> e.second[i] == right[i]) {
      assert left[i] in left;
      PlainComesBack(left[i], w);
      if ch == 2 {
        assert right[i] in right;
        PlainComesBack(right[i], w);
      }
    }
    assert e.first == left && e.second == right;
  }

  lemma PlanFront(p: Plan, c: Config, ch: nat, n: nat)
    requires PlanOk(p, c, ch, n)
    ensures FrontOk(p.skip, p.hasSize, p.extra, n, c, ch)
  {}

  // Whatever the encoder writes, the decoder gives back, sample for sample,
  // and stops where the element ends.
  lemma ElementComesBack(s: seq<bit>, pos: nat, p: Plan, c: Config, ch: nat, left: seq<i32>, right: seq<i32>, nb: nat)
    requires Admitted(c) && 1 <= ch <= 2 && PlanOk(p, c, ch, |left|) && Carries(p, c, ch, left, right)
    requires nb == 0 || nb == |left|
    requires At(s, pos, ElementBits(p, c, ch, left, right))
    ensures ReadElement(s, pos, c, ch, nb)
         == Some(Element(left, right, |left|, pos + |ElementBits(p, c, ch, left, right)|))
  {
    hide At, FrontBits, ReadFront, FrontOk, BodyBits, ReadCompressed, ReadPlain, Finish, PlanOk, Carries, Admitted;
    var front, body := FrontBits(p.skip, p.hasSize, p.extra, p.compressed, |left|), BodyBits(p, c, ch, left, right);
    PlanFront(p, c, ch, |left|);
    AtConcat(s, pos, front, body);
    ReadFrontInverts(s, pos, p.skip, p.hasSize, p.extra, p.compressed, |left|, c, ch, nb);
    var f := ReadFront(s, pos, c, ch, nb).value;
    if p.compressed {
      BodyComesBack(s, p, c, ch, left, right, f);
    } else {
      ReadPlainInverts(s, p, c, ch, left, right, f);
    }
  }

  lemma BodyComesBack(s: seq<bit>, p: Plan, c: Config, ch: nat, left: seq<i32>, right: seq<i32>, f: Front)
    requires Admitted(c) && 1 <= ch <= 2 && p.compressed && PlanOk(p, c, ch, |left|) && Carries(p, c, ch, left, right)
    requires f.n == |left| && f.extra == p.extra && f.bps == Bps(p, c, ch)
    requires At(s, f.pos, BodyBits(p, c, ch, left, right))
    ensures var d := ReadCompressed(s, f, c, ch);
            d.Some? && Finish(d.value, f.n, ch)
                       == Element(left, right, |left|, f.pos + |BodyBits(p, c, ch, left, right)|)
  {
    hide At, ReadCompressed, ReadChannels, Finish, ChannelsBits, HeadersBits;
    var a, b := SentFirst(left, right, ch, p), if ch == 2 then SentSecond(left, right, p) else [];
    var low := LowPlanes(p, left, right);
    var rest := ChannelsBits(low, a, b, Bps(p, c, ch), p.extra, p.h0, p.h1, c, ch);
    hide SentFirst, SentSecond, Lows, Lpc.AllFit;
    ReadHeadersInverts(s, p, c, ch, |left|, f, rest);
    var at := f.pos + |HeadersBits(p, ch, rest)| - |rest|;
    ReadChannelsInverts(s, at, low, a, b, p.h0, p.h1, p.shift, p.weight, c, ch, f);
    FinishInverts(p, ch, left, right, p.shift, p.weight, at + |rest|);
  }
}
