// What an element of src/common/audio_alac.c can carry, and what it cannot.

module AlacLimits {
  import opened Bits
  import opened Ints
  import opened AlacElement
  import opened AlacFrame
  import opened AlacDecode
  import Rice = AlacRice
  import Lpc = AlacLpc

  // ---- what a plan can carry ----

  predicate Moderate(l: i32, r: i32, p: Plan) {
    var d := High(l, p.extra) - High(r, p.extra);
    p.weight <= Pow2(p.shift) && -0x8000_0000 <= d * p.weight < 0x8000_0000
  }

  lemma SentPairFits(l: i32, r: i32, p: Plan, k: nat)
    requires Fits(l, k) && Fits(r, k) && p.extra < k <= 32 && k - p.extra + 1 <= 32
    requires p.weight != 0 ==> Moderate(l, r, p)
    ensures Fits(SentPair(l, r, p).0, k - p.extra + 1) && Fits(SentPair(l, r, p).1, k - p.extra + 1)
  {
    hide High, Mix;
    var m := k - p.extra;
    HighFits(l, k, p.extra);
    HighFits(r, k, p.extra);
    FitsMore(High(l, p.extra), m);
    FitsMore(High(r, p.extra), m);
    if p.weight != 0 {
      MixBetween(High(l, p.extra), High(r, p.extra), p.weight, p.shift, m);
      FitsMore(SentPair(l, r, p).0, m);
    }
  }

  lemma FitsMore(x: int, k: nat)
    requires Fits(x, k)
    ensures Fits(x, k + 1)
  {}

  // Every sample of the configured size can be sent: alone always, in a pair
  // with a weight of at most one.
  lemma EverySampleCarried(p: Plan, c: Config, ch: nat, left: seq<i32>, right: seq<i32>)
    requires Admitted(c) && 1 <= ch <= 2 && PlanOk(p, c, ch, |left|) && p.extra < c.sampleSize
    requires |right| == (if ch == 2 then |left| else 0)
    requires Lpc.AllFit(left, c.sampleSize) && Lpc.AllFit(right, c.sampleSize)
    requires ch == 2 && p.compressed && p.weight != 0 ==>
      forall i :: 0 <= i < |left| ==> Moderate(left[i], right[i], p)
    ensures Carries(p, c, ch, left, right)
  {
    hide Fits, Moderate, SentPair, High;
    if p.compressed {
      forall i | 0 <= i < |left|
        ensures Fits(SentFirst(left, right, ch, p)[i], Bps(p, c, ch))
        ensures ch == 2 ==> Fits(SentSecond(left, right, p)[i], Bps(p, c, ch))
      {
        assert left[i] in left;
        if ch == 2 {
          assert right[i] in right;
          SentPairFits(left[i], right[i], p, c.sampleSize);
        } else {
          HighFits(left[i], c.sampleSize, p.extra);
        }
      }
    }
  }

  // A weight above one can push the middle out of its width: 255 times the
  // difference of the extremes of 16 bits is not a number of 17 bits.
  lemma MixMayNotFit()
    ensures Fits(0x7fff, 16) && Fits(-0x8000, 16) && !Fits(Mix(0x7fff, -0x8000, 255, 0).0, 17)
  {
    assert Pow2(0) == 1 && Pow2(16) == 0x1_0000 && Pow2(17) == 0x2_0000 by { Pow2Small(); Pow2Large(); }
    hide Pow2;
    S32Id(0xffff);
    S32Id(255 * 0xffff);
    S32Id(-0x8000 + 255 * 0xffff);
  }

  // Whatever bits an element holds, the samples it yields were sent as
  // residuals' sums: past a channel's first, numbers of its width.
  lemma ChannelOutputsFit(s: seq<bit>, pos: nat, n: nat, bps: nat, h: Chan, c: Config, i: nat)
    requires c.kb >= 1 && c.mb < 256 && 1 <= bps <= 32 && ChanOk(h, c) && 1 <= i < n && |h.coefs| > 0
    requires ReadChannel(s, pos, n, bps, h, c).Some?
    ensures Fits(ReadChannel(s, pos, n, bps, h, c).value.vals[i], bps)
  {
    hide Rice.Decoded, Lpc.Decoded, Fits;
    var r := Rice.Decoded(s, pos, n, bps, Rate(h.mult, c.pb), c.kb, c.mb, 0).value.vals;
    var e := if h.ptype == 15 then Lpc.Decoded(r, [], bps, 31, 0).out else r;
    Lpc.OutputsFit(e, h.coefs, bps, |h.coefs|, h.quant, i);
  }

  // ---- which pairs can be sent ----

  // A number that gives the sample l with its low bits under it.
  predicate HighPart(x: i32, l: i32, extra: nat) {
    Restore(x, Low(l, extra), extra) == l
  }

  predicate PairFits(x: i32, y: i32, weight: nat, shift: nat, bps: nat) {
    var sent := if weight != 0 then Mix(x, y, weight, shift) else (x, y);
    Fits(sent.0, bps) && Fits(sent.1, bps)
  }

  // Some high parts of the pair fit the width, mixed.
  ghost predicate CanBeSent(l: i32, r: i32, extra: nat, weight: nat, shift: nat, bps: nat) {
    exists x: i32, y: i32 :: HighPart(x, l, extra) && HighPart(y, r, extra) && PairFits(x, y, weight, shift, bps)
  }

  // In the word, the low bits stand under the high part.
  lemma RestoreIs(x: i32, low: nat, extra: nat) returns (j: int)
    ensures Restore(x, low, extra) == x * Pow2(extra) + low + j * TWO32
  {
    hide Pow2, S32, U32;
    var v, d := Shl(U32(x), extra), Pow2(extra);
    var q := UnsignedIs(x);
    var k := WordIs(v, low);
    Wrapped(x, q, d);
    j := -q * d + k;
  }

  lemma UnsignedIs(x: int) returns (q: int)
    ensures U32(x) == x - q * TWO32
  {
    q := x / TWO32;
  }

  lemma WordIs(v: nat, low: nat) returns (k: int)
    ensures S32(U32(v) + low) == v + low + k * TWO32
  {
    var w := U32(v) + low;
    k := (S32(w) - w) / TWO32 - v / TWO32;
  }

  lemma Wrapped(x: int, q: int, d: int)
    ensures (x - q * TWO32) * d == x * d + -q * d * TWO32
  {
    MulDistribute(x, -q * TWO32, d);
    MulAssoc(-q, TWO32, d);
    MulAssoc(-q, d, TWO32);
  }

  lemma LowOfRestore(high: i32, low: nat, extra: nat)
    requires extra <= 32 && low < Pow2(extra)
    ensures Low(Restore(high, low, extra), extra) == low
  {
    hide Pow2, Restore, Low;
    WordSplit(extra);
    var j := RestoreIs(high, low, extra);
    WordsJoined(high, j, Pow2(32 - extra), Pow2(extra));
    LowIs(Restore(high, low, extra), high + j * Pow2(32 - extra), low, extra);
  }

  lemma LowIs(s: i32, q: int, low: nat, extra: nat)
    requires s == q * Pow2(extra) + low && low < Pow2(extra)
    ensures Low(s, extra) == low
  {
    DivModUnique(s, Pow2(extra), q, low);
  }

  lemma WordsJoined(x: int, j: int, e: int, d: int)
    requires e * d == TWO32
    ensures x * d + j * TWO32 == (x + j * e) * d
  {
    MulAssoc(j, e, d);
    MulDistribute(x, j * e, d);
  }

  lemma WordSplit(extra: nat)
    requires extra <= 32
    ensures Pow2(32 - extra) * Pow2(extra) == TWO32
  {
    hide Pow2;
    Pow2Add(32 - extra, extra);
    Pow2Large();
  }

  // The high parts of a sample are those that differ by a multiple of what
  // its low bits leave of the word.
  lemma HighPartsAre(x: i32, l: i32, extra: nat)
    requires extra <= 32
    ensures HighPart(x, l, extra) <==> (x - High(l, extra)) % Pow2(32 - extra) == 0
  {
    hide Pow2, Restore, High, Low;
    WordSplit(extra);
    HighAndLow(l, extra);
    var j := RestoreIs(x, Low(l, extra), extra);
    HighOf(Restore(x, Low(l, extra), extra), l, x, High(l, extra), j, Pow2(32 - extra), Pow2(extra), Low(l, extra));
  }

  lemma HighAndLow(l: i32, extra: nat)
    ensures l == High(l, extra) * Pow2(extra) + Low(l, extra)
  {
    hide Pow2;
  }

  lemma HighOf(s: i32, l: i32, x: int, h: int, j: int, e: nat, d: nat, low: int)
    requires e > 0 && d > 0 && e * d == TWO32 && s == x * d + low + j * TWO32 && l == h * d + low
    ensures s == l <==> (x - h) % e == 0
  {
    if s == l {
      SameProducts(x, h, -j, e, d);
      DivModUnique(x - h, e, -j, 0);
    }
    if (x - h) % e == 0 {
      SplitProduct(x, h, (x - h) / e, e, d);
    }
  }

  lemma SameProducts(x: int, h: int, j: int, e: nat, d: nat)
    requires d > 0 && x * d == h * d + j * (e * d)
    ensures x - h == j * e
  {
    MulAssoc(j, e, d);
    MulDistribute(h, j * e, d);
    if x < h + j * e { MulLe(x + 1, h + j * e, d); MulDistribute(x, 1, d); }
    if x > h + j * e { MulLe(h + j * e + 1, x, d); MulDistribute(h + j * e, 1, d); }
  }

  lemma SplitProduct(x: int, h: int, k: int, e: nat, d: nat)
    requires x - h == e * k
    ensures x * d == h * d + k * (e * d)
  {
    MulAssoc(k, e, d);
    MulDistribute(h, k * e, d);
  }

  // The channels' headers of a compressed pair, with a predictor of one
  // coefficient at least.
  predicate Predicted(s: seq<bit>, f: Front, c: Config) {
    && f.compressed
    && var h0 := ReadChan(s, f.pos + 16, c);
       h0.Some? && |h0.value.h.coefs| > 0
       && var h1 := ReadChan(s, h0.value.pos, c); h1.Some? && |h1.value.h.coefs| > 0
  }

  // Past the first, every pair such an element yields was sent as a pair that
  // fits the width: a pair none of whose high parts fit, mixed, is not sent.
  lemma PairMustFit(s: seq<bit>, pos: nat, c: Config, nb: nat, i: nat)
    requires Admitted(c) && ReadElement(s, pos, c, 2, nb).Some?
    requires Predicted(s, ReadFront(s, pos, c, 2, nb).value, c)
    requires 1 <= i < ReadElement(s, pos, c, 2, nb).value.n
    ensures var f, e := ReadFront(s, pos, c, 2, nb).value, ReadElement(s, pos, c, 2, nb).value;
            CanBeSent(e.first[i], e.second[i], f.extra, Window(s, f.pos + 8, 8), Window(s, f.pos, 8), f.bps)
  {
    hide Window, ReadFront, ReadChan, ReadChannel, ReadPlanes, PlanesSize, LeftIn, Restore, Mix, Unmix, Fits, Pow2,
      Low, Admitted, ChanOk;
    var f, e := ReadFront(s, pos, c, 2, nb).value, ReadElement(s, pos, c, 2, nb).value;
    var d := ReadCompressed(s, f, c, 2).value;
    var h0 := ReadChan(s, f.pos + 16, c).value;
    var h1 := ReadChan(s, h0.pos, c).value;
    FrameAdmitted(c);
    var at := h1.pos + PlanesSize(f.n, 2, f.extra);
    ChannelOutputsFit(s, at, f.n, f.bps, h0.h, c, i);
    var c0 := ReadChannel(s, at, f.n, f.bps, h0.h, c).value;
    ChannelOutputsFit(s, c0.pos, f.n, f.bps, h1.h, c, i);
    ReceivedCanBeSent(d.a[i], d.b[i], d.low.first[i], d.low.second[i], f.extra, d.weight, d.shift, f.bps);
  }

  lemma ReceivedCanBeSent(a: i32, b: i32, low: nat, low': nat, extra: nat, weight: nat, shift: nat, bps: nat)
    requires Fits(a, bps) && Fits(b, bps) && extra <= 32 && low < Pow2(extra) && low' < Pow2(extra)
    ensures var got := Received(a, b, shift, weight);
            CanBeSent(Restore(got.0, low, extra), Restore(got.1, low', extra), extra, weight, shift, bps)
  {
    hide Restore, Mix, Unmix, Fits, Pow2, Low;
    var got := Received(a, b, shift, weight);
    LowOfRestore(got.0, low, extra);
    LowOfRestore(got.1, low', extra);
    MixInvertsUnmix(a, b, weight, shift);
    assert PairFits(got.0, got.1, weight, shift, bps);
    assert HighPart(got.0, Restore(got.0, low, extra), extra) && HighPart(got.1, Restore(got.1, low', extra), extra);
  }

  // An element of the plan's parameters yields the pair past its first.
  ghost predicate Yields(s: seq<bit>, pos: nat, nb: nat, i: nat, l: i32, r: i32, p: Plan, c: Config)
    requires Admitted(c)
  {
    var front, element := ReadFront(s, pos, c, 2, nb), ReadElement(s, pos, c, 2, nb);
    && front.Some? && element.Some? && front.value.extra == p.extra && Predicted(s, front.value, c)
    && Window(s, front.value.pos, 8) == p.shift && Window(s, front.value.pos + 8, 8) == p.weight
    && 1 <= i < element.value.n && element.value.first[i] == l && element.value.second[i] == r
  }

  // A pair is yielded past the first by some element of these parameters
  // exactly when some of its high parts fit the width, mixed.
  lemma PairIsSentExactlyWhen(l: i32, r: i32, p: Plan, c: Config)
    requires Admitted(c) && PlanOk(p, c, 2, 2) && p.compressed && p.hasSize && p.h0.coefs != [] && p.h1.coefs != []
    ensures (exists s, pos, nb, i :: Yields(s, pos, nb, i, l, r, p, c))
            <==> CanBeSent(l, r, p.extra, p.weight, p.shift, Bps(p, c, 2))
  {
    hide ReadElement, ReadFront, Predicted, CanBeSent, Admitted;
    if s, pos, nb, i :| Yields(s, pos, nb, i, l, r, p, c) {
      PairMustFit(s, pos, c, nb, i);
      WidthOf(s, pos, c, 2, nb);
    }
    if CanBeSent(l, r, p.extra, p.weight, p.shift, Bps(p, c, 2)) {
      var s := SendPair(l, r, p, c);
      assert Yields(s, 0, 0, 1, l, r, p, c);
    }
  }

  // The element of a pair of zeros and the pair.
  lemma SendPair(l: i32, r: i32, p: Plan, c: Config) returns (s: seq<bit>)
    requires Admitted(c) && PlanOk(p, c, 2, 2) && p.compressed && p.hasSize && p.h0.coefs != [] && p.h1.coefs != []
    requires CanBeSent(l, r, p.extra, p.weight, p.shift, Bps(p, c, 2))
    ensures Yields(s, 0, 0, 1, l, r, p, c)
  {
    hide At, FrontBits, HeadersBits, ChannelsBits, ReadFront, ReadChan, ReadChannels, Restore, Mix, Unmix, Fits, Pow2,
      Low, Window, Admitted, ChanOk;
    var x: i32, y: i32 :| HighPart(x, l, p.extra) && HighPart(y, r, p.extra)
      && PairFits(x, y, p.weight, p.shift, Bps(p, c, 2));
    var sent := if p.weight != 0 then Mix(x, y, p.weight, p.shift) else (x, y);
    var a, b, bps := [0, sent.0], [0, sent.1], Bps(p, c, 2);
    var low := Planes([0, Low(l, p.extra)], [0, Low(r, p.extra)]);
    ZeroFits(bps);
    FrameAdmitted(c);
    var rest := ChannelsBits(low, a, b, bps, p.extra, p.h0, p.h1, c, 2);
    var front, body := FrontBits(p.skip, p.hasSize, p.extra, true, 2), HeadersBits(p, 2, rest);
    s := front + body;
    AtItself(s);
    AtConcat(s, 0, front, body);
    ReadFrontInverts(s, 0, p.skip, p.hasSize, p.extra, true, 2, c, 2, 0);
    var f := ReadFront(s, 0, c, 2, 0).value;
    HeadersRead(s, p, c, 2, 2, f.pos, rest);
    ReadHeadersInverts(s, p, c, 2, 2, f, rest);
    ReadChannelsInverts(s, f.pos + |body| - |rest|, low, a, b, p.h0, p.h1, p.shift, p.weight, c, 2, f);
    UnmixInvertsMix(x, y, p.weight, p.shift);
  }

  lemma ZeroFits(bps: nat)
    ensures Fits(0, bps) && Pow2(bps) > 0
  {}

  lemma AtItself(s: seq<bit>)
    ensures At(s, 0, s)
  {}

  // So no element of 16-bit pairs, with a weight of 255, no shift and no low
  // bits apart, yields the extremes of 16 bits past its first sample.
  lemma ExtremesAreNotSent(s: seq<bit>, pos: nat, c: Config, nb: nat, i: nat)
    requires Admitted(c) && c.sampleSize == 16 && ReadElement(s, pos, c, 2, nb).Some?
    requires var f := ReadFront(s, pos, c, 2, nb).value;
             f.extra == 0 && Predicted(s, f, c) && Window(s, f.pos, 8) == 0 && Window(s, f.pos + 8, 8) == 255
    requires 1 <= i < ReadElement(s, pos, c, 2, nb).value.n
    ensures var e := ReadElement(s, pos, c, 2, nb).value;
            !(e.first[i] == 0x7fff && e.second[i] == -0x8000)
  {
    hide Window, ReadFront, ReadCompressed, ReadPlain, Finish, Mix, Fits, Admitted, Restore;
    PairMustFit(s, pos, c, nb, i);
    MixMayNotFit();
    WidthOf(s, pos, c, 2, nb);
    OnlyHighPart(0x7fff);
    OnlyHighPart(-0x8000);
  }

  lemma OnlyHighPart(l: i32)
    ensures forall x: i32 :: HighPart(x, l, 0) ==> x == l
  {
    hide Restore;
    forall x: i32 | HighPart(x, l, 0) ensures x == l {
      assert Low(l, 0) == 0;
      NothingRestored(x);
    }
  }

  lemma WidthOf(s: seq<bit>, pos: nat, c: Config, ch: nat, nb: nat)
    requires Admitted(c) && 1 <= ch <= 2 && ReadFront(s, pos, c, ch, nb).Some?
    ensures var f := ReadFront(s, pos, c, ch, nb).value; f.bps == c.sampleSize - f.extra + ch - 1
  {
    hide Window, Pow2;
  }

  // ---- what is refused ----

  // Whatever bits an element that decodes holds: a pair that is mixed is
  // shifted by less than a word, and the numbers sent as they are, plain
  // samples or low bits, lie before the end.
  lemma DecodedIsInside(s: seq<bit>, pos: nat, c: Config, ch: nat, nb: nat)
    requires Admitted(c) && 1 <= ch <= 2 && ReadElement(s, pos, c, ch, nb).Some?
    ensures var f := ReadFront(s, pos, c, ch, nb).value;
            && (f.compressed ==>
                  && c.kb >= 1 && (ch == 2 && Window(s, f.pos + 8, 8) != 0 ==> Window(s, f.pos, 8) < 32)
                  && (f.extra > 0 ==> f.pos + 32 + f.n * f.extra * ch <= |s|))
            && (!f.compressed ==>
                  && ReadElement(s, pos, c, ch, nb).value.pos == f.pos + f.n * c.sampleSize * ch
                  && (f.n * c.sampleSize * ch > 0 ==> f.pos + f.n * c.sampleSize * ch <= |s|))
  {
    hide Window, ReadFront, ReadCompressed, ReadPlain, Pow2;
    var f := ReadFront(s, pos, c, ch, nb).value;
    if f.compressed { CompressedIsInside(s, f, c, ch); } else { PlainIsInside(s, f, c, ch); }
  }

  lemma CompressedIsInside(s: seq<bit>, f: Front, c: Config, ch: nat)
    requires Admitted(c) && 1 <= ch <= 2 && 1 <= f.bps <= 32 && f.n >= 1 && ReadCompressed(s, f, c, ch).Some?
    ensures c.kb >= 1 && (ch == 2 && Window(s, f.pos + 8, 8) != 0 ==> Window(s, f.pos, 8) < 32)
    ensures f.extra > 0 ==> f.pos + 32 + f.n * f.extra * ch <= |s|
  {
    hide Window, ReadChannel, ReadPlanes, PlanesSize, ReadCoefs, Pow2, Admitted, ChanOk;
    SizeIs(f.n, ch, f.extra);
    if f.extra > 0 { SizeSome(f.n, f.extra, ch); }
  }

  lemma PlainIsInside(s: seq<bit>, f: Front, c: Config, ch: nat)
    requires Admitted(c) && 1 <= ch <= 2 && ReadPlain(s, f, c, ch).Some?
    ensures ReadPlain(s, f, c, ch).value.pos == f.pos + f.n * c.sampleSize * ch
    ensures f.n * c.sampleSize * ch > 0 ==> f.pos + f.n * c.sampleSize * ch <= |s|
  {
    hide ReadPlanes, PlanesSize, Pow2, Signed;
    SizeIs(f.n, ch, c.sampleSize);
  }

  lemma SizeIs(n: nat, ch: nat, w: nat)
    requires 1 <= ch <= 2
    ensures PlanesSize(n, ch, w) == n * w * ch
  {
    if ch == 2 { assert n * (w + w) == n * w * 2; }
  }

  lemma SizeSome(n: nat, w: nat, ch: nat)
    requires n > 0 && w > 0 && ch > 0
    ensures n * w * ch > 0
  {
    MulLe(1, n, w);
    MulLe(1, n * w, ch);
  }

  // ---- widths that are refused ----

  // A front whose fields are right but for the width they give.
  predicate FrontFieldsOk(skip: seq<bit>, hasSize: bool, extra: nat, n: nat, c: Config) {
    && |skip| == 16 && (extra == 0 || extra == 8 || extra == 16 || extra == 24)
    && 1 <= n <= c.frameLength && (!hasSize ==> n == c.frameLength)
  }

  // It is refused exactly when the width is none of 1 to 32.
  lemma WidthRefused(s: seq<bit>, pos: nat, skip: seq<bit>, hasSize: bool, extra: nat, compressed: bool, n: nat,
                     c: Config, ch: nat, nb: nat)
    requires Admitted(c) && 1 <= ch <= 2 && FrontFieldsOk(skip, hasSize, extra, n, c) && (nb == 0 || nb == n)
    requires At(s, pos, FrontBits(skip, hasSize, extra, compressed, n))
    ensures ReadFront(s, pos, c, ch, nb).Some? <==> 1 <= c.sampleSize - extra + ch - 1 <= 32
  {
    hide At, ToBits, Window, Pow2;
    if 1 <= c.sampleSize - extra + ch - 1 <= 32 {
      ReadFrontInverts(s, pos, skip, hasSize, extra, compressed, n, c, ch, nb);
    } else {
      var coding := ToBits(if compressed then 0 else 1, 1) + if hasSize then ToBits(n, 32) + [] else [];
      var sized := if hasSize then 1 else 0;
      Pow2Small();
      AtConcat(s, pos, skip, FrontFields(hasSize, extra, compressed, n));
      FieldRead(s, pos + 16, sized, 1, ToBits(extra / 8, 2) + coding);
      FieldRead(s, pos + 17, extra / 8, 2, coding);
    }
  }

  // Samples sent plain do not depend on how many low bits the front names,
  // and come back exactly when the width it gives is one of 1 to 32: not of
  // 32-bit pairs without low bits, for one.
  lemma PlainComesBackExactlyWhen(s: seq<bit>, pos: nat, p: Plan, c: Config, ch: nat, left: seq<i32>, right: seq<i32>,
                                  nb: nat)
    requires Admitted(c) && 1 <= ch <= 2 && !p.compressed && FrontFieldsOk(p.skip, p.hasSize, p.extra, |left|, c)
    requires |right| == (if ch == 2 then |left| else 0) && (nb == 0 || nb == |left|)
    requires Lpc.AllFit(left, c.sampleSize) && Lpc.AllFit(right, c.sampleSize)
    requires At(s, pos, PlainBits(p, c, ch, left, right))
    ensures ReadElement(s, pos, c, ch, nb)
            == Some(Element(left, right, |left|, pos + |PlainBits(p, c, ch, left, right)|))
            <==> 1 <= Bps(p, c, ch) <= 32
  {
    hide At, FrontBits, PlanesBits, Lows, ReadFront, ReadPlain, Finish, Admitted, Lpc.AllFit;
    AtConcat(s, pos, FrontBits(p.skip, p.hasSize, p.extra, false, |left|),
      PlanesBits(PlainPlanes(c, left, right), ch, c.sampleSize));
    WidthRefused(s, pos, p.skip, p.hasSize, p.extra, false, |left|, c, ch, nb);
    if 1 <= Bps(p, c, ch) <= 32 {
      FrameAdmitted(c);
      ElementComesBack(s, pos, p, c, ch, left, right, nb);
    }
  }

  lemma FrameAdmitted(c: Config)
    requires Admitted(c)
    ensures c.frameLength <= 65536 && c.mb < 256
  {}

  ghost function PlainBits(p: Plan, c: Config, ch: nat, left: seq<i32>, right: seq<i32>): seq<bit>
    requires Admitted(c) && 1 <= ch <= 2 && |right| == (if ch == 2 then |left| else 0)
  {
    FrontBits(p.skip, p.hasSize, p.extra, false, |left|) + PlanesBits(PlainPlanes(c, left, right), ch, c.sampleSize)
  }
}
