// Elements of src/common/audio_alac.c: one or two channels with their
// headers, low bits sent apart, residuals, prediction and decorrelation; and
// the encoder that mirrors them.

module AlacElement {
  import opened Bits
  import opened Ints
  import Rice = AlacRice
  import Lpc = AlacLpc

  // The parts of the configuration an element is read by.
  datatype Config = Config(frameLength: nat, sampleSize: nat, pb: nat, mb: nat, kb: nat)

  // What janas_alac_stream admits before it decodes.
  predicate Admitted(c: Config) {
    && 1 <= c.frameLength <= 65536
    && (c.sampleSize == 16 || c.sampleSize == 20 || c.sampleSize == 24 || c.sampleSize == 32)
    && c.pb < 256 && c.mb < 256 && c.kb < 256
  }

  // ---- one channel ----

  datatype Chan = Chan(ptype: nat, quant: nat, mult: nat, coefs: seq<i16>)

  predicate ChanOk(h: Chan, c: Config) {
    h.ptype < 16 && 1 <= h.quant < 16 && h.mult < 8 && |h.coefs| < 32 && |h.coefs| < c.frameLength
  }

  // How fast the history follows the values.
  function Rate(mult: nat, pb: nat): nat {
    MulNonneg(mult, pb);
    mult * pb / 4
  }

  // n samples of a channel at pos: residuals, then the in-place differences
  // of type 15, then the predictor.
  function ReadChannel(s: seq<bit>, pos: nat, n: nat, bps: nat, h: Chan, c: Config): (r: Option<Rice.Residual>)
    requires c.kb >= 1 && c.mb < 256 && 1 <= bps <= 32 && ChanOk(h, c)
    ensures r.Some? ==> |r.value.vals| == n
  {
    var r := Rice.Decoded(s, pos, n, bps, Rate(h.mult, c.pb), c.kb, c.mb, 0);
    if r.None? then None
    else
      var e := if h.ptype == 15 then Lpc.Decoded(r.value.vals, [], bps, 31, 0).out else r.value.vals;
      Some(Rice.Residual(Lpc.Decoded(e, h.coefs, bps, |h.coefs|, h.quant).out, r.value.pos))
  }

  ghost function ChannelResidual(samples: seq<i32>, bps: nat, h: Chan): (e: seq<i32>)
    requires 1 <= bps <= 32 && h.quant >= 1
    ensures |e| == |samples|
  {
    var e := Lpc.Encoded(samples, h.coefs, bps, |h.coefs|, h.quant).err;
    if h.ptype == 15 then Lpc.Encoded(e, [], bps, 31, 0).err else e
  }

  ghost predicate Sendable(samples: seq<i32>, bps: nat) {
    |samples| <= 65536 && Lpc.AllFit(samples, bps)
  }

  lemma ResidualCodable(samples: seq<i32>, bps: nat, h: Chan)
    requires 1 <= bps <= 32 && h.quant >= 1 && Sendable(samples, bps)
    ensures Rice.Codable(ChannelResidual(samples, bps, h), bps, 0)
  {
    Lpc.DecodedInvertsEncoded(samples, h.coefs, bps, |h.coefs|, h.quant);
    var e := Lpc.Encoded(samples, h.coefs, bps, |h.coefs|, h.quant).err;
    Lpc.DecodedInvertsEncoded(e, [], bps, 31, 0);
  }

  ghost function ChannelBits(samples: seq<i32>, bps: nat, h: Chan, c: Config): seq<bit>
    requires c.kb >= 1 && c.mb < 256 && 1 <= bps <= 32 && ChanOk(h, c) && Sendable(samples, bps)
  {
    ResidualCodable(samples, bps, h);
    Rice.Encoded(ChannelResidual(samples, bps, h), bps, Rate(h.mult, c.pb), c.kb, c.mb, 0)
  }

  // A channel's samples come back whatever its predictor.
  lemma ReadChannelInverts(s: seq<bit>, pos: nat, samples: seq<i32>, bps: nat, h: Chan, c: Config)
    requires c.kb >= 1 && c.mb < 256 && 1 <= bps <= 32 && ChanOk(h, c) && Sendable(samples, bps)
    requires At(s, pos, ChannelBits(samples, bps, h, c))
    ensures ReadChannel(s, pos, |samples|, bps, h, c)
         == Some(Rice.Residual(samples, pos + |ChannelBits(samples, bps, h, c)|))
  {
    hide At, Rice.Decoded, Rice.Encoded, Lpc.Decoded, Lpc.Encoded, Rice.Codable;
    ResidualCodable(samples, bps, h);
    Rice.DecodedInvertsEncoded(s, pos, ChannelResidual(samples, bps, h), bps, Rate(h.mult, c.pb), c.kb, c.mb, 0);
    Lpc.DecodedInvertsEncoded(samples, h.coefs, bps, |h.coefs|, h.quant);
    var e := Lpc.Encoded(samples, h.coefs, bps, |h.coefs|, h.quant).err;
    Lpc.DecodedInvertsEncoded(e, [], bps, 31, 0);
  }

  // ---- decorrelation ----

  // The pair a, b turned into left and right.
  function Unmix(a: i32, b: i32, weight: nat, shift: nat): (i32, i32) {
    var right := S32(U32(a) - U32(Asr(S32(b * weight), shift)));
    (S32(U32(b) + U32(right)), right)
  }

  // Left and right turned into a weighted middle and a difference.
  function Mix(left: i32, right: i32, weight: nat, shift: nat): (i32, i32) {
    var b := S32(left - right);
    (S32(right + Asr(S32(b * weight), shift)), b)
  }

  lemma S32Id(x: i32)
    ensures S32(x) == x && U32(S32(x)) == U32(x)
  {}

  lemma U32OfS32(x: int)
    ensures U32(S32(x)) == U32(x) && U32(U32(x)) == U32(x)
  {}

  lemma U32Shift(x: int, k: int)
    ensures U32(x + k * TWO32) == U32(x)
  {
    DivModUnique(x + k * TWO32, TWO32, x / TWO32 + k, x % TWO32);
  }

  lemma U32Sum(x: int, y: int)
    ensures U32(U32(x) + U32(y)) == U32(x + y)
    ensures U32(U32(x) - U32(y)) == U32(x - y)
  {
    var p, q := x / TWO32, y / TWO32;
    assert x == p * TWO32 + U32(x) && y == q * TWO32 + U32(y);
    U32Shift(U32(x) + U32(y), p + q);
    U32Shift(U32(x) - U32(y), p - q);
  }

  // The decoder's turn undoes the encoder's, for any weight and shift.
  lemma UnmixInvertsMix(left: i32, right: i32, weight: nat, shift: nat)
    ensures var (a, b) := Mix(left, right, weight, shift); Unmix(a, b, weight, shift) == (left, right)
  {
    hide Asr, U32, S32;
    var (a, b) := Mix(left, right, weight, shift);
    var x := Asr(S32(b * weight), shift);
    U32OfS32(right + x);
    U32Sum(a, x); U32Sum(right + x, x); U32Sum(a - x, right);
    assert U32(U32(a) - U32(x)) == U32(right);
    S32OfU32(U32(a) - U32(x), right);
    U32OfS32(left - right);
    U32Sum(b, right); U32Sum(left - right, right);
    S32OfU32(U32(b) + U32(right), left);
  }

  lemma S32OfU32(x: int, y: i32)
    requires U32(x) == U32(y)
    ensures S32(x) == y
  {}

  // And it is the only pair that gives them, so left and right can be sent
  // exactly when their mix fits.
  lemma MixInvertsUnmix(a: i32, b: i32, weight: nat, shift: nat)
    ensures var (left, right) := Unmix(a, b, weight, shift); Mix(left, right, weight, shift) == (a, b)
  {
    hide Asr, U32, S32;
    var (left, right) := Unmix(a, b, weight, shift);
    var x := Asr(S32(b * weight), shift);
    U32OfS32(U32(b) + U32(right)); U32OfS32(U32(a) - U32(x));
    U32Sum(b, right); U32Sum(left, right); U32Sum(b + right, right);
    S32OfU32(left - right, b);
    U32Sum(a, x); U32Sum(right, x); U32Sum(a - x, x);
    S32OfU32(right + x, a);
  }

  lemma FitsWider(x: int, y: int, k: nat)
    requires Fits(x, k) && Fits(y, k)
    ensures Fits(x - y, k + 1)
  {}

  lemma FitsIn32(x: int, k: nat)
    requires Fits(x, k) && k <= 32
    ensures -0x8000_0000 <= x < 0x8000_0000
  {
    hide Pow2;
    Pow2Within32(k);
  }

  // With a weight of at most one the middle lies between left and right.
  lemma MixBetween(left: i32, right: i32, weight: nat, shift: nat, k: nat)
    requires 1 <= k <= 31 && Fits(left, k) && Fits(right, k) && weight <= Pow2(shift)
    requires -0x8000_0000 <= (left - right) * weight < 0x8000_0000
    ensures var (a, b) := Mix(left, right, weight, shift);
            b == left - right && Fits(b, k + 1) && Fits(a, k)
            && (left <= a <= right || right <= a <= left)
  {
    hide Pow2, Asr;
    var b: int := left - right;
    FitsWider(left, right, k);
    FitsIn32(b, k + 1);
    S32Id(b);
    S32Id(b * weight);
    AsrBetween(b, weight, shift);
    S32Id(right + Asr(b * weight, shift));
  }

  lemma AsrBetween(b: int, w: nat, shift: nat)
    requires w <= Pow2(shift)
    ensures b >= 0 ==> 0 <= Asr(b * w, shift) <= b
    ensures b <= 0 ==> b <= Asr(b * w, shift) <= 0
  {
    hide Pow2;
    var d := Pow2(shift);
    QuotientBounds(b * w, d, 0);
    QuotientBounds(b * w, d, 1);
    QuotientBounds(b * w, d, b);
    QuotientBounds(b * w, d, b + 1);
    MulDistribute(b, 1, d);
    if b >= 0 {
      MulNonneg(b, w);
      ProductLe(b, w, d);
    } else {
      MulNonneg(-b, w);
      ProductLe(-b, w, d);
    }
  }

  lemma ProductLe(b: nat, w: int, d: int)
    requires w <= d
    ensures b * w <= b * d
  {
    MulLe(w, d, b);
  }

  // ---- the low bits ----

  // A sample's low bits put back under its high part: the shift left leaves
  // their place zero, so or is a sum.
  function Restore(high: i32, low: nat, extra: nat): i32 {
    S32(U32(Shl(U32(high), extra)) + low)
  }

  function High(s: i32, extra: nat): i32 {
    Lpc.AsrBound(s, extra);
    Asr(s, extra)
  }

  function Low(s: i32, extra: nat): (r: nat)
    ensures r < Pow2(extra)
  {
    s % Pow2(extra)
  }

  lemma RestoreInvertsSplit(s: i32, extra: nat)
    ensures Restore(High(s, extra), Low(s, extra), extra) == s
  {
    var d := Pow2(extra);
    var h, l := High(s, extra), Low(s, extra);
    assert s == h * d + l;
    var q := h / TWO32;
    assert h == q * TWO32 + U32(h);
    assert Shl(U32(h), extra) == h * d + (-q * d) * TWO32 by {
      MulDistribute(-q * TWO32, h, d);
      MulAssoc(-q, TWO32, d);
      MulAssoc(-q, d, TWO32);
    }
    var u := Shl(U32(h), extra);
    var j := u / TWO32;
    assert U32(u) + l == s + (-q * d - j) * TWO32 by {
      assert u == j * TWO32 + U32(u);
      MulDistribute(-q * d, -j, TWO32);
    }
    Lpc.SignedUnique(U32(u) + l, s, -q * d - j);
  }

  lemma Pow2Twice(k: nat)
    requires k > 0
    ensures Pow2(k) == 2 * Pow2(k - 1)
  {}

  // The high part of a sample of k bits fits the bits left.
  lemma HighFits(s: i32, k: nat, extra: nat)
    requires Fits(s, k) && extra < k
    ensures Fits(High(s, extra), k - extra)
  {
    hide Pow2;
    var d: int, m: int := Pow2(extra), Pow2(k - extra - 1);
    Pow2Add(k - extra - 1, extra);
    assert k - extra - 1 + extra == k - 1;
    Pow2Twice(k);
    Pow2Twice(k - extra);
    QuotientBounds(s, d, m);
    QuotientBounds(s, d, -m);
  }
}
