// The sign-LMS predictor of src/common/audio_alac.c: each sample is a guess
// from those before it plus a residual, and the guess's coefficients move by
// one with the residual's sign. All arithmetic wraps in 32 bits.

module AlacLpc {
  import opened Bits
  import opened Ints

  // ---- sign extension ----

  // The low bits of v as a signed number, by the code's two shifts.
  function SignExtend(v: u32, bits: nat): i32
    requires 1 <= bits <= 32
  {
    var r := Asr(S32(Shl(v, 32 - bits)), 32 - bits);
    assert -0x8000_0000 <= r < 0x8000_0000 by { AsrBound(S32(Shl(v, 32 - bits)), 32 - bits); }
    r
  }

  lemma AsrBound(x: i32, k: nat)
    ensures -0x8000_0000 <= Asr(x, k) < 0x8000_0000
  {
    var d := Pow2(k);
    assert x == Asr(x, k) * d + x % d;
    if Asr(x, k) >= 0x8000_0000 {
      MulLe(0x8000_0000, Asr(x, k), d);
    } else if Asr(x, k) < -0x8000_0000 {
      MulLe(Asr(x, k), -0x8000_0001, d);
    }
  }

  lemma ShiftedBack(m: int, k: nat)
    ensures Asr(m * Pow2(k), k) == m
  {
    DivModUnique(m * Pow2(k), Pow2(k), m, 0);
  }

  // s is what remains of any number that differs from it by multiples of
  // 2^bits.
  lemma SignExtendUnique(x: int, s: int, j: int, bits: nat)
    requires 1 <= bits <= 32 && Fits(s, bits) && x == s + j * Pow2(bits)
    ensures SignExtend(U32(x), bits) == s
  {
    hide Pow2, Asr;
    var sh := 32 - bits;
    var a, b := Pow2(bits), Pow2(sh);
    assert a * b == TWO32 by { Pow2Add(bits, sh); Pow2Large(); assert bits + sh == 32; }
    // s * b is the shifted number's signed value
    var w := x / TWO32;
    assert x == w * TWO32 + U32(x);
    assert U32(x) * b == s * b + (j - w * b) * TWO32 by {
      MulDistribute(s, j * a, b);
      MulAssoc(j, a, b);
      MulDistribute(-w * TWO32, x, b);
      MulAssoc(-w, TWO32, b);
      MulDistribute(j, -w * b, TWO32);
      MulAssoc(-w, b, TWO32);
    }
    ScaledFits(s, a, b);
    SignedUnique(Shl(U32(x), sh), s * b, j - w * b);
    ShiftedBack(s, sh);
  }

  lemma ScaledFits(s: int, a: int, b: int)
    requires 2 * s < a && -2 * s <= a && a * b == TWO32 && b >= 1
    ensures -0x8000_0000 <= s * b < 0x8000_0000
  {
    MulLe(2 * s + 1, a, b);
    MulDistribute(2 * s, 1, b);
    MulLe(-2 * s, a, b);
  }

  lemma SignedUnique(x: int, v: int, j: int)
    requires -0x8000_0000 <= v < 0x8000_0000 && x == v + j * TWO32
    ensures S32(x) == v
  {
    if v >= 0 {
      DivModUnique(x, TWO32, j, v);
    } else {
      DivModUnique(x, TWO32, j - 1, v + TWO32);
    }
  }

  // What sign extension leaves fits, and differs by a multiple of 2^bits.
  lemma SignExtendCongruent(x: int, bits: nat) returns (j: int)
    requires 1 <= bits <= 32
    ensures Fits(SignExtend(U32(x), bits), bits)
    ensures x == SignExtend(U32(x), bits) + j * Pow2(bits)
  {
    var a := Pow2(bits);
    var m := x % a;
    j := x / a;
    assert x == j * a + m;
    if 2 * m < a {
      SignExtendUnique(x, m, j, bits);
    } else {
      MulDistribute(j, 1, a);
      j := j + 1;
      SignExtendUnique(x, m - a, j, bits);
    }
  }

  // A wrapped difference from a guess, added to the guess, is the sample.
  lemma DifferenceUndone(guess: int, s: int, bps: nat)
    requires 1 <= bps <= 32 && Fits(s, bps)
    ensures Fits(SignExtend(U32(s - guess), bps), bps)
    ensures SignExtend(U32(guess + SignExtend(U32(s - guess), bps)), bps) == s
  {
    hide SignExtend, Pow2, Fits;
    var j := SignExtendCongruent(s - guess, bps);
    var e := SignExtend(U32(s - guess), bps);
    assert guess + e == s + (-j) * Pow2(bps) by { assert (-j) * Pow2(bps) == -(j * Pow2(bps)); }
    SignExtendUnique(guess + e, s, -j, bps);
  }

  // ---- the guess ----

  // The sum over the first j of pred, each from d, by the coefficients.
  function Acc(pred: seq<i32>, coefs: seq<i16>, d: int, j: nat): u32
    requires j <= |pred| && j <= |coefs|
  {
    if j == 0 then 0
    else U32(Acc(pred, coefs, d, j - 1) + U32(pred[j - 1] - d) * U32(coefs[j - 1]))
  }

  // The guess for the sample after out: the one before, until order are
  // known or where the order is 31; then the one order + 1 back moved by the
  // rounded sum.
  function Guess(out: seq<i32>, coefs: seq<i16>, order: nat, quant: nat): int
    requires |out| >= 1 && (1 <= order < 31 ==> |coefs| == order && quant >= 1)
  {
    if order == 0 || order >= 31 || |out| <= order then out[|out| - 1]
    else
      var pred := out[|out| - order..];
      var d := out[|out| - order - 1];
      Asr(S32(Acc(pred, coefs, d, order)) + Pow2(quant - 1), quant) + d
  }

  // The coefficients from j on, while the residual left has its sign.
  function Adapted(pred: seq<i32>, coefs: seq<i16>, d: int, j: nat, err: u32, sign: int, quant: nat): (c: seq<i16>)
    requires j <= |pred| == |coefs|
    ensures |c| == |coefs|
    decreases |pred| - j
  {
    if j < |pred| && S32(err * sign) > 0 then
      var val := S32(d - pred[j]);
      var s := SignOf(val) * sign;
      var err' := U32(err - Asr(S32(val * s), quant) * (j + 1));
      Adapted(pred, coefs[j := S16(coefs[j] - s)], d, j + 1, err', sign, quant)
    else coefs
  }

  // The coefficients after the residual e of the sample after out.
  function NextCoefs(out: seq<i32>, coefs: seq<i16>, e: i32, order: nat, quant: nat): (c: seq<i16>)
    requires 1 <= order < 31 ==> |coefs| == order
    ensures |c| == |coefs|
  {
    if order == 0 || order >= 31 || |out| <= order || SignOf(e) == 0 then coefs
    else Adapted(out[|out| - order..], coefs, out[|out| - order - 1], 0, U32(e), SignOf(e), quant)
  }

  // ---- decoder and encoder ----

  datatype Lpc = Lpc(out: seq<i32>, coefs: seq<i16>)

  predicate Header(coefs: seq<i16>, bps: nat, order: nat, quant: nat) {
    1 <= bps <= 32 && (1 <= order < 31 ==> |coefs| == order && quant >= 1)
  }

  // One more sample from its residual.
  function NextSample(out: seq<i32>, coefs: seq<i16>, e: i32, bps: nat, order: nat, quant: nat): i32
    requires Header(coefs, bps, order, quant)
  {
    if out == [] || order == 0 then e
    else SignExtend(U32(Guess(out, coefs, order, quant) + e), bps)
  }

  // The samples of the residuals err, and the coefficients they leave.
  function Decoded(err: seq<i32>, coefs: seq<i16>, bps: nat, order: nat, quant: nat): (r: Lpc)
    requires Header(coefs, bps, order, quant)
    ensures |r.out| == |err| && |r.coefs| == |coefs|
  {
    if err == [] then Lpc([], coefs)
    else
      var n := |err| - 1;
      var p := Decoded(err[..n], coefs, bps, order, quant);
      Lpc(p.out + [NextSample(p.out, p.coefs, err[n], bps, order, quant)],
          NextCoefs(p.out, p.coefs, err[n], order, quant))
  }

  // The residuals the encoder sends, and its own coefficients after them.
  datatype Sent = Sent(err: seq<i32>, coefs: seq<i16>)

  function Residual(before: seq<i32>, coefs: seq<i16>, s: i32, bps: nat, order: nat, quant: nat): i32
    requires Header(coefs, bps, order, quant)
  {
    if before == [] || order == 0 then s
    else SignExtend(U32(s - Guess(before, coefs, order, quant)), bps)
  }

  function Encoded(samples: seq<i32>, coefs: seq<i16>, bps: nat, order: nat, quant: nat): (r: Sent)
    requires Header(coefs, bps, order, quant)
    ensures |r.err| == |samples| && |r.coefs| == |coefs|
  {
    if samples == [] then Sent([], coefs)
    else
      var n := |samples| - 1;
      var before := samples[..n];
      var p := Encoded(before, coefs, bps, order, quant);
      var e := Residual(before, p.coefs, samples[n], bps, order, quant);
      Sent(p.err + [e], NextCoefs(before, p.coefs, e, order, quant))
  }

  predicate AllFit(samples: seq<i32>, bps: nat) {
    forall s :: s in samples ==> Fits(s, bps)
  }

  lemma DecodedEmpty(coefs: seq<i16>, bps: nat, order: nat, quant: nat)
    requires Header(coefs, bps, order, quant)
    ensures Decoded([], coefs, bps, order, quant) == Lpc([], coefs)
  {}

  lemma DecodedAppend(err: seq<i32>, e: i32, coefs: seq<i16>, bps: nat, order: nat, quant: nat)
    requires Header(coefs, bps, order, quant)
    ensures var p := Decoded(err, coefs, bps, order, quant);
            Decoded(err + [e], coefs, bps, order, quant)
            == Lpc(p.out + [NextSample(p.out, p.coefs, e, bps, order, quant)],
              NextCoefs(p.out, p.coefs, e, order, quant))
  {
    hide NextSample, NextCoefs;
    assert (err + [e])[..|err|] == err;
  }

  // The residual of a sample gives the sample back.
  lemma NextInvertsResidual(before: seq<i32>, coefs: seq<i16>, s: i32, bps: nat, order: nat, quant: nat)
    requires Header(coefs, bps, order, quant) && Fits(s, bps)
    ensures var e := Residual(before, coefs, s, bps, order, quant);
            Fits(e, bps) && NextSample(before, coefs, e, bps, order, quant) == s
  {
    hide Guess, Fits, SignExtend;
    if before != [] && order != 0 {
      DifferenceUndone(Guess(before, coefs, order, quant), s, bps);
    }
  }

  // The decoder gives back the samples, its coefficients in step with the
  // encoder's; the residuals fit as many bits as the samples.
  lemma {:induction false} DecodedInvertsEncoded(samples: seq<i32>, coefs: seq<i16>, bps: nat, order: nat, quant: nat)
    requires Header(coefs, bps, order, quant) && AllFit(samples, bps)
    ensures var sent := Encoded(samples, coefs, bps, order, quant);
            && AllFit(sent.err, bps)
            && Decoded(sent.err, coefs, bps, order, quant) == Lpc(samples, sent.coefs)
  {
    hide Residual, NextSample, NextCoefs, Fits;
    if samples != [] {
      var n := |samples| - 1;
      var before := samples[..n];
      assert samples == before + [samples[n]];
      DecodedInvertsEncoded(before, coefs, bps, order, quant);
      var p := Encoded(before, coefs, bps, order, quant);
      assert samples[n] in samples;
      NextInvertsResidual(before, p.coefs, samples[n], bps, order, quant);
      DecodedAppend(p.err, Residual(before, p.coefs, samples[n], bps, order, quant), coefs, bps, order, quant);
    }
  }

  // Past the first sample a predictor of any order but 0 yields only numbers
  // of bps bits, so nothing wider can be sent through it.
  lemma {:induction false} OutputsFit(err: seq<i32>, coefs: seq<i16>, bps: nat, order: nat, quant: nat, i: nat)
    requires Header(coefs, bps, order, quant) && order != 0 && 1 <= i < |err|
    ensures Fits(Decoded(err, coefs, bps, order, quant).out[i], bps)
    decreases |err|
  {
    hide Guess, NextCoefs, Fits, SignExtend;
    var n := |err| - 1;
    var p := Decoded(err[..n], coefs, bps, order, quant);
    if i < n {
      OutputsFit(err[..n], coefs, bps, order, quant, i);
    } else {
      var j := SignExtendCongruent(Guess(p.out, p.coefs, order, quant) + err[n], bps);
    }
  }

  // Order 31 neither reads nor moves the coefficients.
  lemma {:induction false} DifferencesIgnoreCoefs(err: seq<i32>, c1: seq<i16>, c2: seq<i16>, bps: nat, quant: nat)
    requires 1 <= bps <= 32
    ensures Decoded(err, c1, bps, 31, quant) == Lpc(Decoded(err, c2, bps, 31, 0).out, c1)
  {
    hide SignExtend;
    if err != [] {
      DifferencesIgnoreCoefs(err[..|err| - 1], c1, c2, bps, quant);
    }
  }

  // In step at every index, not only at the end.
  lemma {:induction false} LockstepAt(samples: seq<i32>, coefs: seq<i16>, bps: nat, order: nat, quant: nat, i: nat)
    requires Header(coefs, bps, order, quant) && AllFit(samples, bps) && i <= |samples|
    ensures Decoded(Encoded(samples, coefs, bps, order, quant).err[..i], coefs, bps, order, quant)
         == Lpc(samples[..i], Encoded(samples[..i], coefs, bps, order, quant).coefs)
    decreases |samples|
  {
    hide Encoded, Decoded, Fits;
    var err := Encoded(samples, coefs, bps, order, quant).err;
    if i == |samples| {
      assert err[..i] == err && samples[..i] == samples;
      DecodedInvertsEncoded(samples, coefs, bps, order, quant);
    } else {
      var n := |samples| - 1;
      var before := samples[..n];
      EncodedFront(samples, coefs, bps, order, quant);
      LockstepAt(before, coefs, bps, order, quant, i);
      assert err[..i] == err[..n][..i];
      assert before[..i] == samples[..i];
    }
  }

  lemma EncodedFront(samples: seq<i32>, coefs: seq<i16>, bps: nat, order: nat, quant: nat)
    requires Header(coefs, bps, order, quant) && samples != []
    ensures |Encoded(samples, coefs, bps, order, quant).err| == |samples|
    ensures Encoded(samples, coefs, bps, order, quant).err[..|samples| - 1]
            == Encoded(samples[..|samples| - 1], coefs, bps, order, quant).err
  {
    hide Residual, NextCoefs, Pow2;
  }

  // ---- the code ----

  method Accumulate(out: array<i32>, p: nat, coefs: array<i16>, d: int, order: nat) returns (acc: u32)
    requires p + order <= out.Length && order <= coefs.Length
    ensures acc == Acc(out[p..p + order], coefs[..order], d, order)
  {
    hide Pow2, U32;
    acc := 0;
    ghost var o, c := out[p..p + order], coefs[..order];
    for j := 0 to order
      invariant acc == Acc(o, c, d, j)
    {
      assert o[j] == out[p + j] && c[j] == coefs[j];
      acc := U32(acc + U32(out[p + j] - d) * U32(coefs[j]));
    }
  }

  method Adapt(out: array<i32>, p: nat, coefs: array<i16>, d: int, order: nat, error: i32, quant: nat)
    requires p + order <= out.Length && order <= coefs.Length
    modifies coefs
    ensures SignOf(error) == 0 ==> coefs[..order] == old(coefs[..order])
    ensures SignOf(error) != 0 ==>
      coefs[..order] == Adapted(out[p..p + order], old(coefs[..order]), d, 0, U32(error), SignOf(error), quant)
    ensures coefs[order..] == old(coefs[order..])
  {
    var err: u32 := U32(error);
    var sign := SignOf(error);
    if sign != 0 {
      ghost var pred := out[p..p + order];
      ghost var goal := Adapted(pred, coefs[..order], d, 0, err, sign, quant);
      var j := 0;
      while j < order && S32(err * sign) > 0
        invariant 0 <= j <= order
        invariant goal == Adapted(pred, coefs[..order], d, j, err, sign, quant)
        invariant coefs[order..] == old(coefs[order..])
      {
        ghost var was := coefs[..order];
        var val := S32(d - out[p + j]);
        var s := SignOf(val) * sign;
        coefs[j] := S16(coefs[j] - s);
        val := S32(val * s);
        err := U32(err - Asr(val, quant) * (j + 1));
        j := j + 1;
        assert coefs[..order] == was[j - 1 := S16(was[j - 1] - s)];
      }
    }
  }

  // One sample past the first order, from the window of order + 1 before it.
  method PredictOne(e: i32, out: array<i32>, i: nat, pred: nat, bps: nat, coefs: array<i16>, order: nat, quant: nat)
    requires 1 <= order < i < out.Length && order < 31 && pred == i - order - 1
    requires order <= coefs.Length && 1 <= bps <= 32 && quant >= 1
    modifies out, coefs
    ensures out[i] == NextSample(old(out[..i]), old(coefs[..order]), e, bps, order, quant)
    ensures out[..i] == old(out[..i]) && out[i + 1..] == old(out[i + 1..])
    ensures coefs[..order] == NextCoefs(old(out[..i]), old(coefs[..order]), e, order, quant)
    ensures coefs[order..] == old(coefs[order..])
  {
    hide SignExtend, Asr, Pow2, Acc, Adapted;
    ghost var was := out[..i];
    var d := out[pred];
    assert was[i - order..] == out[pred + 1..pred + 1 + order];
    var acc := Accumulate(out, pred + 1, coefs, d, order);
    var val := Asr(S32(acc) + Pow2(quant - 1), quant);
    out[i] := SignExtend(U32(val + d + e), bps);
    assert was[i - order..] == out[pred + 1..pred + 1 + order];
    Adapt(out, pred + 1, coefs, d, order, e, quant);
  }

  // Samples 1 to stop - 1, each guessed to be the one before: the whole of
  // order 31, and the first samples of the other orders.
  method Differences(error: array<i32>, out: array<i32>, n: nat, stop: nat, bps: nat,
      ghost err: seq<i32>, ghost c0: seq<i16>, ghost order: nat, ghost quant: nat)
    requires 1 <= stop <= n == |err| && n <= error.Length && n <= out.Length
    requires Header(c0, bps, order, quant) && order != 0 && (stop <= order + 1 || order == 31)
    requires forall k :: 1 <= k < n ==> error[k] == err[k]
    requires Lpc(out[..1], c0) == Decoded(err[..1], c0, bps, order, quant)
    modifies out
    ensures forall k :: stop <= k < n ==> error[k] == err[k]
    ensures Lpc(out[..stop], c0) == Decoded(err[..stop], c0, bps, order, quant)
    ensures out[stop..] == old(out[stop..])
  {
    hide Decoded, SignExtend, Pow2, Asr;
    for i := 1 to stop
      invariant forall k :: i <= k < n ==> error[k] == err[k]
      invariant Lpc(out[..i], c0) == Decoded(err[..i], c0, bps, order, quant)
      invariant out[stop..] == old(out[stop..])
    {
      assert err[..i + 1] == err[..i] + [err[i]];
      DecodedAppend(err[..i], err[i], c0, bps, order, quant);
      ghost var was := out[..i];
      out[i] := SignExtend(U32(out[i - 1] as int + error[i] as int), bps);
      assert out[..i + 1] == was + [out[i]];
    }
  }

  // The samples from first on, the coefficients moving with each.
  method Adaptive(error: array<i32>, out: array<i32>, n: nat, first: nat, bps: nat, coefs: array<i16>, order: nat,
      quant: nat, ghost err: seq<i32>, ghost c0: seq<i16>)
    requires 1 <= order < 31 && first <= n == |err| && n <= error.Length && n <= out.Length
    requires first < n ==> first == order + 1
    requires order <= coefs.Length && Header(c0, bps, order, quant)
    requires forall k :: first <= k < n ==> error[k] == err[k]
    requires Lpc(out[..first], coefs[..order]) == Decoded(err[..first], c0, bps, order, quant)
    modifies out, coefs
    ensures Lpc(out[..n], coefs[..order]) == Decoded(err[..n], c0, bps, order, quant)
    ensures out[n..] == old(out[n..]) && coefs[order..] == old(coefs[order..])
  {
    hide Decoded, SignExtend, Adapted, Acc, Pow2, Asr, NextSample, NextCoefs;
    var i, pred := first, 0;
    while i < n
      invariant first <= i <= n
      invariant i < n ==> pred == i - order - 1
      invariant forall k :: i <= k < n ==> error[k] == err[k]
      invariant Lpc(out[..i], coefs[..order]) == Decoded(err[..i], c0, bps, order, quant)
      invariant coefs[order..] == old(coefs[order..])
      invariant out[n..] == old(out[n..])
    {
      assert err[..i + 1] == err[..i] + [err[i]];
      DecodedAppend(err[..i], err[i], c0, bps, order, quant);
      ghost var was := out[..i];
      PredictOne(error[i], out, i, pred, bps, coefs, order, quant);
      pred := pred + 1;
      assert out[..i + 1] == was + [out[i]];
      i := i + 1;
    }
  }

  lemma {:induction false} DecodedPlain(err: seq<i32>, coefs: seq<i16>, bps: nat, quant: nat)
    requires Header(coefs, bps, 0, quant)
    ensures Decoded(err, coefs, bps, 0, quant) == Lpc(err, coefs)
  {
    if err != [] {
      var n := |err| - 1;
      DecodedPlain(err[..n], coefs, bps, quant);
      assert err == err[..n] + [err[n]];
    }
  }

  // out may be error itself, as it is for the in-place order 31.
  method Predict(error: array<i32>, out: array<i32>, n: nat, bps: nat, coefs: array<i16>, order: nat, quant: nat)
    requires 1 <= n <= error.Length && n <= out.Length
    requires order <= coefs.Length && order <= 31
    requires 1 <= bps <= 32 && (1 <= order < 31 ==> quant >= 1)
    modifies out, coefs
    ensures Lpc(out[..n], coefs[..order]) == Decoded(old(error[..n]), old(coefs[..order]), bps, order, quant)
    ensures out[n..] == old(out[n..]) && coefs[order..] == old(coefs[order..])
  {
    hide Decoded, SignExtend, Adapted, Acc, Pow2, Asr, NextSample, NextCoefs;
    ghost var err, c0 := error[..n], coefs[..order];
    out[0] := error[0];
    FirstDecoded(err, c0, bps, order, quant);
    assert out[..1] == err[..1];
    if n <= 1 {
      assert err[..1] == err;
      return;
    }
    if order == 0 {
      forall k | 1 <= k < n {
        out[k] := error[k];
      }
      assert out[..n] == err;
      DecodedPlain(err, c0, bps, quant);
      return;
    }
    if order == 31 {
      Differences(error, out, n, n, bps, err, c0, order, quant);
      assert err[..n] == err;
      return;
    }
    var i := if order + 1 < n then order + 1 else n;
    Differences(error, out, n, i, bps, err, c0, order, quant);
    Adaptive(error, out, n, i, bps, coefs, order, quant, err, c0);
    assert err[..n] == err;
  }

  lemma FirstDecoded(err: seq<i32>, coefs: seq<i16>, bps: nat, order: nat, quant: nat)
    requires Header(coefs, bps, order, quant) && err != []
    ensures Decoded(err[..1], coefs, bps, order, quant) == Lpc(err[..1], coefs)
  {
    DecodedEmpty(coefs, bps, order, quant);
    DecodedAppend([], err[0], coefs, bps, order, quant);
    assert [] + [err[0]] == err[..1];
  }
}
