// What the predictor of src/common/audio_alac.c guesses and how it learns, in
// numbers that do not wrap: a guess is the nearest to a weighted sum, and a
// residual moves the weights so that the same samples are guessed nearer to
// what came.

module AlacLearn {
  import opened Bits
  import opened Ints
  import opened AlacLpc

  // ---- the guess ----

  // The first j samples' distances from d, each by its weight.
  function Weighted(pred: seq<i32>, coefs: seq<i16>, d: int, j: nat): int
    requires j <= |pred| && j <= |coefs|
  {
    if j == 0 then 0 else Weighted(pred, coefs, d, j - 1) + (pred[j - 1] - d) * coefs[j - 1]
  }

  lemma ProductWraps(x: int, y: int)
    ensures exists k: int :: U32(x) * U32(y) == x * y + k * TWO32
  {
    var q, r := x / TWO32, y / TWO32;
    var a, b := U32(x), U32(y);
    assert x == q * TWO32 + a && y == r * TWO32 + b;
    MulDistribute(q * TWO32, a, y);
    MulAssoc(q, TWO32, y);
    assert x * y == q * y * TWO32 + a * y by { MulAssoc(q, y, TWO32); }
    assert a * y == a * r * TWO32 + a * b by {
      MulDistribute(r * TWO32, b, a);
      MulAssoc(a, r, TWO32);
    }
    MulDistribute(-(q * y), -(a * r), TWO32);
    assert a * b == x * y + (-(q * y) - a * r) * TWO32;
  }

  lemma SumWraps(x: int, y: int, z: int, k: int)
    requires z == y + k * TWO32
    ensures U32(U32(x) + z) == U32(x + y)
  {
    var q := (U32(x) + z) / TWO32;
    var w := x / TWO32;
    assert x + y == (w - k + q) * TWO32 + U32(U32(x) + z);
    DivModUnique(x + y, TWO32, w - k + q, U32(U32(x) + z));
  }

  // The code's sum is the exact one, wrapped.
  lemma {:induction false} AccIsWeighted(pred: seq<i32>, coefs: seq<i16>, d: int, j: nat)
    requires j <= |pred| && j <= |coefs|
    ensures Acc(pred, coefs, d, j) == U32(Weighted(pred, coefs, d, j))
  {
    hide U32;
    if j > 0 {
      AccIsWeighted(pred, coefs, d, j - 1);
      var x, y := pred[j - 1] - d, coefs[j - 1] as int;
      ProductWraps(x, y);
      var k: int :| U32(x) * U32(y) == x * y + k * TWO32;
      SumWraps(Weighted(pred, coefs, d, j - 1), x * y, U32(x) * U32(y), k);
    } else {
      ZeroStays();
    }
  }

  lemma ZeroStays()
    ensures U32(0) == 0
  {}

  // The guess lies nearest to where the weighted sum, over 2^quant, is from
  // the sample order + 1 back; of two as near it is the greater.
  lemma GuessIsNearest(out: seq<i32>, coefs: seq<i16>, order: nat, quant: nat)
    requires 1 <= order < 31 && |coefs| == order < |out| && quant >= 1
    ensures var d, g := out[|out| - order - 1], Guess(out, coefs, order, quant);
            var sum := S32(Weighted(out[|out| - order..], coefs, d, order));
            2 * sum - Pow2(quant) < 2 * (g - d) * Pow2(quant) <= 2 * sum + Pow2(quant)
  {
    hide U32, S32;
    var pred, d := out[|out| - order..], out[|out| - order - 1];
    AccIsWeighted(pred, coefs, d, order);
    var w := Weighted(pred, coefs, d, order);
    UnwrappedTwice(w);
    var p: nat := Pow2(quant - 1);
    assert Pow2(quant) == 2 * p;
    hide Pow2;
    Nearest(S32(w), p);
  }

  lemma UnwrappedTwice(w: int)
    ensures S32(U32(w)) == S32(w)
  {
    DivModUnique(U32(w), TWO32, 0, U32(w));
  }

  lemma Nearest(x: int, p: nat)
    requires p > 0
    ensures var q := (x + p) / (2 * p); 2 * x - 2 * p < 2 * q * (2 * p) <= 2 * x + 2 * p
  {
    var q, r := (x + p) / (2 * p), (x + p) % (2 * p);
    assert x + p == q * (2 * p) + r;
  }

  // ---- what a residual moves ----

  function Gap(pred: seq<i32>, d: int, j: nat): nat
    requires j < |pred|
  {
    if pred[j] < d then d - pred[j] else pred[j] - d
  }

  // A weight's part of the residual: its gap over 2^quant, down for a
  // residual above zero and up for one below.
  function Part(gap: nat, e: int, quant: nat): nat {
    QuotientBounds(gap + if e > 0 then 0 else Pow2(quant) - 1, Pow2(quant), 0);
    (gap + if e > 0 then 0 else Pow2(quant) - 1) / Pow2(quant)
  }

  // What of the residual's size the first n parts leave, each taken once for
  // every place it is from the window's start.
  function Left(pred: seq<i32>, d: int, e: int, quant: nat, n: nat): int
    requires n <= |pred|
  {
    if n == 0 then if e > 0 then e else -e
    else Left(pred, d, e, quant, n - 1) - n * Part(Gap(pred, d, n - 1), e, quant)
  }

  // One up where the sample and the residual are on one side, one down where
  // they are not, and still where the sample is d.
  predicate Learned(c: i16, c': i16, sample: int, d: int, e: int) {
    c' == S16(c + if sample == d then 0 else if (sample > d) == (e > 0) then 1 else -1)
  }

  lemma PartBound(gap: nat, e: int, quant: nat)
    requires gap < 0x400_0000
    ensures Part(gap, e, quant) <= gap
  {
    hide Pow2;
    var p := Pow2(quant);
    QuotientBounds(gap, p, gap + 1);
    QuotientBounds(gap + p - 1, p, gap + 1);
    MulLe(1, p, gap);
    MulLe(1, p, gap + 1);
    MulDistribute(gap, 1, p);
  }

  // The code's shift of a signed gap is the part, signed.
  lemma ShiftIsPart(gap: nat, e: int, quant: nat)
    requires e != 0
    ensures Asr(gap * SignOf(e), quant) == SignOf(e) * Part(gap, e, quant)
  {
    hide Pow2;
    if e < 0 {
      var p := Pow2(quant);
      var q, r := (gap + p - 1) / p, (gap + p - 1) % p;
      var g: int := gap;
      assert -g == -q * p + (p - 1 - r) by { assert g + p - 1 == q * p + r; }
      DivModUnique(-g, p, -q, p - 1 - r);
    }
  }

  lemma StillLeft(left: int, e: int)
    requires e != 0 && -0x8000_0000 < left < 0x8000_0000
    ensures S32(U32(SignOf(e) * left) * SignOf(e)) == left
  {
    hide S32, U32, SignOf;
    SignIs(e);
    if e > 0 {
      var q := Wraps(left);
      SignedUnique(U32(left), left, -q);
    } else {
      var q := Wraps(-left);
      var u: int := U32(-left);
      SignedUnique(-u, left, q);
    }
  }

  lemma Wraps(x: int) returns (q: int)
    ensures U32(x) == x - q * TWO32
  {
    q := x / TWO32;
  }

  // The code's signed distance and its sign.
  lemma SignedGap(pred: seq<i32>, d: int, j: nat, e: int)
    requires j < |pred| && e != 0 && Gap(pred, d, j) < 0x400_0000
    ensures var val := S32(d - pred[j]);
            var s := SignOf(val) * SignOf(e);
            && s == (if pred[j] == d then 0 else if (pred[j] > d) == (e > 0) then -1 else 1)
            && S32(val * s) == Gap(pred, d, j) * SignOf(e)
  {
    var val: int := d - pred[j];
    assert S32(val) == val;
    assert e > 0 ==> val * (SignOf(val) * SignOf(e)) == Gap(pred, d, j);
    assert e < 0 ==> val * (SignOf(val) * SignOf(e)) == -(Gap(pred, d, j) as int);
  }

  lemma LeftWraps(sign: int, left: int, part: nat, n: nat)
    requires sign == 1 || sign == -1
    ensures U32(U32(sign * left) - sign * part * n) == U32(sign * (left - n * part))
  {
    var x, y := sign * left, sign * part * n;
    assert sign * (left - n * part) == x - y;
    SumWraps(x, -y, -y, 0);
    assert U32(x) - y == U32(x) + -y;
  }

  // One turn of the loop, in numbers that do not wrap.
  lemma TurnLearns(pred: seq<i32>, d: int, j: nat, e: int, quant: nat)
    requires j < |pred| <= 30 && e != 0 && Gap(pred, d, j) < 0x400_0000
    ensures var val, sign := S32(d - pred[j]), SignOf(e);
            var s := SignOf(val) * sign;
            && s == (if pred[j] == d then 0 else if (pred[j] > d) == (e > 0) then -1 else 1)
            && U32(U32(sign * Left(pred, d, e, quant, j)) - Asr(S32(val * s), quant) * (j + 1))
               == U32(sign * Left(pred, d, e, quant, j + 1))
    ensures Left(pred, d, e, quant, j) - 0x7800_0000 <= Left(pred, d, e, quant, j + 1) <= Left(pred, d, e, quant, j)
  {
    hide Pow2, Part, Asr, U32, S32, SignOf;
    var gap := Gap(pred, d, j);
    var part := Part(gap, e, quant);
    ShiftIsPart(gap, e, quant);
    PartBound(gap, e, quant);
    SignedGap(pred, d, j, e);
    assert SignOf(e) == 1 || SignOf(e) == -1 by { SignIs(e); }
    LeftWraps(SignOf(e), Left(pred, d, e, quant, j), part, j + 1);
    Product(j + 1, part);
  }

  lemma SignIs(e: int)
    ensures SignOf(e) == if e > 0 then 1 else if e < 0 then -1 else 0
  {}

  lemma Product(n: nat, part: nat)
    requires n <= 30 && part < 0x400_0000
    ensures 0 <= n * part <= 0x7800_0000
  {
    MulLe(n, 30, part);
  }

  // From the j-th weight on the loop moves each one while something of the
  // residual is left.
  lemma {:induction false} AdaptedLearns(pred: seq<i32>, coefs: seq<i16>, d: int, j: nat, e: int, quant: nat)
      returns (n: nat)
    requires j <= |pred| == |coefs| <= 30 && e != 0
    requires forall k :: 0 <= k < |pred| ==> Gap(pred, d, k) < 0x400_0000
    requires -0x7800_0000 <= Left(pred, d, e, quant, j) < 0x8000_0000
    ensures j <= n <= |pred| && (n < |pred| ==> Left(pred, d, e, quant, n) <= 0)
    ensures forall k :: j <= k < n ==> Left(pred, d, e, quant, k) > 0
    ensures var c := Adapted(pred, coefs, d, j, U32(SignOf(e) * Left(pred, d, e, quant, j)), SignOf(e), quant);
            && (forall k :: j <= k < n ==> Learned(coefs[k], c[k], pred[k], d, e))
            && (forall k :: 0 <= k < |c| && (k < j || n <= k) ==> c[k] == coefs[k])
    decreases |pred| - j
  {
    hide Left, Gap, Asr, U32, S32, S16, SignOf, Adapted;
    var sign, left := SignOf(e), Left(pred, d, e, quant, j);
    var err := U32(sign * left);
    StillLeft(left, e);
    AdaptedStep(pred, coefs, d, j, err, sign, quant);
    n := j;
    if j < |pred| && left > 0 {
      TurnLearns(pred, d, j, e, quant);
      var s := SignOf(S32(d - pred[j])) * sign;
      var next := coefs[j := S16(coefs[j] - s)];
      n := AdaptedLearns(pred, next, d, j + 1, e, quant);
    }
  }

  lemma AdaptedStep(pred: seq<i32>, coefs: seq<i16>, d: int, j: nat, err: u32, sign: int, quant: nat)
    requires j <= |pred| == |coefs|
    ensures Adapted(pred, coefs, d, j, err, sign, quant)
            == if j < |pred| && S32(err * sign) > 0 then
                 var val := S32(d - pred[j]);
                 var s := SignOf(val) * sign;
                 Adapted(pred, coefs[j := S16(coefs[j] - s)], d, j + 1,
                         U32(err - Asr(S32(val * s), quant) * (j + 1)), sign, quant)
               else coefs
  {
    hide S32, U32, S16, SignOf, Asr;
  }

  // A residual that is not zero moves the first n weights of the window and
  // no other: those before which something of it is left.
  lemma WeightsLearn(out: seq<i32>, coefs: seq<i16>, e: i32, order: nat, quant: nat) returns (n: nat)
    requires 1 <= order < 31 && |coefs| == order < |out| && -0x8000_0000 < e && e != 0
    requires var pred, d := out[|out| - order..], out[|out| - order - 1];
             forall k :: 0 <= k < order ==> Gap(pred, d, k) < 0x400_0000
    ensures n <= order
    ensures var pred, d, c := out[|out| - order..], out[|out| - order - 1], NextCoefs(out, coefs, e, order, quant);
            && (forall k :: 0 <= k < n ==> Learned(coefs[k], c[k], pred[k], d, e) && Left(pred, d, e, quant, k) > 0)
            && (forall k :: n <= k < order ==> c[k] == coefs[k])
            && (n < order ==> Left(pred, d, e, quant, n) <= 0)
  {
    hide Gap, U32, Adapted, Learned, NextCoefs, Left;
    var pred, d := out[|out| - order..], out[|out| - order - 1];
    assert Left(pred, d, e, quant, 0) == SignOf(e) * e by { AllLeft(pred, d, e, quant); }
    SignIs(e);
    n := AdaptedLearns(pred, coefs, d, 0, e, quant);
    NextCoefsAre(out, coefs, e, order, quant);
  }

  lemma AllLeft(pred: seq<i32>, d: int, e: int, quant: nat)
    ensures Left(pred, d, e, quant, 0) == SignOf(e) * e
  {}

  lemma NextCoefsAre(out: seq<i32>, coefs: seq<i16>, e: i32, order: nat, quant: nat)
    requires 1 <= order < 31 && |coefs| == order < |out| && e != 0
    ensures NextCoefs(out, coefs, e, order, quant)
            == Adapted(out[|out| - order..], coefs, out[|out| - order - 1], 0, U32(e), SignOf(e), quant)
  {
    hide Adapted, U32;
  }

  // ---- where it leads ----

  // The gaps of the first n samples.
  function Gaps(pred: seq<i32>, d: int, n: nat): nat
    requires n <= |pred|
  {
    if n == 0 then 0 else Gaps(pred, d, n - 1) + Gap(pred, d, n - 1)
  }

  // Weights so moved weigh the same samples the moved samples' gaps apart,
  // on the residual's side.
  lemma {:induction false} LearnedSum(pred: seq<i32>, c: seq<i16>, c': seq<i16>, d: int, e: int, n: nat, j: nat)
    requires |c| == |c'| == |pred| && n <= |pred| && j <= |pred| && e != 0
    requires forall k :: 0 <= k < n ==> Learned(c[k], c'[k], pred[k], d, e) && -0x8000 < c[k] < 0x7fff
    requires forall k :: n <= k < |c| ==> c'[k] == c[k]
    ensures Weighted(pred, c', d, j)
            == Weighted(pred, c, d, j) + (if e > 0 then 1 else -1) * Gaps(pred, d, if j < n then j else n)
  {
    hide Learned, Gap;
    if j > 0 {
      LearnedSum(pred, c, c', d, e, n, j - 1);
      if j - 1 < n { LearnedProduct(c[j - 1], c'[j - 1], pred, d, e, j - 1); }
    }
  }

  lemma LearnedProduct(c: i16, c': i16, pred: seq<i32>, d: int, e: int, j: nat)
    requires j < |pred| && e != 0 && Learned(c, c', pred[j], d, e) && -0x8000 < c < 0x7fff
    ensures (pred[j] - d) * c' == (pred[j] - d) * c + (if e > 0 then 1 else -1) * Gap(pred, d, j)
  {
    var x: int := pred[j] - d;
    var m := if x == 0 then 0 else if (x > 0) == (e > 0) then 1 else -1;
    assert c' as int == c + m;
    MulDistribute(c, m, x);
    assert m * x == (if e > 0 then 1 else -1) * Gap(pred, d, j);
  }

  lemma ShiftMonotone(x: int, y: int, p: nat)
    requires x <= y && p > 0
    ensures x / p <= y / p
  {
    QuotientBounds(y, p, x / p);
    assert x == x / p * p + x % p;
  }

  // So after a residual the same samples are guessed no further from what
  // came: no lower where it was above the guess, no higher where below.
  lemma GuessLearns(out: seq<i32>, coefs: seq<i16>, e: i32, order: nat, quant: nat)
    requires 1 <= order < 31 && |coefs| == order < |out| && -0x8000_0000 < e && e != 0 && quant >= 1
    requires forall k :: 0 <= k < order ==> -0x8000 < coefs[k] < 0x7fff
    requires var pred, d, c := out[|out| - order..], out[|out| - order - 1], NextCoefs(out, coefs, e, order, quant);
             && (forall k :: 0 <= k < order ==> Gap(pred, d, k) < 0x400_0000)
             && -0x8000_0000 <= Weighted(pred, coefs, d, order) < 0x8000_0000
             && -0x8000_0000 <= Weighted(pred, c, d, order) < 0x8000_0000
    ensures var g, g' := Guess(out, coefs, order, quant),
                         Guess(out, NextCoefs(out, coefs, e, order, quant), order, quant);
            if e > 0 then g <= g' else g' <= g
  {
    hide NextCoefs, Pow2, Learned, Gap, Left, Weighted, Guess, Gaps;
    var pred, d, c := out[|out| - order..], out[|out| - order - 1], NextCoefs(out, coefs, e, order, quant);
    var n := WeightsLearn(out, coefs, e, order, quant);
    LearnedSum(pred, coefs, c, d, e, n, order);
    if e > 0 { GuessFollows(out, coefs, c, order, quant); } else { GuessFollows(out, c, coefs, order, quant); }
  }

  // A greater sum gives no lower a guess.
  lemma GuessFollows(out: seq<i32>, c: seq<i16>, c': seq<i16>, order: nat, quant: nat)
    requires 1 <= order < 31 && |c| == |c'| == order < |out| && quant >= 1
    requires var pred, d := out[|out| - order..], out[|out| - order - 1];
             -0x8000_0000 <= Weighted(pred, c, d, order) <= Weighted(pred, c', d, order) < 0x8000_0000
    ensures Guess(out, c, order, quant) <= Guess(out, c', order, quant)
  {
    hide Pow2, Weighted, Guess, Asr;
    var pred, d := out[|out| - order..], out[|out| - order - 1];
    GuessIs(out, c, order, quant);
    GuessIs(out, c', order, quant);
    ShiftMonotone(Weighted(pred, c, d, order) + Pow2(quant - 1), Weighted(pred, c', d, order) + Pow2(quant - 1),
                  Pow2(quant));
  }

  lemma GuessIs(out: seq<i32>, c: seq<i16>, order: nat, quant: nat)
    requires 1 <= order < 31 && |c| == order < |out| && quant >= 1
    requires -0x8000_0000 <= Weighted(out[|out| - order..], c, out[|out| - order - 1], order) < 0x8000_0000
    ensures var d := out[|out| - order - 1];
            Guess(out, c, order, quant)
            == (Weighted(out[|out| - order..], c, d, order) + Pow2(quant - 1)) / Pow2(quant) + d
  {
    hide Pow2, Weighted, Acc;
    AccIsWeighted(out[|out| - order..], c, out[|out| - order - 1], order);
    WithinWord(Weighted(out[|out| - order..], c, out[|out| - order - 1], order));
  }

  lemma WithinWord(x: int)
    requires -0x8000_0000 <= x < 0x8000_0000
    ensures S32(U32(x)) == x
  {}
}
