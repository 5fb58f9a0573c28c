// The adaptive Rice code of src/common/audio_alac.c: each residual is a
// unary quotient and a short remainder whose width follows a history of the
// values; a small history announces a run of zeros.

module AlacRice {
  import opened Bits
  import opened Ints

  function Log2u(v: nat): nat {
    if v < 2 then 0 else 1 + Log2u(v / 2)
  }

  lemma {:induction false} Log2uBound(v: nat, k: nat)
    requires v < Pow2(k + 1)
    ensures Log2u(v) <= k
    decreases k
  {
    assert Pow2(1) == 2;
    if v >= 2 { Log2uBound(v / 2, k - 1); }
  }

  lemma {:induction false} Log2uMonotone(v: nat, w: nat)
    requires v <= w
    ensures Log2u(v) <= Log2u(w)
    decreases w
  {
    if w >= 2 && v >= 2 { Log2uMonotone(v / 2, w / 2); }
  }

  // ---- one code ----

  // The ones at pos, counted up from x to at most 9.
  function Ones(s: seq<bit>, pos: nat, x: nat): (r: nat)
    requires x <= 9
    ensures x <= r <= 9
    decreases 9 - x
  {
    if x < 9 && BitAt(s, pos) == 1 then Ones(s, pos + 1, x + 1) else x
  }

  datatype Code = Code(value: nat, pos: nat)

  // The shift and subtract multiply by 2^k - 1, and within 32 bits.
  lemma ScaledBase(x: nat, k: nat)
    ensures Shl(x, k) - x == x * (Pow2(k) - 1) >= 0
  {
    MulNonneg(x, Pow2(k) - 1);
    MulDistribute(Pow2(k) - 1, 1, x);
  }

  lemma ScaledBound(x: nat, k: nat)
    requires x <= 8 && 1 <= k <= 23
    ensures x <= Shl(x, k) <= 0x400_0000 && Pow2(k) <= 0x80_0000
  {
    Pow2Monotone(k, 23);
    Pow2At23();
    MulLe(x, 8, Pow2(k));
    ScaledBase(x, k);
  }

  lemma Pow2At23()
    ensures Pow2(23) == 0x80_0000
  {
    Pow2Small();
    Pow2Add(8, 8);
    Pow2Add(16, 7);
  }

  // The remainder after a quotient of x: k bits, of which 0 and 1 stand for
  // nothing and give the last bit back.
  function Remainder(s: seq<bit>, pos: nat, x: nat, k: nat): (c: Code)
    requires k >= 1
  {
    if k == 1 then Code(x, pos)
    else
      ScaledBase(x, k);
      var extra := Window(s, pos, k);
      var base := Shl(x, k) - x;
      if extra > 1 then Code(base + extra - 1, pos + k) else Code(base, pos + k - 1)
  }

  // What a code at pos means, and where it ends: the quotient by 2^k - 1 in
  // ones, ended by a zero, then the remainder; nine ones escape to bps plain
  // bits.
  function Scalar(s: seq<bit>, pos: nat, k: nat, bps: nat): (c: Code)
    requires k >= 1
  {
    var x := Ones(s, pos, 0);
    if x > 8 then Code(Window(s, pos + 9, bps), pos + 9 + bps) else Remainder(s, pos + x + 1, x, k)
  }

  function Repeat(b: bit, n: nat): (r: seq<bit>)
    ensures |r| == n && forall i :: 0 <= i < n ==> r[i] == b
  {
    seq(n, _ => b)
  }

  // The remainder's bits.
  function Tail(r: nat, k: nat): seq<bit>
    requires k >= 1
  {
    if k == 1 then [] else if r == 0 then Repeat(0, k - 1) else ToBits(r + 1, k)
  }

  // A quotient and a remainder, or the escape.
  function PartsCode(q: nat, r: nat, v: nat, k: nat, bps: nat): (e: seq<bit>)
    requires k >= 1
    ensures |e| >= 1
  {
    if q > 8 then Repeat(1, 9) + ToBits(v, bps) else Repeat(1, q) + [0] + Tail(r, k)
  }

  // The code of v.
  function ScalarCode(v: nat, k: nat, bps: nat): (e: seq<bit>)
    requires k >= 1
    ensures |e| >= 1
  {
    var d := Pow2(k) - 1;
    assert d >= 1;
    PartsCode(v / d, v % d, v, k, bps)
  }

  lemma PartsOf(v: nat, k: nat)
    requires k >= 1
    ensures var d := Pow2(k) - 1;
            d >= 1 && v % d < d && v == Shl(v / d, k) - v / d + v % d
  {
    var d := Pow2(k) - 1;
    ScaledBase(v / d, k);
    assert v == (v / d) * d + v % d;
  }

  lemma {:induction false} OnesOfRepeat(s: seq<bit>, pos: nat, x: nat, q: nat)
    requires x + q <= 9
    requires At(s, pos, Repeat(1, q))
    requires x + q == 9 || BitAt(s, pos + q) == 0
    ensures Ones(s, pos, x) == x + q
    decreases q
  {
    if q > 0 {
      var e := Repeat(1, q);
      assert s[pos] == s[pos..pos + q][0] == e[0] == 1;
      assert Repeat(1, q) == [1] + Repeat(1, q - 1);
      AtConcat(s, pos, [1], Repeat(1, q - 1));
      OnesOfRepeat(s, pos + 1, x + 1, q - 1);
    }
  }

  lemma {:induction false} WindowOfZeros(s: seq<bit>, pos: nat, k: nat)
    requires At(s, pos, Repeat(0, k))
    ensures Window(s, pos, k) == 0
  {
    if k > 0 {
      assert Repeat(0, k) == Repeat(0, k - 1) + [0];
      AtConcat(s, pos, Repeat(0, k - 1), [0]);
      WindowOfZeros(s, pos, k - 1);
      assert s[pos + k - 1] == s[pos + k - 1..pos + k - 1 + 1][0];
    }
  }

  lemma RemainderOfTail(s: seq<bit>, pos: nat, x: nat, r: nat, k: nat)
    requires k >= 1 && r < Pow2(k) - 1
    requires At(s, pos, Tail(r, k))
    ensures Remainder(s, pos, x, k) == Code(Shl(x, k) - x + r, pos + |Tail(r, k)|)
  {
    hide Shl;
    ScaledBase(x, k);
    if k == 1 {
      assert Pow2(1) == 2;
    } else if r == 0 {
      WindowOfZeros(s, pos, k - 1);
    } else {
      WindowOfToBits(s, pos, r + 1, k);
    }
  }

  lemma EscapeRead(s: seq<bit>, pos: nat, v: nat, k: nat, bps: nat)
    requires k >= 1 && v < Pow2(bps)
    requires At(s, pos, Repeat(1, 9) + ToBits(v, bps))
    ensures Scalar(s, pos, k, bps) == Code(v, pos + 9 + bps)
  {
    hide At, Window, ToBits, Pow2, Remainder, Repeat;
    AtConcat(s, pos, Repeat(1, 9), ToBits(v, bps));
    OnesOfRepeat(s, pos, 0, 9);
    WindowOfToBits(s, pos + 9, v, bps);
  }

  // Either form of a code is read back.
  lemma PartsRead(s: seq<bit>, pos: nat, q: nat, r: nat, v: nat, k: nat, bps: nat)
    requires k >= 1 && r < Pow2(k) - 1 && v < Pow2(bps) && v == Shl(q, k) - q + r
    requires At(s, pos, PartsCode(q, r, v, k, bps))
    ensures Scalar(s, pos, k, bps) == Code(v, pos + |PartsCode(q, r, v, k, bps)|)
  {
    hide At, Shl, Window, ToBits, Pow2, Tail, Remainder, Repeat;
    if q > 8 {
      EscapeRead(s, pos, v, k, bps);
    } else {
      AtConcat(s, pos, Repeat(1, q) + [0], Tail(r, k));
      AtConcat(s, pos, Repeat(1, q), [0]);
      AtBit(s, pos + q, 0);
      OnesOfRepeat(s, pos, 0, q);
      RemainderOfTail(s, pos + q + 1, q, r, k);
    }
  }

  lemma AtBit(s: seq<bit>, pos: nat, b: bit)
    requires At(s, pos, [b])
    ensures BitAt(s, pos) == b
  {
    assert s[pos] == s[pos..pos + 1][0];
  }

  // Every code is read back, whatever bits follow it.
  lemma ScalarInvertsCode(s: seq<bit>, pos: nat, v: nat, k: nat, bps: nat)
    requires k >= 1 && v < Pow2(bps)
    requires At(s, pos, ScalarCode(v, k, bps))
    ensures Scalar(s, pos, k, bps) == Code(v, pos + |ScalarCode(v, k, bps)|)
  {
    hide Shl, At, Scalar, PartsCode;
    PartsOf(v, k);
    var d := Pow2(k) - 1;
    PartsRead(s, pos, v / d, v % d, v, k, bps);
  }

  // Two codes of the same width that begin at one place are the same code.
  lemma ScalarCodePrefixFree(v: nat, w: nat, k: nat, bps: nat, s: seq<bit>, pos: nat)
    requires k >= 1 && v < Pow2(bps) && w < Pow2(bps)
    requires At(s, pos, ScalarCode(v, k, bps)) && At(s, pos, ScalarCode(w, k, bps))
    ensures v == w
  {
    ScalarInvertsCode(s, pos, v, k, bps);
    ScalarInvertsCode(s, pos, w, k, bps);
  }

  // ---- the adaptation ----

  function Min(a: nat, b: nat): nat {
    if a < b then a else b
  }

  // The remainder's width for a value.
  function ValueWidth(history: u32, kb: nat): nat {
    Min(Log2u(history / 512 + 3), kb)
  }

  // The remainder's width for a run's length.
  function RunWidth(history: nat, kb: nat): (k: nat)
    requires history < 128
  {
    assert Log2u(history) <= 6 by { Pow2Small(); Log2uBound(history, 6); }
    Min(7 - Log2u(history) + (history + 16) / 64, kb)
  }

  function NextHistory(history: u32, x: u32, mult: nat): u32 {
    if x > 0xffff then 0xffff
    else U32(history + x * mult - U32(history * mult) / 512)
  }

  lemma Log2uSmall()
    ensures Log2u(3) == 1 && Log2u(32) == 5 && Log2u(64) == 6
  {
    assert Log2u(8) == 3;
    assert Log2u(32) == 2 + Log2u(8);
    assert Log2u(64) == 1 + Log2u(32);
  }

  lemma RunWidthBounds(history: nat, kb: nat)
    requires kb >= 1 && history < 128
    ensures 1 <= RunWidth(history, kb) <= 7
  {
    hide Log2u, Pow2;
    Log2uSmall();
    Pow2Small();
    Log2uBound(history, 6);
    if history >= 64 {
      Log2uMonotone(64, history);
    } else if history >= 48 {
      Log2uBound(history, 5);
      Log2uMonotone(32, history);
    } else if history >= 32 {
      Log2uBound(history, 5);
    }
  }

  // Widths stay between 1 and 23 whatever the 32 bits of the history hold.
  lemma WidthBounds(history: u32, kb: nat)
    requires kb >= 1
    ensures 1 <= ValueWidth(history, kb) <= 23
    ensures history < 128 ==> 1 <= RunWidth(history, kb) <= 7
  {
    hide Log2u, Pow2, RunWidth;
    Log2uSmall();
    Log2uMonotone(3, history / 512 + 3);
    assert Pow2(24) == 0x100_0000 by { Pow2Small(); Pow2Add(8, 8); Pow2Add(16, 8); }
    Log2uBound(history / 512 + 3, 23);
    if history < 128 { RunWidthBounds(history, kb); }
  }

  // ---- a channel's residual ----

  // The zigzag number of a residual, and back: x ^ -(x & 1) complements.
  function Zigzag(v: int): nat {
    if v >= 0 then 2 * v else -2 * v - 1
  }

  function Unzigzag(x: u32): i32 {
    if x % 2 == 0 then x / 2 else -1 - x / 2
  }

  // One turn of the decoder's loop: the residuals it yields, where the next
  // code begins, and the state it leaves.
  datatype Chunk = Chunk(vals: seq<i32>, pos: nat, history: u32, sign: bit)

  // The turn at pos with n residuals still to come.
  function Turn(s: seq<bit>, pos: nat, n: nat, bps: nat, mult: nat, kb: nat, history: u32, sign: bit): (t: Chunk)
    requires kb >= 1 && n >= 1
    ensures 1 <= |t.vals| <= n
  {
    WidthBounds(history, kb);
    var c := Scalar(s, pos, ValueWidth(history, kb), bps);
    var x := U32(c.value + sign);
    var h := NextHistory(history, x, mult);
    if h < 128 && n > 1 then
      WidthBounds(h, kb);
      var z := Scalar(s, c.pos, RunWidth(h, kb), 16);
      var block := Min(z.value, n - 1);
      Chunk([Unzigzag(x)] + Zeros(block), z.pos, 0, if block <= 0xffff then 1 else 0)
    else
      Chunk([Unzigzag(x)], c.pos, h, 0)
  }

  datatype Residual = Residual(vals: seq<i32>, pos: nat)

  // n residuals at pos: what rice_decompress yields from a point of its loop
  // on, None where the bits run out.
  function Decoded(s: seq<bit>, pos: nat, n: nat, bps: nat, mult: nat, kb: nat, history: u32, sign: bit):
    (r: Option<Residual>)
    requires kb >= 1
    ensures r.Some? ==> |r.value.vals| == n
    decreases n
  {
    if n == 0 then Some(Residual([], pos))
    else if pos >= |s| then None
    else
      var t := Turn(s, pos, n, bps, mult, kb, history, sign);
      Prepend(t.vals, Decoded(s, t.pos, n - |t.vals|, bps, mult, kb, t.history, t.sign))
  }

  function Prepend(vals: seq<i32>, r: Option<Residual>): Option<Residual> {
    if r.None? then None else Some(Residual(vals + r.value.vals, r.value.pos))
  }

  // How many zeros begin vals.
  function Run(vals: seq<i32>): (r: nat)
    ensures r <= |vals|
    ensures forall i :: 0 <= i < r ==> vals[i] == 0
    ensures r < |vals| ==> vals[r] != 0
  {
    if vals == [] || vals[0] != 0 then 0 else
      var r := 1 + Run(vals[1..]);
      assert forall i :: 1 <= i < r ==> vals[i] == vals[1..][i - 1];
      r
  }

  // Residuals of bps bits, the first not zero after a run.
  ghost predicate Codable(vals: seq<i32>, bps: nat, sign: bit) {
    && bps <= 32
    && |vals| <= 65536
    && (forall v :: v in vals ==> Fits(v, bps))
    && (sign == 1 && vals != [] ==> vals[0] != 0)
  }

  // What the encoder writes for one turn, and the state it leaves.
  datatype Written = Written(bits: seq<bit>, run: nat, history: u32, sign: bit)

  ghost function WriteTurn(vals: seq<i32>, bps: nat, mult: nat, kb: nat, history: u32, sign: bit): (w: Written)
    requires kb >= 1 && vals != []
    requires Codable(vals, bps, sign)
    ensures w.run < |vals| && |w.bits| >= 1
  {
    WidthBounds(history, kb);
    CodableRange(vals, bps, sign);
    var x := Zigzag(vals[0]);
    var code := ScalarCode(x - sign, ValueWidth(history, kb), bps);
    var h := NextHistory(history, x, mult);
    if h < 128 && |vals| > 1 then
      WidthBounds(h, kb);
      var run := Run(vals[1..]);
      Written(code + ScalarCode(run, RunWidth(h, kb), 16), run, 0, 1)
    else
      Written(code, 0, h, 0)
  }

  // The encoder: it keeps the history the decoder will have.
  ghost function Encoded(vals: seq<i32>, bps: nat, mult: nat, kb: nat, history: u32, sign: bit): seq<bit>
    requires kb >= 1
    requires Codable(vals, bps, sign)
    decreases |vals|
  {
    if vals == [] then []
    else
      var w := WriteTurn(vals, bps, mult, kb, history, sign);
      CodableAfter(vals, bps, mult, kb, history, sign);
      w.bits + Encoded(vals[1 + w.run..], bps, mult, kb, w.history, w.sign)
  }

  lemma ZigzagRange(v: int, bps: nat)
    requires bps <= 32 && Fits(v, bps)
    ensures Zigzag(v) < Pow2(bps) <= TWO32
    ensures Unzigzag(Zigzag(v)) == v
  {
    hide Pow2;
    Pow2Within32(bps);
    if v < 0 { assert Zigzag(v) == 2 * (-v - 1) + 1; }
  }

  lemma CodableRange(vals: seq<i32>, bps: nat, sign: bit)
    requires Codable(vals, bps, sign) && vals != []
    ensures sign <= Zigzag(vals[0]) < Pow2(bps) <= TWO32
    ensures Unzigzag(Zigzag(vals[0])) == vals[0]
  {
    hide Pow2, Fits, Unzigzag;
    assert vals[0] in vals;
    ZigzagRange(vals[0], bps);
  }

  // A run is as long as it can be, so what follows it is not zero.
  lemma CodableAfter(vals: seq<i32>, bps: nat, mult: nat, kb: nat, history: u32, sign: bit)
    requires kb >= 1 && Codable(vals, bps, sign) && vals != []
    ensures var w := WriteTurn(vals, bps, mult, kb, history, sign);
            Codable(vals[1 + w.run..], bps, w.sign)
  {
    hide NextHistory, ValueWidth, RunWidth, ScalarCode, Fits;
    var w := WriteTurn(vals, bps, mult, kb, history, sign);
    var rest := vals[1 + w.run..];
    assert forall v :: v in rest ==> v in vals;
    if w.sign == 1 && rest != [] {
      assert rest[0] == vals[1..][w.run];
    }
  }

  // What a turn writes, the decoder's turn reads back.
  lemma TurnInvertsWrite(s: seq<bit>, pos: nat, vals: seq<i32>, bps: nat, mult: nat, kb: nat, history: u32, sign: bit)
    requires kb >= 1 && Codable(vals, bps, sign) && vals != []
    requires At(s, pos, WriteTurn(vals, bps, mult, kb, history, sign).bits)
    ensures var w := WriteTurn(vals, bps, mult, kb, history, sign);
            Turn(s, pos, |vals|, bps, mult, kb, history, sign)
            == Chunk([vals[0]] + Zeros(w.run), pos + |w.bits|, w.history, w.sign)
  {
    hide At, Scalar, ScalarCode, NextHistory, ValueWidth, RunWidth, Pow2, Zigzag, Unzigzag;
    WidthBounds(history, kb);
    CodableRange(vals, bps, sign);
    var x := Zigzag(vals[0]);
    var code := ScalarCode(x - sign, ValueWidth(history, kb), bps);
    var h := NextHistory(history, x, mult);
    if h < 128 && |vals| > 1 {
      WidthBounds(h, kb);
      var run := Run(vals[1..]);
      AtConcat(s, pos, code, ScalarCode(run, RunWidth(h, kb), 16));
      ScalarInvertsCode(s, pos, x - sign, ValueWidth(history, kb), bps);
      Pow2Large();
      ScalarInvertsCode(s, pos + |code|, run, RunWidth(h, kb), 16);
    } else {
      ScalarInvertsCode(s, pos, x - sign, ValueWidth(history, kb), bps);
      assert [vals[0]] + Zeros(0) == [vals[0]];
    }
  }

  lemma RunSplits(vals: seq<i32>, bps: nat, mult: nat, kb: nat, history: u32, sign: bit)
    requires kb >= 1 && Codable(vals, bps, sign) && vals != []
    ensures var run := WriteTurn(vals, bps, mult, kb, history, sign).run;
            vals == [vals[0]] + Zeros(run) + vals[1 + run..]
  {
    hide NextHistory, ValueWidth, RunWidth, ScalarCode, Codable;
    var run := WriteTurn(vals, bps, mult, kb, history, sign).run;
    assert forall i :: 0 <= i < run ==> vals[1 + i] == vals[1..][i] == 0;
  }

  // Decoding inverts encoding: from the same history, with any bits after.
  lemma {:induction false} DecodedInvertsEncoded(s: seq<bit>, pos: nat, vals: seq<i32>,
      bps: nat, mult: nat, kb: nat, history: u32, sign: bit)
    requires kb >= 1 && Codable(vals, bps, sign)
    requires At(s, pos, Encoded(vals, bps, mult, kb, history, sign))
    ensures Decoded(s, pos, |vals|, bps, mult, kb, history, sign)
         == Some(Residual(vals, pos + |Encoded(vals, bps, mult, kb, history, sign)|))
    decreases |vals|
  {
    hide At, Turn, WriteTurn, Codable;
    if vals != [] {
      var w := WriteTurn(vals, bps, mult, kb, history, sign);
      CodableAfter(vals, bps, mult, kb, history, sign);
      var rest := vals[1 + w.run..];
      var more := Encoded(rest, bps, mult, kb, w.history, w.sign);
      AtConcat(s, pos, w.bits, more);
      AtNonempty(s, pos, w.bits);
      TurnInvertsWrite(s, pos, vals, bps, mult, kb, history, sign);
      RunSplits(vals, bps, mult, kb, history, sign);
      DecodedInvertsEncoded(s, pos + |w.bits|, rest, bps, mult, kb, w.history, w.sign);
    }
  }

  lemma AtNonempty(s: seq<bit>, pos: nat, e: seq<bit>)
    requires At(s, pos, e) && |e| >= 1
    ensures pos < |s|
  {}

  // ---- the code ----

  method Unary(b: Reader) returns (x: nat)
    modifies b`pos
    ensures x == Ones(b.Stream(), old(b.pos), 0)
    ensures b.pos == old(b.pos) + x + if x < 9 then 1 else 0
  {
    x := 0;
    while x < 9
      invariant x <= 9 && b.pos == old(b.pos) + x
      invariant Ones(b.Stream(), old(b.pos), 0) == Ones(b.Stream(), b.pos, x)
    {
      var one := b.Bits(1);
      assert one == BitAt(b.Stream(), old(b.pos) + x);
      if one == 0 {
        break;
      }
      x := x + 1;
    }
  }

  method DecodeScalar(b: Reader, k: nat, bps: nat) returns (x: nat)
    requires 1 <= k <= 23 && bps <= 32
    modifies b`pos
    ensures Code(x, b.pos) == Scalar(b.Stream(), old(b.pos), k, bps)
    ensures x < TWO32
  {
    hide Shl, Window, Pow2, Ones;
    x := Unary(b);
    if x > 8 {
      assert Pow2(bps) <= TWO32 by { Pow2Within32(bps); }
      x := b.Bits(bps);
    } else if k != 1 {
      var extra := b.PeekTop(k);
      ScaledBound(x, k);
      x := Shl(x, k) - x;
      if extra > 1 {
        x := x + extra - 1;
        b.pos := b.pos + k;
      } else {
        b.pos := b.pos + (k - 1);
      }
    }
  }

  // One turn of the loop, the residuals written at out[i..].
  method DecodeTurn(b: Reader, out: array<i32>, i: nat, n: nat, bps: nat, mult: nat, kb: nat, history0: u32, sign0: bit)
    returns (i': nat, history: u32, sign: bit)
    requires i < n <= out.Length && bps <= 32 && kb >= 1
    modifies b`pos, out
    ensures i < i' <= n
    ensures Turn(b.Stream(), old(b.pos), n - i, bps, mult, kb, history0, sign0)
         == Chunk(out[i..i'], b.pos, history, sign)
    ensures out[..i] == old(out[..i]) && out[n..] == old(out[n..])
  {
    hide Scalar, NextHistory, ValueWidth, RunWidth, Pow2, Window, Unzigzag, Unpack;
    WidthBounds(history0, kb);
    var x := DecodeScalar(b, ValueWidth(history0, kb), bps);
    x := U32(x + sign0);
    sign := 0;
    out[i] := Unzigzag(x);
    history := NextHistory(history0, x, mult);
    i' := i;
    if history < 128 && i + 1 < n {
      WidthBounds(history, kb);
      var block := DecodeScalar(b, RunWidth(history, kb), 16);
      if block > 0 {
        if block >= n - i {
          block := n - i - 1;
        }
        forall j | i + 1 <= j < i + 1 + block {
          out[j] := 0;
        }
        i' := i + block;
      }
      if block <= 0xffff {
        sign := 1;
      }
      history := 0;
    }
    i' := i' + 1;
    ghost var block := i' - i - 1;
    assert out[i] == Unzigzag(x) && forall j :: i < j < i' ==> out[j] == 0;
    assert out[i..i'] == [Unzigzag(x)] + Zeros(block);
    assert block == 0 ==> out[i..i'] == [Unzigzag(x)];
  }

  // n residuals into out; false where the bits run out.
  method RiceDecompress(b: Reader, out: array<i32>, n: nat, bps: nat, mult: nat, mb: nat, kb: nat)
    returns (ok: bool)
    requires n <= out.Length && bps <= 32 && kb >= 1 && mb < TWO32
    modifies b`pos, out
    ensures var r := Decoded(b.Stream(), old(b.pos), n, bps, mult, kb, mb, 0);
            ok == r.Some? && (ok ==> r.value == Residual(out[..n], b.pos))
    ensures out[n..] == old(out[n..])
  {
    hide Turn, Window;
    var history: u32, sign: bit := mb, 0;
    var i := 0;
    ghost var goal := Decoded(b.Stream(), b.pos, n, bps, mult, kb, mb, 0);
    PrependNone(goal);
    while i < n
      invariant 0 <= i <= n
      invariant goal == Prepend(out[..i], Decoded(b.Stream(), b.pos, n - i, bps, mult, kb, history, sign))
      invariant out[n..] == old(out[n..])
    {
      if b.Left() == 0 {
        return false;
      }
      ghost var done, from := out[..i], i;
      i, history, sign := DecodeTurn(b, out, i, n, bps, mult, kb, history, sign);
      assert out[..i] == done + out[from..i];
      PrependTwice(done, out[from..i], Decoded(b.Stream(), b.pos, n - i, bps, mult, kb, history, sign));
    }
    ok := true;
  }

  lemma PrependNone(r: Option<Residual>)
    ensures Prepend([], r) == r
  {
    if r.Some? { assert [] + r.value.vals == r.value.vals; }
  }

  lemma PrependTwice(a: seq<i32>, c: seq<i32>, r: Option<Residual>)
    ensures Prepend(a, Prepend(c, r)) == Prepend(a + c, r)
  {
    if r.Some? { assert a + (c + r.value.vals) == a + c + r.value.vals; }
  }
}
