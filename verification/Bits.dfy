// The bit reader of src/common/audio_aac.h: bytes read most significant bit
// first through a 32-bit window, with zeros past the end.

module Bits {
  type bit = x: int | 0 <= x < 2 witness 0
  type byte = x: int | 0 <= x < 256 witness 0

  const TWO32: int := 0x1_0000_0000
  const TWO64: int := 0x1_0000_0000_0000_0000

  function Pow2(n: nat): (r: nat)
    ensures r >= 1
  {
    if n == 0 then 1 else 2 * Pow2(n - 1)
  }

  lemma {:induction false} Pow2Add(m: nat, n: nat)
    ensures Pow2(m + n) == Pow2(m) * Pow2(n)
  {
    if m == 0 {
    } else {
      Pow2Add(m - 1, n);
      assert Pow2(m - 1 + n) == Pow2(m - 1) * Pow2(n);
      assert 2 * (Pow2(m - 1) * Pow2(n)) == (2 * Pow2(m - 1)) * Pow2(n);
    }
  }

  lemma {:induction false} Pow2Monotone(m: nat, n: nat)
    requires m <= n
    ensures Pow2(m) <= Pow2(n)
    decreases n - m
  {
    if m < n { Pow2Monotone(m + 1, n); }
  }

  // Quotient and remainder are unique.
  lemma DivModUnique(x: int, d: int, q: int, r: int)
    requires d > 0 && x == q * d + r && 0 <= r < d
    ensures x / d == q && x % d == r
  {
    var q', r' := x / d, x % d;
    assert x == q' * d + r';
    assert (q - q') * d == r' - r;
    assert (q' - q) * d == -((q - q') * d);
    if q > q' {
      MulGe(q - q', d);
    } else if q < q' {
      MulGe(q' - q, d);
    }
  }

  lemma MulGe(a: int, d: int)
    requires a >= 1 && d >= 0
    ensures a * d >= d
  {
    assert a * d == d + (a - 1) * d;
    assert (a - 1) * d >= 0 by { MulNonneg(a - 1, d); }
  }

  lemma MulNonneg(a: int, b: int)
    requires a >= 0 && b >= 0
    ensures a * b >= 0
  {}

  // Where a quotient stands from where its dividend does.
  lemma QuotientBounds(x: int, d: int, m: int)
    requires d > 0
    ensures x >= m * d ==> x / d >= m
    ensures x < m * d ==> x / d < m
  {
    var q, r := x / d, x % d;
    assert x == q * d + r;
    if q < m {
      MulLe(q + 1, m, d);
      MulDistribute(q, 1, d);
    } else {
      MulLe(m, q, d);
    }
  }

  // The bit at place i of the stream s; zeros past the end.
  function BitAt(s: seq<bit>, i: nat): bit {
    if i < |s| then s[i] else 0
  }

  // The k bits from place pos on, as a number, the first the most significant.
  function Window(s: seq<bit>, pos: nat, k: nat): (v: nat) {
    if k == 0 then 0 else 2 * Window(s, pos, k - 1) + BitAt(s, pos + k - 1)
  }

  lemma {:induction false} WindowBound(s: seq<bit>, pos: nat, k: nat)
    ensures Window(s, pos, k) < Pow2(k)
  {
    if k > 0 { WindowBound(s, pos, k - 1); }
  }

  lemma MulAssoc(a: int, b: int, c: int)
    ensures (a * b) * c == a * (b * c)
  {}

  lemma MulDistribute(a: int, b: int, c: int)
    ensures (a + b) * c == a * c + b * c
  {}

  lemma TwiceSum(a: int, b: int, c: int)
    ensures 2 * (a * b + c) == a * (2 * b) + 2 * c
  {}

  // A window of m + n bits is one of m and one of n side by side.
  lemma {:induction false} WindowSplit(s: seq<bit>, pos: nat, m: nat, n: nat)
    ensures Window(s, pos, m + n) == Window(s, pos, m) * Pow2(n) + Window(s, pos + m, n)
  {
    if n == 0 {
    } else {
      WindowSplit(s, pos, m, n - 1);
      assert m + (n - 1) == m + n - 1;
      TwiceSum(Window(s, pos, m), Pow2(n - 1), Window(s, pos + m, n - 1));
    }
  }

  // The top m of m + n bits.
  lemma WindowTop(s: seq<bit>, pos: nat, m: nat, n: nat)
    ensures Window(s, pos, m + n) / Pow2(n) == Window(s, pos, m)
    ensures Window(s, pos, m + n) % Pow2(n) == Window(s, pos + m, n)
  {
    WindowSplit(s, pos, m, n);
    WindowBound(s, pos + m, n);
    DivModUnique(Window(s, pos, m + n), Pow2(n), Window(s, pos, m), Window(s, pos + m, n));
  }

  // v written in k bits, most significant first.
  function ToBits(v: nat, k: nat): (e: seq<bit>)
    ensures |e| == k
  {
    if k == 0 then [] else ToBits(v / 2, k - 1) + [v % 2]
  }

  // The bits e stand in s from place pos on.
  predicate At(s: seq<bit>, pos: nat, e: seq<bit>) {
    pos + |e| <= |s| && s[pos..pos + |e|] == e
  }

  lemma AtConcat(s: seq<bit>, pos: nat, e: seq<bit>, f: seq<bit>)
    ensures At(s, pos, e + f) <==> At(s, pos, e) && At(s, pos + |e|, f)
  {
    if At(s, pos, e + f) {
      var t := s[pos..pos + |e + f|];
      assert s[pos..pos + |e|] == t[..|e|] == e;
      assert s[pos + |e|..pos + |e| + |f|] == t[|e|..] == f;
    }
    if At(s, pos, e) && At(s, pos + |e|, f) {
      assert s[pos..pos + |e + f|] == s[pos..pos + |e|] + s[pos + |e|..pos + |e| + |f|];
    }
  }

  // Reading k bits gives back a number written in k bits.
  lemma {:induction false} WindowOfToBits(s: seq<bit>, pos: nat, v: nat, k: nat)
    requires At(s, pos, ToBits(v, k)) && v < Pow2(k)
    ensures Window(s, pos, k) == v
  {
    if k > 0 {
      AtConcat(s, pos, ToBits(v / 2, k - 1), [v % 2]);
      WindowOfToBits(s, pos, v / 2, k - 1);
    }
  }

  // A field of w bits is read, and what follows it stands after it.
  lemma FieldRead(s: seq<bit>, pos: nat, v: nat, w: nat, rest: seq<bit>)
    requires v < Pow2(w) && At(s, pos, ToBits(v, w) + rest)
    ensures Window(s, pos, w) == v && At(s, pos + w, rest)
    ensures |ToBits(v, w) + rest| == w + |rest|
  {
    hide At, ToBits, Window, Pow2;
    AtConcat(s, pos, ToBits(v, w), rest);
    WindowOfToBits(s, pos, v, w);
  }

  // ---- the bytes ----

  // The bits of the bytes p.
  function Unpack(p: seq<byte>): (s: seq<bit>)
    ensures |s| == 8 * |p|
  {
    seq(8 * |p|, i requires 0 <= i < 8 * |p| => p[i / 8] / Pow2(7 - i % 8) % 2)
  }

  lemma UnpackAt(p: seq<byte>, a: nat, r: nat)
    requires a < |p| && r < 8
    ensures BitAt(Unpack(p), 8 * a + r) == p[a] / Pow2(7 - r) % 2
  {
    assert (8 * a + r) / 8 == a && (8 * a + r) % 8 == r;
  }

  lemma HalfQuotient(x: nat, k: nat)
    requires k < 8
    ensures x / Pow2(k + 1) == x / Pow2(k) / 2
  {
    Pow2Small();
    if k == 0 { assert x / 2 == x / 1 / 2; }
    else if k == 1 { assert x / 4 == x / 2 / 2; }
    else if k == 2 { assert x / 8 == x / 4 / 2; }
    else if k == 3 { assert x / 16 == x / 8 / 2; }
    else if k == 4 { assert x / 32 == x / 16 / 2; }
    else if k == 5 { assert x / 64 == x / 32 / 2; }
    else if k == 6 { assert x / 128 == x / 64 / 2; }
    else { assert x / 256 == x / 128 / 2; }
  }

  // The first j bits of a byte.
  lemma {:induction false} WindowInByte(p: seq<byte>, a: nat, j: nat)
    requires a < |p| && j <= 8
    ensures Window(Unpack(p), 8 * a, j) == p[a] / Pow2(8 - j)
  {
    if j == 0 {
      Pow2Small();
    } else {
      WindowInByte(p, a, j - 1);
      UnpackAt(p, a, j - 1);
      HalfQuotient(p[a], 8 - j);
    }
  }

  // Eight bits of the stream are a byte, or zero past the end.
  lemma WindowByte(p: seq<byte>, a: nat)
    ensures Window(Unpack(p), 8 * a, 8) == if a < |p| then p[a] else 0
  {
    hide Window, Unpack;
    if a < |p| {
      WindowInByte(p, a, 8);
      assert Pow2(0) == 1;
    } else {
      WindowPastEnd(Unpack(p), 8 * a, 8);
    }
  }

  // A window of bytes and one more byte.
  lemma WindowNextByte(p: seq<byte>, at: nat, i: nat)
    ensures Window(Unpack(p), 8 * at, 8 * (i + 1))
         == Window(Unpack(p), 8 * at, 8 * i) * 256 + if at + i < |p| then p[at + i] else 0
  {
    hide Window, Unpack;
    WindowSplit(Unpack(p), 8 * at, 8 * i, 8);
    WindowByte(p, at + i);
    Pow2Small();
    assert 8 * at + 8 * i == 8 * (at + i) && 8 * i + 8 == 8 * (i + 1);
  }

  lemma {:induction false} WindowPastEnd(s: seq<bit>, pos: nat, k: nat)
    requires |s| <= pos
    ensures Window(s, pos, k) == 0
  {
    if k > 0 { WindowPastEnd(s, pos, k - 1); }
  }

  lemma Pow2Small()
    ensures Pow2(0) == 1 && Pow2(1) == 2 && Pow2(2) == 4 && Pow2(3) == 8
    ensures Pow2(4) == 16 && Pow2(5) == 32 && Pow2(6) == 64 && Pow2(7) == 128 && Pow2(8) == 256
  {
    assert Pow2(1) == 2; assert Pow2(3) == 8; assert Pow2(5) == 32; assert Pow2(7) == 128;
  }

  lemma Pow2Large()
    ensures Pow2(16) == 0x1_0000 && Pow2(31) == 0x8000_0000 && Pow2(32) == TWO32
  {
    Pow2Small();
    Pow2Add(8, 8);
    Pow2Add(16, 16);
    assert Pow2(32) == 2 * Pow2(31);
  }

  // The middle digit of a number written top, head, tail.
  lemma MiddleDigit(top: nat, head: nat, tail: nat, b: nat, r: nat, t: nat)
    requires b * r == t && r > 0 && tail < b && head < t
    ensures ((top * t + head) * b + tail) * r % (t * t) / t == head
  {
    var inner, w := head * t + tail * r, (top * t + head) * b + tail;
    assert t > 0 by { MulGe(r, b); }
    assert w * r == top * (t * t) + inner by {
      MulDistribute((top * t + head) * b, tail, r);
      MulAssoc(top * t + head, b, r);
      MulDistribute(top * t, head, t);
      MulAssoc(top, t, t);
    }
    assert 0 <= tail * r < t by {
      MulNonneg(tail, r);
      MulLe(tail + 1, b, r);
      MulDistribute(tail, 1, r);
    }
    assert 0 <= inner < t * t by {
      MulNonneg(head, t);
      MulLe(head + 1, t, t);
      MulDistribute(head, 1, t);
    }
    assert t * t > 0 by { MulGe(t, t); }
    DivModUnique(w * r, t * t, top, inner);
    DivModUnique(inner, t, head, tail * r);
  }

  lemma Pow2Within32(n: nat)
    requires n <= 32
    ensures Pow2(n) <= TWO32
  {
    hide Pow2;
    Pow2Monotone(n, 32);
    Pow2Large();
  }

  // Shifting a window of 2 n bits left by r drops its first r bits, and the
  // top half of what is left are the n bits from there.
  lemma WindowShifted(s: seq<bit>, pos: nat, r: nat, n: nat)
    requires r <= n
    ensures Window(s, pos, n + n) * Pow2(r) % (Pow2(n) * Pow2(n)) / Pow2(n) == Window(s, pos + r, n)
  {
    hide Pow2, Window;
    var top, head, tail := Window(s, pos, r), Window(s, pos + r, n), Window(s, pos + r + n, n - r);
    assert n + n == (r + n) + (n - r);
    WindowSplit(s, pos, r + n, n - r);
    assert pos + (r + n) == pos + r + n;
    WindowSplit(s, pos, r, n);
    WindowBound(s, pos + r, n);
    WindowBound(s, pos + r + n, n - r);
    Pow2Add(n - r, r);
    MiddleDigit(top, head, tail, Pow2(n - r), Pow2(r), Pow2(n));
  }

  // Shifting a window left drops its first bits; then the top k are those
  // after them.
  lemma WindowPast(s: seq<bit>, pos: nat, skip: nat, k: nat, n: nat)
    requires skip + k <= n
    ensures Window(s, pos, n) * Pow2(skip) % Pow2(n) / Pow2(n - k) == Window(s, pos + skip, k)
  {
    hide Window, Pow2;
    var rest := n - skip - k;
    var top, mid, low := Window(s, pos, skip), Window(s, pos + skip, k), Window(s, pos + skip + k, rest);
    assert skip + k + rest == n && pos + (skip + k) == pos + skip + k;
    WindowSplit(s, pos, skip + k, rest);
    WindowSplit(s, pos, skip, k);
    WindowBound(s, pos + skip, k);
    WindowBound(s, pos + skip + k, rest);
    Pow2Add(rest, skip);
    Pow2Add(k, n - k);
    assert rest + skip == n - k && k + (n - k) == n;
    var a, b, r, w := Pow2(k), Pow2(rest), Pow2(skip), Window(s, pos, n);
    assert w == (top * a + mid) * b + low;
    assert Pow2(n) == a * Pow2(n - k) && Pow2(n - k) == b * r;
    CutDigits(w, top, mid, low, a, b, r, Pow2(n), Pow2(n - k));
  }

  lemma CutDigits(w: nat, top: nat, mid: nat, low: nat, a: nat, b: nat, r: nat, d: nat, t: nat)
    requires a > 0 && b > 0 && r > 0 && mid < a && low < b
    requires w == (top * a + mid) * b + low && t == b * r && d == a * t && t > 0 && d > 0
    ensures w * r % d / t == mid
  {
    ShiftedDigits(top, mid, low, a, b, r);
  }

  // The middle of three digits, moved up by r and cut at the top.
  lemma ShiftedDigits(top: nat, mid: nat, low: nat, a: nat, b: nat, r: nat)
    requires a > 0 && b > 0 && r > 0 && mid < a && low < b
    ensures b * r > 0 && a * (b * r) > 0
    ensures ((top * a + mid) * b + low) * r % (a * (b * r)) / (b * r) == mid
  {
    var t := b * r;
    MulGe(b, r);
    MulGe(a, t);
    MulDistribute((top * a + mid) * b, low, r);
    MulAssoc(top * a + mid, b, r);
    MulDistribute(top * a, mid, t);
    MulAssoc(top, a, t);
    MulNonneg(low, r);
    MulLe(low + 1, b, r);
    MulDistribute(low, 1, r);
    MulNonneg(mid, t);
    MulLe(mid + 1, a, t);
    MulDistribute(mid, 1, t);
    DivModUnique(((top * a + mid) * b + low) * r, a * t, top, mid * t + low * r);
    DivModUnique(mid * t + low * r, t, mid, low * r);
  }

  // The reader's shifts on a 64-bit window.
  lemma PeekedWindow(s: seq<bit>, at: nat, r: nat, w: nat, n: nat)
    requires r < 8 && n == 32 && w == Window(s, at, n + n)
    ensures w * Pow2(r) % TWO64 / TWO32 == Window(s, at + r, n) < TWO32
  {
    WindowShifted(s, at, r, n);
    WindowBound(s, at + r, n);
    Pow2Large();
    assert Pow2(n) == TWO32 && TWO32 * TWO32 == TWO64;
  }

  lemma MulLe(a: int, b: int, c: int)
    requires a <= b && c >= 0
    ensures a * c <= b * c
  {
    MulNonneg(b - a, c);
    assert b * c == a * c + (b - a) * c;
  }

  // Bits packed into bytes, the last byte filled with zeros.
  function Pack(s: seq<bit>): (p: seq<byte>)
    decreases |s|
  {
    if s == [] then [] else
      WindowBound(s, 0, 8); Pow2Small();
      [Window(s, 0, 8)] + Pack(if |s| <= 8 then [] else s[8..])
  }

  // A later byte's bits are those of the bytes after the first.
  lemma UnpackRest(x: byte, p: seq<byte>, i: nat)
    requires 8 <= i < 8 * (|p| + 1)
    ensures Unpack([x] + p)[i] == Unpack(p)[i - 8]
  {
    var a, r := i / 8, i % 8;
    UnpackAt([x] + p, a, r);
    UnpackAt(p, a - 1, r);
    assert ([x] + p)[a] == p[a - 1];
    assert 8 * a + r == i && 8 * (a - 1) + r == i - 8;
  }

  // What Pack writes is read back where it was put.
  lemma {:induction false} UnpackPack(s: seq<bit>)
    ensures At(Unpack(Pack(s)), 0, s)
    ensures |Unpack(Pack(s))| < |s| + 8
    decreases |s|
  {
    if s != [] {
      var rest := if |s| <= 8 then [] else s[8..];
      UnpackPack(rest);
      var p := Pack(s);
      forall i | 0 <= i < |s| ensures Unpack(p)[i] == s[i] {
        if i < 8 {
          UnpackAt(p, 0, i);
          ByteBit(s, i);
        } else {
          UnpackRest(p[0], Pack(rest), i);
          assert Unpack(Pack(rest))[i - 8] == Unpack(Pack(rest))[0..|rest|][i - 8];
        }
      }
      assert Unpack(p)[0..|s|] == s;
    }
  }

  // Bit i of a window of eight.
  lemma ByteBit(s: seq<bit>, i: nat)
    requires i < 8
    ensures Window(s, 0, 8) / Pow2(7 - i) % 2 == BitAt(s, i)
  {
    hide Window, Pow2;
    WindowLast(s, i);
    WindowTop(s, 0, i + 1, 7 - i);
    assert i + 1 + (7 - i) == 8;
  }

  lemma WindowLast(s: seq<bit>, i: nat)
    ensures Window(s, 0, i + 1) == 2 * Window(s, 0, i) + BitAt(s, i)
    ensures Window(s, 0, i + 1) % 2 == BitAt(s, i)
  {
    hide BitAt, Pow2;
    EvenAndBit(Window(s, 0, i), BitAt(s, i));
  }

  lemma EvenAndBit(x: nat, b: bit)
    ensures (2 * x + b) % 2 == b
  {}

  // ---- the reader ----

  class Reader {
    const p: seq<byte>
    var pos: nat

    constructor (p: seq<byte>)
      ensures this.p == p && pos == 0
    {
      this.p := p;
      pos := 0;
    }

    // The stream as bits.
    ghost function Stream(): seq<bit> {
      Unpack(p)
    }

    // The next 32 bits without taking them: eight bytes gathered, shifted by
    // the place within the first, and the top half kept.
    method Peek() returns (v: nat)
      ensures v == Window(Stream(), pos, 32) && v < TWO32
    {
      hide Pow2, Unpack;
      var at := pos / 8;
      var w: nat := 0;
      ghost var s := Stream();
      for i := 0 to 8
        invariant w == Window(s, 8 * at, 8 * i)
      {
        w := w * 256 + (if at + i < |p| then p[at + i] else 0);
        WindowNextByte(p, at, i);
      }
      PeekedWindow(s, 8 * at, pos % 8, w, 32);
      v := w * Pow2(pos % 8) % TWO64 / TWO32;
    }

    // The top k of the next 32 bits: abr_peek(b) >> (32 - k).
    method PeekTop(k: nat) returns (v: nat)
      requires 1 <= k <= 32
      ensures v == Window(Stream(), pos, k) && v < Pow2(k)
    {
      WindowBound(Stream(), pos, k);
      WindowTop(Stream(), pos, k, 32 - k);
      var w := Peek();
      v := w / Pow2(32 - k);
    }

    // k bits past the next skip: (w << skip) >> (32 - k) of the next 32 bits.
    method PeekPast(skip: nat, k: nat) returns (v: nat)
      requires 1 <= k && skip + k <= 32
      ensures v == Window(Stream(), pos + skip, k) && v < Pow2(k)
    {
      hide Pow2, Window;
      WindowBound(Stream(), pos + skip, k);
      WindowPast(Stream(), pos, skip, k, 32);
      Pow2Large();
      var w := Peek();
      v := w * Pow2(skip) % TWO32 / Pow2(32 - k);
    }

    // k bits, 0 to 32.
    method Bits(k: nat) returns (v: nat)
      requires k <= 32
      modifies this`pos
      ensures v == Window(Stream(), old(pos), k) && v < Pow2(k)
      ensures pos == old(pos) + k
    {
      if k == 0 {
        return 0;
      }
      v := PeekTop(k);
      pos := pos + k;
    }

    // The bits not yet read.
    function Left(): (r: nat)
      reads this`pos
      ensures r == if pos < |Stream()| then |Stream()| - pos else 0
    {
      if pos < |p| * 8 then |p| * 8 - pos else 0
    }
  }
}
