// The machine integers of the C code: 32-bit and 16-bit wrap-around, and the
// arithmetic right shift, on Dafny's unbounded integers.

module Ints {
  import opened Bits

  type u32 = x: int | 0 <= x < TWO32 witness 0
  type i32 = x: int | -0x8000_0000 <= x < 0x8000_0000 witness 0
  type i16 = x: int | -0x8000 <= x < 0x8000 witness 0

  datatype Option<+T> = None | Some(value: T)

  function U32(x: int): u32 {
    x % TWO32
  }

  // The 32-bit pattern of x read as signed.
  function S32(x: int): i32 {
    var u := U32(x);
    if u >= 0x8000_0000 then u - TWO32 else u
  }

  function S16(x: int): i16 {
    var u := x % 0x1_0000;
    if u >= 0x8000 then u - 0x1_0000 else u
  }

  // x << k, within the bits at hand.
  function Shl(x: nat, k: nat): nat {
    MulNonneg(x, Pow2(k));
    x * Pow2(k)
  }

  // x >> k, and the bits it drops.
  function Shr(x: nat, k: nat): nat {
    QuotientBounds(x, Pow2(k), 0);
    x / Pow2(k)
  }

  function LowBits(x: nat, k: nat): (r: nat)
    ensures r < Pow2(k)
  {
    x % Pow2(k)
  }

  // x >> k of a signed x: the quotient rounded down.
  function Asr(x: int, k: nat): int {
    x / Pow2(k)
  }

  function SignOf(v: int): int {
    (if v > 0 then 1 else 0) - (if v < 0 then 1 else 0)
  }

  // A signed number of k bits.
  predicate Fits(v: int, k: nat) {
    2 * v < Pow2(k) && -2 * v <= Pow2(k)
  }

  function Zeros(n: nat): (z: seq<i32>)
    ensures |z| == n && forall i :: 0 <= i < n ==> z[i] == 0
  {
    seq(n, _ => 0)
  }
}
