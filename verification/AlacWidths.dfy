// How the widths of src/common/audio_alac.c's codes follow the values: what a
// history's widths are, and where a value moves it.

module AlacWidths {
  import opened Bits
  import opened Ints
  import opened AlacRice
  import opened AlacElement

  lemma {:induction false} Log2uIs(v: nat)
    requires v >= 1
    ensures Pow2(Log2u(v)) <= v < Pow2(Log2u(v) + 1)
    decreases v
  {
    if v == 1 {
      assert Pow2(0) == 1 && Pow2(1) == 2;
    } else {
      Log2uIs(v / 2);
    }
  }

  // A value's width is the greatest of those up to kb whose power of two a
  // 512th of the history, and three, reaches.
  lemma ValueWidthIs(history: u32, kb: nat)
    ensures var k := ValueWidth(history, kb);
            && k <= kb && 512 * Pow2(k) <= history + 3 * 512
            && (k < kb ==> history + 3 * 512 < 512 * Pow2(k + 1))
  {
    hide Pow2, Log2u;
    var v := history / 512 + 3;
    Log2uIs(v);
    Pow2Monotone(ValueWidth(history, kb), Log2u(v));
  }

  // A run's is less by one for each doubling of the history from one to 64,
  // and rises by one where it comes to 48 and 112.
  lemma RunWidthIs(history: nat, kb: nat) returns (u: nat)
    requires 1 <= history < 128
    ensures u <= 6 && Pow2(u) <= history < Pow2(u + 1)
    ensures var up := if history < 48 then 0 else if history < 112 then 1 else 2;
            RunWidth(history, kb) == if 7 - u + up < kb then 7 - u + up else kb
  {
    Pow2Small();
    Log2uBound(history, 6);
    hide Pow2, Log2u;
    u := Log2u(history);
    Log2uIs(history);
  }

  // A value moves the history by mult 512ths of the way to 512 times itself,
  // rounded up; one of more than 16 bits sets it.
  lemma HistoryFollows(history: u32, x: u32, mult: nat)
    requires history * mult < TWO32 && 0 <= history + x * mult - history * mult / 512 < TWO32
    ensures var h := NextHistory(history, x, mult);
            if x > 0xffff then h == 0xffff
            else (512 * x - history) * mult <= 512 * (h - history) < (512 * x - history) * mult + 512
  {
    MulNonneg(history, mult);
    MulNonneg(x, mult);
    var a: int, b: int, g: int, y: int := history * mult, x * mult, history, x;
    assert U32(a) == a && U32(history + b - a / 512) == history + b - a / 512;
    assert (512 * y - g) * mult == 512 * b - a by {
      MulDistribute(512 * y, -g, mult);
      MulAssoc(512, y, mult);
    }
  }

  // So the history of values that stay the same comes no further from them.
  lemma HistoryNears(history: u32, x: u32, mult: nat)
    requires x <= 0xffff && mult <= 512
    requires history * mult < TWO32 && 0 <= history + x * mult - history * mult / 512 < TWO32
    ensures var h := NextHistory(history, x, mult);
            if history <= 512 * x then history <= h <= 512 * x else 512 * x <= h + 511 && h <= history
  {
    HistoryFollows(history, x, mult);
    hide NextHistory;
    var gap: int := 512 * x - history;
    if gap >= 0 { MulLe(mult, 512, gap); MulLe(0, mult, gap); } else { MulLe(mult, 512, -gap); MulLe(0, mult, -gap); }
    assert gap < 0 ==> gap * mult == -((-gap) * mult);
  }

  // The rate is a quarter of the product of the header's and the stream's.
  lemma RateIs(mult: nat, pb: nat)
    requires mult < 8 && pb < 256
    ensures 4 * Rate(mult, pb) <= mult * pb < 4 * Rate(mult, pb) + 4 && Rate(mult, pb) < 512
  {
    MulLe(mult, 7, pb);
  }

  // Past the end of the bits nothing is decoded.
  lemma NothingPastTheEnd(s: seq<bit>, pos: nat, n: nat, bps: nat, mult: nat, kb: nat, history: u32, sign: bit)
    requires kb >= 1 && n >= 1
    ensures AlacRice.Decoded(s, pos, n, bps, mult, kb, history, sign).Some? ==> pos < |s|
  {}
}
