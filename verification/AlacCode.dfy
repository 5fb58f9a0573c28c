// decode_element of src/common/audio_alac.c as it runs: fields of the decoder
// filled in place by loops over the reader, proved against ReadElement.

module AlacCode {
  import opened Bits
  import opened Ints
  import opened AlacElement
  import opened AlacFrame
  import opened AlacDecode
  import Rice = AlacRice
  import Lpc = AlacLpc

  // The coefficients of a header, the last first.
  method FillCoefs(b: Reader, coefs: array<i16>, order: nat)
    requires order <= coefs.Length
    modifies b`pos, coefs
    ensures coefs[..order] == ReadCoefs(b.Stream(), old(b.pos), order) && b.pos == old(b.pos) + 16 * order
  {
    hide Window, S16, Pow2;
    var i := order;
    ghost var goal := ReadCoefs(b.Stream(), b.pos, order);
    while i > 0
      invariant 0 <= i <= order
      invariant b.pos == old(b.pos) + 16 * (order - i)
      invariant goal == ReadCoefs(b.Stream(), b.pos, i) + coefs[i..order]
    {
      i := i - 1;
      ghost var done := coefs[i + 1..order];
      var v := b.Bits(16);
      coefs[i] := S16(v);
      assert coefs[i..order] == [coefs[i]] + done;
    }
    assert ReadCoefs(b.Stream(), b.pos, 0) == [];
    assert coefs[..order] == coefs[0..order];
  }

  method ChanHeader(b: Reader, coefs: array<i16>, c: Config) returns (ok: bool, ptype: nat, quant: nat, mult: nat,
                    order: nat)
    requires coefs.Length == 32
    modifies b`pos, coefs
    ensures ok == ReadChan(b.Stream(), old(b.pos), c).Some?
    ensures ok ==> order < 32
    ensures ok ==>
              ReadChan(b.Stream(), old(b.pos), c) == Some(ChanRead(Chan(ptype, quant, mult, coefs[..order]), b.pos))
  {
    hide Window, Pow2, ReadCoefs;
    Pow2Small();
    ptype := b.Bits(4);
    quant := b.Bits(4);
    mult := b.Bits(3);
    order := b.Bits(5);
    if order >= c.frameLength || quant == 0 {
      return false, ptype, quant, mult, order;
    }
    FillCoefs(b, coefs, order);
    ok := true;
  }

  ghost predicate Holds(first: seq<i32>, second: seq<i32>, p: Planes) {
    && |first| == |p.first| && |second| == |p.second|
    && (forall i :: 0 <= i < |first| ==> first[i] == p.first[i])
    && (forall i :: 0 <= i < |second| ==> second[i] == p.second[i])
  }

  // The low bits are in the arrays, or there are none.
  ghost predicate LowsHeld(first: seq<i32>, second: seq<i32>, p: Planes, extra: nat) {
    if extra != 0 then Holds(first, second, p)
    else (forall v :: v in p.first ==> v == 0) && (forall v :: v in p.second ==> v == 0)
  }

  lemma NoneHeld(first: seq<i32>, second: seq<i32>, n: nat, ch: nat)
    ensures LowsHeld(first, second, NoPlanes(n, ch), 0)
  {}

  lemma NoLowBits(s: seq<bit>, pos: nat, n: nat, ch: nat)
    requires 1 <= ch <= 2
    ensures LowsHeld([], [], ReadPlanes(s, pos, n, ch, 0), 0)
  {
    hide ReadPlanes;
    assert Pow2(0) == 1;
  }

  // One channel: its residual, the differences of type 15 in place, and the
  // predictor.
  method DecodeChannel(b: Reader, err: array<i32>, out: array<i32>, coefs: array<i16>, n: nat, bps: nat,
      ptype: nat, quant: nat, mult: nat, order: nat, c: Config) returns (ok: bool)
    requires Admitted(c) && c.kb >= 1 && 1 <= bps <= 32 && 1 <= n <= c.frameLength
    requires err.Length == out.Length == c.frameLength && err != out && coefs.Length == 32 && order < 32
    requires ChanOk(Chan(ptype, quant, mult, coefs[..order]), c)
    modifies b`pos, err, out, coefs
    ensures var r := ReadChannel(b.Stream(), old(b.pos), n, bps, Chan(ptype, quant, mult, old(coefs[..order])), c);
            ok == r.Some? && (ok ==> r.value == Rice.Residual(out[..n], b.pos))
  {
    hide Rice.Decoded, Lpc.Decoded, Admitted;
    ghost var h := Chan(ptype, quant, mult, coefs[..order]);
    RateBound(h, c);
    ok := Rice.RiceDecompress(b, err, n, bps, Rate(mult, c.pb), c.mb, c.kb);
    if !ok {
      return;
    }
    if ptype == 15 {
      ghost var r, was := err[..n], coefs[..];
      Lpc.DifferencesIgnoreCoefs(r, coefs[..31], [], bps, 0);
      // no coefficients are read or moved here: the code passes none
      Lpc.Predict(err, err, n, bps, coefs, 31, 0);
      assert coefs[..] == was by { assert coefs[..] == coefs[..31] + coefs[31..]; assert was == was[..31] + was[31..]; }
      assert coefs[..order] == was[..order];
    }
    Lpc.Predict(err, out, n, bps, coefs, order, quant);
  }

  lemma RateBound(h: Chan, c: Config)
    requires Admitted(c) && ChanOk(h, c)
    ensures c.mb < TWO32 && c.frameLength <= 65536
  {}

  // The low bits of each sample of each channel.
  method FillLow(b: Reader, first: array<i32>, second: array<i32>, n: nat, ch: nat, w: nat)
    requires 1 <= ch <= 2 && 1 <= w <= 24 && n <= first.Length && n <= second.Length && first != second
    modifies b`pos, first, second
    ensures Holds(first[..n], if ch == 2 then second[..n] else [], ReadPlanes(b.Stream(), old(b.pos), n, ch, w))
    ensures b.pos == old(b.pos) + PlanesSize(n, ch, w)
  {
    hide Window, Pow2, PlanesSize, ReadPlanes;
    ghost var s, p := b.Stream(), ReadPlanes(b.Stream(), b.pos, n, ch, w);
    PlanesSizeNext(0, ch, w);
    LowWidth(w);
    for i := 0 to n
      invariant b.pos == old(b.pos) + PlanesSize(i, ch, w)
      invariant forall j :: 0 <= j < i ==> first[j] == p.first[j]
      invariant ch == 2 ==> forall j :: 0 <= j < i ==> second[j] == p.second[j]
    {
      PlanesAt(s, old(b.pos), n, ch, w, i);
      PlanesSizeNext(i, ch, w);
      first[i] := b.Bits(w);
      if ch == 2 {
        second[i] := b.Bits(w);
      }
    }
  }

  lemma LowWidth(w: nat)
    requires w <= 24
    ensures Pow2(w) <= 0x100_0000
  {
    Pow2Monotone(w, 24);
    Pow2Small();
    Pow2Add(8, 8);
    Pow2Add(16, 8);
  }

  // Samples sent plain.
  method FillPlain(b: Reader, first: array<i32>, second: array<i32>, n: nat, ch: nat, w: nat)
    requires 1 <= ch <= 2 && 1 <= w <= 32 && n <= first.Length && n <= second.Length && first != second
    modifies b`pos, first, second
    ensures first[..n] == Signed(ReadPlanes(b.Stream(), old(b.pos), n, ch, w).first, w)
    ensures ch == 2 ==> second[..n] == Signed(ReadPlanes(b.Stream(), old(b.pos), n, ch, w).second, w)
    ensures b.pos == old(b.pos) + PlanesSize(n, ch, w)
  {
    hide Window, Pow2, PlanesSize, ReadPlanes, Lpc.SignExtend;
    ghost var s, p := b.Stream(), ReadPlanes(b.Stream(), b.pos, n, ch, w);
    PlanesSizeNext(0, ch, w);
    Pow2Within32(w);
    for i := 0 to n
      invariant b.pos == old(b.pos) + PlanesSize(i, ch, w)
      invariant forall j :: 0 <= j < i ==> first[j] == Signed(p.first, w)[j]
      invariant ch == 2 ==> forall j :: 0 <= j < i ==> second[j] == Signed(p.second, w)[j]
    {
      PlanesAt(s, old(b.pos), n, ch, w, i);
      PlanesSizeNext(i, ch, w);
      var v := b.Bits(w);
      first[i] := Lpc.SignExtend(v, w);
      assert first[i] == Signed(p.first, w)[i] by { assert U32(v) == v; }
      if ch == 2 {
        v := b.Bits(w);
        second[i] := Lpc.SignExtend(v, w);
        assert second[i] == Signed(p.second, w)[i] by { assert U32(v) == v; }
      }
    }
  }

  method UnmixAll(first: array<i32>, second: array<i32>, n: nat, weight: nat, shift: nat)
    requires n <= first.Length && n <= second.Length && first != second
    modifies first, second
    ensures forall i :: 0 <= i < n ==> (first[i], second[i]) == Unmix(old(first[i]), old(second[i]), weight, shift)
  {
    hide Asr, S32, U32;
    for i := 0 to n
      invariant forall j :: 0 <= j < i ==> (first[j], second[j]) == Unmix(old(first[j]), old(second[j]), weight, shift)
      invariant forall j :: i <= j < n ==> first[j] == old(first[j]) && second[j] == old(second[j])
    {
      var a, bb := first[i], second[i];
      a := S32(U32(a) - U32(Asr(S32(bb * weight), shift)));
      bb := S32(U32(bb) + U32(a));
      first[i] := bb;
      second[i] := a;
    }
  }

  method RestoreAll(out: array<i32>, low: array<i32>, n: nat, extra: nat, ghost lows: seq<nat>)
    requires n <= out.Length && n <= low.Length && out != low && |lows| >= n
    requires forall i :: 0 <= i < n ==> low[i] == lows[i]
    modifies out
    ensures forall i :: 0 <= i < n ==> out[i] == Restore(old(out[i]), lows[i], extra)
  {
    hide Restore;
    for i := 0 to n
      invariant forall j :: 0 <= j < i ==> out[j] == Restore(old(out[j]), lows[j], extra)
      invariant forall j :: i <= j < n ==> out[j] == old(out[j])
    {
      var v: nat := low[i];
      out[i] := Restore(out[i], v, extra);
    }
  }

  class Alac {
    const c: Config
    const err0: array<i32>
    const err1: array<i32>
    const out0: array<i32>
    const out1: array<i32>
    const extra0: array<i32>
    const extra1: array<i32>

    ghost predicate Valid() {
      && Admitted(c)
      && err0.Length == err1.Length == c.frameLength
      && out0.Length == out1.Length == c.frameLength
      && extra0.Length == extra1.Length == c.frameLength
      && err0 != err1 && out0 != out1 && extra0 != extra1
      && err0 != out0 && err0 != out1 && err1 != out0 && err1 != out1
      && err0 != extra0 && err0 != extra1 && err1 != extra0 && err1 != extra1
      && out0 != extra0 && out0 != extra1 && out1 != extra0 && out1 != extra1
    }

    constructor (c: Config)
      requires Admitted(c)
      ensures Valid() && this.c == c
      ensures fresh({err0, err1, out0, out1, extra0, extra1})
    {
      this.c := c;
      err0 := new i32[c.frameLength];
      err1 := new i32[c.frameLength];
      out0 := new i32[c.frameLength];
      out1 := new i32[c.frameLength];
      extra0 := new i32[c.frameLength];
      extra1 := new i32[c.frameLength];
    }

    // What follows the channels' headers: the low bits, then each channel.
    method DecodeChannels(b: Reader, ghost f: Front, n: nat, bps: nat, extra: nat, ch: nat,
        coefs0: array<i16>, ptype0: nat, quant0: nat, mult0: nat, order0: nat,
        coefs1: array<i16>, ptype1: nat, quant1: nat, mult1: nat, order1: nat, ghost shift: nat, ghost weight: nat)
      returns (ok: bool)
      requires Valid() && c.kb >= 1 && 1 <= ch <= 2 && 1 <= bps <= 32 && 1 <= n <= c.frameLength && extra <= 24
      requires f.n == n && f.bps == bps && f.extra == extra
      requires coefs0 != coefs1 && coefs0.Length == coefs1.Length == 32 && order0 < 32 && order1 < 32
      requires ChanOk(Chan(ptype0, quant0, mult0, coefs0[..order0]), c)
      requires ChanOk(Chan(ptype1, quant1, mult1, coefs1[..order1]), c)
      modifies b`pos, err0, err1, out0, out1, extra0, extra1, coefs0, coefs1
      ensures var r := ReadChannels(b.Stream(), old(b.pos), f, c, ch,
              Chan(ptype0, quant0, mult0, old(coefs0[..order0])),
                                    Chan(ptype1, quant1, mult1, old(coefs1[..order1])), shift, weight);
              && ok == r.Some?
              && (ok ==> r.value == Body(out0[..n], if ch == 2 then out1[..n] else [],
                                         r.value.low, extra, shift, weight, b.pos))
              && (ok ==> LowsHeld(extra0[..n], if ch == 2 then extra1[..n] else [], r.value.low, extra))
    {
      hide Window, Pow2, ReadChannel, ReadPlanes, Admitted, Holds, ChanOk;
      ghost var s, low := b.Stream(), ReadPlanes(b.Stream(), b.pos, n, ch, extra);
      CountedSize(n, ch, extra);
      if extra != 0 {
        if b.Left() < n * ch * extra {
          return false;
        }
        FillLow(b, extra0, extra1, n, ch, extra);
      } else {
        NoLowBits(s, b.pos, n, ch);
      }
      ok := DecodeChannel(b, err0, out0, coefs0, n, bps, ptype0, quant0, mult0, order0, c);
      if !ok || ch == 1 {
        return;
      }
      ok := DecodeChannel(b, err1, out1, coefs1, n, bps, ptype1, quant1, mult1, order1, c);
    }

    // The compressed body after the front; what is left is to finish the
    // planes.
    method DecodeCompressed(b: Reader, ghost f: Front, n: nat, bps: nat, extra: nat, ch: nat)
      returns (ok: bool, shift: nat, weight: nat)
      requires Valid() && 1 <= ch <= 2 && 1 <= bps <= 32 && 1 <= n <= c.frameLength && extra <= 24
      requires f.n == n && f.bps == bps && f.extra == extra && f.pos == b.pos
      modifies b`pos, err0, err1, out0, out1, extra0, extra1
      ensures var r := ReadCompressed(b.Stream(), f, c, ch);
              && ok == r.Some?
              && (ok ==> r.value == Body(out0[..n], if ch == 2 then out1[..n] else [],
                                         r.value.low, extra, shift, weight, b.pos))
              && (ok ==> LowsHeld(extra0[..n], if ch == 2 then extra1[..n] else [], r.value.low, extra))
    {
      hide Window, Pow2, ReadChan, ReadChannels, Admitted, Holds, ChanOk;
      ok, shift, weight := false, 0, 0;
      if c.kb == 0 {
        return;
      }
      shift := b.Bits(8);
      weight := b.Bits(8);
      if ch == 2 && weight != 0 && shift > 31 {
        return;
      }
      var coefs0, coefs1 := new i16[32], new i16[32];
      var got, ptype0, quant0, mult0, order0 := ChanHeader(b, coefs0, c);
      if !got {
        return;
      }
      ghost var h0 := Chan(ptype0, quant0, mult0, coefs0[..order0]);
      var ptype1, quant1, mult1, order1 := ptype0, quant0, mult0, order0;
      if ch == 2 {
        got, ptype1, quant1, mult1, order1 := ChanHeader(b, coefs1, c);
        if !got {
          return;
        }
      } else {
        forall j | 0 <= j < 32 {
          coefs1[j] := coefs0[j];
        }
        assert coefs1[..order1] == coefs0[..order0];
      }
      assert coefs0[..order0] == h0.coefs;
      ok := DecodeChannels(b, f, n, bps, extra, ch, coefs0, ptype0, quant0, mult0, order0,
        coefs1, ptype1, quant1, mult1, order1, shift, weight);
    }

    // Samples sent plain.
    method DecodePlain(b: Reader, ghost f: Front, n: nat, ch: nat) returns (ok: bool)
      requires Valid() && 1 <= ch <= 2 && n <= c.frameLength && f.n == n && f.pos == b.pos
      modifies b`pos, out0, out1
      ensures var r := ReadPlain(b.Stream(), f, c, ch);
              && ok == r.Some?
              && (ok ==> r.value == Body(out0[..n], if ch == 2 then out1[..n] else [], NoPlanes(n, ch), 0, 0, 0, b.pos))
    {
      hide Window, Pow2, ReadPlanes, PlanesSize;
      CountedSize(n, ch, c.sampleSize);
      if b.Left() < n * ch * c.sampleSize {
        return false;
      }
      FillPlain(b, out0, out1, n, ch, c.sampleSize);
      ok := true;
    }

    // The fields before the choice of coding; false where they are refused.
    method DecodeFront(b: Reader, ch: nat, nb: nat) returns (ok: bool, extra: nat, bps: nat, compressed: bool, n: nat)
      requires Valid() && 1 <= ch <= 2
      modifies b`pos
      ensures var r := ReadFront(b.Stream(), old(b.pos), c, ch, nb);
              ok == r.Some? && (ok ==> r.value == Front(extra, bps, compressed, n, b.pos))
    {
      hide Window, Pow2, Admitted;
      ok, extra, bps, compressed, n := false, 0, 0, false, 0;
      Pow2Small();
      var skip := b.Bits(4);
      skip := b.Bits(12);
      var hasSize := b.Bits(1);
      var two := b.Bits(2);
      extra := 8 * two;
      var width := c.sampleSize - extra + ch - 1;
      if width > 32 || width < 1 {
        return;
      }
      bps := width;
      var plain := b.Bits(1);
      compressed := plain == 0;
      n := c.frameLength;
      if hasSize == 1 {
        n := b.Bits(32);
      }
      if n == 0 || n > c.frameLength {
        return;
      }
      if nb != 0 && n != nb {
        return;
      }
      ok := true;
    }

    // Decodes one element; nb is 0 until the packet's count of samples is
    // known. False where the element is refused.
    method DecodeElement(b: Reader, ch: nat, nb: nat) returns (ok: bool, n: nat)
      requires Valid() && 1 <= ch <= 2
      modifies b`pos, err0, err1, out0, out1, extra0, extra1
      ensures var r := ReadElement(b.Stream(), old(b.pos), c, ch, nb);
              && ok == r.Some?
              && (ok ==> n <= c.frameLength
                         && r.value == Element(out0[..n], if ch == 2 then out1[..n] else [], n, b.pos))
    {
      hide Window, Pow2, ReadFront, ReadCompressed, ReadPlain, Admitted, Holds, LowsHeld, Restore, Unmix, Finish;
      var extra, bps, compressed;
      ok, extra, bps, compressed, n := DecodeFront(b, ch, nb);
      if !ok {
        return;
      }
      ghost var f := Front(extra, bps, compressed, n, b.pos);
      var shift, weight := 0, 0;
      if compressed {
        ok, shift, weight := DecodeCompressed(b, f, n, bps, extra, ch);
        if !ok {
          return;
        }
      } else {
        ok := DecodePlain(b, f, n, ch);
        if !ok {
          return;
        }
        extra := 0;
      }
      ghost var d :=
        if compressed then ReadCompressed(b.Stream(), f, c, ch).value else ReadPlain(b.Stream(), f, c, ch).value;
      assert d == Body(out0[..n], if ch == 2 then out1[..n] else [], d.low, extra, shift, weight, b.pos);
      if !compressed { NoneHeld(extra0[..n], if ch == 2 then extra1[..n] else [], n, ch); }
      FinishPlanes(n, ch, extra, shift, weight, d);
    }

    // The planes unmixed in place, and the low bits put back.
    method FinishPlanes(n: nat, ch: nat, extra: nat, shift: nat, weight: nat, ghost d: Body)
      requires Valid() && 1 <= ch <= 2 && n <= c.frameLength
      requires |d.low.first| == n && |d.low.second| == if ch == 2 then n else 0
      requires d.a == out0[..n] && d.b == (if ch == 2 then out1[..n] else [])
      requires d.extra == extra && d.shift == shift && d.weight == weight
      requires LowsHeld(extra0[..n], if ch == 2 then extra1[..n] else [], d.low, extra)
      modifies out0, out1
      ensures out0[..n] == Finish(d, n, ch).first
      ensures ch == 2 ==> out1[..n] == Finish(d, n, ch).second
    {
      hide Restore, Unmix;
      if ch == 2 && weight != 0 {
        UnmixAll(out0, out1, n, weight, shift);
      }
      assert forall i :: 0 <= i < n ==>
        if ch == 2 then (out0[i], out1[i]) == Received(d.a[i], d.b[i], shift, weight) else out0[i] == d.a[i];
      if extra != 0 {
        RestoreAll(out0, extra0, n, extra, d.low.first);
        if ch == 2 {
          RestoreAll(out1, extra1, n, extra, d.low.second);
        }
      } else {
        forall i | 0 <= i < n
          ensures Restore(out0[i], d.low.first[i], 0) == out0[i]
          ensures ch == 2 ==> Restore(out1[i], d.low.second[i], 0) == out1[i]
        {
          assert d.low.first[i] in d.low.first;
          NothingRestored(out0[i]);
          if ch == 2 {
            assert d.low.second[i] in d.low.second;
            NothingRestored(out1[i]);
          }
        }
      }
    }
  }

  // The code's count of bits, n * ch * w.
  lemma CountedSize(n: nat, ch: nat, w: nat)
    requires 1 <= ch <= 2
    ensures n * ch * w == PlanesSize(n, ch, w) && (w == 0 ==> PlanesSize(n, ch, w) == 0)
  {
    if ch == 1 {
      assert n * ch == n;
    } else {
      MulAssoc(n, 2, w);
    }
  }
}
