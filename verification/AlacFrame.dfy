// The headers of an element of src/common/audio_alac.c, with what they refuse,
// and its interleaved numbers: low bits sent apart, or samples sent plain.

module AlacFrame {
  import opened Bits
  import opened Ints
  import opened AlacElement
  import Rice = AlacRice
  import Lpc = AlacLpc

  // ---- the front ----

  // What the fields before the choice of coding say.
  datatype Front = Front(extra: nat, bps: nat, compressed: bool, n: nat, pos: nat)

  // nb is the packet's number of samples so far known, 0 for not yet.
  function ReadFront(s: seq<bit>, pos: nat, c: Config, ch: nat, nb: nat): (r: Option<Front>)
    requires Admitted(c) && 1 <= ch <= 2
    ensures r.Some? ==> 1 <= r.value.bps <= 32 && 1 <= r.value.n <= c.frameLength && r.value.extra <= 24
  {
    var hasSize := Window(s, pos + 16, 1) == 1;
    var extra := 8 * Window(s, pos + 17, 2);
    assert Window(s, pos + 17, 2) < 4 by { WindowBound(s, pos + 17, 2); Pow2Small(); }
    var bps := c.sampleSize - extra + ch - 1;
    if bps > 32 || bps < 1 then None
    else
      var compressed := Window(s, pos + 19, 1) == 0;
      var n := if hasSize then Window(s, pos + 20, 32) else c.frameLength;
      if n == 0 || n > c.frameLength then None
      else if nb != 0 && n != nb then None
      else Some(Front(extra, bps, compressed, n, pos + 20 + if hasSize then 32 else 0))
  }

  // The bits of a front: any 16, then the fields. A size may be sent or not
  // when it is the frame's.
  function FrontBits(skip: seq<bit>, hasSize: bool, extra: nat, compressed: bool, n: nat): seq<bit> {
    skip + FrontFields(hasSize, extra, compressed, n)
  }

  function FrontFields(hasSize: bool, extra: nat, compressed: bool, n: nat): seq<bit> {
    ToBits(if hasSize then 1 else 0, 1) + (ToBits(extra / 8, 2) +
      (ToBits(if compressed then 0 else 1, 1) + (if hasSize then ToBits(n, 32) + [] else [])))
  }

  predicate FrontOk(skip: seq<bit>, hasSize: bool, extra: nat, n: nat, c: Config, ch: nat) {
    && |skip| == 16
    && (extra == 0 || extra == 8 || extra == 16 || extra == 24)
    && 1 <= c.sampleSize - extra + ch - 1 <= 32
    && 1 <= n <= c.frameLength
    && (!hasSize ==> n == c.frameLength)
  }

  lemma ReadFrontInverts(s: seq<bit>, pos: nat, skip: seq<bit>, hasSize: bool, extra: nat, compressed: bool, n: nat,
      c: Config, ch: nat, nb: nat)
    requires Admitted(c) && 1 <= ch <= 2 && FrontOk(skip, hasSize, extra, n, c, ch) && (nb == 0 || nb == n)
    requires At(s, pos, FrontBits(skip, hasSize, extra, compressed, n))
    ensures ReadFront(s, pos, c, ch, nb)
         == Some(Front(extra, c.sampleSize - extra + ch - 1, compressed, n,
                       pos + |FrontBits(skip, hasSize, extra, compressed, n)|))
  {
    hide At, ToBits, Window, Pow2;
    var coded, sized := if compressed then 0 else 1, if hasSize then 1 else 0;
    var size := if hasSize then ToBits(n, 32) + [] else [];
    var coding := ToBits(coded, 1) + size;
    Pow2Small();
    AtConcat(s, pos, skip, FrontFields(hasSize, extra, compressed, n));
    FieldRead(s, pos + 16, sized, 1, ToBits(extra / 8, 2) + coding);
    FieldRead(s, pos + 17, extra / 8, 2, coding);
    FieldRead(s, pos + 19, coded, 1, size);
    if hasSize {
      Pow2Large();
      FieldRead(s, pos + 20, n, 32, []);
    }
  }

  // ---- the channels' headers ----

  datatype ChanRead = ChanRead(h: Chan, pos: nat)

  // The coefficients come last first.
  function ReadCoefs(s: seq<bit>, pos: nat, order: nat): (r: seq<i16>)
    ensures |r| == order
    decreases order
  {
    if order == 0 then [] else ReadCoefs(s, pos + 16, order - 1) + [S16(Window(s, pos, 16))]
  }

  function ReadChan(s: seq<bit>, pos: nat, c: Config): (r: Option<ChanRead>)
    ensures r.Some? ==> ChanOk(r.value.h, c)
  {
    var ptype, quant := Window(s, pos, 4), Window(s, pos + 4, 4);
    var mult, order := Window(s, pos + 8, 3), Window(s, pos + 11, 5);
    WindowBound(s, pos, 4); WindowBound(s, pos + 4, 4); WindowBound(s, pos + 8, 3); WindowBound(s, pos + 11, 5);
    Pow2Small();
    if order >= c.frameLength || quant == 0 then None
    else Some(ChanRead(Chan(ptype, quant, mult, ReadCoefs(s, pos + 16, order)), pos + 16 + 16 * order))
  }

  function U16(x: int): nat {
    x % 0x1_0000
  }

  function CoefsBits(coefs: seq<i16>): (e: seq<bit>)
    ensures |e| == 16 * |coefs|
    decreases |coefs|
  {
    if coefs == [] then []
    else ToBits(U16(coefs[|coefs| - 1]), 16) + CoefsBits(coefs[..|coefs| - 1])
  }

  function ChanBits(h: Chan): seq<bit> {
    ToBits(h.ptype, 4) + (ToBits(h.quant, 4) + (ToBits(h.mult, 3) + (ToBits(|h.coefs|, 5) + CoefsBits(h.coefs))))
  }

  lemma S16OfU16(x: i16)
    ensures S16(U16(x)) == x && 0 <= U16(x) < 0x1_0000
  {}

  lemma {:induction false} ReadCoefsInverts(s: seq<bit>, pos: nat, coefs: seq<i16>)
    requires At(s, pos, CoefsBits(coefs))
    ensures ReadCoefs(s, pos, |coefs|) == coefs
    decreases |coefs|
  {
    if coefs != [] {
      hide At, ToBits, Window, Pow2, U16, S16;
      var n := |coefs| - 1;
      Pow2Large();
      S16OfU16(coefs[n]);
      FieldRead(s, pos, U16(coefs[n]), 16, CoefsBits(coefs[..n]));
      ReadCoefsInverts(s, pos + 16, coefs[..n]);
      assert coefs == coefs[..n] + [coefs[n]];
    }
  }

  lemma ReadChanInverts(s: seq<bit>, pos: nat, h: Chan, c: Config)
    requires ChanOk(h, c) && At(s, pos, ChanBits(h))
    ensures ReadChan(s, pos, c) == Some(ChanRead(h, pos + |ChanBits(h)|))
  {
    hide At, ToBits, Window, Pow2, ReadCoefs, CoefsBits;
    var t3 := ToBits(|h.coefs|, 5) + CoefsBits(h.coefs);
    var t2 := ToBits(h.mult, 3) + t3;
    Pow2Small();
    FieldRead(s, pos, h.ptype, 4, ToBits(h.quant, 4) + t2);
    FieldRead(s, pos + 4, h.quant, 4, t2);
    FieldRead(s, pos + 8, h.mult, 3, t3);
    FieldRead(s, pos + 11, |h.coefs|, 5, CoefsBits(h.coefs));
    ReadCoefsInverts(s, pos + 16, h.coefs);
  }

  // ---- numbers sent a sample of each channel at a time ----

  datatype Planes = Planes(first: seq<nat>, second: seq<nat>)

  // The bits from one sample's numbers to the next's.
  function Stride(ch: nat, w: nat): nat {
    if ch == 2 then w + w else w
  }

  // The bits of n samples' numbers.
  function PlanesSize(n: nat, ch: nat, w: nat): nat {
    MulNonneg(n, Stride(ch, w));
    n * Stride(ch, w)
  }

  // n numbers of w bits for one channel, or n pairs of them for two.
  function ReadPlanes(s: seq<bit>, pos: nat, n: nat, ch: nat, w: nat): (p: Planes)
    requires 1 <= ch <= 2
    ensures |p.first| == n && |p.second| == if ch == 2 then n else 0
    ensures forall i :: 0 <= i < |p.first| ==> p.first[i] < Pow2(w)
    ensures forall i :: 0 <= i < |p.second| ==> p.second[i] < Pow2(w)
    decreases n
  {
    if n == 0 then Planes([], [])
    else
      var rest := ReadPlanes(s, pos + Stride(ch, w), n - 1, ch, w);
      WindowBound(s, pos, w);
      WindowBound(s, pos + w, w);
      if ch == 1 then Planes([Window(s, pos, w)] + rest.first, [])
      else Planes([Window(s, pos, w)] + rest.first, [Window(s, pos + w, w)] + rest.second)
  }

  ghost predicate PlanesOk(p: Planes, n: nat, ch: nat, w: nat) {
    && |p.first| == n && |p.second| == (if ch == 2 then n else 0)
    && (forall i :: 0 <= i < |p.first| ==> p.first[i] < Pow2(w))
    && (forall i :: 0 <= i < |p.second| ==> p.second[i] < Pow2(w))
  }

  function Rest(p: Planes): Planes
    requires p.first != []
  {
    Planes(p.first[1..], if p.second == [] then [] else p.second[1..])
  }

  function PlanesBits(p: Planes, ch: nat, w: nat): (e: seq<bit>)
    requires 1 <= ch <= 2 && |p.second| == if ch == 2 then |p.first| else 0
    decreases |p.first|
  {
    if p.first == [] then []
    else if ch == 1 then ToBits(p.first[0], w) + PlanesBits(Rest(p), ch, w)
    else ToBits(p.first[0], w) + (ToBits(p.second[0], w) + PlanesBits(Rest(p), ch, w))
  }

  lemma RestOk(p: Planes, n: nat, ch: nat, w: nat)
    requires 1 <= ch <= 2 && PlanesOk(p, n, ch, w) && n > 0
    ensures PlanesOk(Rest(p), n - 1, ch, w)
    ensures p.first == [p.first[0]] + Rest(p).first && p.first[0] < Pow2(w)
    ensures ch == 2 ==> p.second == [p.second[0]] + Rest(p).second && p.second[0] < Pow2(w)
    ensures ch == 1 ==> p.second == Rest(p).second == []
  {
    hide Pow2;
  }

  lemma {:induction false} PlanesBitsLength(p: Planes, n: nat, ch: nat, w: nat)
    requires 1 <= ch <= 2 && PlanesOk(p, n, ch, w)
    ensures |PlanesBits(p, ch, w)| == PlanesSize(n, ch, w)
    decreases n
  {
    if n > 0 {
      hide Pow2, ToBits, PlanesOk;
      RestOk(p, n, ch, w);
      assert |p.first| == n by { assert PlanesOk(p, n, ch, w); }
      PlanesBitsLength(Rest(p), n - 1, ch, w);
      MulDistribute(n - 1, 1, Stride(ch, w));
    }
  }

  lemma {:induction false} ReadPlanesInverts(s: seq<bit>, pos: nat, p: Planes, n: nat, ch: nat, w: nat)
    requires 1 <= ch <= 2 && PlanesOk(p, n, ch, w)
    requires At(s, pos, PlanesBits(p, ch, w))
    ensures ReadPlanes(s, pos, n, ch, w) == p
    decreases n
  {
    hide At, ToBits, Window, Pow2, Rest;
    if n > 0 {
      RestOk(p, n, ch, w);
      var rest := PlanesBits(Rest(p), ch, w);
      if ch == 1 {
        FieldRead(s, pos, p.first[0], w, rest);
      } else {
        FieldRead(s, pos, p.first[0], w, ToBits(p.second[0], w) + rest);
        FieldRead(s, pos + w, p.second[0], w, rest);
      }
      ReadPlanesInverts(s, pos + Stride(ch, w), Rest(p), n - 1, ch, w);
    }
  }

  lemma PlanesSizeNext(i: nat, ch: nat, w: nat)
    ensures PlanesSize(i + 1, ch, w) == PlanesSize(i, ch, w) + Stride(ch, w)
    ensures PlanesSize(0, ch, w) == 0
  {
    MulDistribute(i, 1, Stride(ch, w));
  }

  // Where the numbers of sample i stand.
  lemma {:induction false} PlanesAt(s: seq<bit>, pos: nat, n: nat, ch: nat, w: nat, i: nat)
    requires 1 <= ch <= 2 && i < n
    ensures ReadPlanes(s, pos, n, ch, w).first[i] == Window(s, pos + PlanesSize(i, ch, w), w)
    ensures ch == 2 ==> ReadPlanes(s, pos, n, ch, w).second[i] == Window(s, pos + PlanesSize(i, ch, w) + w, w)
    decreases i
  {
    hide Window, Pow2, PlanesSize;
    if i == 0 {
      PlanesSizeNext(0, ch, w);
    } else {
      PlanesAt(s, pos + Stride(ch, w), n - 1, ch, w, i - 1);
      PlanesSizeNext(i - 1, ch, w);
    }
  }
}
