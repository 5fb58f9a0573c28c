// The whole file of tools/gguf2jns.c: the tables' places, the resident
// tensors and the slots, one after another, and the run that writes them.

module JnsFile {
  import opened Bits
  import opened Ints
  import opened Jns
  import opened JnsSlots

  // An entry of the table of layers, and one of the directory of tensors.
  const LAYER_BYTES: nat := 112
  const TENSOR_BYTES: nat := 128

  // ---- where the slots are ----

  // Where the slots of layer l begin, those of the first at start.
  function Start(layers: seq<Layer>, start: nat, l: nat): nat
    requires l <= |layers|
  {
    if l == 0 then start else Start(layers, start, l - 1) + Times(layers[l - 1].experts, SlotBytes(layers[l - 1]))
  }

  function SlotAt(layers: seq<Layer>, start: nat, l: nat, e: nat): nat
    requires l < |layers|
  {
    Start(layers, start, l) + Times(e, SlotBytes(layers[l]))
  }

  lemma {:induction false} StartGrows(layers: seq<Layer>, start: nat, j: nat, l: nat)
    requires j <= l <= |layers|
    ensures Start(layers, start, j) <= Start(layers, start, l)
    decreases l
  {
    hide Times, SlotBytes;
    if j < l { StartGrows(layers, start, j, l - 1); }
  }

  lemma SlotInLayer(layers: seq<Layer>, start: nat, l: nat, e: nat)
    requires l < |layers| && e < layers[l].experts
    ensures SlotAt(layers, start, l, e) + SlotBytes(layers[l])
            == SlotAt(layers, start, l, e + 1) <= Start(layers, start, l + 1)
    ensures Start(layers, start, l) <= SlotAt(layers, start, l, e)
  {
    hide Times, SlotBytes;
    TimesOn(e, 1, SlotBytes(layers[l]));
    TimesOn(e + 1, layers[l].experts - e - 1, SlotBytes(layers[l]));
  }

  // A slot ends before a later one begins, and all lie between the start and
  // the end.
  lemma SlotsApart(layers: seq<Layer>, start: nat, l: nat, e: nat, l': nat, e': nat)
    requires l < |layers| && l' < |layers| && e < layers[l].experts && e' < layers[l'].experts
    requires (l < l' || (l == l' && e < e'))
    ensures SlotAt(layers, start, l, e) + SlotBytes(layers[l]) <= SlotAt(layers, start, l', e')
    ensures start <= SlotAt(layers, start, l, e)
    ensures SlotAt(layers, start, l', e') + SlotBytes(layers[l']) <= Start(layers, start, |layers|)
  {
    hide Times, SlotBytes;
    SlotInLayer(layers, start, l, e);
    SlotInLayer(layers, start, l', e');
    StartGrows(layers, start, 0, l);
    StartGrows(layers, start, l' + 1, |layers|);
    if l < l' {
      StartGrows(layers, start, l + 1, l');
    } else {
      TimesOn(e + 1, e' - e - 1, SlotBytes(layers[l]));
    }
  }

  lemma {:induction false} TimesAligned(a: nat, b: nat)
    requires b % ALIGN == 0
    ensures Times(a, b) % ALIGN == 0
    decreases a
  {
    hide Times;
    if a == 0 { TimesOn(0, 0, b); } else { TimesOn(a - 1, 1, b); TimesAligned(a - 1, b); }
  }

  lemma {:induction false} StartAligned(layers: seq<Layer>, start: nat, l: nat)
    requires start % ALIGN == 0 && l <= |layers|
    ensures Start(layers, start, l) % ALIGN == 0
  {
    hide Times, SlotBytes;
    if l > 0 {
      StartAligned(layers, start, l - 1);
      TimesAligned(layers[l - 1].experts, SlotBytes(layers[l - 1]));
    }
  }

  // A slot can be read with one aligned request.
  lemma SlotAligned(layers: seq<Layer>, start: nat, l: nat, e: nat)
    requires start % ALIGN == 0 && l < |layers|
    ensures SlotAt(layers, start, l, e) % ALIGN == 0 && SlotBytes(layers[l]) % ALIGN == 0
  {
    hide Times, SlotBytes;
    StartAligned(layers, start, l);
    TimesAligned(e, SlotBytes(layers[l]));
  }

  // ---- where the rest is ----

  // A tensor that stays resident: copied whole, or widened.
  datatype Resident =
    | Whole(part: nat, at: nat, n: nat)
    | Grown(part: nat, at: nat, rows: nat, rb: nat, newRows: nat, newRb: nat)

  function NewBytes(r: Resident): nat {
    if r.Whole? then r.n else Times(r.newRows, r.newRb)
  }

  predicate ResidentSound(parts: seq<Bytes>, r: Resident) {
    r.part < |parts| && (r.Grown? ==> r.rows <= r.newRows)
  }

  predicate ResidentReadable(parts: seq<Bytes>, r: Resident) {
    && ResidentSound(parts, r)
    && (r.Whole? ==> Has(parts[r.part], r.at, r.n))
    && (r.Grown? ==> r.rb <= r.newRb && Has(parts[r.part], r.at, Times(r.rows, r.rb)))
  }

  // A tensor that can be copied.
  predicate ResidentWritable(parts: seq<Bytes>, r: Resident) {
    && ResidentSound(parts, r)
    && if r.Whole? then Has(parts[r.part], r.at, r.n) else Copyable(parts[r.part], r.at, r.rows, r.rb, r.newRb)
  }

  function ResidentContent(parts: seq<Bytes>, r: Resident): (b: Bytes)
    requires ResidentReadable(parts, r)
    ensures |b| == NewBytes(r)
  {
    if r.Whole? then Data(parts[r.part], r.at, r.n) else Widened(parts[r.part], r.at, r.rows, r.rb, r.newRows, r.newRb)
  }

  function ResidentAt(rs: seq<Resident>, start: nat, i: nat): (at: nat)
    requires i <= |rs|
    ensures at >= start && (start % ALIGN == 0 ==> at % ALIGN == 0)
  {
    if i == 0 then start else AlignUp(ResidentAt(rs, start, i - 1) + NewBytes(rs[i - 1]), ALIGN)
  }

  lemma {:induction false} ResidentsApart(rs: seq<Resident>, start: nat, i: nat, j: nat)
    requires i < j <= |rs|
    ensures ResidentAt(rs, start, i) + NewBytes(rs[i]) <= ResidentAt(rs, start, j)
    decreases j
  {
    hide NewBytes;
    if i < j - 1 { ResidentsApart(rs, start, i, j - 1); }
  }

  // The tables, the metadata and what follows them.
  datatype Places = Places(layers: nat, slots: nat, sums: nat, directory: nat, metadata: nat, resident: nat,
      experts: nat, end: nat)

  function PlacesOf(layers: seq<Layer>, rs: seq<Resident>, experts: nat, metadataBytes: nat): Places {
    var slots := ALIGN + Times(|layers|, LAYER_BYTES);
    var table := 8 * Times(|layers|, experts);
    var metadata := AlignUp(slots + 2 * table + Times(|rs|, TENSOR_BYTES), ALIGN);
    var resident := AlignUp(metadata + metadataBytes, ALIGN);
    var at := ResidentAt(rs, resident, |rs|);
    Places(ALIGN, slots, slots + table, slots + 2 * table, metadata, resident, at, Start(layers, at, |layers|))
  }

  // Each table holds its entries before the next begins; what is read with
  // aligned requests is aligned.
  lemma PlacesApart(layers: seq<Layer>, rs: seq<Resident>, experts: nat, metadataBytes: nat)
    ensures var p := PlacesOf(layers, rs, experts, metadataBytes);
            && p.layers + Times(|layers|, LAYER_BYTES) <= p.slots && p.slots + 8 * Times(|layers|, experts) <= p.sums
            && p.sums + 8 * Times(|layers|, experts) <= p.directory
               && p.directory + Times(|rs|, TENSOR_BYTES) <= p.metadata
            && p.metadata + metadataBytes <= p.resident <= p.experts <= p.end
            && p.layers % ALIGN == p.metadata % ALIGN == p.resident % ALIGN == p.experts % ALIGN == p.end % ALIGN == 0
            && (forall i :: 0 <= i < |rs| ==>
                  && ResidentAt(rs, p.resident, i) % ALIGN == 0
                  && ResidentAt(rs, p.resident, i) + NewBytes(rs[i]) <= p.experts)
  {
    hide Times, NewBytes, SlotBytes, Start, AlignUp;
    var p := PlacesOf(layers, rs, experts, metadataBytes);
    StartGrows(layers, p.experts, 0, |layers|);
    StartNone(layers, p.experts);
    StartAligned(layers, p.experts, |layers|);
    forall i | 0 <= i < |rs|
      ensures ResidentAt(rs, p.resident, i) % ALIGN == 0 && ResidentAt(rs, p.resident, i) + NewBytes(rs[i]) <= p.experts
    {
      ResidentsApart(rs, p.resident, i, |rs|);
    }
  }

  lemma StartNone(layers: seq<Layer>, start: nat)
    ensures Start(layers, start, 0) == start
  {}

  // ---- the run ----

  // The file holds expert e's slot at at, and sum is the checksum of it.
  ghost predicate Held(parts: seq<Bytes>, layer: Layer, f: Bytes, at: nat, e: nat, carry: Carry, sum: nat) {
    && e < layer.experts && Readable(parts, layer.pieces, e, |layer.pieces|) && at + SlotBytes(layer) <= |f|
    && f[at..at + SlotBytes(layer)] == SlotContent(parts, layer, e)
    && sum == Fold(carry, 0, f[at..at + SlotBytes(layer)])
  }

  // The first n slots of a layer are held, those it is without have no sum.
  ghost predicate LayerHeld(parts: seq<Bytes>, layers: seq<Layer>, start: nat, f: Bytes, l: nat, carry: Carry,
                            sums: seq<nat>) {
    && l < |layers|
    && forall e :: 0 <= e < |sums| ==>
         if e < layers[l].experts then Held(parts, layers[l], f, SlotAt(layers, start, l, e), e, carry, sums[e])
         else sums[e] == 0
  }

  // What is below at stays as it was.
  ghost predicate SameBelow(f: Bytes, f': Bytes, at: nat) {
    at <= |f| == |f'| && f[..at] == f'[..at]
  }

  lemma HeldStays(parts: seq<Bytes>, layer: Layer, f: Bytes, f': Bytes, at: nat, e: nat, carry: Carry, sum: nat,
                  below: nat)
    requires Held(parts, layer, f, at, e, carry, sum) && SameBelow(f, f', below) && at + SlotBytes(layer) <= below
    ensures Held(parts, layer, f', at, e, carry, sum)
  {
    hide SlotBytes, SlotContent, Readable, Fold, SameBelow;
    SameSlice(f, f', at, at + SlotBytes(layer), below);
  }

  lemma SameSlice(f: Bytes, f': Bytes, a: nat, b: nat, below: nat)
    requires SameBelow(f, f', below) && a <= b <= below
    ensures |f| == |f'| && b <= |f| && f[a..b] == f'[a..b]
  {
    assert f'[a..b] == f'[..below][a..b] && f[a..b] == f[..below][a..b];
  }

  lemma LayerHeldStays(parts: seq<Bytes>, layers: seq<Layer>, start: nat, f: Bytes, f': Bytes, l: nat, carry: Carry,
                       sums: seq<nat>, below: nat)
    requires LayerHeld(parts, layers, start, f, l, carry, sums) && SameBelow(f, f', below)
    requires if |sums| < layers[l].experts then SlotAt(layers, start, l, |sums|) <= below
             else Start(layers, start, l + 1) <= below
    ensures LayerHeld(parts, layers, start, f', l, carry, sums)
  {
    hide SlotAt, Start, Held, SlotBytes;
    forall e | 0 <= e < |sums| && e < layers[l].experts
      ensures Held(parts, layers[l], f', SlotAt(layers, start, l, e), e, carry, sums[e]) {
      SlotBefore(layers, start, l, e, |sums|);
      HeldStays(parts, layers[l], f, f', SlotAt(layers, start, l, e), e, carry, sums[e], below);
    }
  }

  lemma SlotBefore(layers: seq<Layer>, start: nat, l: nat, e: nat, n: nat)
    requires l < |layers| && e < layers[l].experts && e < n
    ensures SlotAt(layers, start, l, e) + SlotBytes(layers[l])
            <= if n < layers[l].experts then SlotAt(layers, start, l, n) else Start(layers, start, l + 1)
  {
    hide SlotAt, Start, SlotBytes;
    SlotInLayer(layers, start, l, e);
    if n < layers[l].experts { SlotsApart(layers, start, l, e, l, n); }
  }

  // From at on the file is zero.
  ghost predicate ZeroFrom(f: Bytes, at: nat) {
    at <= |f| && ZeroAt(f, at, |f| - at)
  }

  // A slot written, and what is after it zero as before.
  lemma SlotWritten(parts: seq<Bytes>, layer: Layer, f: Bytes, at: nat, e: nat, carry: Carry, sum: nat)
    requires e < layer.experts && Readable(parts, layer.pieces, e, |layer.pieces|) && ZeroFrom(f, at)
    requires at + SlotBytes(layer) <= |f|
    requires sum == Fold(carry, 0, SlotContent(parts, layer, e))
    ensures var f' := Patch(f, at, SlotContent(parts, layer, e));
            SameBelow(f, f', at) && Held(parts, layer, f', at, e, carry, sum) && ZeroFrom(f', at + SlotBytes(layer))
  {
    hide SlotBytes, SlotContent, Readable, Fold, Patch;
    PatchAt(f, at, SlotContent(parts, layer, e));
    ZeroLater(f, Patch(f, at, SlotContent(parts, layer, e)), at, SlotBytes(layer));
  }

  lemma ZeroLater(f: Bytes, f': Bytes, at: nat, n: nat)
    requires ZeroFrom(f, at) && at + n <= |f| == |f'| && f'[at + n..] == f[at + n..]
    ensures ZeroFrom(f', at + n) && ZeroAt(f, at, n)
  {
    ZeroPart(f, at, |f| - at, n, |f| - at - n);
    ZeroPart(f, at, |f| - at, 0, n);
    assert f'[at + n..] == f'[at + n..|f'|] && f[at + n..] == f[at + n..|f|];
  }

  // The first n slots of a layer can be written.
  ghost predicate LayerWritable(parts: seq<Bytes>, layer: Layer, n: nat) {
    forall e :: 0 <= e < n && e < layer.experts ==> SlotWritable(parts, layer.pieces, e, |layer.pieces|)
  }

  // The slots of a layer and their checksums.
  method WriteLayer(parts: seq<Bytes>, layers: seq<Layer>, l: nat, experts: nat, file: array<byte>, obuf: array<byte>,
                    start: nat, carry: Carry)
      returns (ok: bool, sums: seq<nat>)
    requires AllSound(parts, layers) && l < |layers| && layers[l].experts <= experts && obuf.Length == 2 * COPY_CHUNK
    requires obuf != file
    requires ZeroFrom(file[..], Start(layers, start, l)) && Start(layers, start, l + 1) <= file.Length
    modifies file, obuf
    ensures ok <==> LayerWritable(parts, layers[l], experts)
    ensures ok ==> |sums| == experts && LayerHeld(parts, layers, start, file[..], l, carry, sums)
    ensures ok ==> SameBelow(old(file[..]), file[..], Start(layers, start, l))
    ensures ok ==> ZeroFrom(file[..], Start(layers, start, l + 1))
  {
    hide SlotAt, Start, SlotBytes, Held, Readable, SlotWritable, SlotContent, Fold, Patch, LayerHeld, ZeroFrom,
      SameBelow, Sound;
    ghost var f0 := file[..];
    sums := [];
    LayerStarts(parts, layers, start, f0, l, carry);
    for e := 0 to experts
      invariant |sums| == e && LayerHeld(parts, layers, start, file[..], l, carry, sums)
      invariant LayerWritable(parts, layers[l], e)
      invariant SameBelow(f0, file[..], Start(layers, start, l))
      invariant ZeroFrom(file[..],
                         if e < layers[l].experts then SlotAt(layers, start, l, e) else Start(layers, start, l + 1))
    {
      if e >= layers[l].experts {
        NoSlot(parts, layers, start, file[..], l, carry, sums);
        sums := sums + [0];
        continue;
      }
      ghost var f := file[..];
      SlotPlace(layers, start, l, e);
      ZeroSlot(f, SlotAt(layers, start, l, e), SlotBytes(layers[l]));
      var sum;
      ok, sum := WriteSlot(parts, layers[l], e, file, obuf, SlotAt(layers, start, l, e), carry);
      if !ok {
        return;
      }
      SlotWritten(parts, layers[l], f, SlotAt(layers, start, l, e), e, carry, sum);
      LayerHeldStays(parts, layers, start, f, file[..], l, carry, sums, SlotAt(layers, start, l, e));
      OneMoreHeld(parts, layers, start, file[..], l, carry, sums, sum);
      SameBelowOn(f0, f, file[..], Start(layers, start, l), SlotAt(layers, start, l, e));
      sums := sums + [sum];
    }
    ok := true;
  }

  lemma LayerStarts(parts: seq<Bytes>, layers: seq<Layer>, start: nat, f: Bytes, l: nat, carry: Carry)
    requires l < |layers| && ZeroFrom(f, Start(layers, start, l))
    ensures LayerHeld(parts, layers, start, f, l, carry, []) && SameBelow(f, f, Start(layers, start, l))
    ensures SlotAt(layers, start, l, 0) == Start(layers, start, l)
    ensures layers[l].experts == 0 ==> Start(layers, start, l + 1) == Start(layers, start, l)
  {
    hide Times, SlotBytes;
    TimesOn(0, 0, SlotBytes(layers[l]));
  }

  // Where a slot is in its layer, and where the next is.
  lemma SlotPlace(layers: seq<Layer>, start: nat, l: nat, e: nat)
    requires l < |layers| && e < layers[l].experts
    ensures Start(layers, start, l) <= SlotAt(layers, start, l, e)
    ensures SlotAt(layers, start, l, e) + SlotBytes(layers[l]) <= Start(layers, start, l + 1)
    ensures SlotAt(layers, start, l, e) + SlotBytes(layers[l])
            == if e + 1 < layers[l].experts then SlotAt(layers, start, l, e + 1) else Start(layers, start, l + 1)
  {
    hide Times, SlotBytes;
    SlotInLayer(layers, start, l, e);
  }

  lemma ZeroSlot(f: Bytes, at: nat, n: nat)
    requires ZeroFrom(f, at) && at + n <= |f|
    ensures ZeroAt(f, at, n)
  {
    ZeroPart(f, at, |f| - at, 0, n);
  }

  lemma NoSlot(parts: seq<Bytes>, layers: seq<Layer>, start: nat, f: Bytes, l: nat, carry: Carry, sums: seq<nat>)
    requires LayerHeld(parts, layers, start, f, l, carry, sums) && |sums| >= layers[l].experts
    ensures LayerHeld(parts, layers, start, f, l, carry, sums + [0])
  {
    hide Held, SlotAt;
  }

  lemma OneMoreHeld(parts: seq<Bytes>, layers: seq<Layer>, start: nat, f: Bytes, l: nat, carry: Carry, sums: seq<nat>,
                    sum: nat)
    requires LayerHeld(parts, layers, start, f, l, carry, sums) && |sums| < layers[l].experts
    requires Held(parts, layers[l], f, SlotAt(layers, start, l, |sums|), |sums|, carry, sum)
    ensures LayerHeld(parts, layers, start, f, l, carry, sums + [sum])
  {
    hide Held, SlotAt;
  }

  lemma SameBelowOn(f0: Bytes, f: Bytes, f': Bytes, a: nat, b: nat)
    requires SameBelow(f0, f, a) && SameBelow(f, f', b) && a <= b
    ensures SameBelow(f0, f', a)
  {
    assert f'[..a] == f'[..b][..a] == f[..b][..a];
  }

  // ---- the resident tensors ----

  ghost predicate ResidentHeld(parts: seq<Bytes>, r: Resident, f: Bytes, at: nat) {
    ResidentReadable(parts, r) && at + NewBytes(r) <= |f| && f[at..at + NewBytes(r)] == ResidentContent(parts, r)
  }

  ghost predicate ResidentsHeld(parts: seq<Bytes>, rs: seq<Resident>, start: nat, f: Bytes, n: nat) {
    n <= |rs| && forall i :: 0 <= i < n ==> ResidentHeld(parts, rs[i], f, ResidentAt(rs, start, i))
  }

  lemma ResidentsStay(parts: seq<Bytes>, rs: seq<Resident>, start: nat, f: Bytes, f': Bytes, n: nat, below: nat)
    requires ResidentsHeld(parts, rs, start, f, n) && SameBelow(f, f', below) && ResidentAt(rs, start, n) <= below
    ensures ResidentsHeld(parts, rs, start, f', n)
  {
    hide ResidentAt, NewBytes, ResidentContent, ResidentReadable, SameBelow;
    forall i | 0 <= i < n ensures ResidentHeld(parts, rs[i], f', ResidentAt(rs, start, i)) {
      ResidentsApart(rs, start, i, n);
      SameSlice(f, f', ResidentAt(rs, start, i), ResidentAt(rs, start, i) + NewBytes(rs[i]), below);
    }
  }

  // A tensor to its place: as it is, or widened where its bytes are more.
  method WriteResident(parts: seq<Bytes>, r: Resident, file: array<byte>, obuf: array<byte>, at: nat) returns (ok: bool)
    requires ResidentSound(parts, r) && obuf.Length == 2 * COPY_CHUNK && obuf != file
    requires ZeroFrom(file[..], at) && at + NewBytes(r) <= file.Length
    modifies file, obuf
    ensures ok <==> ResidentWritable(parts, r)
    ensures ok ==> ResidentReadable(parts, r) && file[..] == Patch(old(file[..]), at, ResidentContent(parts, r))
  {
    hide Times, Patch, Fold, Widened;
    ZeroSlot(file[..], at, NewBytes(r));
    var sum;
    match r {
      case Whole(part, from, n) =>
        ok, sum := Copy(parts[part], from, n, file, at, (s, b) => s, 0, false);
      case Grown(part, from, rows, rb, newRows, newRb) =>
        ok, sum := CopyRows(parts[part], from, rows, rb, newRows, newRb, file, obuf, at, (s, b) => s, 0, false);
    }
  }

  method WriteResidents(parts: seq<Bytes>, rs: seq<Resident>, file: array<byte>, obuf: array<byte>,
                        start: nat) returns (ok: bool)
    requires (forall i :: 0 <= i < |rs| ==> ResidentSound(parts, rs[i])) && obuf.Length == 2 * COPY_CHUNK
    requires obuf != file
    requires ZeroFrom(file[..], start) && ResidentAt(rs, start, |rs|) <= file.Length
    modifies file, obuf
    ensures ok <==> forall i :: 0 <= i < |rs| ==> ResidentWritable(parts, rs[i])
    ensures ok ==> ResidentsHeld(parts, rs, start, file[..], |rs|) && ZeroFrom(file[..], ResidentAt(rs, start, |rs|))
    ensures ok ==> SameBelow(old(file[..]), file[..], start)
  {
    hide ResidentAt, NewBytes, ResidentContent, ResidentReadable, ResidentWritable, ResidentSound, ResidentHeld,
      ZeroFrom, SameBelow, Patch, AlignUp;
    ghost var f0 := file[..];
    ResidentsStart(rs, start, f0);
    for i := 0 to |rs|
      invariant ResidentsHeld(parts, rs, start, file[..], i) && ZeroFrom(file[..], ResidentAt(rs, start, i))
      invariant SameBelow(f0, file[..], start) && forall j :: 0 <= j < i ==> ResidentWritable(parts, rs[j])
    {
      ghost var f, at := file[..], ResidentAt(rs, start, i);
      ResidentsApart(rs, start, i, i + 1);
      ResidentsGrow(rs, start, i + 1, |rs|);
      ok := WriteResident(parts, rs[i], file, obuf, ResidentAt(rs, start, i));
      if !ok {
        return;
      }
      ResidentWritten(parts, rs[i], f, at, ResidentAt(rs, start, i + 1));
      ResidentsStay(parts, rs, start, f, file[..], i, at);
      SameBelowOn(f0, f, file[..], start, at);
    }
    ok := true;
  }

  lemma ResidentsStart(rs: seq<Resident>, start: nat, f: Bytes)
    requires ZeroFrom(f, start)
    ensures ResidentAt(rs, start, 0) == start && SameBelow(f, f, start)
  {}

  lemma {:induction false} ResidentsGrow(rs: seq<Resident>, start: nat, i: nat, j: nat)
    requires i <= j <= |rs|
    ensures ResidentAt(rs, start, i) <= ResidentAt(rs, start, j)
    decreases j
  {
    hide NewBytes;
    if i < j { ResidentsGrow(rs, start, i, j - 1); }
  }

  lemma ResidentWritten(parts: seq<Bytes>, r: Resident, f: Bytes, at: nat, next: nat)
    requires ResidentReadable(parts, r) && ZeroFrom(f, at) && at + NewBytes(r) <= next <= |f|
    ensures var f' := Patch(f, at, ResidentContent(parts, r));
            SameBelow(f, f', at) && ResidentHeld(parts, r, f', at) && ZeroFrom(f', next)
  {
    hide Patch, NewBytes, ResidentContent, ResidentReadable;
    var f' := Patch(f, at, ResidentContent(parts, r));
    PatchAt(f, at, ResidentContent(parts, r));
    ZeroLater(f, f', at, NewBytes(r));
    ZeroPart(f', at + NewBytes(r), |f'| - at - NewBytes(r), next - at - NewBytes(r), |f'| - next);
  }

  // ---- everything ----

  // Where each slot is, 0 for one that is absent.
  method SlotOffsets(layers: seq<Layer>, experts: nat, start: nat) returns (slots: seq<seq<nat>>, pos: nat)
    requires forall l :: 0 <= l < |layers| ==> layers[l].experts <= experts
    ensures pos == Start(layers, start, |layers|) && |slots| == |layers|
    ensures forall l :: 0 <= l < |layers| ==> OffsetsRight(layers, experts, start, l, slots[l])
  {
    hide SlotBytes, SlotAt, OffsetsRight, Times;
    slots, pos := [], start;
    StartNone(layers, start);
    for l := 0 to |layers|
      invariant pos == Start(layers, start, l) && |slots| == l
      invariant forall k :: 0 <= k < l ==> OffsetsRight(layers, experts, start, k, slots[k])
    {
      var row: seq<nat>;
      row, pos := LayerOffsets(layers, experts, start, l, pos);
      slots := slots + [row];
    }
  }

  ghost predicate OffsetsRight(layers: seq<Layer>, experts: nat, start: nat, l: nat, row: seq<nat>) {
    l < |layers| && |row| == experts
    && forall e :: 0 <= e < experts ==> row[e] == if e < layers[l].experts then SlotAt(layers, start, l, e) else 0
  }

  method LayerOffsets(layers: seq<Layer>, experts: nat, start: nat, l: nat, pos0: nat) returns (row: seq<nat>, pos: nat)
    requires l < |layers| && layers[l].experts <= experts && pos0 == Start(layers, start, l)
    ensures OffsetsRight(layers, experts, start, l, row) && pos == Start(layers, start, l + 1)
  {
    hide SlotBytes, Times;
    row, pos := [], pos0;
    TimesOn(0, 0, SlotBytes(layers[l]));
    for e := 0 to experts
      invariant |row| == e && pos == SlotAt(layers, start, l, if e < layers[l].experts then e else layers[l].experts)
      invariant forall k :: 0 <= k < e ==> row[k] == if k < layers[l].experts then SlotAt(layers, start, l, k) else 0
    {
      row := row + [if e < layers[l].experts then pos else 0];
      if e < layers[l].experts {
        SlotInLayer(layers, start, l, e);
        pos := pos + SlotBytes(layers[l]);
      }
    }
  }

  // Writes the tensors and the slots of a model into a file of zeros. When
  // it ends well, every tensor and every slot is whole where the tables say,
  // and each slot's checksum is of the bytes the file holds there.
  method Convert(parts: seq<Bytes>, layers: seq<Layer>, rs: seq<Resident>, experts: nat, metadataBytes: nat,
                 carry: Carry)
      returns (ok: bool, file: array<byte>, slots: seq<seq<nat>>, sums: seq<seq<nat>>)
    requires AllSound(parts, layers) && forall l :: 0 <= l < |layers| ==> layers[l].experts <= experts
    requires forall i :: 0 <= i < |rs| ==> ResidentSound(parts, rs[i])
    ensures fresh(file) && file.Length == PlacesOf(layers, rs, experts, metadataBytes).end
    ensures ok <==> && (forall i :: 0 <= i < |rs| ==> ResidentWritable(parts, rs[i]))
                    && (forall l :: 0 <= l < |layers| ==> LayerWritable(parts, layers[l], experts))
    ensures ok ==> var p := PlacesOf(layers, rs, experts, metadataBytes);
                   && ResidentsHeld(parts, rs, p.resident, file[..], |rs|)
                   && |slots| == |sums| == |layers|
                   && (forall l :: 0 <= l < |layers| ==> OffsetsRight(layers, experts, p.experts, l, slots[l]))
                   && (forall l :: 0 <= l < |layers| ==>
                         |sums[l]| == experts && LayerHeld(parts, layers, p.experts, file[..], l, carry, sums[l]))
                   && ZeroAt(file[..], 0, p.resident)
    ensures ok ==> forall l, e :: 0 <= l < |layers| && 0 <= e < layers[l].experts ==>
                     MatricesHeld(parts, layers[l].pieces, e, file[..], slots[l][e])
  {
    hide PlacesOf, SlotBytes, SlotAt, Start, OffsetsRight, LayerHeld, ResidentsHeld, ResidentAt, ZeroFrom, ZeroAt,
      SameBelow, Sound, ResidentSound, ResidentWritable, LayerWritable, MatricesHeld;
    var p := PlacesOf(layers, rs, experts, metadataBytes);
    PlacesAre(layers, rs, experts, metadataBytes);
    slots, sums := [], [];
    file := new byte[p.end](_ => 0);
    var obuf := new byte[2 * COPY_CHUNK];
    var pos;
    slots, pos := SlotOffsets(layers, experts, p.experts);
    ghost var f0 := file[..];
    AllZero(f0, p.resident);
    ok := WriteResidents(parts, rs, file, obuf, p.resident);
    if !ok {
      return;
    }
    ghost var f1 := file[..];
    ok, sums := WriteSlots(parts, layers, experts, file, obuf, p.experts, carry);
    if !ok {
      return;
    }
    ResidentsStay(parts, rs, p.resident, f1, file[..], |rs|, p.experts);
    ZeroBelow(f0, f1, file[..], p.resident, p.experts);
    MatricesAreHeld(parts, layers, experts, p.experts, file[..], carry, slots, sums);
  }

  // Every expert's matrices are where the table of slots says.
  lemma MatricesAreHeld(parts: seq<Bytes>, layers: seq<Layer>, experts: nat, start: nat, f: Bytes, carry: Carry,
                        slots: seq<seq<nat>>, sums: seq<seq<nat>>)
    requires |slots| == |sums| == |layers| && forall l :: 0 <= l < |layers| ==> layers[l].experts <= experts
    requires forall l :: 0 <= l < |layers| ==> OffsetsRight(layers, experts, start, l, slots[l])
    requires forall l :: 0 <= l < |layers| ==>
      |sums[l]| == experts && LayerHeld(parts, layers, start, f, l, carry, sums[l])
    ensures forall l, e :: 0 <= l < |layers| && 0 <= e < layers[l].experts ==>
      |slots[l]| == experts && MatricesHeld(parts, layers[l].pieces, e, f, slots[l][e])
  {
    hide MatricesHeld, SlotAt, SlotBytes, SlotContent, Fold, Readable;
    forall l, e | 0 <= l < |layers| && 0 <= e < layers[l].experts
      ensures |slots[l]| == experts && MatricesHeld(parts, layers[l].pieces, e, f, slots[l][e])
    {
      assert OffsetsRight(layers, experts, start, l, slots[l]) && LayerHeld(parts, layers, start, f, l, carry, sums[l]);
      assert Held(parts, layers[l], f, SlotAt(layers, start, l, e), e, carry, sums[l][e]);
      SlotHoldsBytes(parts, layers[l], e, f, slots[l][e]);
    }
  }

  // The slots of every layer.
  method WriteSlots(parts: seq<Bytes>, layers: seq<Layer>, experts: nat, file: array<byte>, obuf: array<byte>,
                    start: nat, carry: Carry)
      returns (ok: bool, sums: seq<seq<nat>>)
    requires AllSound(parts, layers) && (forall l :: 0 <= l < |layers| ==> layers[l].experts <= experts)
    requires obuf.Length == 2 * COPY_CHUNK && obuf != file
    requires ZeroFrom(file[..], start) && Start(layers, start, |layers|) <= file.Length
    modifies file, obuf
    ensures ok <==> forall l :: 0 <= l < |layers| ==> LayerWritable(parts, layers[l], experts)
    ensures ok ==> SameBelow(old(file[..]), file[..], start) && |sums| == |layers|
    ensures ok ==> forall l :: 0 <= l < |layers| ==>
            |sums[l]| == experts && LayerHeld(parts, layers, start, file[..], l, carry, sums[l])
  {
    hide SlotBytes, SlotAt, Start, LayerHeld, LayerWritable, ZeroFrom, ZeroAt, SameBelow, Sound;
    ghost var f0 := file[..];
    sums := [];
    StartNone(layers, start);
    StartGrows(layers, start, 0, |layers|);
    SameBelowSelf(f0, start);
    for l := 0 to |layers|
      invariant |sums| == l && SameBelow(f0, file[..], start) && ZeroFrom(file[..], Start(layers, start, l))
      invariant forall k :: 0 <= k < l ==> LayerWritable(parts, layers[k], experts)
      invariant forall k :: 0 <= k < l ==>
                  |sums[k]| == experts && LayerHeld(parts, layers, start, file[..], k, carry, sums[k])
    {
      ghost var f := file[..];
      StartGrows(layers, start, 0, l);
      StartGrows(layers, start, l + 1, |layers|);
      var row: seq<nat>;
      ok, row := WriteLayer(parts, layers, l, experts, file, obuf, start, carry);
      if !ok {
        return;
      }
      LayersStay(parts, layers, start, f, file[..], l, experts, carry, sums);
      SameBelowOn(f0, f, file[..], start, Start(layers, start, l));
      sums := sums + [row];
    }
    ok := true;
  }

  lemma LayersStay(parts: seq<Bytes>, layers: seq<Layer>, start: nat, f: Bytes, f': Bytes, l: nat, experts: nat,
                   carry: Carry, sums: seq<seq<nat>>)
    requires |sums| == l <= |layers| && SameBelow(f, f', Start(layers, start, l))
    requires forall k :: 0 <= k < l ==>
               layers[k].experts <= experts == |sums[k]| && LayerHeld(parts, layers, start, f, k, carry, sums[k])
    ensures forall k :: 0 <= k < l ==> LayerHeld(parts, layers, start, f', k, carry, sums[k])
  {
    hide SlotBytes, SlotAt, Start, LayerHeld, SameBelow;
    forall k | 0 <= k < l ensures LayerHeld(parts, layers, start, f', k, carry, sums[k]) {
      StartGrows(layers, start, k + 1, l);
      LayerHeldStays(parts, layers, start, f, f', k, carry, sums[k], Start(layers, start, l));
    }
  }

  lemma SameBelowSelf(f: Bytes, at: nat)
    requires at <= |f|
    ensures SameBelow(f, f, at)
  {}

  lemma AllZero(f: Bytes, at: nat)
    requires at <= |f| && forall k :: 0 <= k < |f| ==> f[k] == 0
    ensures ZeroFrom(f, at)
  {}

  lemma ZeroBelow(f0: Bytes, f1: Bytes, f2: Bytes, a: nat, b: nat)
    requires (forall k :: 0 <= k < |f0| ==> f0[k] == 0) && SameBelow(f0, f1, a) && SameBelow(f1, f2, b) && a <= b
    ensures ZeroAt(f2, 0, a)
  {
    SameBelowPart(f1, f2, a, b);
    SameBelowOn(f0, f1, f2, a, a);
    assert f2[0..a] == f2[..a] == f0[..a];
  }

  lemma SameBelowPart(f: Bytes, f': Bytes, a: nat, b: nat)
    requires SameBelow(f, f', b) && a <= b
    ensures SameBelow(f, f', a)
  {
    assert f[..a] == f[..b][..a] && f'[..a] == f'[..b][..a];
  }

  lemma PlacesAre(layers: seq<Layer>, rs: seq<Resident>, experts: nat, metadataBytes: nat)
    ensures var p := PlacesOf(layers, rs, experts, metadataBytes);
            && p.experts == ResidentAt(rs, p.resident, |rs|) && p.end == Start(layers, p.experts, |layers|)
               && p.resident <= p.experts <= p.end
  {
    hide Times, AlignUp, SlotBytes, NewBytes;
    PlacesApart(layers, rs, experts, metadataBytes);
  }
}
