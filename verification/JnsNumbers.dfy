// The file of tools/gguf2jns.c in numbers: where each part of it is, and
// what can be copied to it.

module JnsNumbers {
  import opened Bits
  import opened Ints
  import opened Jns
  import opened JnsSlots
  import opened JnsFile

  // The least multiple of a from x on.
  predicate Up(x: int, r: int, a: nat)
    requires a > 0
  {
    x <= r < x + a && r % a == 0
  }

  // The tables follow a page: 112 bytes for a layer, eight each for a slot's
  // place and its checksum, and 128 for a tensor; then, on pages, the
  // metadata, the tensors and the slots.
  lemma PlacesInNumbers(layers: seq<Layer>, rs: seq<Resident>, experts: nat, metadataBytes: nat)
    ensures var p, n := PlacesOf(layers, rs, experts, metadataBytes), |layers|;
            && p.layers == 4096 && p.slots == p.layers + 112 * n && p.sums == p.slots + 8 * (n * experts)
            && p.directory == p.sums + 8 * (n * experts) && Up(p.directory + 128 * |rs|, p.metadata, 4096)
            && Up(p.metadata + metadataBytes, p.resident, 4096)
            && p.experts == ResidentAt(rs, p.resident, |rs|) && p.end == Start(layers, p.experts, n)
  {
    hide Start, ResidentAt, AlignUp;
  }

  // A tensor follows the one before it, on a page.
  lemma ResidentInNumbers(rs: seq<Resident>, start: nat, i: nat)
    requires i < |rs|
    ensures ResidentAt(rs, start, 0) == start
    ensures var n := match rs[i] case Whole(_, _, n) => n case Grown(_, _, _, _, newRows, newRb) => newRows * newRb;
            Up(ResidentAt(rs, start, i) + n, ResidentAt(rs, start, i + 1), 4096)
  {
    hide AlignUp;
  }

  // A layer's slots are of one size and follow one another, the first of it
  // the last of the layer before.
  lemma SlotInNumbers(layers: seq<Layer>, start: nat, l: nat, e: nat)
    requires l < |layers| && e < layers[l].experts
    ensures SlotAt(layers, start, 0, 0) == start
    ensures var next := if e + 1 < layers[l].experts then SlotAt(layers, start, l, e + 1)
                        else Start(layers, start, l + 1);
            next == SlotAt(layers, start, l, e) + SlotBytes(layers[l])
    ensures SlotAt(layers, start, l, 0) == Start(layers, start, l)
  {
    hide SlotBytes;
    var n := SlotBytes(layers[l]);
    if e + 1 == layers[l].experts { assert (e + 1) * n == e * n + n; }
  }

  // In a slot each matrix follows the one before it, 256 bytes apart or a
  // multiple of that, and the slot is whole pages.
  lemma MatrixInNumbers(layer: Layer, k: nat)
    requires |layer.pieces| == 3 && k < 3 && layer.pieces[k].Some?
    ensures End(layer.pieces, 0) == 0 && Up(End(layer.pieces, k), Offset(layer.pieces, k), 256)
    ensures var p := layer.pieces[k].value;
            End(layer.pieces, k + 1) == Offset(layer.pieces, k) + p.newRows * p.newRb
    ensures layer.experts > 0 ==> Up(End(layer.pieces, 3), SlotBytes(layer), 4096)
    ensures layer.experts == 0 ==> SlotBytes(layer) == 0
  {
    hide AlignUp;
  }

  lemma MissingInNumbers(pieces: seq<Option<Piece>>, k: nat)
    requires k < |pieces| && pieces[k].None?
    ensures End(pieces, k + 1) == End(pieces, k)
  {}

  // A matrix can be copied for an expert when its rows stay as long or grow
  // to 16 MiB at most, and the file holds them.
  lemma WritableInNumbers(parts: seq<Bytes>, p: Piece, e: nat)
    ensures Writable(parts, p, e)
            <==> && p.part < |parts| && p.rows <= p.newRows
                 && (p.rb == p.newRb || p.rb < p.newRb <= 16777216)
                 && (p.rows * p.rb == 0 || p.at + e * p.per + p.off + p.rows * p.rb <= |parts[p.part]|)
  {}

  lemma ResidentWritableInNumbers(parts: seq<Bytes>, r: Resident)
    ensures ResidentWritable(parts, r)
            <==> match r
                 case Whole(part, at, n) => part < |parts| && (n == 0 || at + n <= |parts[part]|)
                 case Grown(part, at, rows, rb, newRows, newRb) =>
                   && part < |parts| && rows <= newRows && (rb == newRb || rb < newRb <= 16777216)
                   && (rows * rb == 0 || at + rows * rb <= |parts[part]|)
  {}

  // A tensor's byte: the input's, or zero where its rows have grown.
  lemma ResidentByte(parts: seq<Bytes>, r: Resident, i: nat)
    requires ResidentReadable(parts, r) && r.Whole? && i < r.n
    ensures r.at + i < |parts[r.part]| && ResidentContent(parts, r)[i] == parts[r.part][r.at + i]
  {}

  // A widened tensor is a matrix of one expert.
  lemma GrownByte(parts: seq<Bytes>, r: Resident, row: nat, c: nat)
    requires ResidentReadable(parts, r) && r.Grown? && row < r.newRows && c < r.newRb
    ensures ByteHeld(parts, Piece(1, r.part, r.at, 0, 0, r.rows, r.rb, r.newRows, r.newRb), 0,
                     ResidentContent(parts, r), 0, row, c)
  {
    hide Matrix, Widened, Times, ByteHeld;
    var p := Piece(1, r.part, r.at, 0, 0, r.rows, r.rb, r.newRows, r.newRb);
    SameMatrix(parts, p, r);
    MatrixByte(parts, p, 0, row, c);
  }

  lemma AtFirst(p: Piece)
    ensures From(p, 0) == p.at + p.off
  {}

  lemma SameMatrix(parts: seq<Bytes>, p: Piece, r: Resident)
    requires ResidentReadable(parts, r) && r.Grown?
    requires p == Piece(1, r.part, r.at, 0, 0, r.rows, r.rb, r.newRows, r.newRb)
    ensures CanRead(parts, p, 0) && Matrix(parts, p, 0) == ResidentContent(parts, r)
  {
    hide Widened, Times;
    AtFirst(p);
  }
}
