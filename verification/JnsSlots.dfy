// An expert's slot in the file tools/gguf2jns.c writes: where its matrices
// are, what it holds, and the run that writes it with its checksum.

module JnsSlots {
  import opened Bits
  import opened Ints
  import opened Jns

  // ---- a slot's matrices ----

  // A matrix of a slot: its type, which file it is in and where an expert's
  // rows are, their size, and their size as written.
  datatype Piece = Piece(kind: nat, part: nat, at: nat, per: nat, off: nat, rows: nat, rb: nat, newRows: nat,
      newRb: nat)

  // A layer's gate, up and down, a gate it may be without; and how many
  // experts it has.
  datatype Layer = Layer(pieces: seq<Option<Piece>>, experts: nat)

  predicate Sound(parts: seq<Bytes>, pieces: seq<Option<Piece>>) {
    |pieces| == 3 && forall k :: 0 <= k < 3 && pieces[k].Some? ==>
      pieces[k].value.part < |parts| && pieces[k].value.rows <= pieces[k].value.newRows
  }

  predicate AllSound(parts: seq<Bytes>, layers: seq<Layer>) {
    forall l :: 0 <= l < |layers| ==> Sound(parts, layers[l].pieces)
  }

  function Size(p: Piece): nat {
    Times(p.newRows, p.newRb)
  }

  function From(p: Piece, e: nat): nat {
    p.at + Times(e, p.per) + p.off
  }

  function AlignUp(x: nat, a: nat): (r: nat)
    requires a > 0
    ensures x <= r < x + a && r % a == 0
  {
    var q, m := (x + a - 1) / a, (x + a - 1) % a;
    QuotientBounds(x + a - 1, a, 0);
    assert x + a - 1 == q * a + m;
    DivModUnique(q * a, a, q, 0);
    q * a
  }

  // Where the first k matrices end.
  function End(pieces: seq<Option<Piece>>, k: nat): nat
    requires k <= |pieces|
    decreases k, 0
  {
    if k == 0 then 0
    else if pieces[k - 1].None? then End(pieces, k - 1)
    else Offset(pieces, k - 1) + Size(pieces[k - 1].value)
  }

  // Where the next begins.
  function Offset(pieces: seq<Option<Piece>>, k: nat): (r: nat)
    requires k <= |pieces|
    ensures End(pieces, k) <= r && r % MATRIX_ALIGN == 0
    decreases k, 1
  {
    AlignUp(End(pieces, k), MATRIX_ALIGN)
  }

  function SlotBytes(layer: Layer): (n: nat)
    ensures n % ALIGN == 0
    ensures layer.experts > 0 ==> End(layer.pieces, |layer.pieces|) <= n
  {
    if layer.experts == 0 then 0 else AlignUp(End(layer.pieces, |layer.pieces|), ALIGN)
  }

  lemma EndOn(pieces: seq<Option<Piece>>, k: nat)
    requires k < |pieces|
    ensures End(pieces, k) <= End(pieces, k + 1)
    ensures pieces[k].None? ==> End(pieces, k + 1) == End(pieces, k)
    ensures pieces[k].Some? ==> End(pieces, k + 1) == Offset(pieces, k) + Size(pieces[k].value)
    ensures pieces[k].Some? ==> End(pieces, k) <= Offset(pieces, k)
  {
    hide AlignUp, Size;
  }

  lemma {:induction false} EndGrows(pieces: seq<Option<Piece>>, j: nat, k: nat)
    requires j <= k <= |pieces|
    ensures End(pieces, j) <= End(pieces, k)
    decreases k
  {
    hide End, Offset, Size;
    if j < k {
      EndGrows(pieces, j, k - 1);
      EndOn(pieces, k - 1);
    }
  }

  // Matrices are aligned, apart and inside the slot.
  lemma MatricesApart(layer: Layer, j: nat, k: nat)
    requires j <= k < |layer.pieces| && layer.pieces[j].Some? && layer.pieces[k].Some? && layer.experts > 0
    ensures var p, n := layer.pieces, SlotBytes(layer);
            && Offset(p, j) % MATRIX_ALIGN == 0
            && (j < k ==> Offset(p, j) + Size(p[j].value) <= Offset(p, k))
            && Offset(p, k) + Size(p[k].value) <= n
  {
    hide End, Offset, Size, SlotBytes;
    EndOn(layer.pieces, j);
    EndOn(layer.pieces, k);
    EndGrows(layer.pieces, j + 1, if j < k then k else k + 1);
    EndGrows(layer.pieces, k + 1, |layer.pieces|);
  }

  // ---- what a slot holds ----

  // A matrix of type 0 is taken for one that is missing.
  predicate Copied(piece: Option<Piece>) {
    piece.Some? && piece.value.kind != 0
  }

  predicate CanRead(parts: seq<Bytes>, p: Piece, e: nat) {
    p.part < |parts| && p.rows <= p.newRows && p.rb <= p.newRb && Has(parts[p.part], From(p, e), Times(p.rows, p.rb))
  }

  // An expert's rows of a matrix, widened.
  function Matrix(parts: seq<Bytes>, p: Piece, e: nat): (b: Bytes)
    requires CanRead(parts, p, e)
    ensures |b| == Size(p)
  {
    Widened(parts[p.part], From(p, e), p.rows, p.rb, p.newRows, p.newRb)
  }

  predicate Readable(parts: seq<Bytes>, pieces: seq<Option<Piece>>, e: nat, k: nat)
    requires k <= |pieces|
  {
    forall i :: 0 <= i < k && Copied(pieces[i]) ==> CanRead(parts, pieces[i].value, e)
  }

  // The slot of expert e as far as the first k matrices.
  function Content(parts: seq<Bytes>, pieces: seq<Option<Piece>>, e: nat, k: nat): (b: Bytes)
    requires k <= |pieces| && Readable(parts, pieces, e, k)
    ensures |b| == End(pieces, k)
  {
    if k == 0 then []
    else if pieces[k - 1].None? then Content(parts, pieces, e, k - 1)
    else
      Content(parts, pieces, e, k - 1) + ZeroBytes(Offset(pieces, k - 1) - End(pieces, k - 1))
      + if Copied(pieces[k - 1]) then Matrix(parts, pieces[k - 1].value, e) else ZeroBytes(Size(pieces[k - 1].value))
  }

  function SlotContent(parts: seq<Bytes>, layer: Layer, e: nat): (b: Bytes)
    requires e < layer.experts && Readable(parts, layer.pieces, e, |layer.pieces|)
    ensures |b| == SlotBytes(layer)
  {
    Content(parts, layer.pieces, e, |layer.pieces|) + ZeroBytes(SlotBytes(layer) - End(layer.pieces, |layer.pieces|))
  }

  // Each matrix is where the table says; one of type 0 is left zero.
  lemma {:induction false} ContentAt(parts: seq<Bytes>, pieces: seq<Option<Piece>>, e: nat, i: nat, k: nat)
    requires i < k <= |pieces| && Readable(parts, pieces, e, k) && pieces[i].Some?
    ensures Offset(pieces, i) + Size(pieces[i].value) <= End(pieces, k)
    ensures Content(parts, pieces, e, k)[Offset(pieces, i)..Offset(pieces, i) + Size(pieces[i].value)]
            == if Copied(pieces[i]) then Matrix(parts, pieces[i].value, e) else ZeroBytes(Size(pieces[i].value))
    decreases k
  {
    hide End, Offset, Size, Matrix, CanRead, Copied, Content;
    EndOn(pieces, i);
    EndOn(pieces, k - 1);
    ContentOn(parts, pieces, e, k - 1);
    if i < k - 1 {
      ContentAt(parts, pieces, e, i, k - 1);
      Within(Content(parts, pieces, e, k - 1), Content(parts, pieces, e, k),
             Offset(pieces, i), Offset(pieces, i) + Size(pieces[i].value));
    }
  }

  lemma Within(c: Bytes, d: Bytes, a: nat, b: nat)
    requires a <= b <= |c| <= |d| && c == d[..|c|]
    ensures d[a..b] == c[a..b]
  {}

  lemma ContentOn(parts: seq<Bytes>, pieces: seq<Option<Piece>>, e: nat, k: nat)
    requires k < |pieces| && Readable(parts, pieces, e, k + 1)
    ensures |Content(parts, pieces, e, k)| <= |Content(parts, pieces, e, k + 1)|
    ensures Content(parts, pieces, e, k) == Content(parts, pieces, e, k + 1)[..|Content(parts, pieces, e, k)|]
    ensures pieces[k].None? ==> Content(parts, pieces, e, k + 1) == Content(parts, pieces, e, k)
    ensures pieces[k].Some? ==>
      var c := if Copied(pieces[k]) then Matrix(parts, pieces[k].value, e) else ZeroBytes(Size(pieces[k].value));
      && End(pieces, k) <= Offset(pieces, k) && Offset(pieces, k) + |c| == End(pieces, k + 1)
      && Content(parts, pieces, e, k + 1) == Content(parts, pieces, e, k)
         + ZeroBytes(Offset(pieces, k) - End(pieces, k)) + c
      && Content(parts, pieces, e, k + 1)[Offset(pieces, k)..Offset(pieces, k) + |c|] == c
  {
    hide End, Offset, Size, Matrix, CanRead, Copied;
    EndOn(pieces, k);
  }

  lemma SlotHolds(parts: seq<Bytes>, layer: Layer, e: nat, i: nat)
    requires e < layer.experts && Readable(parts, layer.pieces, e, |layer.pieces|) && i < |layer.pieces|
    requires layer.pieces[i].Some?
    ensures var p, at := layer.pieces[i].value, Offset(layer.pieces, i);
            && at + Size(p) <= SlotBytes(layer)
            && SlotContent(parts, layer, e)[at..at + Size(p)]
               == if p.kind != 0 then Matrix(parts, p, e) else ZeroBytes(Size(p))
  {
    hide End, Offset, Size, Matrix, CanRead, Content, SlotBytes;
    ContentAt(parts, layer.pieces, e, i, |layer.pieces|);
    var a, b := Offset(layer.pieces, i), Offset(layer.pieces, i) + Size(layer.pieces[i].value);
    var c := Content(parts, layer.pieces, e, |layer.pieces|);
    assert SlotContent(parts, layer, e)[a..b] == c[a..b];
  }

  // Byte c of row r of expert e's matrix, where it begins at at: the input's,
  // each expert's rows per bytes on from the last's; or zero, past them.
  predicate ByteHeld(parts: seq<Bytes>, p: Piece, e: nat, f: Bytes, at: nat, r: nat, c: nat) {
    && at + r * p.newRb + c < |f|
    && if r < p.rows && c < p.rb then
         && p.part < |parts| && 0 <= p.at + e * p.per + p.off + r * p.rb + c < |parts[p.part]|
         && f[at + r * p.newRb + c] == parts[p.part][p.at + e * p.per + p.off + r * p.rb + c]
       else f[at + r * p.newRb + c] == 0
  }

  ghost predicate RowsHeld(parts: seq<Bytes>, p: Piece, e: nat, f: Bytes, at: nat) {
    forall r, c :: 0 <= r < p.newRows && 0 <= c < p.newRb ==> ByteHeld(parts, p, e, f, at, r, c)
  }

  // Every matrix that is copied for an expert is in its slot, byte by byte.
  ghost predicate MatricesHeld(parts: seq<Bytes>, pieces: seq<Option<Piece>>, e: nat, f: Bytes, slot: nat) {
    forall i :: 0 <= i < |pieces| && pieces[i].Some? && pieces[i].value.kind != 0 ==>
      RowsHeld(parts, pieces[i].value, e, f, slot + Offset(pieces, i))
  }

  lemma MatrixByte(parts: seq<Bytes>, p: Piece, e: nat, r: nat, c: nat)
    requires CanRead(parts, p, e) && r < p.newRows && c < p.newRb
    ensures ByteHeld(parts, p, e, Matrix(parts, p, e), 0, r, c)
  {
    hide Rows, Times;
    var input, from := parts[p.part], From(p, e);
    var rows := Rows(input, from, p.rows, p.rb, p.newRb);
    TimesOn(p.rows, p.newRows - p.rows, p.newRb);
    RowIsIn(r, p.newRows, c, p.newRb);
    TimesIs(r, p.newRb);
    TimesIs(r, p.rb);
    TimesIs(e, p.per);
    if r < p.rows {
      RowsAt(input, from, p.rows, p.rb, p.newRb, r, c);
    } else {
      TimesOn(p.rows, r - p.rows, p.newRb);
      assert Matrix(parts, p, e)[Times(r, p.newRb) + c] == 0;
    }
  }

  lemma TimesIs(a: nat, b: nat)
    ensures Times(a, b) == a * b
  {}

  lemma RowIsIn(r: nat, rows: nat, c: nat, rb: nat)
    requires r < rows && c < rb
    ensures Times(r, rb) + c < Times(rows, rb)
  {
    hide Times;
    TimesOn(r, 1, rb);
    TimesOn(r + 1, rows - r - 1, rb);
  }

  lemma ByteMoved(parts: seq<Bytes>, p: Piece, e: nat, b: Bytes, f: Bytes, at: nat, r: nat, c: nat)
    requires ByteHeld(parts, p, e, b, 0, r, c) && at + |b| <= |f| && f[at..at + |b|] == b
    ensures ByteHeld(parts, p, e, f, at, r, c)
  {
    var k := r * p.newRb + c;
    assert f[at..at + |b|][k] == f[at + k];
  }

  // So a file that holds a slot's content holds its matrices.
  lemma SlotHoldsBytes(parts: seq<Bytes>, layer: Layer, e: nat, f: Bytes, slot: nat)
    requires e < layer.experts && Readable(parts, layer.pieces, e, |layer.pieces|)
    requires slot + SlotBytes(layer) <= |f| && f[slot..slot + SlotBytes(layer)] == SlotContent(parts, layer, e)
    ensures MatricesHeld(parts, layer.pieces, e, f, slot)
  {
    hide End, Offset, Size, Matrix, SlotContent, SlotBytes, ByteHeld;
    forall i | 0 <= i < |layer.pieces| && layer.pieces[i].Some? && layer.pieces[i].value.kind != 0
      ensures RowsHeld(parts, layer.pieces[i].value, e, f, slot + Offset(layer.pieces, i))
    {
      var p, at := layer.pieces[i].value, Offset(layer.pieces, i);
      var begin := slot + at;
      SlotHolds(parts, layer, e, i);
      assert Copied(layer.pieces[i]) && CanRead(parts, p, e);
      PartOfSlot(f, slot, SlotContent(parts, layer, e), at, Size(p));
      forall r, c | 0 <= r < p.newRows && 0 <= c < p.newRb
        ensures ByteHeld(parts, p, e, f, begin, r, c)
      {
        MatrixByte(parts, p, e, r, c);
        ByteMoved(parts, p, e, Matrix(parts, p, e), f, begin, r, c);
      }
    }
  }

  lemma PartOfSlot(f: Bytes, slot: nat, b: Bytes, at: nat, n: nat)
    requires slot + |b| <= |f| && f[slot..slot + |b|] == b && at + n <= |b|
    ensures f[slot + at..slot + at + n] == b[at..at + n]
  {
    var x, y := f[slot + at..slot + at + n], b[at..at + n];
    forall k | 0 <= k < n ensures x[k] == y[k] {
      assert f[slot..slot + |b|][at + k] == f[slot + at + k];
    }
  }

  // So an expert's matrix comes through exactly when it is not of type 0, or
  // is all zeros.
  lemma MatrixComesThrough(parts: seq<Bytes>, layer: Layer, e: nat, i: nat)
    requires e < layer.experts && Readable(parts, layer.pieces, e, |layer.pieces|) && i < |layer.pieces|
    requires layer.pieces[i].Some?
    requires CanRead(parts, layer.pieces[i].value, e)
    ensures var p, at := layer.pieces[i].value, Offset(layer.pieces, i);
            && at + Size(p) <= SlotBytes(layer)
            && (SlotContent(parts, layer, e)[at..at + Size(p)] == Matrix(parts, p, e)
                <==> p.kind != 0 || forall j :: 0 <= j < Size(p) ==> Matrix(parts, p, e)[j] == 0)
  {
    hide End, Offset, Size, Matrix, CanRead, SlotContent, SlotBytes, Readable;
    SlotHolds(parts, layer, e, i);
  }

  // Such a matrix is lost: one row of one number of four bytes, of type 0.
  lemma TypeZeroIsLost()
    ensures var p := Piece(0, 0, 0, 4, 0, 1, 4, 1, 4);
            var parts, layer := [[7, 0, 0, 0]], Layer([Some(p), None, None], 1);
            && Sound(parts, layer.pieces) && Readable(parts, layer.pieces, 0, 3) && CanRead(parts, p, 0)
            && Offset(layer.pieces, 0) + Size(p) <= SlotBytes(layer)
            && SlotContent(parts, layer, 0)[Offset(layer.pieces, 0)..Offset(layer.pieces, 0) + Size(p)]
               != Matrix(parts, p, 0)
  {
    hide End, Offset, SlotContent, SlotBytes, Rows;
    var p := Piece(0, 0, 0, 4, 0, 1, 4, 1, 4);
    var parts, layer := [[7, 0, 0, 0]], Layer([Some(p), None, None], 1);
    assert Readable(parts, layer.pieces, 0, 3);
    assert CanRead(parts, p, 0);
    MatrixComesThrough(parts, layer, 0, 0);
    RowsAt(parts[0], From(p, 0), 1, 4, 4, 0, 0);
    assert Matrix(parts, p, 0)[0] == 7;
  }

  // ---- writing a slot ----

  // A matrix that can be copied for expert e.
  predicate Writable(parts: seq<Bytes>, p: Piece, e: nat) {
    p.part < |parts| && p.rows <= p.newRows && Copyable(parts[p.part], From(p, e), p.rows, p.rb, p.newRb)
  }

  predicate SlotWritable(parts: seq<Bytes>, pieces: seq<Option<Piece>>, e: nat, k: nat)
    requires k <= |pieces|
  {
    forall i :: 0 <= i < k && Copied(pieces[i]) ==> Writable(parts, pieces[i].value, e)
  }

  // As far as the first k matrices the file holds the slot, and the checksum
  // is of its first end bytes, the rest of them zero.
  ghost predicate Writing(parts: seq<Bytes>, pieces: seq<Option<Piece>>, e: nat, k: nat, f0: Bytes, f: Bytes,
                          slot: nat, carry: Carry, sum: nat, end: nat) {
    && k <= |pieces| && Readable(parts, pieces, e, k) && slot + End(pieces, k) <= |f0| && end <= End(pieces, k)
    && f == Patch(f0, slot, Content(parts, pieces, e, k))
    && Content(parts, pieces, e, k)[end..] == ZeroBytes(End(pieces, k) - end)
    && sum == Fold(carry, 0, Content(parts, pieces, e, k)[..end])
  }

  // The slot's place in the file is zero until it is written.
  ghost predicate ZeroAt(f: Bytes, at: nat, n: nat) {
    at + n <= |f| && f[at..at + n] == ZeroBytes(n)
  }

  lemma ZeroPart(f: Bytes, at: nat, n: nat, from: nat, m: nat)
    requires ZeroAt(f, at, n) && from + m <= n
    ensures ZeroAt(f, at + from, m)
  {
    var z := f[at + from..at + from + m];
    forall i | 0 <= i < m ensures z[i] == 0 {
      assert z[i] == f[at..at + n][from + i];
    }
  }

  // A part that is written past a gap of zeros.
  lemma PatchGap(f: Bytes, at: nat, n: nat, c: Bytes, g: nat, m: Bytes)
    requires ZeroAt(f, at, n) && |c| + g + |m| <= n
    ensures Patch(Patch(f, at, c), at + |c| + g, m) == Patch(f, at, c + ZeroBytes(g) + m)
    ensures ZeroAt(Patch(f, at, c), at + |c| + g, |m|)
  {
    hide Patch;
    ZeroPart(f, at, n, 0, |c| + g);
    PatchOverZeros(f, at, c, ZeroBytes(g), |c| + g);
    PatchOn(f, at, c + ZeroBytes(g), m);
    ZeroPart(f, at, n, |c| + g, |m|);
    PatchAt(f, at, c);
    ZeroAfter(f, Patch(f, at, c), at + |c|, g, |m|);
  }

  lemma ZeroAfter(f: Bytes, f': Bytes, from: nat, g: nat, m: nat)
    requires from + g + m <= |f| == |f'| && f'[from..] == f[from..] && ZeroAt(f, from + g, m)
    ensures ZeroAt(f', from + g, m)
  {
    var z := f'[from + g..from + g + m];
    forall i | 0 <= i < m ensures z[i] == 0 {
      assert z[i] == f'[from..][g + i] == f[from..][g + i] == f[from + g..from + g + m][i];
    }
  }

  // A matrix that is missing, or of type 0, is not written.
  lemma WritingSkips(parts: seq<Bytes>, pieces: seq<Option<Piece>>, e: nat, k: nat, f0: Bytes, f: Bytes, slot: nat,
                     carry: Carry, sum: nat, end: nat)
    requires Writing(parts, pieces, e, k, f0, f, slot, carry, sum, end) && k < |pieces| && !Copied(pieces[k])
    requires ZeroAt(f0, slot, End(pieces, k + 1))
    ensures Writing(parts, pieces, e, k + 1, f0, f, slot, carry, sum, end)
  {
    hide End, Offset, Size, Matrix, CanRead, Content, Fold, Patch;
    ContentOn(parts, pieces, e, k);
    EndOn(pieces, k);
    if pieces[k].Some? {
      var c, g := Content(parts, pieces, e, k), Offset(pieces, k) - End(pieces, k) + Size(pieces[k].value);
      ZeroBytesConcat(Offset(pieces, k) - End(pieces, k), Size(pieces[k].value));
      MoreZeros(c, end, g);
      assert Content(parts, pieces, e, k + 1) == c + ZeroBytes(g);
      ZeroPart(f0, slot, End(pieces, k + 1), 0, |c| + g);
      PatchOverZeros(f0, slot, c, ZeroBytes(g), |c| + g);
    }
  }

  lemma MoreZeros(c: Bytes, end: nat, g: nat)
    requires end <= |c| && c[end..] == ZeroBytes(|c| - end)
    ensures (c + ZeroBytes(g))[end..] == ZeroBytes(|c| + g - end) && (c + ZeroBytes(g))[..end] == c[..end]
  {
    ZeroBytesConcat(|c| - end, g);
  }

  // The zeros before a matrix are in the checksum, and it is written after
  // them.
  lemma WritingGap(parts: seq<Bytes>, pieces: seq<Option<Piece>>, e: nat, k: nat, f0: Bytes, f: Bytes, slot: nat,
                   carry: Carry, sum: nat, end: nat)
    requires Writing(parts, pieces, e, k, f0, f, slot, carry, sum, end) && k < |pieces| && Copied(pieces[k])
    requires ZeroAt(f0, slot, End(pieces, k + 1))
    ensures end <= Offset(pieces, k) && slot + Offset(pieces, k) + Size(pieces[k].value) <= |f|
    ensures ZeroAt(f, slot + Offset(pieces, k), Size(pieces[k].value))
    ensures Fold(carry, sum, ZeroBytes(Offset(pieces, k) - end))
            == Fold(carry, 0, Content(parts, pieces, e, k) + ZeroBytes(Offset(pieces, k) - End(pieces, k)))
  {
    hide End, Offset, Size, Matrix, CanRead, Content, Fold, Patch;
    EndOn(pieces, k);
    var c, o := Content(parts, pieces, e, k), Offset(pieces, k);
    PatchGap(f0, slot, End(pieces, k + 1), c, o - |c|, ZeroBytes(Size(pieces[k].value)));
    FoldConcat(carry, 0, c[..end], ZeroBytes(o - end));
    ZeroBytesConcat(|c| - end, o - |c|);
    assert c[..end] + ZeroBytes(o - end) == c + ZeroBytes(o - |c|) by { assert c == c[..end] + c[end..]; }
  }

  lemma WritingOn(parts: seq<Bytes>, pieces: seq<Option<Piece>>, e: nat, k: nat, f0: Bytes, f: Bytes, slot: nat,
                  carry: Carry, sum: nat, end: nat, sum': nat)
    requires Writing(parts, pieces, e, k, f0, f, slot, carry, sum, end) && k < |pieces| && Copied(pieces[k])
    requires ZeroAt(f0, slot, End(pieces, k + 1)) && CanRead(parts, pieces[k].value, e)
    requires end <= Offset(pieces, k) && slot + Offset(pieces, k) + Size(pieces[k].value) <= |f|
    requires sum' == Fold(carry, Fold(carry, sum, ZeroBytes(Offset(pieces, k) - end)),
             Matrix(parts, pieces[k].value, e))
    ensures Writing(parts, pieces, e, k + 1, f0,
                    Patch(f, slot + Offset(pieces, k), Matrix(parts, pieces[k].value, e)), slot, carry, sum',
                    Offset(pieces, k) + Size(pieces[k].value))
  {
    hide End, Offset, Size, Matrix, CanRead, Content, Fold, Patch;
    WritingGap(parts, pieces, e, k, f0, f, slot, carry, sum, end);
    EndOn(pieces, k);
    ContentOn(parts, pieces, e, k);
    var c, o, m := Content(parts, pieces, e, k), Offset(pieces, k), Matrix(parts, pieces[k].value, e);
    FoldConcat(carry, 0, c + ZeroBytes(o - |c|), m);
    PatchGap(f0, slot, End(pieces, k + 1), c, o - |c|, m);
    var d := Content(parts, pieces, e, k + 1);
    assert |d| == o + |m| && d[..|d|] == d && d[|d|..] == ZeroBytes(0);
  }

  lemma WritingStarts(parts: seq<Bytes>, pieces: seq<Option<Piece>>, e: nat, f: Bytes, slot: nat, carry: Carry)
    requires slot <= |f|
    ensures Writing(parts, pieces, e, 0, f, f, slot, carry, 0, 0)
  {
    PatchNone(f, slot);
    assert ZeroBytes(0) == [];
  }

  // The rest of the slot is zero.
  lemma WritingEnds(parts: seq<Bytes>, layer: Layer, e: nat, f0: Bytes, f: Bytes, slot: nat, carry: Carry, sum: nat,
                    end: nat)
    requires e < layer.experts && Writing(parts, layer.pieces, e, |layer.pieces|, f0, f, slot, carry, sum, end)
    requires ZeroAt(f0, slot, SlotBytes(layer))
    ensures Readable(parts, layer.pieces, e, |layer.pieces|)
    ensures end <= SlotBytes(layer) && f == Patch(f0, slot, SlotContent(parts, layer, e))
    ensures Fold(carry, sum, ZeroBytes(SlotBytes(layer) - end)) == Fold(carry, 0, SlotContent(parts, layer, e))
  {
    hide End, Offset, Size, Matrix, CanRead, Content, Fold, Patch, SlotBytes;
    var c, n := Content(parts, layer.pieces, e, |layer.pieces|), SlotBytes(layer);
    ZeroPart(f0, slot, n, 0, |c| + (n - |c|));
    PatchOverZeros(f0, slot, c, ZeroBytes(n - |c|), n);
    FoldConcat(carry, 0, c[..end], ZeroBytes(n - end));
    ZeroBytesConcat(|c| - end, n - |c|);
    assert c[..end] + ZeroBytes(n - end) == c + ZeroBytes(n - |c|) by { assert c == c[..end] + c[end..]; }
  }

  lemma SlotFits(f: Bytes, slot: nat, layer: Layer, k: nat)
    requires layer.experts > 0 && ZeroAt(f, slot, SlotBytes(layer)) && k <= |layer.pieces|
    ensures ZeroAt(f, slot, End(layer.pieces, k)) && slot + SlotBytes(layer) <= |f|
  {
    hide End;
    EndGrows(layer.pieces, k, |layer.pieces|);
    ZeroPart(f, slot, SlotBytes(layer), 0, End(layer.pieces, k));
  }

  // One matrix of a slot, and the zeros before it.
  method WriteMatrix(parts: seq<Bytes>, pieces: seq<Option<Piece>>, e: nat, k: nat, file: array<byte>,
                     obuf: array<byte>, slot: nat, carry: Carry,
                     sum0: nat, end0: nat, ghost f0: Bytes) returns (ok: bool, sum: nat, end: nat)
    requires Sound(parts, pieces) && k < 3 && obuf.Length == 2 * COPY_CHUNK && obuf != file
    requires Writing(parts, pieces, e, k, f0, file[..], slot, carry, sum0, end0) && ZeroAt(f0, slot, End(pieces, k + 1))
    modifies file, obuf
    ensures ok <==> (Copied(pieces[k]) ==> Writable(parts, pieces[k].value, e))
    ensures ok ==> Writing(parts, pieces, e, k + 1, f0, file[..], slot, carry, sum, end)
  {
    hide End, Offset, Content, Fold, Patch, Times, Widened, Writing;
    sum, end := sum0, end0;
    if !Copied(pieces[k]) {
      WritingSkips(parts, pieces, e, k, f0, file[..], slot, carry, sum, end);
      return true, sum, end;
    }
    var s := pieces[k].value;
    var offset := Offset(pieces, k);
    ghost var f := file[..];
    WritingGap(parts, pieces, e, k, f0, f, slot, carry, sum, end);
    if offset > end {
      sum := SumZeros(carry, sum, offset - end);
    } else {
      FoldNone(carry, sum);
      assert ZeroBytes(0) == [];
    }
    ok, sum := CopyRows(parts[s.part], From(s, e), s.rows, s.rb, s.newRows, s.newRb, file, obuf, slot + offset, carry,
        sum, true);
    if !ok {
      return;
    }
    WritingOn(parts, pieces, e, k, f0, f, slot, carry, sum0, end, sum);
    end := offset + Size(s);
  }

  // Writes an expert's slot: its matrices where the table says, and their
  // checksum with the zeros between and after them.
  method WriteSlot(parts: seq<Bytes>, layer: Layer, e: nat, file: array<byte>, obuf: array<byte>, slot: nat,
                   carry: Carry) returns (ok: bool, sum: nat)
    requires Sound(parts, layer.pieces) && e < layer.experts && obuf.Length == 2 * COPY_CHUNK && obuf != file
    requires ZeroAt(file[..], slot, SlotBytes(layer))
    modifies file, obuf
    ensures ok <==> SlotWritable(parts, layer.pieces, e, |layer.pieces|)
    ensures ok ==> Readable(parts, layer.pieces, e, |layer.pieces|)
    ensures ok ==> file[..] == Patch(old(file[..]), slot, SlotContent(parts, layer, e))
    ensures ok ==> sum == Fold(carry, 0, SlotContent(parts, layer, e))
    ensures ok ==> MatricesHeld(parts, layer.pieces, e, file[..], slot)
  {
    hide End, Offset, Content, SlotContent, Fold, Patch, SlotBytes, Times, Widened, Writing, MatricesHeld, Readable;
    ghost var f0 := file[..];
    sum := 0;
    var end: nat := 0;
    SlotFits(f0, slot, layer, 0);
    WritingStarts(parts, layer.pieces, e, f0, slot, carry);
    for k := 0 to 3
      invariant Writing(parts, layer.pieces, e, k, f0, file[..], slot, carry, sum, end)
      invariant SlotWritable(parts, layer.pieces, e, k)
    {
      SlotFits(f0, slot, layer, k + 1);
      ok, sum, end := WriteMatrix(parts, layer.pieces, e, k, file, obuf, slot, carry, sum, end, f0);
      if !ok {
        return;
      }
    }
    WritingEnds(parts, layer, e, f0, file[..], slot, carry, sum, end);
    PatchAt(f0, slot, SlotContent(parts, layer, e));
    SlotHoldsBytes(parts, layer, e, file[..], slot);
    sum := SumZeros(carry, sum, SlotBytes(layer) - end);
    ok := true;
  }
}
