// tools/gguf2jns.c: a model's tensors copied into one file of slots, each
// slot with the checksum of its bytes. The checksum is any that is carried
// on a byte at a time.

module Jns {
  import opened Bits

  type Bytes = seq<byte>

  // A checksum carried on by a byte.
  type Carry = (nat, byte) -> nat

  const ALIGN: nat := 4096
  const MATRIX_ALIGN: nat := 256
  const COPY_CHUNK: nat := 0x100_0000
  const ZEROS: nat := 4096

  // ---- bytes and checksums ----

  function Fold(carry: Carry, sum: nat, b: Bytes): nat {
    if b == [] then sum else carry(Fold(carry, sum, b[..|b| - 1]), b[|b| - 1])
  }

  lemma {:induction false} FoldConcat(carry: Carry, sum: nat, a: Bytes, b: Bytes)
    ensures Fold(carry, sum, a + b) == Fold(carry, Fold(carry, sum, a), b)
    decreases |b|
  {
    if b == [] {
      assert a + b == a;
    } else {
      assert (a + b)[..|a + b| - 1] == a + b[..|b| - 1];
      FoldConcat(carry, sum, a, b[..|b| - 1]);
    }
  }

  function ZeroBytes(n: nat): (b: Bytes)
    ensures |b| == n && forall k :: 0 <= k < n ==> b[k] == 0
  {
    seq(n, _ => 0)
  }

  lemma ZeroBytesConcat(m: nat, n: nat)
    ensures ZeroBytes(m) + ZeroBytes(n) == ZeroBytes(m + n)
  {}

  // b written at at.
  function Patch(f: Bytes, at: nat, b: Bytes): (r: Bytes)
    requires at + |b| <= |f|
    ensures |r| == |f|
  {
    f[..at] + b + f[at + |b|..]
  }

  lemma PatchOn(f: Bytes, at: nat, a: Bytes, b: Bytes)
    requires at + |a| + |b| <= |f|
    ensures Patch(Patch(f, at, a), at + |a|, b) == Patch(f, at, a + b)
  {}

  // What a patch leaves as it was, and where it is.
  lemma PatchAt(f: Bytes, at: nat, b: Bytes)
    requires at + |b| <= |f|
    ensures Patch(f, at, b)[at..at + |b|] == b && Patch(f, at, b)[..at] == f[..at]
    ensures Patch(f, at, b)[at + |b|..] == f[at + |b|..]
  {}

  function Times(a: nat, b: nat): nat {
    MulNonneg(a, b);
    a * b
  }

  lemma TimesOn(a: nat, c: nat, b: nat)
    ensures Times(a + c, b) == Times(a, b) + Times(c, b) && Times(0, b) == 0 && Times(1, b) == b
  {
    assert (a + c) * b == a * b + c * b;
  }

  // ---- reading and writing ----

  predicate Has(input: Bytes, from: nat, n: nat) {
    n == 0 || from + n <= |input|
  }

  // The n bytes of a file at from.
  function Data(input: Bytes, from: nat, n: nat): (b: Bytes)
    requires Has(input, from, n)
    ensures |b| == n
  {
    if n == 0 then [] else input[from..from + n]
  }

  lemma DataOn(input: Bytes, from: nat, m: nat, n: nat)
    requires Has(input, from, m + n)
    ensures Has(input, from, m) && Has(input, from + m, n)
    ensures Data(input, from, m) + Data(input, from + m, n) == Data(input, from, m + n)
  {}

  // b written whole, in as many writes as it takes.
  method WriteAll(file: array<byte>, b: Bytes, at: nat)
    requires at + |b| <= file.Length
    modifies file
    ensures file[..] == Patch(old(file[..]), at, b)
  {
    hide Patch;
    var w := 0;
    PatchNone(file[..], at);
    while w < |b|
      invariant w <= |b| && file[..] == Patch(old(file[..]), at, b[..w])
    {
      var x: nat :| 1 <= x <= |b| - w;
      Write(file, b[w..w + x], at + w);
      PatchOn(old(file[..]), at, b[..w], b[w..w + x]);
      assert b[..w] + b[w..w + x] == b[..w + x];
      w := w + x;
    }
    assert b[..w] == b;
  }

  method Write(file: array<byte>, b: Bytes, at: nat)
    requires at + |b| <= file.Length
    modifies file
    ensures file[..] == Patch(old(file[..]), at, b)
  {
    forall k | 0 <= k < |b| {
      file[at + k] := b[k];
    }
  }

  // Copies n bytes of a file at from, to dst in the output, in chunks and
  // short reads; with a checksum, theirs carried on. False where the file
  // ends first.
  method Copy(input: Bytes, from: nat, n: nat, file: array<byte>, dst: nat, carry: Carry, sum0: nat,
              withSum: bool) returns (ok: bool, sum: nat)
    requires dst + n <= file.Length
    modifies file
    ensures ok <==> Has(input, from, n)
    ensures ok ==> file[..] == Patch(old(file[..]), dst, Data(input, from, n))
    ensures ok ==> sum == if withSum then Fold(carry, sum0, Data(input, from, n)) else sum0
  {
    hide Patch, Fold;
    sum := sum0;
    var d: nat := 0;
    PatchNone(file[..], dst);
    FoldNone(carry, sum);
    while d < n
      invariant d <= n && Has(input, from, d)
      invariant file[..] == Patch(old(file[..]), dst, Data(input, from, d))
      invariant sum == if withSum then Fold(carry, sum0, Data(input, from, d)) else sum0
    {
      if from + d >= |input| {
        return false, sum;
      }
      var k := if n - d < COPY_CHUNK then n - d else COPY_CHUNK;
      var r: nat :| 1 <= r <= k && from + d + r <= |input|;
      var buf := Data(input, from + d, r);
      if withSum {
        FoldConcat(carry, sum0, Data(input, from, d), buf);
        sum := Fold(carry, sum, buf);
      }
      WriteAll(file, buf, dst + d);
      PatchOn(old(file[..]), dst, Data(input, from, d), buf);
      DataOn(input, from, d, r);
      d := d + r;
    }
    ok := true;
  }

  lemma PatchNone(f: Bytes, at: nat)
    requires at <= |f|
    ensures Patch(f, at, []) == f
  {}

  lemma FoldNone(carry: Carry, sum: nat)
    ensures Fold(carry, sum, []) == sum
  {}

  // A checksum sum0 taken n zeros further.
  method SumZeros(carry: Carry, sum0: nat, n: nat) returns (sum: nat)
    ensures sum == Fold(carry, sum0, ZeroBytes(n))
  {
    hide Fold;
    sum := sum0;
    var d: nat := 0;
    FoldNone(carry, sum);
    assert ZeroBytes(0) == [];
    while d < n
      invariant d <= n && sum == Fold(carry, sum0, ZeroBytes(d))
    {
      var k := if n - d < ZEROS then n - d else ZEROS;
      FoldConcat(carry, sum0, ZeroBytes(d), ZeroBytes(k));
      ZeroBytesConcat(d, k);
      sum := Fold(carry, sum, ZeroBytes(k));
      d := d + k;
    }
  }

  // ---- rows widened ----

  // The input's rows from src on, rb bytes each, padded with zeros.
  function Rows(input: Bytes, src: nat, rows: nat, rb: nat, newRb: nat): (b: Bytes)
    requires rb <= newRb && Has(input, src, Times(rows, rb))
    ensures |b| == Times(rows, newRb)
    decreases rows
  {
    hide Times;
    TimesOn(0, 1, rb);
    TimesOn(0, 1, newRb);
    if rows == 0 then []
    else
      TimesOn(rows - 1, 1, rb);
      TimesOn(rows - 1, 1, newRb);
      Data(input, src, rb) + ZeroBytes(newRb - rb) + Rows(input, src + rb, rows - 1, rb, newRb)
  }

  // The same with rows of zeros after them.
  function Widened(input: Bytes, src: nat, rows: nat, rb: nat, newRows: nat, newRb: nat): (b: Bytes)
    requires rb <= newRb && rows <= newRows && Has(input, src, Times(rows, rb))
    ensures |b| == Times(newRows, newRb)
  {
    hide Times, Rows;
    TimesOn(rows, newRows - rows, newRb);
    Rows(input, src, rows, rb, newRb) + ZeroBytes(Times(newRows - rows, newRb))
  }

  lemma {:induction false} RowsOn(input: Bytes, src: nat, m: nat, n: nat, rb: nat, newRb: nat)
    requires rb <= newRb && Has(input, src, Times(m + n, rb))
    ensures Has(input, src, Times(m, rb)) && Has(input, src + Times(m, rb), Times(n, rb))
    ensures Rows(input, src, m + n, rb, newRb)
            == Rows(input, src, m, rb, newRb) + Rows(input, src + Times(m, rb), n, rb, newRb)
    decreases m
  {
    hide Times, Rows;
    TimesOn(m, n, rb);
    if m > 0 {
      TimesOn(m - 1, 1, rb);
      TimesOn(m - 1 + n, 1, rb);
      TimesOn(m - 1, n, rb);
      RowsOn(input, src + rb, m - 1, n, rb, newRb);
      RowsStep(input, src, m, rb, newRb);
      RowsStep(input, src, m + n, rb, newRb);
    } else {
      NoRows(input, src, rb, newRb);
      assert [] + Rows(input, src, n, rb, newRb) == Rows(input, src, n, rb, newRb);
    }
  }

  lemma NoRows(input: Bytes, src: nat, rb: nat, newRb: nat)
    requires rb <= newRb
    ensures Rows(input, src, 0, rb, newRb) == []
  {}

  lemma RowsStep(input: Bytes, src: nat, rows: nat, rb: nat, newRb: nat)
    requires rb <= newRb && rows > 0 && Has(input, src, Times(rows, rb))
    ensures Times(rows, rb) == rb + Times(rows - 1, rb) && Has(input, src, rb)
    ensures Has(input, src + rb, Times(rows - 1, rb))
    ensures Times(rows, rb) == rb + Times(rows - 1, rb)
    ensures Rows(input, src, rows, rb, newRb)
            == Data(input, src, rb) + ZeroBytes(newRb - rb) + Rows(input, src + rb, rows - 1, rb, newRb)
  {
    hide Times;
    TimesOn(0, 1, rb);
    TimesOn(rows - 1, 1, rb);
  }

  // Rows that are not widened are the bytes as they were.
  lemma {:induction false} RowsAsTheyWere(input: Bytes, src: nat, rows: nat, rb: nat)
    requires Has(input, src, Times(rows, rb))
    ensures Rows(input, src, rows, rb, rb) == Data(input, src, Times(rows, rb))
    decreases rows
  {
    hide Times, Rows;
    if rows > 0 {
      RowsStep(input, src, rows, rb, rb);
      RowsAsTheyWere(input, src + rb, rows - 1, rb);
      DataOn(input, src, rb, Times(rows - 1, rb));
      assert Data(input, src, rb) + ZeroBytes(rb - rb) == Data(input, src, rb);
    } else {
      TimesOn(0, 0, rb);
      NoRows(input, src, rb, rb);
    }
  }

  // A byte of a widened matrix: that of its row and column, or zero.
  lemma {:induction false} RowsAt(input: Bytes, src: nat, rows: nat, rb: nat, newRb: nat, r: nat, c: nat)
    requires rb <= newRb && Has(input, src, Times(rows, rb)) && r < rows && c < newRb
    ensures Times(r, newRb) + c < Times(rows, newRb) && (c < rb ==> src + Times(r, rb) + c < |input|)
    ensures Rows(input, src, rows, rb, newRb)[Times(r, newRb) + c]
            == if c < rb then input[src + Times(r, rb) + c] else 0
    decreases rows
  {
    hide Times, Rows;
    RowsStep(input, src, rows, rb, newRb);
    TimesOn(rows - 1, 1, newRb);
    if r > 0 {
      TimesOn(r - 1, 1, rb);
      TimesOn(r - 1, 1, newRb);
      RowsAt(input, src + rb, rows - 1, rb, newRb, r - 1, c);
    } else {
      TimesOn(0, 1, rb);
      TimesOn(0, 1, newRb);
    }
  }

  // Rows put apart in a buffer of zeros.
  method Widen(obuf: array<byte>, buf: Bytes, k: nat, rb: nat, newRb: nat)
    requires rb <= newRb && |buf| == Times(k, rb) && Times(k, newRb) <= obuf.Length
    modifies obuf
    ensures obuf[..Times(k, newRb)] == Rows(buf, 0, k, rb, newRb)
  {
    hide Times, Rows, Patch;
    ghost var n := Times(k, newRb);
    forall i | 0 <= i < Times(k, newRb) {
      obuf[i] := 0;
    }
    NoRows(buf, 0, rb, newRb);
    TimesOn(0, 0, rb);
    TimesOn(0, 0, newRb);
    assert obuf[..n] == [] + ZeroBytes(n);
    var r: nat := 0;
    while r < k
      invariant r <= k && Times(r, rb) <= |buf| && Times(r, newRb) <= n
      invariant obuf[..n] == Rows(buf, 0, r, rb, newRb) + ZeroBytes(n - Times(r, newRb))
    {
      RowPlaced(buf, r, k, rb, newRb, obuf[..n]);
      ghost var o := obuf[..];
      Write(obuf, Data(buf, Times(r, rb), rb), Times(r, newRb));
      PatchPart(o, n, Times(r, newRb), Data(buf, Times(r, rb), rb));
      r := r + 1;
    }
    assert Rows(buf, 0, r, rb, newRb) + ZeroBytes(n - Times(r, newRb)) == Rows(buf, 0, r, rb, newRb);
  }

  lemma PatchPart(f: Bytes, n: nat, at: nat, b: Bytes)
    requires at + |b| <= n <= |f|
    ensures Patch(f, at, b)[..n] == Patch(f[..n], at, b)
  {}

  // A row more in the buffer.
  lemma RowPlaced(buf: Bytes, r: nat, k: nat, rb: nat, newRb: nat, o: Bytes)
    requires rb <= newRb && r < k && |buf| == Times(k, rb) && |o| == Times(k, newRb) && Times(r, rb) <= |buf|
    requires Times(r, newRb) <= |o| && o == Rows(buf, 0, r, rb, newRb) + ZeroBytes(|o| - Times(r, newRb))
    ensures Times(r, rb) + rb == Times(r + 1, rb) <= |buf| && Times(r, newRb) + newRb == Times(r + 1, newRb) <= |o|
    ensures Patch(o, Times(r, newRb), Data(buf, Times(r, rb), rb))
            == Rows(buf, 0, r + 1, rb, newRb) + ZeroBytes(|o| - Times(r + 1, newRb))
  {
    hide Times, Rows;
    TimesOn(r, 1, rb);
    TimesOn(r, 1, newRb);
    TimesOn(r + 1, k - r - 1, rb);
    TimesOn(r + 1, k - r - 1, newRb);
    RowsOn(buf, 0, r, 1, rb, newRb);
    OneRow(buf, Times(r, rb), rb, newRb);
  }

  lemma OneRow(input: Bytes, src: nat, rb: nat, newRb: nat)
    requires rb <= newRb && Has(input, src, rb)
    ensures Times(1, rb) == rb && Rows(input, src, 1, rb, newRb) == Data(input, src, rb) + ZeroBytes(newRb - rb)
  {
    hide Times, Rows;
    TimesOn(0, 1, rb);
    RowsStep(input, src, 1, rb, newRb);
    NoRows(input, src + rb, rb, newRb);
  }

  // Rows of a part of a file are those of the file.
  lemma {:induction false} RowsOfData(input: Bytes, src: nat, at: nat, n: nat, rows: nat, rb: nat, newRb: nat)
    requires rb <= newRb && Has(input, src, n) && at + Times(rows, rb) <= n
    ensures Has(input, src + at, Times(rows, rb))
    ensures Rows(Data(input, src, n), at, rows, rb, newRb) == Rows(input, src + at, rows, rb, newRb)
    decreases rows
  {
    hide Times, Rows;
    TimesOn(0, 1, rb);
    if rows == 0 {
      NoRows(Data(input, src, n), at, rb, newRb);
      NoRows(input, src + at, rb, newRb);
    } else {
      TimesOn(rows - 1, 1, rb);
      RowsStep(Data(input, src, n), at, rows, rb, newRb);
      RowsStep(input, src + at, rows, rb, newRb);
      RowsOfData(input, src, at + rb, n, rows - 1, rb, newRb);
      assert Data(Data(input, src, n), at, rb) == Data(input, src + at, rb);
    }
  }

  // The rows of a chunk, widened in the buffers: as many as fit.
  method CopyWide(input: Bytes, src: nat, rows: nat, rb: nat, newRb: nat,
                  file: array<byte>, obuf: array<byte>, dst: nat, carry: Carry, sum0: nat,
                  withSum: bool) returns (ok: bool, sum: nat)
    requires obuf.Length == 2 * COPY_CHUNK && obuf != file && rb < newRb <= COPY_CHUNK
    requires dst + Times(rows, newRb) <= file.Length
    modifies file, obuf
    ensures ok <==> Has(input, src, Times(rows, rb))
    ensures ok ==> file[..] == Patch(old(file[..]), dst, Rows(input, src, rows, rb, newRb))
    ensures ok ==> sum == if withSum then Fold(carry, sum0, Rows(input, src, rows, rb, newRb)) else sum0
  {
    hide Times, Rows, Patch, Fold;
    var per := if COPY_CHUNK / newRb > 0 then COPY_CHUNK / newRb else 1;
    sum := sum0;
    var r0: nat := 0;
    ChunkFits(newRb);
    StartRows(input, src, rows, rb, newRb, file[..], dst, carry, sum);
    while r0 < rows
      invariant r0 <= rows && Has(input, src, Times(r0, rb)) && Times(r0, newRb) <= Times(rows, newRb)
      invariant file[..] == Patch(old(file[..]), dst, Rows(input, src, r0, rb, newRb))
      invariant sum == if withSum then Fold(carry, sum0, Rows(input, src, r0, rb, newRb)) else sum0
    {
      var k := if rows - r0 < per then rows - r0 else per;
      RowsLeft(input, src, r0, k, rows, rb, newRb);
      TimesOn(k, per - k, newRb);
      if !Has(input, src + Times(r0, rb), Times(k, rb)) {
        return false, sum;
      }
      var buf := Data(input, src + Times(r0, rb), Times(k, rb));
      Widen(obuf, buf, k, rb, newRb);
      ghost var chunk := Rows(input, src + Times(r0, rb), k, rb, newRb);
      ChunkIs(input, src + Times(r0, rb), k, rb, newRb);
      RowsOn(input, src, r0, k, rb, newRb);
      if withSum {
        FoldConcat(carry, sum0, Rows(input, src, r0, rb, newRb), chunk);
        sum := Fold(carry, sum, obuf[..Times(k, newRb)]);
      }
      WriteAll(file, obuf[..Times(k, newRb)], dst + Times(r0, newRb));
      PatchOn(old(file[..]), dst, Rows(input, src, r0, rb, newRb), chunk);
      r0 := r0 + k;
    }
    ok := true;
  }

  lemma ChunkFits(newRb: nat)
    requires 0 < newRb <= COPY_CHUNK
    ensures COPY_CHUNK / newRb > 0 && Times(COPY_CHUNK / newRb, newRb) <= COPY_CHUNK
  {
    QuotientBounds(COPY_CHUNK, newRb, 1);
  }

  lemma StartRows(input: Bytes, src: nat, rows: nat, rb: nat, newRb: nat, f: Bytes, dst: nat, carry: Carry, sum: nat)
    requires rb <= newRb && dst <= |f|
    ensures Times(0, rb) == 0 && Times(0, newRb) == 0 && Rows(input, src, 0, rb, newRb) == []
    ensures Patch(f, dst, []) == f && Fold(carry, sum, []) == sum
  {
    hide Times, Rows;
    TimesOn(0, 0, rb);
    TimesOn(0, 0, newRb);
    NoRows(input, src, rb, newRb);
  }

  // What a chunk of k rows after r0 needs.
  lemma RowsLeft(input: Bytes, src: nat, r0: nat, k: nat, rows: nat, rb: nat, newRb: nat)
    requires rb <= newRb && r0 + k <= rows
    ensures Times(r0 + k, rb) == Times(r0, rb) + Times(k, rb)
    ensures Times(r0 + k, newRb) == Times(r0, newRb) + Times(k, newRb) <= Times(rows, newRb)
    ensures Has(input, src, Times(rows, rb)) ==> Has(input, src + Times(r0, rb), Times(k, rb))
    ensures Has(input, src, Times(r0, rb)) && Has(input, src + Times(r0, rb), Times(k, rb)) ==>
            Has(input, src, Times(r0 + k, rb))
  {
    hide Times;
    TimesOn(r0, k, rb);
    TimesOn(r0, k, newRb);
    TimesOn(r0 + k, rows - r0 - k, rb);
    TimesOn(r0 + k, rows - r0 - k, newRb);
  }

  lemma ChunkIs(input: Bytes, src: nat, k: nat, rb: nat, newRb: nat)
    requires rb <= newRb && Has(input, src, Times(k, rb))
    ensures Rows(Data(input, src, Times(k, rb)), 0, k, rb, newRb) == Rows(input, src, k, rb, newRb)
  {
    hide Times, Rows;
    RowsOfData(input, src, 0, Times(k, rb), k, rb, newRb);
  }

  // The rows are in the file, and each fits the buffers if it is widened.
  predicate Copyable(input: Bytes, src: nat, rows: nat, rb: nat, newRb: nat) {
    (newRb == rb || rb < newRb <= COPY_CHUNK) && Has(input, src, Times(rows, rb))
  }

  // Copies rows rows of rb bytes from src to newRows rows of newRb at dst:
  // what pads the rows, and the rows added, are the output's own zeros.
  // False where the file ends first, or a row is too long to widen.
  method CopyRows(input: Bytes, src: nat, rows: nat, rb: nat, newRows: nat, newRb: nat,
                  file: array<byte>, obuf: array<byte>, dst: nat, carry: Carry, sum0: nat,
                  withSum: bool) returns (ok: bool, sum: nat)
    requires obuf.Length == 2 * COPY_CHUNK && obuf != file
    requires rows <= newRows && dst + Times(newRows, newRb) <= file.Length
    requires file[dst..dst + Times(newRows, newRb)] == ZeroBytes(Times(newRows, newRb))
    modifies file, obuf
    ensures ok <==> Copyable(input, src, rows, rb, newRb)
    ensures ok ==> file[..] == Patch(old(file[..]), dst, Widened(input, src, rows, rb, newRows, newRb))
    ensures ok ==> sum == if withSum then Fold(carry, sum0, Widened(input, src, rows, rb, newRows, newRb)) else sum0
  {
    hide Times, Rows, Patch, Fold, Widened;
    ghost var f0 := file[..];
    TimesOn(rows, newRows - rows, newRb);
    if newRb == rb {
      if Has(input, src, Times(rows, rb)) { RowsAsTheyWere(input, src, rows, rb); }
      ok, sum := Copy(input, src, Times(rows, rb), file, dst, carry, sum0, withSum);
    } else {
      if newRb < rb || newRb > COPY_CHUNK {
        return false, sum0;
      }
      ok, sum := CopyWide(input, src, rows, rb, newRb, file, obuf, dst, carry, sum0, withSum);
    }
    if !ok {
      return;
    }
    if withSum {
      sum := SumZeros(carry, sum, Times(newRows - rows, newRb));
    }
    WidenedIs(f0, dst, input, src, rows, rb, newRows, newRb, carry, sum0);
  }

  // The extra rows are zero already.
  lemma WidenedIs(f: Bytes, dst: nat, input: Bytes, src: nat, rows: nat, rb: nat, newRows: nat, newRb: nat,
                  carry: Carry, sum: nat)
    requires rb <= newRb && rows <= newRows && Has(input, src, Times(rows, rb))
    requires dst + Times(newRows, newRb) <= |f|
    requires f[dst..dst + Times(newRows, newRb)] == ZeroBytes(Times(newRows, newRb))
    ensures dst + Times(rows, newRb) <= |f|
    ensures Patch(f, dst, Rows(input, src, rows, rb, newRb))
            == Patch(f, dst, Widened(input, src, rows, rb, newRows, newRb))
    ensures Fold(carry, Fold(carry, sum, Rows(input, src, rows, rb, newRb)), ZeroBytes(Times(newRows - rows, newRb)))
            == Fold(carry, sum, Widened(input, src, rows, rb, newRows, newRb))
  {
    hide Times, Rows, Fold;
    TimesOn(rows, newRows - rows, newRb);
    var a, z := Rows(input, src, rows, rb, newRb), ZeroBytes(Times(newRows - rows, newRb));
    FoldConcat(carry, sum, a, z);
    PatchOverZeros(f, dst, a, z, Times(newRows, newRb));
  }

  lemma PatchOverZeros(f: Bytes, at: nat, a: Bytes, z: Bytes, n: nat)
    requires at + n <= |f| && |a| + |z| == n && f[at..at + n] == ZeroBytes(n) && z == ZeroBytes(|z|)
    ensures Patch(f, at, a) == Patch(f, at, a + z)
  {
    forall k | at + |a| <= k < at + n ensures f[k] == 0 {
      assert f[k] == f[at..at + n][k - at];
    }
    var p, q := Patch(f, at, a), Patch(f, at, a + z);
    forall k | 0 <= k < |f| ensures p[k] == q[k] {}
  }
}
