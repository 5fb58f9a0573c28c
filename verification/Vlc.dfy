// The Huffman tables of src/common/audio_aac.c and audio_aac.h: a first table
// of `bits` bits, and a second one for each first index that longer codes
// share, proved to be plain prefix matching and to refuse every other code.

module Vlc {
  import opened Bits
  import opened Ints

  const MAX_BITS: nat := 12
  const MAX_EXTRA: nat := 16
  const MAX_ENTRIES: nat := 32767

  // Symbol sym[i], or i where sym is absent, is written as the len[i] bits of
  // code[i]; entries of length 0 are empty.
  datatype Codes = Codes(code: seq<nat>, len: seq<nat>, sym: Option<seq<nat>>)

  function SymOf(c: Codes, i: nat): nat
    requires c.sym.Some? ==> i < |c.sym.value|
  {
    if c.sym.Some? then c.sym.value[i] else i
  }

  // What the callers give: codes no wider than their lengths, and symbols a
  // table entry can hold. Of an empty entry nothing is asked.
  ghost predicate WellFormed(c: Codes) {
    && |c.code| == |c.len|
    && (c.sym.Some? ==> |c.sym.value| == |c.code|)
    && forall i :: 0 <= i < |c.code| && c.len[i] > 0 ==> c.code[i] < Pow2(c.len[i]) && SymOf(c, i) < 0x8000
  }

  // ---- prefixes ----

  // Code i begins code j.
  predicate PrefixOf(c: Codes, i: nat, j: nat)
    requires |c.code| == |c.len| && i < |c.len| && j < |c.len|
  {
    0 < c.len[i] <= c.len[j] && Shr(c.code[j], c.len[j] - c.len[i]) == c.code[i]
  }

  ghost predicate PrefixFree(c: Codes)
    requires |c.code| == |c.len|
  {
    forall i, j :: 0 <= i < |c.len| && 0 <= j < |c.len| && i != j ==> !PrefixOf(c, i, j)
  }

  // Code j begins the number x of width bits.
  predicate Matches(c: Codes, j: nat, x: nat, width: nat)
    requires |c.code| == |c.len| && j < |c.len|
  {
    0 < c.len[j] <= width && Shr(x, width - c.len[j]) == c.code[j]
  }

  lemma DivDiv(x: nat, a: nat, b: nat)
    ensures Shr(Shr(x, a), b) == Shr(x, a + b)
  {
    hide Pow2;
    Pow2Add(a, b);
    QuotientTwice(x, Pow2(a), Pow2(b));
  }

  lemma QuotientTwice(x: nat, da: int, db: int)
    requires da >= 1 && db >= 1
    ensures x / da / db == x / (da * db)
  {
    var q, r := x / da, x % da;
    var h, l := q / db, q % db;
    assert x == q * da + r;
    assert q == h * db + l;
    MulDistribute(h * db, l, da);
    MulAssoc(h, db, da);
    MulNonneg(l, da);
    MulLe(l + 1, db, da);
    MulDistribute(l, 1, da);
    MulGe(da, db);
    DivModUnique(x, db * da, h, l * da + r);
  }

  // Two codes that begin the same number begin one another.
  lemma MatchesNested(c: Codes, i: nat, j: nat, x: nat, width: nat)
    requires |c.code| == |c.len| && i < |c.len| && j < |c.len|
    requires Matches(c, i, x, width) && Matches(c, j, x, width) && c.len[i] <= c.len[j]
    ensures PrefixOf(c, i, j)
  {
    DivDiv(x, width - c.len[j], c.len[j] - c.len[i]);
  }

  // A code that begins another begins what the other begins.
  lemma PrefixMatches(c: Codes, i: nat, j: nat, x: nat, width: nat)
    requires |c.code| == |c.len| && i < |c.len| && j < |c.len|
    requires PrefixOf(c, i, j) && Matches(c, j, x, width)
    ensures Matches(c, i, x, width)
  {
    DivDiv(x, width - c.len[j], c.len[j] - c.len[i]);
  }

  // ---- the layout of a table ----

  // The width of the second table at first index p: that of the longest of
  // the first n codes that share p.
  function SubWidth(c: Codes, bits: nat, p: nat, n: nat): nat
    requires |c.code| == |c.len| && n <= |c.len|
  {
    if n == 0 then 0
    else
      var w := SubWidth(c, bits, p, n - 1);
      var extra := if c.len[n - 1] > bits then c.len[n - 1] - bits else 0;
      if c.len[n - 1] > bits && Shr(c.code[n - 1], extra) == p && extra > w then extra else w
  }

  function Subs(c: Codes, bits: nat): (s: seq<nat>)
    requires |c.code| == |c.len|
    ensures |s| == Pow2(bits)
  {
    seq(Pow2(bits), p requires 0 <= p < Pow2(bits) => SubWidth(c, bits, p, |c.len|))
  }

  function Room(sub: seq<nat>, p: nat): nat
    requires p < |sub|
  {
    if sub[p] == 0 then 0 else Pow2(sub[p])
  }

  // Where the second table at p starts; at |sub|, where they end.
  function Start(sub: seq<nat>, p: nat): nat
    requires p <= |sub|
  {
    if p == 0 then |sub| else Start(sub, p - 1) + Room(sub, p - 1)
  }

  lemma {:induction false} StartMonotone(sub: seq<nat>, p: nat, q: nat)
    requires p < q <= |sub|
    ensures |sub| <= Start(sub, p) && Start(sub, p) + Room(sub, p) <= Start(sub, q)
    decreases q
  {
    hide Pow2;
    if p + 1 < q { StartMonotone(sub, p, q - 1); }
    else { StartLow(sub, p); }
  }

  lemma {:induction false} StartLow(sub: seq<nat>, p: nat)
    requires p <= |sub|
    ensures |sub| <= Start(sub, p)
  {
    if p > 0 { StartLow(sub, p - 1); }
  }

  // ---- the leaves of a table: first index p, second index q ----

  ghost predicate IsLeaf(sub: seq<nat>, p: nat, q: nat) {
    p < |sub| && q < Pow2(sub[p])
  }

  // Where the leaf's entry is.
  function Index(sub: seq<nat>, p: nat, q: nat): nat
    requires p < |sub|
  {
    if sub[p] == 0 then p else Start(sub, p) + q
  }

  // The bits that lead to the leaf, as a number.
  function Path(sub: seq<nat>, p: nat, q: nat): nat
    requires p < |sub|
  {
    Shl(p, sub[p]) + q
  }

  lemma IndexInRange(sub: seq<nat>, p: nat, q: nat)
    requires IsLeaf(sub, p, q)
    ensures Index(sub, p, q) < Start(sub, |sub|)
    ensures Index(sub, p, q) < |sub| <==> sub[p] == 0
    ensures sub[p] == 0 ==> q == 0
  {
    assert sub[p] == 0 ==> Pow2(sub[p]) == 1;
    hide Pow2;
    StartMonotone(sub, p, |sub|);
  }

  lemma IndexInjective(sub: seq<nat>, p: nat, q: nat, p': nat, q': nat)
    requires IsLeaf(sub, p, q) && IsLeaf(sub, p', q') && Index(sub, p, q) == Index(sub, p', q')
    ensures p == p' && q == q'
  {
    hide Pow2;
    IndexInRange(sub, p, q);
    IndexInRange(sub, p', q');
    if p < p' { StartMonotone(sub, p, p'); }
    if p' < p { StartMonotone(sub, p', p); }
  }

  // ---- a table ----

  // For len > 0 a symbol and its bits; for len < 0 where a second table of
  // -len bits starts; an empty entry otherwise.
  datatype Entry = Entry(sym: int, len: int)

  function EntryOf(c: Codes, bits: nat, sub: seq<nat>, p: nat, j: nat): Entry
    requires WellFormed(c) && j < |c.len| && p < |sub|
  {
    Entry(SymOf(c, j), if sub[p] == 0 then c.len[j] else c.len[j] - bits)
  }

  // Code j begins the leaf's path.
  predicate Reaches(c: Codes, bits: nat, sub: seq<nat>, j: nat, p: nat, q: nat)
    requires |c.code| == |c.len| && j < |c.len| && p < |sub|
  {
    Matches(c, j, Path(sub, p, q), bits + sub[p])
  }

  // The entry that leads to the second table at p.
  function SubEntry(sub: seq<nat>, p: nat): Entry
    requires p < |sub|
  {
    Entry(Start(sub, p), 0 - sub[p] as int)
  }

  // Of the first n codes, the leaf's entry is for owner, the only one that
  // begins its path; -1 where none does.
  ghost predicate LeafIs(c: Codes, bits: nat, sub: seq<nat>, e: Entry, owner: int, n: nat, p: nat, q: nat)
    requires WellFormed(c) && n <= |c.len| && p < |sub|
  {
    && -1 <= owner < n
    && (owner == -1 ==> e.len == 0)
    && (owner >= 0 ==> e == EntryOf(c, bits, sub, p, owner) && e.len > 0)
    && forall j :: 0 <= j < n ==> (Reaches(c, bits, sub, j, p, q) <==> j == owner)
  }

  ghost predicate LeavesAre(c: Codes, bits: nat, sub: seq<nat>, t: seq<Entry>, owner: seq<int>, n: nat)
    requires WellFormed(c) && n <= |c.len|
  {
    && |sub| == Pow2(bits) && |t| == |owner| == Start(sub, |sub|)
    && (forall p :: 0 <= p < |sub| && sub[p] > 0 ==> (StartLow(sub, |sub|); t[p] == SubEntry(sub, p)))
    && forall p, q :: IsLeaf(sub, p, q) ==>
         (IndexInRange(sub, p, q); LeafIs(c, bits, sub, t[Index(sub, p, q)], owner[Index(sub, p, q)], n, p, q))
  }

  // A finished table.
  ghost predicate Table(c: Codes, bits: nat, t: seq<Entry>)
    requires WellFormed(c)
  {
    exists owner :: LeavesAre(c, bits, Subs(c, bits), t, owner, |c.len|)
  }

  // ---- looking a code up ----

  datatype Found = Found(sym: int, len: int)

  // Every look-up stays inside the table.
  ghost predicate Ready(t: seq<Entry>, bits: nat) {
    && Pow2(bits) <= |t|
    && forall p :: 0 <= p < Pow2(bits) && t[p].len < 0 ==> 0 <= t[p].sym && t[p].sym + Pow2(-t[p].len) <= |t|
  }

  // The entry the bits at pos lead to, None for a code that is none.
  function Lookup(t: seq<Entry>, bits: nat, s: seq<bit>, pos: nat): Option<Found>
    requires Ready(t, bits)
  {
    WindowBound(s, pos, bits);
    var e := t[Window(s, pos, bits)];
    if e.len >= 0 then
      if e.len == 0 then None else Some(Found(e.sym, e.len))
    else
      WindowBound(s, pos + bits, -e.len);
      var f := t[e.sym + Window(s, pos + bits, -e.len)];
      if f.len <= 0 then None else Some(Found(f.sym, bits + f.len))
  }

  // The bits at pos begin with code i.
  predicate Begins(c: Codes, i: nat, s: seq<bit>, pos: nat)
    requires |c.code| == |c.len| && i < |c.len|
  {
    c.len[i] > 0 && Window(s, pos, c.len[i]) == c.code[i]
  }

  lemma {:induction false} SubWidthCovers(c: Codes, bits: nat, p: nat, n: nat, j: nat)
    requires |c.code| == |c.len| && j < n <= |c.len| && c.len[j] > bits
    requires Shr(c.code[j], c.len[j] - bits) == p
    ensures SubWidth(c, bits, p, n) >= c.len[j] - bits
  {
    hide Pow2;
    if j < n - 1 { SubWidthCovers(c, bits, p, n - 1, j); }
  }

  lemma {:induction false} SubWidthWitness(c: Codes, bits: nat, p: nat, n: nat) returns (j: nat)
    requires |c.code| == |c.len| && n <= |c.len| && SubWidth(c, bits, p, n) > 0
    ensures j < n && c.len[j] > bits && c.len[j] - bits == SubWidth(c, bits, p, n)
    ensures Shr(c.code[j], c.len[j] - bits) == p
  {
    hide Pow2;
    if SubWidth(c, bits, p, n) == SubWidth(c, bits, p, n - 1) { j := SubWidthWitness(c, bits, p, n - 1); }
    else { j := n - 1; }
  }

  // The leaf the bits at pos lead to.
  lemma LeafAt(c: Codes, bits: nat, s: seq<bit>, pos: nat) returns (p: nat, q: nat)
    requires |c.code| == |c.len|
    ensures p == Window(s, pos, bits) && IsLeaf(Subs(c, bits), p, q)
    ensures q == Window(s, pos + bits, Subs(c, bits)[p])
    ensures Path(Subs(c, bits), p, q) == Window(s, pos, bits + Subs(c, bits)[p])
    ensures forall j :: 0 <= j < |c.len| ==> (Begins(c, j, s, pos) <==> Reaches(c, bits, Subs(c, bits), j, p, q))
  {
    hide Window, Pow2, SubWidth, Shl;
    p := Window(s, pos, bits);
    WindowBound(s, pos, bits);
    var sub := Subs(c, bits);
    q := Window(s, pos + bits, sub[p]);
    WindowBound(s, pos + bits, sub[p]);
    WindowPath(s, pos, bits, sub[p]);
    forall j | 0 <= j < |c.len|
      ensures Begins(c, j, s, pos) <==> Reaches(c, bits, sub, j, p, q)
    {
      BeginsReaches(c, bits, s, pos, j, p, q);
    }
  }

  lemma WindowPath(s: seq<bit>, pos: nat, m: nat, n: nat)
    ensures Shl(Window(s, pos, m), n) + Window(s, pos + m, n) == Window(s, pos, m + n)
  {
    hide Window, Pow2;
    WindowSplit(s, pos, m, n);
  }

  lemma BeginsReaches(c: Codes, bits: nat, s: seq<bit>, pos: nat, j: nat, p: nat, q: nat)
    requires |c.code| == |c.len| && j < |c.len|
    requires p == Window(s, pos, bits) && p < Pow2(bits) && q == Window(s, pos + bits, Subs(c, bits)[p])
    requires Path(Subs(c, bits), p, q) == Window(s, pos, bits + Subs(c, bits)[p])
    ensures Begins(c, j, s, pos) <==> Reaches(c, bits, Subs(c, bits), j, p, q)
  {
    hide Window, Pow2, SubWidth, Path;
    var width := bits + Subs(c, bits)[p];
    if c.len[j] <= width {
      WindowTop(s, pos, c.len[j], width - c.len[j]);
      assert c.len[j] + (width - c.len[j]) == width;
    } else if Begins(c, j, s, pos) {
      // a longer code would have widened the second table
      WindowTop(s, pos, bits, c.len[j] - bits);
      assert bits + (c.len[j] - bits) == c.len[j];
      SubWidthCovers(c, bits, p, |c.len|, j);
    }
  }

  lemma LeafEntry(c: Codes, bits: nat, sub: seq<nat>, t: seq<Entry>, owner: seq<int>, n: nat, p: nat, q: nat)
    requires WellFormed(c) && n <= |c.len| && LeavesAre(c, bits, sub, t, owner, n) && IsLeaf(sub, p, q)
    ensures Index(sub, p, q) < |t| == |owner|
    ensures LeafIs(c, bits, sub, t[Index(sub, p, q)], owner[Index(sub, p, q)], n, p, q)
  {
    hide SubWidth, Pow2, SymOf, Reaches;
    IndexInRange(sub, p, q);
  }

  lemma SubEntryAt(c: Codes, bits: nat, sub: seq<nat>, t: seq<Entry>, owner: seq<int>, n: nat, p: nat)
    requires WellFormed(c) && n <= |c.len| && LeavesAre(c, bits, sub, t, owner, n) && p < |sub| && sub[p] > 0
    ensures p < |t| && t[p] == SubEntry(sub, p) && Start(sub, p) + Pow2(sub[p]) <= |t| && Start(sub, p) >= |sub|
  {
    hide SubWidth, Pow2, SymOf, Reaches, LeafIs;
    StartLow(sub, |sub|);
    StartMonotone(sub, p, |sub|);
  }

  lemma TableSize(c: Codes, bits: nat, sub: seq<nat>, t: seq<Entry>, owner: seq<int>, n: nat)
    requires WellFormed(c) && n <= |c.len| && LeavesAre(c, bits, sub, t, owner, n)
    ensures |sub| <= |t|
  {
    StartLow(sub, |sub|);
  }

  lemma LookupReady(c: Codes, bits: nat, t: seq<Entry>, owner: seq<int>)
    requires WellFormed(c) && LeavesAre(c, bits, Subs(c, bits), t, owner, |c.len|)
    ensures Ready(t, bits)
  {
    hide SubWidth, Pow2, SymOf, LeavesAre, Reaches;
    var sub := Subs(c, bits);
    forall p | 0 <= p < Pow2(bits)
      ensures p < |t| && (t[p].len < 0 ==> 0 <= t[p].sym && t[p].sym + Pow2(-t[p].len) <= |t|)
    {
      if sub[p] > 0 {
        SubEntryAt(c, bits, sub, t, owner, |c.len|, p);
      } else {
        LeafEntry(c, bits, sub, t, owner, |c.len|, p, 0);
      }
    }
    TableSize(c, bits, sub, t, owner, |c.len|);
  }

  // What a look-up must give: the code that begins the bits, or nothing.
  ghost predicate IsMatch(c: Codes, s: seq<bit>, pos: nat, r: Option<Found>)
    requires WellFormed(c)
  {
    && (r.None? ==> forall i :: 0 <= i < |c.len| ==> !Begins(c, i, s, pos))
    && forall i :: 0 <= i < |c.len| && Begins(c, i, s, pos) ==>
         r == Some(Found(if c.sym.Some? then c.sym.value[i] else i, c.len[i]))
  }

  // A finished table matches prefixes, wherever it is asked.
  lemma LookupMatches(c: Codes, bits: nat, t: seq<Entry>, s: seq<bit>, pos: nat)
    requires WellFormed(c) && Table(c, bits, t)
    ensures Ready(t, bits) && IsMatch(c, s, pos, Lookup(t, bits, s, pos))
  {
    hide SubWidth, Pow2, Window, SymOf, Reaches, Begins, LeavesAre, Ready;
    var sub := Subs(c, bits);
    var owner :| LeavesAre(c, bits, sub, t, owner, |c.len|);
    LookupReady(c, bits, t, owner);
    var p, q := LeafAt(c, bits, s, pos);
    LeafEntry(c, bits, sub, t, owner, |c.len|, p, q);
    if sub[p] > 0 { SubEntryAt(c, bits, sub, t, owner, |c.len|, p); }
    LookupAtLeaf(c, bits, sub, t, owner, s, pos, p, q);
    SymsAre(c);
  }

  lemma SymsAre(c: Codes)
    requires WellFormed(c)
    ensures forall i :: 0 <= i < |c.len| ==> SymOf(c, i) == if c.sym.Some? then c.sym.value[i] else i
  {}

  // The look-up goes to the leaf's entry.
  lemma LookupAtLeaf(c: Codes, bits: nat, sub: seq<nat>, t: seq<Entry>, owner: seq<int>, s: seq<bit>, pos: nat, p: nat,
                     q: nat)
    requires WellFormed(c) && Ready(t, bits) && IsLeaf(sub, p, q) && Index(sub, p, q) < |t| == |owner| && p < |t|
    requires |sub| == Pow2(bits) && p == Window(s, pos, bits) && q == Window(s, pos + bits, sub[p])
    requires sub[p] > 0 ==> t[p] == SubEntry(sub, p)
    requires LeafIs(c, bits, sub, t[Index(sub, p, q)], owner[Index(sub, p, q)], |c.len|, p, q)
    ensures var o := owner[Index(sub, p, q)];
            Lookup(t, bits, s, pos) == if o == -1 then None else Some(Found(SymOf(c, o), c.len[o]))
  {
    hide Pow2, Window, SymOf, Reaches;
  }

  // ---- what a table says of its codes ----

  // Every code reaches a leaf.
  lemma LeafOf(c: Codes, bits: nat, sub: seq<nat>, j: nat) returns (p: nat, q: nat)
    requires WellFormed(c) && j < |c.len| && c.len[j] > 0 && |sub| == Pow2(bits)
    requires c.len[j] > bits ==>
      Shr(c.code[j], c.len[j] - bits) < |sub| && sub[Shr(c.code[j], c.len[j] - bits)] >= c.len[j] - bits
    ensures IsLeaf(sub, p, q) && Reaches(c, bits, sub, j, p, q)
  {
    hide Pow2, SymOf;
    var code, len := c.code[j], c.len[j];
    if len <= bits {
      p, q := ShortLeaf(code, len, bits, sub);
    } else {
      p, q := LongLeaf(code, len - bits, sub);
      assert bits + sub[p] - len == sub[p] - (len - bits);
    }
  }

  lemma ShortLeaf(code: nat, len: nat, bits: nat, sub: seq<nat>) returns (p: nat, q: nat)
    requires len <= bits && code < Pow2(len) && |sub| == Pow2(bits)
    ensures IsLeaf(sub, p, q) && Shr(Path(sub, p, q), bits + sub[p] - len) == code
  {
    hide Pow2, Shl;
    p, q := Shl(code, bits - len), 0;
    ShlInRange(code, len, bits);
    ShlPath(code, bits - len, sub[p]);
    assert bits + sub[p] - len == bits - len + sub[p];
  }

  lemma LongLeaf(code: nat, extra: nat, sub: seq<nat>) returns (p: nat, q: nat)
    requires Shr(code, extra) < |sub| && sub[Shr(code, extra)] >= extra
    ensures IsLeaf(sub, p, q) && sub[p] >= extra && Shr(Path(sub, p, q), sub[p] - extra) == code
  {
    hide Pow2, Shl;
    p := Shr(code, extra);
    q := Shl(LowBits(code, extra), sub[p] - extra);
    ShlInRange(LowBits(code, extra), extra, sub[p]);
    SplitShl(code, extra, sub[p] - extra);
    assert extra + (sub[p] - extra) == sub[p];
  }

  lemma ShlInRange(x: nat, k: nat, n: nat)
    requires k <= n && x < Pow2(k)
    ensures Shl(x, n - k) < Pow2(n)
  {
    hide Pow2;
    Pow2Add(k, n - k);
    MulLe(x + 1, Pow2(k), Pow2(n - k));
    MulDistribute(x, 1, Pow2(n - k));
    assert k + (n - k) == n;
  }

  lemma ShlPath(x: nat, a: nat, b: nat)
    ensures Shr(Shl(Shl(x, a), b), a + b) == x
  {
    hide Pow2;
    Pow2Add(a, b);
    MulAssoc(x, Pow2(a), Pow2(b));
    DivModUnique(Shl(Shl(x, a), b), Pow2(a + b), x, 0);
  }

  // A number's top and bottom bits, both moved up by b, are the number moved
  // up by b.
  lemma SplitShl(x: nat, a: nat, b: nat)
    ensures Shl(Shr(x, a), a + b) + Shl(LowBits(x, a), b) == Shl(x, b)
    ensures Shr(Shl(x, b), b) == x
  {
    hide Pow2;
    Pow2Add(a, b);
    SplitProduct(x / Pow2(a), x % Pow2(a), Pow2(a), Pow2(b));
    DivModUnique(x * Pow2(b), Pow2(b), x, 0);
  }

  lemma SplitProduct(h: int, l: int, a: int, b: int)
    ensures h * (a * b) + l * b == (h * a + l) * b
  {
    MulAssoc(h, a, b);
    MulDistribute(h * a, l, b);
  }

  lemma SubsCover(c: Codes, bits: nat, j: nat)
    requires WellFormed(c) && j < |c.len| && c.len[j] > bits
    ensures var p := Shr(c.code[j], c.len[j] - bits);
            p < |Subs(c, bits)| && Subs(c, bits)[p] >= c.len[j] - bits
  {
    hide Pow2, SymOf, SubWidth;
    var extra := c.len[j] - bits;
    Pow2Add(bits, extra);
    QuotientBounds(c.code[j], Pow2(extra), Pow2(bits));
    SubWidthCovers(c, bits, Shr(c.code[j], extra), |c.len|, j);
    assert bits + extra == c.len[j];
  }

  // No code of a finished table begins another.
  lemma TableIsPrefixFree(c: Codes, bits: nat, t: seq<Entry>)
    requires WellFormed(c) && Table(c, bits, t)
    ensures PrefixFree(c)
  {
    hide Pow2, SymOf, SubWidth, LeavesAre, PrefixOf, Reaches;
    var sub := Subs(c, bits);
    var owner :| LeavesAre(c, bits, sub, t, owner, |c.len|);
    forall i, j | 0 <= i < |c.len| && 0 <= j < |c.len| && i != j
      ensures !PrefixOf(c, i, j)
    {
      if PrefixOf(c, i, j) {
        PrefixLengths(c, i, j);
        if c.len[j] > bits { SubsCover(c, bits, j); }
        var p, q := LeafOf(c, bits, sub, j);
        ReachesToo(c, bits, sub, i, j, p, q);
        LeafEntry(c, bits, sub, t, owner, |c.len|, p, q);
        assert false;
      }
    }
  }

  lemma PrefixLengths(c: Codes, i: nat, j: nat)
    requires |c.code| == |c.len| && i < |c.len| && j < |c.len| && PrefixOf(c, i, j)
    ensures 0 < c.len[i] <= c.len[j]
  {}

  lemma ReachesToo(c: Codes, bits: nat, sub: seq<nat>, i: nat, j: nat, p: nat, q: nat)
    requires |c.code| == |c.len| && i < |c.len| && j < |c.len| && p < |sub|
    requires PrefixOf(c, i, j) && Reaches(c, bits, sub, j, p, q)
    ensures Reaches(c, bits, sub, i, p, q)
  {
    hide Path, Pow2;
    PrefixMatches(c, i, j, Path(sub, p, q), bits + sub[p]);
  }

  // ---- a stream of codes ----

  ghost predicate Indices(c: Codes, word: seq<nat>) {
    forall i :: i in word ==> i < |c.len| && c.len[i] > 0
  }

  // The codes of a word one after the other.
  ghost function Spelled(c: Codes, word: seq<nat>): seq<bit>
    requires WellFormed(c) && Indices(c, word)
  {
    if word == [] then []
    else
      assert word[0] in word;
      ToBits(c.code[word[0]], c.len[word[0]]) + Spelled(c, word[1..])
  }

  ghost function Symbols(c: Codes, word: seq<nat>): seq<int>
    requires WellFormed(c) && Indices(c, word)
  {
    if word == [] then []
    else
      assert word[0] in word;
      [if c.sym.Some? then c.sym.value[word[0]] else word[0]] + Symbols(c, word[1..])
  }

  datatype Run = Run(syms: seq<int>, pos: nat)

  // n look-ups in a row.
  function LookupAll(t: seq<Entry>, bits: nat, s: seq<bit>, pos: nat, n: nat): Option<Run>
    requires Ready(t, bits)
    decreases n
  {
    if n == 0 then Some(Run([], pos))
    else
      var f := Lookup(t, bits, s, pos);
      if f.None? || f.value.len < 0 then None
      else
        var r := LookupAll(t, bits, s, pos + f.value.len, n - 1);
        if r.None? then None else Some(Run([f.value.sym] + r.value.syms, r.value.pos))
  }

  // Any concatenation of codes is read back symbol by symbol.
  lemma {:induction false} SpelledReadBack(c: Codes, bits: nat, t: seq<Entry>, word: seq<nat>, s: seq<bit>, pos: nat)
    requires WellFormed(c) && Table(c, bits, t) && Indices(c, word)
    requires At(s, pos, Spelled(c, word))
    ensures Ready(t, bits)
    ensures LookupAll(t, bits, s, pos, |word|) == Some(Run(Symbols(c, word), pos + |Spelled(c, word)|))
    decreases |word|
  {
    hide Pow2, SymOf, Table, Ready, Lookup, At, Window, ToBits;
    LookupMatches(c, bits, t, s, pos);
    if word != [] {
      assert word[0] in word;
      var i := word[0];
      FieldRead(s, pos, c.code[i], c.len[i], Spelled(c, word[1..]));
      assert Begins(c, i, s, pos);
      SpelledReadBack(c, bits, t, word[1..], s, pos + c.len[i]);
    }
  }
}
