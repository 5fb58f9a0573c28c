// vlc_fill, vlc_build and vlc_get of src/common/audio_aac.c and audio_aac.h
// as they run: the table written in place, entry by entry, and looked up.

module VlcBuild {
  import opened Bits
  import opened Ints
  import opened Vlc

  // ---- which leaves a code reaches ----

  lemma ShrRange(x: nat, k: nat, v: nat)
    ensures Shr(x, k) == v <==> Shl(v, k) <= x < Shl(v, k) + Pow2(k)
  {
    hide Pow2;
    QuotientBounds(x, Pow2(k), v);
    QuotientBounds(x, Pow2(k), v + 1);
    MulDistribute(v, 1, Pow2(k));
  }

  lemma PathTop(sub: seq<nat>, p: nat, q: nat)
    requires IsLeaf(sub, p, q)
    ensures Shr(Path(sub, p, q), sub[p]) == p
  {
    hide Pow2, Shr, Shl;
    ShrRange(Path(sub, p, q), sub[p], p);
  }

  // A short code reaches the leaves of a run of first indices.
  lemma ShortReach(c: Codes, bits: nat, sub: seq<nat>, i: nat, p: nat, q: nat)
    requires |c.code| == |c.len| && i < |c.len| && 0 < c.len[i] <= bits && IsLeaf(sub, p, q)
    ensures var first := Shl(c.code[i], bits - c.len[i]);
            Reaches(c, bits, sub, i, p, q) <==> first <= p < first + Pow2(bits - c.len[i])
  {
    hide Pow2, Shr, Shl, Path;
    PathTop(sub, p, q);
    DivDiv(Path(sub, p, q), sub[p], bits - c.len[i]);
    assert sub[p] + (bits - c.len[i]) == bits + sub[p] - c.len[i];
    ShrRange(p, bits - c.len[i], c.code[i]);
  }

  // A long code reaches a run of leaves of one second table.
  lemma LongReach(c: Codes, bits: nat, sub: seq<nat>, i: nat, p: nat, q: nat)
    requires |c.code| == |c.len| && i < |c.len| && bits < c.len[i] && IsLeaf(sub, p, q)
    requires var pre := Shr(c.code[i], c.len[i] - bits); pre < |sub| && sub[pre] >= c.len[i] - bits
    ensures var extra := c.len[i] - bits;
            var pre := Shr(c.code[i], extra);
            var first := Shl(LowBits(c.code[i], extra), sub[pre] - extra);
            Reaches(c, bits, sub, i, p, q) <==> p == pre && first <= q < first + Pow2(sub[pre] - extra)
  {
    hide Pow2, Shr, Shl, LowBits;
    var code, extra := c.code[i], c.len[i] - bits;
    var pre := Shr(code, extra);
    if extra <= sub[p] {
      var up := sub[p] - extra;
      assert bits + sub[p] - c.len[i] == up && up + extra == sub[p];
      if p == pre {
        SplitShl(code, extra, up);
        ShrRange(Path(sub, p, q), up, code);
      } else {
        PathTop(sub, p, q);
        DivDiv(Path(sub, p, q), up, extra);
      }
    }
  }

  // ---- placing a code ----

  // Leaves whose entries are at lo..hi are done for i + 1 codes, the others
  // for i.
  ghost predicate Partial(c: Codes, bits: nat, sub: seq<nat>, t: seq<Entry>, owner: seq<int>, i: nat, lo: int, hi: int)
    requires WellFormed(c) && i < |c.len|
  {
    && |sub| == Pow2(bits) && |t| == |owner| == Start(sub, |sub|)
    && (forall p :: 0 <= p < |sub| && sub[p] > 0 ==> (StartLow(sub, |sub|); t[p] == SubEntry(sub, p)))
    && forall p, q :: IsLeaf(sub, p, q) ==>
         (IndexInRange(sub, p, q);
          var x := Index(sub, p, q);
          LeafIs(c, bits, sub, t[x], owner[x], if lo <= x < hi then i + 1 else i, p, q))
  }

  lemma PartialBegins(c: Codes, bits: nat, sub: seq<nat>, t: seq<Entry>, owner: seq<int>, i: nat, lo: int)
    requires WellFormed(c) && i < |c.len| && LeavesAre(c, bits, sub, t, owner, i)
    ensures Partial(c, bits, sub, t, owner, i, lo, lo)
  {
    hide LeafIs, IsLeaf, Index, Pow2, SymOf;
  }

  lemma PartialLeaf(c: Codes, bits: nat, sub: seq<nat>, t: seq<Entry>, owner: seq<int>, i: nat, lo: int, hi: int,
                    p: nat, q: nat)
    requires WellFormed(c) && i < |c.len| && Partial(c, bits, sub, t, owner, i, lo, hi) && IsLeaf(sub, p, q)
    ensures Index(sub, p, q) < |t| == |owner|
    ensures var x := Index(sub, p, q); LeafIs(c, bits, sub, t[x], owner[x], if lo <= x < hi then i + 1 else i, p, q)
  {
    hide LeafIs, Pow2, SymOf;
    IndexInRange(sub, p, q);
  }

  lemma PartialSub(c: Codes, bits: nat, sub: seq<nat>, t: seq<Entry>, owner: seq<int>, i: nat, lo: int, hi: int, p: nat)
    requires WellFormed(c) && i < |c.len| && Partial(c, bits, sub, t, owner, i, lo, hi) && p < |sub| && sub[p] > 0
    ensures p < |t| && t[p] == SubEntry(sub, p) && |sub| <= |t|
  {
    hide LeafIs, IsLeaf, Pow2, SymOf;
    StartLow(sub, |sub|);
  }

  lemma PartialSizes(c: Codes, bits: nat, sub: seq<nat>, t: seq<Entry>, owner: seq<int>, i: nat, lo: int, hi: int)
    requires WellFormed(c) && i < |c.len| && Partial(c, bits, sub, t, owner, i, lo, hi)
    ensures |sub| == Pow2(bits) && |t| == |owner| == Start(sub, |sub|) && |sub| <= |t|
  {
    hide LeafIs, IsLeaf, Pow2, SymOf;
    StartLow(sub, |sub|);
  }

  // A free leaf taken for code i.
  lemma LeafTaken(c: Codes, bits: nat, sub: seq<nat>, e: Entry, owner: int, i: nat, p: nat, q: nat)
    requires WellFormed(c) && i < |c.len| && p < |sub| && LeafIs(c, bits, sub, e, owner, i, p, q)
    requires Reaches(c, bits, sub, i, p, q) && e.len == 0
    requires c.len[i] > 0 && (sub[p] > 0 ==> c.len[i] > bits)
    ensures LeafIs(c, bits, sub, EntryOf(c, bits, sub, p, i), i, i + 1, p, q)
  {
    hide Reaches, SymOf;
  }

  lemma LeafPassed(c: Codes, bits: nat, sub: seq<nat>, e: Entry, owner: int, i: nat, p: nat, q: nat)
    requires WellFormed(c) && i < |c.len| && p < |sub| && LeafIs(c, bits, sub, e, owner, i, p, q)
    requires !Reaches(c, bits, sub, i, p, q)
    ensures LeafIs(c, bits, sub, e, owner, i + 1, p, q)
  {
    hide Reaches, SymOf;
  }

  lemma PartialStep(c: Codes, bits: nat, sub: seq<nat>, t: seq<Entry>, owner: seq<int>, i: nat, lo: int, hi: nat,
                    p0: nat, q0: nat)
    requires WellFormed(c) && i < |c.len| && Partial(c, bits, sub, t, owner, i, lo, hi) && lo <= hi
    requires IsLeaf(sub, p0, q0) && Index(sub, p0, q0) == hi && Reaches(c, bits, sub, i, p0, q0)
    requires hi < |t| && t[hi].len == 0 && c.len[i] > 0 && (sub[p0] > 0 ==> c.len[i] > bits)
    ensures |owner| == |t|
    ensures Partial(c, bits, sub, t[hi := EntryOf(c, bits, sub, p0, i)], owner[hi := i], i, lo, hi + 1)
  {
    hide LeafIs, Reaches, Pow2, SymOf, Index, EntryOf;
    var t', owner' := t[hi := EntryOf(c, bits, sub, p0, i)], owner[hi := i];
    IndexInRange(sub, p0, q0);
    forall p | 0 <= p < |sub| && sub[p] > 0 ensures p < |t'| && t'[p] == SubEntry(sub, p) {
      PartialSub(c, bits, sub, t, owner, i, lo, hi, p);
      if p == hi { IndexInRange(sub, p0, q0); IndexIsTop(sub, p0, q0, hi); }
    }
    forall p, q | IsLeaf(sub, p, q)
      ensures Index(sub, p, q) < |t'|
      ensures var x := Index(sub, p, q);
              LeafIs(c, bits, sub, t'[x], owner'[x], if lo <= x < hi + 1 then i + 1 else i, p, q)
    {
      PartialLeaf(c, bits, sub, t, owner, i, lo, hi, p, q);
      if Index(sub, p, q) == hi {
        IndexInjective(sub, p, q, p0, q0);
        LeafTaken(c, bits, sub, t[hi], owner[hi], i, p, q);
      }
    }
  }

  // An entry of the first table that is a leaf has no second table.
  lemma IndexIsTop(sub: seq<nat>, p: nat, q: nat, x: nat)
    requires IsLeaf(sub, p, q) && Index(sub, p, q) == x && x < |sub|
    ensures x == p && sub[x] == 0
  {
    hide Pow2;
    IndexInRange(sub, p, q);
  }

  lemma PartialEnds(c: Codes, bits: nat, sub: seq<nat>, t: seq<Entry>, owner: seq<int>, i: nat, lo: int, hi: int)
    requires WellFormed(c) && i < |c.len| && Partial(c, bits, sub, t, owner, i, lo, hi)
    requires forall p, q :: IsLeaf(sub, p, q) && Reaches(c, bits, sub, i, p, q) ==> lo <= Index(sub, p, q) < hi
    ensures LeavesAre(c, bits, sub, t, owner, i + 1)
  {
    hide LeafIs, Reaches, Pow2, SymOf, Index, EntryOf;
    PartialSizes(c, bits, sub, t, owner, i, lo, hi);
    forall p, q | IsLeaf(sub, p, q)
      ensures Index(sub, p, q) < |t|
      ensures LeafIs(c, bits, sub, t[Index(sub, p, q)], owner[Index(sub, p, q)], i + 1, p, q)
    {
      PartialLeaf(c, bits, sub, t, owner, i, lo, hi, p, q);
      if !Reaches(c, bits, sub, i, p, q) && !(lo <= Index(sub, p, q) < hi) {
        LeafPassed(c, bits, sub, t[Index(sub, p, q)], owner[Index(sub, p, q)], i, p, q);
      }
    }
  }

  // A leaf already taken: one of two codes begins the other.
  lemma TakenTwice(c: Codes, bits: nat, sub: seq<nat>, e: Entry, owner: int, i: nat, p: nat, q: nat)
    requires WellFormed(c) && i < |c.len| && p < |sub| && LeafIs(c, bits, sub, e, owner, i, p, q)
    requires Reaches(c, bits, sub, i, p, q) && e.len != 0
    ensures !PrefixFree(c)
  {
    hide Path, SymOf, Pow2;
    assert Reaches(c, bits, sub, owner, p, q);
    if c.len[i] <= c.len[owner] {
      MatchesNested(c, i, owner, Path(sub, p, q), bits + sub[p]);
    } else {
      MatchesNested(c, owner, i, Path(sub, p, q), bits + sub[p]);
    }
  }

  // A short code where a second table starts: it begins a longer one.
  lemma TakenByLonger(c: Codes, bits: nat, i: nat, p: nat)
    requires WellFormed(c) && i < |c.len| && 0 < c.len[i] <= bits && p < Pow2(bits) && Subs(c, bits)[p] > 0
    requires Shl(c.code[i], bits - c.len[i]) <= p < Shl(c.code[i], bits - c.len[i]) + Pow2(bits - c.len[i])
    ensures !PrefixFree(c)
  {
    hide Pow2, Shr, Shl, SymOf, SubWidth;
    var j := SubWidthWitness(c, bits, p, |c.len|);
    ShrRange(p, bits - c.len[i], c.code[i]);
    DivDiv(c.code[j], c.len[j] - bits, bits - c.len[i]);
    assert c.len[j] - bits + (bits - c.len[i]) == c.len[j] - c.len[i];
    assert PrefixOf(c, i, j);
  }

  // ---- the code ----

  // What vlc_fill can build, memory aside.
  ghost predicate Buildable(c: Codes, bits: nat)
    requires WellFormed(c)
  {
    && bits <= MAX_BITS
    && (forall j :: 0 <= j < |c.len| ==> c.len[j] <= bits + MAX_EXTRA)
    && Start(Subs(c, bits), Pow2(bits)) <= MAX_ENTRIES
    && PrefixFree(c)
  }

  // A second table is as wide as the widest of the codes that share its
  // first bits.
  lemma {:induction false} WidthIsWidest(c: Codes, bits: nat, p: nat, n: nat)
    requires |c.code| == |c.len| && n <= |c.len|
    ensures forall j :: 0 <= j < n && c.len[j] > bits && c.code[j] / Pow2(c.len[j] - bits) == p ==>
              c.len[j] - bits <= SubWidth(c, bits, p, n)
    ensures SubWidth(c, bits, p, n) == 0
            || exists j :: 0 <= j < n && c.len[j] > bits && c.code[j] / Pow2(c.len[j] - bits) == p
                           && c.len[j] - bits == SubWidth(c, bits, p, n)
  {
    hide Pow2;
    if n > 0 { WidthIsWidest(c, bits, p, n - 1); }
  }

  // In numbers: 12 bits, codes of 16 bits more, and 32767 entries at most,
  // those of each second table after those of the one before.
  lemma BuildableInNumbers(c: Codes, bits: nat)
    requires WellFormed(c)
    ensures var sub := Subs(c, bits);
            && (Buildable(c, bits)
                <==> && bits <= 12 && (forall j :: 0 <= j < |c.len| ==> c.len[j] <= bits + 16)
                     && Start(sub, |sub|) <= 32767 && PrefixFree(c))
            && |sub| == Pow2(bits) && Start(sub, 0) == Pow2(bits)
            && forall p :: 0 <= p < |sub| ==>
                 && sub[p] == SubWidth(c, bits, p, |c.len|)
                 && Start(sub, p + 1) == Start(sub, p) + if sub[p] > 0 then Pow2(sub[p]) else 0
  {
    hide Pow2, SubWidth, PrefixFree;
  }

  // The second tables' widths, false where a code is too long.
  method Widths(c: Codes, bits: nat, sub: array<nat>) returns (ok: bool)
    requires WellFormed(c) && bits <= MAX_BITS && sub.Length == Pow2(bits)
    requires forall p :: 0 <= p < sub.Length ==> sub[p] == 0
    modifies sub
    ensures ok <==> forall j :: 0 <= j < |c.len| ==> c.len[j] <= bits + MAX_EXTRA
    ensures ok ==> sub[..] == Subs(c, bits)
  {
    hide Pow2, SymOf, Shr;
    for i := 0 to |c.code|
      invariant forall p :: 0 <= p < sub.Length ==> sub[p] == SubWidth(c, bits, p, i)
      invariant forall j :: 0 <= j < i ==> c.len[j] <= bits + MAX_EXTRA
    {
      if c.len[i] > bits {
        var extra := c.len[i] - bits;
        if c.len[i] > 32 || extra > MAX_EXTRA {
          return false;
        }
        var pre := Shr(c.code[i], extra);
        ShrInRange(c.code[i], bits, extra);
        if extra > sub[pre] {
          sub[pre] := extra;
        }
      }
    }
    ok := true;
    assert sub[..] == Subs(c, bits);
  }

  lemma ShrInRange(x: nat, m: nat, k: nat)
    requires x < Pow2(m + k)
    ensures Shr(x, k) < Pow2(m)
  {
    hide Pow2;
    Pow2Add(m, k);
    QuotientBounds(x, Pow2(k), Pow2(m));
  }

  // The entries, counted.
  method Total(sub: array<nat>) returns (total: nat)
    ensures total == Start(sub[..], sub.Length)
  {
    hide Pow2;
    total := sub.Length;
    for p := 0 to sub.Length
      invariant total == Start(sub[..], p)
    {
      total := total + if sub[p] != 0 then Pow2(sub[p]) else 0;
    }
  }

  // The entries that lead to second tables, in a table of no codes.
  method Lead(c: Codes, bits: nat, sub: array<nat>, t: array<Entry>)
    requires WellFormed(c) && sub.Length == Pow2(bits) && t.Length == Start(sub[..], sub.Length)
    requires forall x :: 0 <= x < t.Length ==> t[x].len == 0
    modifies t
    ensures LeavesAre(c, bits, sub[..], t[..], seq(t.Length, _ => -1), 0)
  {
    hide Pow2, SymOf, Reaches, Start;
    var at := sub.Length;
    ghost var s := sub[..];
    StartLow(s, |s|);
    StartFirst(s);
    for p := 0 to sub.Length
      invariant sub[..] == s && at == Start(s, p)
      invariant forall x :: 0 <= x < p && s[x] > 0 ==> t[x] == SubEntry(s, x)
      invariant forall x :: 0 <= x < t.Length && (x >= |s| || s[x] == 0 || x >= p) ==> t[x].len == 0
    {
      StartNext(s, p);
      if sub[p] != 0 {
        t[p] := Entry(at, 0 - sub[p] as int);
        at := at + Pow2(sub[p]);
      }
    }
    forall p, q | IsLeaf(s, p, q)
      ensures Index(s, p, q) < t.Length && LeafIs(c, bits, s, t[Index(s, p, q)], -1, 0, p, q)
    {
      IndexInRange(s, p, q);
    }
  }

  lemma StartFirst(sub: seq<nat>)
    ensures Start(sub, 0) == |sub|
  {}

  lemma StartNext(sub: seq<nat>, p: nat)
    requires p < |sub|
    ensures Start(sub, p + 1) == Start(sub, p) + Room(sub, p)
  {}

  // Code i of at most bits bits: every first index it begins.
  method PlaceShort(c: Codes, bits: nat, ghost sub: seq<nat>, t: array<Entry>, ghost owner0: seq<int>, i: nat)
    returns (ok: bool, ghost owner: seq<int>)
    requires WellFormed(c) && i < |c.len| && 0 < c.len[i] <= bits && sub == Subs(c, bits)
    requires LeavesAre(c, bits, sub, t[..], owner0, i)
    modifies t
    ensures ok ==> LeavesAre(c, bits, sub, t[..], owner, i + 1)
    ensures !ok ==> !PrefixFree(c)
  {
    hide Pow2, Shl, SubWidth, Reaches, LeafIs, Partial, LeavesAre, PrefixFree;
    owner := owner0;
    var first := Shl(c.code[i], bits - c.len[i]);
    var cnt := Pow2(bits - c.len[i]);
    PartialBegins(c, bits, sub, t[..], owner, i, first);
    ShortRun(c, bits, i);
    for k := 0 to cnt
      invariant Partial(c, bits, sub, t[..], owner, i, first, first + k)
      invariant forall x :: first <= x < first + k ==> sub[x] == 0
    {
      var p := first + k;
      PartialSizes(c, bits, sub, t[..], owner, i, first, p);
      var e := t[p];
      ZeroLeaf(sub, p);
      if e.len != 0 {
        if sub[p] > 0 {
          TakenByLonger(c, bits, i, p);
        } else {
          PartialLeaf(c, bits, sub, t[..], owner, i, first, p, p, 0);
          ShortReach(c, bits, sub, i, p, 0);
          TakenTwice(c, bits, sub, e, owner[p], i, p, 0);
        }
        return false, owner;
      }
      if sub[p] > 0 { PartialSub(c, bits, sub, t[..], owner, i, first, p, p); }
      ShortReach(c, bits, sub, i, p, 0);
      PartialStep(c, bits, sub, t[..], owner, i, first, p, p, 0);
      ghost var was := t[..];
      t[p] := Entry(SymOf(c, i), c.len[i]);
      owner := owner[p := i];
      assert t[..] == was[p := EntryOf(c, bits, sub, p, i)];
    }
    ok := true;
    forall p, q | IsLeaf(sub, p, q) && Reaches(c, bits, sub, i, p, q)
      ensures first <= Index(sub, p, q) < first + cnt
    {
      ShortReach(c, bits, sub, i, p, q);
    }
    PartialEnds(c, bits, sub, t[..], owner, i, first, first + cnt);
  }

  lemma ShortRun(c: Codes, bits: nat, i: nat)
    requires WellFormed(c) && i < |c.len| && 0 < c.len[i] <= bits
    ensures Shl(c.code[i], bits - c.len[i]) + Pow2(bits - c.len[i]) <= Pow2(bits)
  {
    hide Pow2, SymOf;
    ShlRun(c.code[i], c.len[i], bits);
  }

  lemma ShlRun(x: nat, k: nat, n: nat)
    requires k <= n && x < Pow2(k)
    ensures Shl(x, n - k) + Pow2(n - k) <= Pow2(n)
  {
    hide Pow2;
    Pow2Add(k, n - k);
    MulLe(x + 1, Pow2(k), Pow2(n - k));
    MulDistribute(x, 1, Pow2(n - k));
    assert k + (n - k) == n;
  }

  lemma ZeroLeaf(sub: seq<nat>, p: nat)
    requires p < |sub|
    ensures IsLeaf(sub, p, 0)
    ensures sub[p] == 0 ==> Index(sub, p, 0) == p
  {}

  // Code i of more than bits bits: a run of its second table.
  method PlaceLong(c: Codes, bits: nat, ghost sub: seq<nat>, t: array<Entry>, ghost owner0: seq<int>, i: nat)
    returns (ok: bool, ghost owner: seq<int>)
    requires WellFormed(c) && i < |c.len| && bits < c.len[i] && sub == Subs(c, bits)
    requires LeavesAre(c, bits, sub, t[..], owner0, i)
    modifies t
    ensures ok ==> LeavesAre(c, bits, sub, t[..], owner, i + 1)
    ensures !ok ==> !PrefixFree(c)
  {
    hide Pow2, Shl, Shr, LowBits, SubWidth, Reaches, LeafIs, Partial, LeavesAre, PrefixFree;
    owner := owner0;
    var extra := c.len[i] - bits;
    var pre := Shr(c.code[i], extra);
    SubsCover(c, bits, i);
    PartialBegins(c, bits, sub, t[..], owner, i, 0);
    PartialSub(c, bits, sub, t[..], owner, i, 0, 0, pre);
    var w: nat := 0 - t[pre].len;
    var first := Shl(LowBits(c.code[i], extra), w - extra);
    var cnt := Pow2(w - extra);
    ShlRun(LowBits(c.code[i], extra), extra, w);
    ghost var lo := Start(sub, pre) + first;
    PartialBegins(c, bits, sub, t[..], owner, i, lo);
    for k := 0 to cnt
      invariant Partial(c, bits, sub, t[..], owner, i, lo, lo + k)
    {
      PartialSub(c, bits, sub, t[..], owner, i, lo, lo + k, pre);
      ghost var q := first + k;
      assert IsLeaf(sub, pre, q);
      PartialLeaf(c, bits, sub, t[..], owner, i, lo, lo + k, pre, q);
      LongReach(c, bits, sub, i, pre, q);
      var x := t[pre].sym + first + k;
      var e := t[x];
      if e.len != 0 {
        TakenTwice(c, bits, sub, e, owner[x], i, pre, q);
        return false, owner;
      }
      PartialStep(c, bits, sub, t[..], owner, i, lo, lo + k, pre, q);
      ghost var was := t[..];
      t[x] := Entry(SymOf(c, i), extra);
      owner := owner[x := i];
      assert t[..] == was[x := EntryOf(c, bits, sub, pre, i)];
    }
    ok := true;
    forall p, q | IsLeaf(sub, p, q) && Reaches(c, bits, sub, i, p, q)
      ensures lo <= Index(sub, p, q) < lo + cnt
    {
      LongReach(c, bits, sub, i, p, q);
    }
    PartialEnds(c, bits, sub, t[..], owner, i, lo, lo + cnt);
  }

  lemma EmptyCode(c: Codes, bits: nat, sub: seq<nat>, t: seq<Entry>, owner: seq<int>, i: nat)
    requires WellFormed(c) && i < |c.len| && c.len[i] == 0 && LeavesAre(c, bits, sub, t, owner, i)
    ensures LeavesAre(c, bits, sub, t, owner, i + 1)
  {
    hide LeafIs, Pow2, SymOf, LeavesAre, Partial;
    PartialBegins(c, bits, sub, t, owner, i, 0);
    PartialEnds(c, bits, sub, t, owner, i, 0, 0);
  }

  // The table of c: built exactly when no code begins another and the sizes
  // allow, and then it matches prefixes.
  method Fill(c: Codes, bits: nat) returns (ok: bool, t: array<Entry>)
    requires WellFormed(c)
    ensures ok <==> Buildable(c, bits)
    ensures ok ==> Table(c, bits, t[..])
  {
    hide Pow2, SubWidth, LeavesAre, PrefixFree, Start, LeafIs, SymOf;
    t := new Entry[0];
    if bits > MAX_BITS {
      return false, t;
    }
    var sub := new nat[Pow2(bits)](_ => 0);
    ok := Widths(c, bits, sub);
    if !ok {
      return;
    }
    var total := Total(sub);
    if total > MAX_ENTRIES {
      return false, t;
    }
    t := new Entry[total](_ => Entry(0, 0));
    Lead(c, bits, sub, t);
    ghost var s, owner := sub[..], seq(t.Length, _ => -1);
    for i := 0 to |c.code|
      invariant fresh(t)
      invariant LeavesAre(c, bits, s, t[..], owner, i)
    {
      if c.len[i] == 0 {
        EmptyCode(c, bits, s, t[..], owner, i);
      } else if c.len[i] <= bits {
        ok, owner := PlaceShort(c, bits, s, t, owner, i);
        if !ok {
          return;
        }
      } else {
        ok, owner := PlaceLong(c, bits, s, t, owner, i);
        if !ok {
          return;
        }
      }
    }
    ok := true;
    assert Table(c, bits, t[..]);
    TableIsPrefixFree(c, bits, t[..]);
  }

  // A table whose second tables are of widths a window of 32 bits holds.
  ghost predicate Askable(t: seq<Entry>, bits: nat) {
    Ready(t, bits) && forall x :: 0 <= x < Pow2(bits) ==> -(MAX_EXTRA as int) <= t[x].len
  }

  // A built table is one Get can be asked.
  lemma TableCanBeAsked(c: Codes, bits: nat, t: seq<Entry>)
    requires WellFormed(c) && Table(c, bits, t) && forall j :: 0 <= j < |c.len| ==> c.len[j] <= bits + MAX_EXTRA
    ensures Askable(t, bits)
  {
    hide Pow2, SubWidth, LeavesAre, SymOf, Ready, Reaches;
    var sub := Subs(c, bits);
    var owner :| LeavesAre(c, bits, sub, t, owner, |c.len|);
    LookupReady(c, bits, t, owner);
    TableSize(c, bits, sub, t, owner, |c.len|);
    forall x | 0 <= x < Pow2(bits) ensures -(MAX_EXTRA as int) <= t[x].len {
      if sub[x] > 0 {
        SubEntryAt(c, bits, sub, t, owner, |c.len|, x);
        var j := SubWidthWitness(c, bits, x, |c.len|);
      } else {
        ZeroLeaf(sub, x);
        LeafEntry(c, bits, sub, t, owner, |c.len|, x, 0);
      }
    }
  }

  // Reads one symbol; where no code begins the bits, -1, at the same place.
  method Get(b: Reader, t: array<Entry>, bits: nat) returns (sym: int)
    requires 1 <= bits <= MAX_BITS && Askable(t[..], bits)
    modifies b`pos
    ensures var r := Lookup(t[..], bits, b.Stream(), old(b.pos));
            && sym == (if r.None? then -1 else r.value.sym)
            && b.pos == old(b.pos) + (if r.None? then 0 else r.value.len)
  {
    hide Window, Pow2;
    var first := b.PeekTop(bits);
    assert t[..][first] == t[first];
    var e := t[first];
    var used := 0;
    if e.len < 0 {
      used := bits;
      var k: nat := 0 - e.len;
      var second := b.PeekPast(used, k);
      assert t[..][e.sym + second] == t[e.sym + second];
      e := t[e.sym + second];
    }
    if e.len <= 0 {
      return -1;
    }
    b.pos := b.pos + used + e.len;
    sym := e.sym;
  }

  // A table built and a word of its codes read with it: the word's symbols
  // come out, and the reader stands where the word ends.
  method BuildAndRead(c: Codes, bits: nat, b: Reader, n: nat, ghost word: seq<nat>) returns (ok: bool, syms: seq<int>)
    requires WellFormed(c) && 1 <= bits && Indices(c, word) && n == |word|
    requires At(b.Stream(), b.pos, Spelled(c, word))
    modifies b`pos
    ensures ok <==> Buildable(c, bits)
    ensures ok ==> syms == Symbols(c, word) && b.pos == old(b.pos) + |Spelled(c, word)|
  {
    hide Pow2, Table, Ready, Askable, Lookup, LookupAll, Symbols, Spelled, At, Window, WellFormed, LeftToRead;
    var t;
    ok, t := Fill(c, bits);
    syms := [];
    if !ok {
      return;
    }
    ghost var s, all := b.Stream(), Run(Symbols(c, word), b.pos + |Spelled(c, word)|);
    TableCanBeAsked(c, bits, t[..]);
    SpelledReadBack(c, bits, t[..], word, s, b.pos);
    LeftStarts(t[..], bits, s, b.pos, n, all);
    for k := 0 to n
      invariant Askable(t[..], bits)
      invariant LeftToRead(t[..], bits, s, b.pos, n - k, syms, all)
    {
      LeftOn(t[..], bits, s, b.pos, n - k, syms, all);
      var sym := Get(b, t, bits);
      syms := syms + [sym];
    }
    LeftNone(t[..], bits, s, b.pos, syms, all);
  }

  // n look-ups from pos on give what is left of all.
  ghost predicate LeftToRead(t: seq<Entry>, bits: nat, s: seq<bit>, pos: nat, n: int, syms: seq<int>, all: Run) {
    && Ready(t, bits) && n >= 0
    && var r := LookupAll(t, bits, s, pos, n); r.Some? && syms + r.value.syms == all.syms && r.value.pos == all.pos
  }

  lemma LeftStarts(t: seq<Entry>, bits: nat, s: seq<bit>, pos: nat, n: nat, all: Run)
    requires Ready(t, bits) && LookupAll(t, bits, s, pos, n) == Some(all)
    ensures LeftToRead(t, bits, s, pos, n, [], all)
  {
    hide LookupAll;
    assert [] + all.syms == all.syms;
  }

  lemma LeftOn(t: seq<Entry>, bits: nat, s: seq<bit>, pos: nat, n: int, syms: seq<int>, all: Run)
    requires LeftToRead(t, bits, s, pos, n, syms, all) && n > 0
    ensures var f := Lookup(t, bits, s, pos);
            && f.Some? && f.value.len >= 0
            && LeftToRead(t, bits, s, pos + f.value.len, n - 1, syms + [f.value.sym], all)
  {
    hide Ready, Lookup;
    var f := Lookup(t, bits, s, pos);
    var rest := LookupAll(t, bits, s, pos + f.value.len, n - 1);
    assert syms + ([f.value.sym] + rest.value.syms) == (syms + [f.value.sym]) + rest.value.syms;
  }

  lemma LeftNone(t: seq<Entry>, bits: nat, s: seq<bit>, pos: nat, syms: seq<int>, all: Run)
    requires LeftToRead(t, bits, s, pos, 0, syms, all)
    ensures syms == all.syms && pos == all.pos
  {}
}
