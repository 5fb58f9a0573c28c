// The NoContraction marks that tools/spv_fma.c puts into a SPIR-V module, on
// the results of fma() and of conversions of floats.

module Spirv {
  import opened Ints

  type Word = u32

  // An instruction: its first word holds its length, then its operation.
  type Inst = seq<Word>

  const MAGIC: Word := 0x07230203
  const HEADER: nat := 5
  const OP_EXT_INST_IMPORT: nat := 11
  const OP_EXT_INST: nat := 12
  const OP_TYPE_FIRST: nat := 19
  const OP_TYPE_LAST: nat := 39
  const OP_DECORATE: nat := 71
  const OP_FCONVERT: nat := 115
  const GLSL_FMA: Word := 50
  const NO_CONTRACTION: Word := 42

  // ---- a module's instructions (section 2.3 of the SPIR-V Specification) ----

  function Count(w: Word): nat { w / 0x1_0000 }

  function Op(w: Word): nat { w % 0x1_0000 }

  predicate IsInst(inst: Inst) {
    |inst| > 0 && Count(inst[0]) == |inst|
  }

  predicate AllInsts(insts: seq<Inst>) {
    forall k :: 0 <= k < |insts| ==> IsInst(insts[k])
  }

  function Flat(insts: seq<Inst>): seq<Word> {
    if insts == [] then [] else insts[0] + Flat(insts[1..])
  }

  // The instructions of w from i on, None where one has a bad length.
  function Split(w: seq<Word>, i: nat): Option<seq<Inst>>
    requires i <= |w|
    decreases |w| - i
  {
    if i == |w| then Some([])
    else
      var n := Count(w[i]);
      if n == 0 || i + n > |w| then None
      else
        var rest := Split(w, i + n);
        if rest.None? then None else Some([w[i..i + n]] + rest.value)
  }

  lemma {:induction false} SplitFlat(w: seq<Word>, i: nat, insts: seq<Inst>)
    requires i <= |w| && AllInsts(insts) && w[i..] == Flat(insts)
    ensures Split(w, i) == Some(insts)
    decreases |insts|
  {
    if insts == [] {
      assert |w[i..]| == 0;
    } else {
      var n := |insts[0]|;
      assert IsInst(insts[0]) && AllInsts(insts[1..]);
      assert w[i..] == insts[0] + Flat(insts[1..]) && |w[i..]| == |w| - i;
      assert w[i] == w[i..][0] && w[i..i + n] == w[i..][..n] && w[i + n..] == w[i..][n..];
      SplitFlat(w, i + n, insts[1..]);
      assert insts == [insts[0]] + insts[1..];
    }
  }

  lemma {:induction false} FlatSplit(w: seq<Word>, i: nat)
    requires i <= |w| && Split(w, i).Some?
    ensures AllInsts(Split(w, i).value) && Flat(Split(w, i).value) == w[i..]
    decreases |w| - i
  {
    if i < |w| {
      var n := Count(w[i]);
      FlatSplit(w, i + n);
      assert w[i..] == w[i..i + n] + w[i + n..];
    }
  }

  lemma {:induction false} FlatConcat(a: seq<Inst>, b: seq<Inst>)
    ensures Flat(a + b) == Flat(a) + Flat(b)
  {
    if a == [] {
      assert a + b == b;
    } else {
      assert (a + b)[1..] == a[1..] + b;
      FlatConcat(a[1..], b);
    }
  }

  // ---- what the instructions say ----

  // "GLSL.std.450" and its zero, four words of which the last counts by its
  // first byte.
  predicate NameAt(w: seq<Word>, i: nat) {
    i + 3 < |w| && w[i] == 0x4c534c47 && w[i + 1] == 0x6474732e && w[i + 2] == 0x3035342e && w[i + 3] % 256 == 0
  }

  predicate Imports(inst: Inst) {
    |inst| >= 3 && Op(inst[0]) == OP_EXT_INST_IMPORT && NameAt(inst, 2)
  }

  // The set imported last, 0 before any.
  function Glsl(insts: seq<Inst>): Word {
    if insts == [] then 0
    else
      var last := insts[|insts| - 1];
      if Imports(last) then last[1] else Glsl(insts[..|insts| - 1])
  }

  // An fma() of the imported set or a float conversion.
  predicate Fuses(inst: Inst, glsl: Word) {
    || (|inst| >= 5 && Op(inst[0]) == OP_EXT_INST && inst[3] == glsl && inst[4] == GLSL_FMA)
    || (|inst| == 4 && Op(inst[0]) == OP_FCONVERT)
  }

  // The results of them, in order.
  function Results(insts: seq<Inst>): seq<Word> {
    if insts == [] then []
    else
      var front, last := insts[..|insts| - 1], insts[|insts| - 1];
      Results(front) + if Fuses(last, Glsl(front)) then [last[2]] else []
  }

  predicate Decorates(inst: Inst, id: Word) {
    |inst| >= 3 && Op(inst[0]) == OP_DECORATE && inst[2] == NO_CONTRACTION && inst[1] == id
  }

  predicate Decorated(insts: seq<Inst>, id: Word) {
    exists k :: 0 <= k < |insts| && Decorates(insts[k], id)
  }

  predicate IsType(inst: Inst) {
    |inst| > 0 && OP_TYPE_FIRST <= Op(inst[0]) <= OP_TYPE_LAST
  }

  // Where the types start, the module's end where it has none.
  function FirstType(insts: seq<Inst>): (t: nat)
    ensures t <= |insts|
    ensures t < |insts| ==> IsType(insts[t])
    ensures forall k :: 0 <= k < t ==> !IsType(insts[k])
  {
    if insts == [] || IsType(insts[0]) then 0 else 1 + FirstType(insts[1..])
  }

  // ---- what is inserted ----

  function Mark(id: Word): (inst: Inst)
    ensures IsInst(inst) && Decorates(inst, id) && !IsType(inst) && !Imports(inst)
    ensures forall g: Word :: !Fuses(inst, g)
    ensures forall other: Word :: other != id ==> !Decorates(inst, other)
  {
    [3 * 0x1_0000 + OP_DECORATE, id, NO_CONTRACTION]
  }

  function Marks(ids: seq<Word>): (insts: seq<Inst>)
    ensures |insts| == |ids|
    ensures forall k :: 0 <= k < |ids| ==> insts[k] == Mark(ids[k])
  {
    seq(|ids|, k requires 0 <= k < |ids| => Mark(ids[k]))
  }

  // The ids to decorate: the first of each that is not decorated already.
  function Fresh(insts: seq<Inst>, ids: seq<Word>): seq<Word> {
    if ids == [] then []
    else
      var front, last := ids[..|ids| - 1], ids[|ids| - 1];
      Fresh(insts, front) + if Decorated(insts, last) || last in front then [] else [last]
  }

  function Inserted(insts: seq<Inst>): seq<Inst> {
    var t := FirstType(insts);
    insts[..t] + Marks(Fresh(insts, Results(insts))) + insts[t..]
  }

  // ---- what comes out ----

  // The ids inserted are those that are not decorated, each once.
  lemma {:induction false} FreshIsNew(insts: seq<Inst>, ids: seq<Word>)
    ensures forall id :: id in Fresh(insts, ids) <==> id in ids && !Decorated(insts, id)
    ensures forall j, k :: 0 <= j < k < |Fresh(insts, ids)| ==> Fresh(insts, ids)[j] != Fresh(insts, ids)[k]
  {
    hide Decorated;
    if ids != [] {
      var front, last := ids[..|ids| - 1], ids[|ids| - 1];
      FreshIsNew(insts, front);
      assert ids == front + [last];
    }
  }

  // Instructions that import nothing and fuse nothing add nothing.
  predicate Idle(insts: seq<Inst>) {
    forall k :: 0 <= k < |insts| ==> !Imports(insts[k]) && forall g: Word :: !Fuses(insts[k], g)
  }

  lemma ResultsOn(insts: seq<Inst>, inst: Inst)
    ensures Glsl(insts + [inst]) == if Imports(inst) then inst[1] else Glsl(insts)
    ensures Results(insts + [inst]) == Results(insts) + if Fuses(inst, Glsl(insts)) then [inst[2]] else []
  {
    var on := insts + [inst];
    assert on[..|on| - 1] == insts && on[|on| - 1] == inst;
  }

  // Results and the set imported, past instructions that came before.
  lemma {:induction false} ResultsPast(a: seq<Inst>, idle: seq<Inst>, b: seq<Inst>)
    requires Idle(idle)
    ensures Results(a + idle + b) == Results(a + b) && Glsl(a + idle + b) == Glsl(a + b)
    decreases |b|, |idle|
  {
    hide Imports, Fuses, Results, Glsl;
    if b != [] {
      var front, last := b[..|b| - 1], b[|b| - 1];
      ResultsPast(a, idle, front);
      ResultsOn(a + idle + front, last);
      ResultsOn(a + front, last);
      assert a + idle + b == a + idle + front + [last] && a + b == a + front + [last];
    } else if idle != [] {
      var front, last := idle[..|idle| - 1], idle[|idle| - 1];
      ResultsPast(a, front, b);
      ResultsOn(a + front, last);
      assert a + idle + b == a + front + [last] && a + front + b == a + front;
    } else {
      assert a + idle + b == a + b;
    }
  }

  lemma ResultsKept(insts: seq<Inst>)
    ensures Results(Inserted(insts)) == Results(insts)
  {
    hide Imports, Fuses;
    var t := FirstType(insts);
    var marks := Marks(Fresh(insts, Results(insts)));
    assert Idle(marks);
    ResultsPast(insts[..t], marks, insts[t..]);
    assert insts == insts[..t] + insts[t..];
  }

  // What is decorated afterwards: what was, and every result.
  lemma DecoratedAfter(insts: seq<Inst>, id: Word)
    ensures Decorated(Inserted(insts), id) <==> Decorated(insts, id) || id in Results(insts)
  {
    hide Decorates, Results, FirstType, Fresh, IsInst, Imports, Fuses, IsType;
    var t := FirstType(insts);
    var added := Fresh(insts, Results(insts));
    FreshIsNew(insts, Results(insts));
    var out := Inserted(insts);
    if Decorated(insts, id) {
      var k :| 0 <= k < |insts| && Decorates(insts[k], id);
      assert Decorates(out[if k < t then k else k + |added|], id);
    } else if id in Results(insts) {
      var k :| 0 <= k < |added| && added[k] == id;
      assert Decorates(out[t + k], id);
    }
    if Decorated(out, id) {
      var k :| 0 <= k < |out| && Decorates(out[k], id);
      if t <= k < t + |added| {
        assert out[k] == Mark(added[k - t]);
        assert added[k - t] == id;
      } else {
        assert Decorates(insts[if k < t then k else k - |added|], id);
      }
    }
  }

  // The types start after what was inserted.
  lemma {:induction false} FirstTypeIsFirst(insts: seq<Inst>, t: nat)
    requires t <= |insts| && (t < |insts| ==> IsType(insts[t]))
    requires forall k :: 0 <= k < t ==> !IsType(insts[k])
    ensures FirstType(insts) == t
  {}

  // A second run inserts nothing.
  lemma SecondRunInsertsNothing(insts: seq<Inst>)
    ensures Inserted(Inserted(insts)) == Inserted(insts)
  {
    hide Decorated, Results;
    var out := Inserted(insts);
    ResultsKept(insts);
    forall id | id in Results(out) ensures Decorated(out, id) {
      DecoratedAfter(insts, id);
    }
    NoneFresh(out, Results(out));
  }

  lemma NoneFresh(insts: seq<Inst>, ids: seq<Word>)
    requires forall id :: id in ids ==> Decorated(insts, id)
    ensures Fresh(insts, ids) == []
  {
    hide Decorated;
  }

  // The instructions inserted are the marks, and the others are left as they
  // were.
  lemma OnlyMarksInserted(insts: seq<Inst>)
    requires AllInsts(insts)
    ensures AllInsts(Inserted(insts))
    ensures var t, n := FirstType(insts), |Inserted(insts)| - |insts|;
            && 0 <= n && Inserted(insts)[..t] == insts[..t] && Inserted(insts)[t + n..] == insts[t..]
            && forall k :: t <= k < t + n ==> MarksResult(insts, Inserted(insts)[k])
  {
    hide Decorated, Results, IsInst, Mark, Fresh, AllInsts, FirstType;
    var t, added := FirstType(insts), Fresh(insts, Results(insts));
    var out := Inserted(insts);
    FreshIsNew(insts, Results(insts));
    forall k | t <= k < t + |added| ensures MarksResult(insts, out[k]) {
      assert added[k - t] in added && out[k] == Mark(added[k - t]);
    }
    AllInstsBetween(insts, t, added);
  }

  lemma AllInstsBetween(insts: seq<Inst>, t: nat, ids: seq<Word>)
    requires AllInsts(insts) && t <= |insts|
    ensures AllInsts(insts[..t] + Marks(ids) + insts[t..])
  {
    hide IsInst;
    assert forall k :: 0 <= k < |ids| ==> IsInst(Marks(ids)[k]);
  }

  // The decoration of a result that had none.
  ghost predicate MarksResult(insts: seq<Inst>, inst: Inst) {
    exists id: Word :: id in Results(insts) && !Decorated(insts, id) && inst == Mark(id)
  }

  // ---- the code ----

  // A literal string ends in its last word (section 2.2.1 of the SPIR-V
  // Specification): what names an imported set ends inside its instruction.
  predicate Tidy(inst: Inst) {
    |inst| >= 3 && Op(inst[0]) == OP_EXT_INST_IMPORT ==> inst[|inst| - 1] < 0x100_0000
  }

  predicate AllTidy(insts: seq<Inst>) {
    forall k :: 0 <= k < |insts| ==> Tidy(insts[k])
  }

  // So the comparison with the name, which reads on through the words, ends
  // there.
  lemma NameInside(w: seq<Word>, i: nat, n: nat)
    requires i + n <= |w| && n >= 3 && Op(w[i]) == OP_EXT_INST_IMPORT && Tidy(w[i..i + n])
    ensures NameAt(w, i + 2) <==> NameAt(w[i..i + n], 2)
  {
    var inst := w[i..i + n];
    assert inst[n - 1] == w[i + n - 1];
    if n >= 6 {
      assert inst[2] == w[i + 2] && inst[3] == w[i + 3] && inst[4] == w[i + 4] && inst[5] == w[i + 5];
    }
  }

  lemma DecoratedOn(insts: seq<Inst>, inst: Inst)
    ensures forall id: Word :: Decorated(insts + [inst], id) <==> Decorated(insts, id) || Decorates(inst, id)
  {
    hide Decorates;
    var on := insts + [inst];
    forall id: Word ensures Decorated(on, id) <==> Decorated(insts, id) || Decorates(inst, id) {
      if Decorated(insts, id) {
        var k :| 0 <= k < |insts| && Decorates(insts[k], id);
        assert Decorates(on[k], id);
      }
      if Decorates(inst, id) { assert Decorates(on[|insts|], id); }
    }
  }

  // The types' first word, 0 while none was met.
  function TypesAt(insts: seq<Inst>): nat {
    if FirstType(insts) == |insts| then 0 else HEADER + |Flat(insts[..FirstType(insts)])|
  }

  lemma TypesOn(insts: seq<Inst>, inst: Inst)
    ensures TypesAt(insts + [inst])
            == if TypesAt(insts) > 0 then TypesAt(insts) else if IsType(inst) then HEADER + |Flat(insts)| else 0
  {
    hide IsType, Flat;
    var t, on := FirstType(insts), insts + [inst];
    if t < |insts| {
      FirstTypeIsFirst(on, t);
      assert on[..t] == insts[..t];
    } else {
      FirstTypeIsFirst(on, if IsType(inst) then t else t + 1);
      assert on[..t] == insts;
    }
  }

  // What the scan has found in the instructions so far.
  ghost predicate Found(insts: seq<Inst>, bound: Word, glsl: Word, fma: seq<Word>, done: seq<bool>, types: nat) {
    glsl == Glsl(insts) && Known(insts, bound, fma, done, types)
  }

  // What the insertion needs of it: the ids to decorate, in order; those that
  // are already, among the ids below the bound; and where the types start.
  ghost predicate Known(insts: seq<Inst>, bound: Word, fma: seq<Word>, done: seq<bool>, types: nat) {
    && fma == Results(insts) && types == TypesAt(insts)
    && |done| == bound && forall id: Word :: id < bound ==> done[id] == Decorated(insts, id)
  }

  lemma FoundOn(insts: seq<Inst>, inst: Inst, bound: Word, glsl: Word, fma: seq<Word>, done: seq<bool>, types: nat,
                done': seq<bool>)
    requires Found(insts, bound, glsl, fma, done, types) && |done'| == bound
    requires forall id: Word :: id < bound ==> done'[id] == (done[id] || Decorates(inst, id))
    ensures Found(insts + [inst], bound, if Imports(inst) then inst[1] else glsl,
                  fma + if Fuses(inst, if Imports(inst) then inst[1] else glsl) then [inst[2]] else [], done',
                  if types == 0 && IsType(inst) then HEADER + |Flat(insts)| else types)
  {
    hide Imports, Fuses, Decorated, Decorates, IsType, TypesAt;
    ResultsOn(insts, inst);
    DecoratedOn(insts, inst);
    TypesOn(insts, inst);
    if Imports(inst) { ImportDoesNotFuse(inst); }
  }

  lemma ImportDoesNotFuse(inst: Inst)
    requires Imports(inst)
    ensures forall g: Word :: !Fuses(inst, g)
  {}

  // The scan: what it reads of the instructions, or false for a module with
  // a bad one.
  method Scan(w: array<Word>, fma: array<Word>, done: array<bool>) returns (ok: bool, nf: nat, types: nat)
    requires w.Length >= HEADER && fma.Length == w.Length && done.Length == w[3] && w != fma
    requires forall id :: 0 <= id < done.Length ==> !done[id]
    modifies fma, done
    ensures ok <==> Split(w[..], HEADER).Some?
    ensures ok ==> nf <= fma.Length
    ensures ok && AllTidy(Split(w[..], HEADER).value) ==>
      Known(Split(w[..], HEADER).value, w[3], fma[..nf], done[..], types)
  {
    hide HasRead, Split, Flat, Found, Known, AllTidy, NameAt, Fuses, Imports, Decorates, Tidy;
    ghost var all, bound, insts: seq<Inst> := w[..], w[3], [];
    var glsl: Word := 0;
    nf, types := 0, 0;
    var i: nat := HEADER;
    StartFound(bound, done[..]);
    HasReadNone(all);
    while i < w.Length
      invariant HEADER <= i <= w.Length && w[..] == all && HasRead(all, i, insts)
      invariant 4 * nf <= i
      invariant AllTidy(insts) ==> Found(insts, bound, glsl, fma[..nf], done[..], types)
    {
      var wc := Count(w[i]);
      if wc == 0 || i + wc > w.Length {
        BadInst(all, i, insts);
        return false, nf, types;
      }
      HasReadOn(all, i, insts);
      glsl, nf, types := Note(w, i, glsl, fma, nf, done, types, insts);
      insts := insts + [all[i..i + wc]];
      i := i + wc;
    }
    HasReadAll(all, insts);
    FoundIsKnown(insts, bound, glsl, fma[..nf], done[..], types);
    ok := true;
  }

  lemma FoundIsKnown(insts: seq<Inst>, bound: Word, glsl: Word, fma: seq<Word>, done: seq<bool>, types: nat)
    ensures Found(insts, bound, glsl, fma, done, types) ==> Known(insts, bound, fma, done, types)
  {}

  // What the instruction at i adds to what was found.
  method Note(w: array<Word>, i: nat, glsl0: Word, fma: array<Word>, nf0: nat, done: array<bool>, types0: nat,
              ghost insts: seq<Inst>)
      returns (glsl: Word, nf: nat, types: nat)
    requires HEADER <= i < w.Length && 0 < Count(w[i]) && i + Count(w[i]) <= w.Length && w != fma
    requires fma.Length == w.Length && done.Length == w[3] && 4 * nf0 <= i && i == HEADER + |Flat(insts)|
    requires AllTidy(insts) ==> Found(insts, w[3], glsl0, fma[..nf0], done[..], types0)
    modifies fma, done
    ensures 4 * nf <= i + Count(w[i])
    ensures AllTidy(insts + [w[i..i + Count(w[i])]]) ==>
      Found(insts + [w[i..i + Count(w[i])]], w[3], glsl, fma[..nf], done[..], types)
  {
    hide Found, NameAt, Fuses, Imports, Decorates, Tidy, Flat;
    var op, wc := Op(w[i]), Count(w[i]);
    ghost var inst, fma0, done0 := w[i..i + wc], fma[..nf0], done[..];
    glsl, nf, types := glsl0, nf0, types0;
    if op == OP_EXT_INST_IMPORT && wc >= 3 && NameAt(w[..], i + 2) {
      glsl := w[i + 1];
    }
    if (op == OP_EXT_INST && wc >= 5 && w[i + 3] == glsl && w[i + 4] == GLSL_FMA) || (op == OP_FCONVERT && wc == 4) {
      fma[nf] := w[i + 2];
      nf := nf + 1;
    }
    if op == OP_DECORATE && wc >= 3 && w[i + 2] == NO_CONTRACTION && w[i + 1] < w[3] {
      done[w[i + 1]] := true;
    }
    if types == 0 && OP_TYPE_FIRST <= op <= OP_TYPE_LAST {
      types := i;
    }
    if AllTidy(insts + [inst]) {
      TidyOn(insts, inst);
      assert w[..][i..i + wc] == inst;
      Reads(w[..], i, wc, glsl);
      assert fma[..nf] == fma0 + if Fuses(inst, glsl) then [inst[2]] else [];
      FoundOn(insts, inst, w[3], glsl0, fma0, done0, types0, done[..]);
    }
  }

  lemma TidyOn(insts: seq<Inst>, inst: Inst)
    requires AllTidy(insts + [inst])
    ensures AllTidy(insts) && Tidy(inst)
  {
    var on := insts + [inst];
    assert on[|insts|] == inst && forall k :: 0 <= k < |insts| ==> on[k] == insts[k];
  }

  // The words before i are these instructions.
  ghost predicate HasRead(w: seq<Word>, i: nat, insts: seq<Inst>)
    requires HEADER <= |w|
  {
    && HEADER <= i <= |w| && HEADER + |Flat(insts)| == i
    && Split(w, HEADER) == if Split(w, i).None? then None else Some(insts + Split(w, i).value)
  }

  lemma HasReadNone(w: seq<Word>)
    requires HEADER <= |w|
    ensures HasRead(w, HEADER, [])
  {
    hide Split;
    assert forall rest: seq<Inst> :: [] + rest == rest;
  }

  lemma BadInst(w: seq<Word>, i: nat, insts: seq<Inst>)
    requires HEADER <= i < |w| && HasRead(w, i, insts) && (Count(w[i]) == 0 || i + Count(w[i]) > |w|)
    ensures Split(w, HEADER).None?
  {}

  lemma HasReadAll(w: seq<Word>, insts: seq<Inst>)
    requires HEADER <= |w| && HasRead(w, |w|, insts)
    ensures Split(w, HEADER) == Some(insts)
  {
    assert Split(w, |w|) == Some([]) && insts + [] == insts;
  }

  lemma HasReadOn(w: seq<Word>, i: nat, insts: seq<Inst>)
    requires HEADER <= i < |w| && HasRead(w, i, insts) && Count(w[i]) > 0 && i + Count(w[i]) <= |w|
    ensures HasRead(w, i + Count(w[i]), insts + [w[i..i + Count(w[i])]]) && i == HEADER + |Flat(insts)|
  {
    hide Flat;
    var inst := w[i..i + Count(w[i])];
    FlatConcat(insts, [inst]);
    FlatOne(inst);
    SplitStep(w, i);
    if Split(w, i).Some? {
      var rest := Split(w, i + Count(w[i])).value;
      assert insts + ([inst] + rest) == (insts + [inst]) + rest;
    }
  }

  lemma FlatOne(inst: Inst)
    ensures Flat([inst]) == inst
  {
    assert Flat([inst]) == inst + Flat([]);
  }

  lemma SplitStep(w: seq<Word>, i: nat)
    requires i < |w| && Count(w[i]) > 0 && i + Count(w[i]) <= |w|
    ensures Split(w, i) == if Split(w, i + Count(w[i])).None? then None
                           else Some([w[i..i + Count(w[i])]] + Split(w, i + Count(w[i])).value)
  {}

  // What the words of an instruction are asked.
  lemma Reads(w: seq<Word>, i: nat, n: nat, glsl: Word)
    requires 0 < n && i + n <= |w| && n == Count(w[i]) && Tidy(w[i..i + n])
    ensures var inst, op := w[i..i + n], Op(w[i]);
            && (Imports(inst) <==> op == OP_EXT_INST_IMPORT && n >= 3 && NameAt(w, i + 2))
            && (Fuses(inst, glsl) <==>
                  || (op == OP_EXT_INST && n >= 5 && w[i + 3] == glsl && w[i + 4] == GLSL_FMA)
                  || (op == OP_FCONVERT && n == 4))
            && (forall id: Word :: Decorates(inst, id) <==>
                  op == OP_DECORATE && n >= 3 && w[i + 2] == NO_CONTRACTION && w[i + 1] == id)
            && (IsType(inst) <==> OP_TYPE_FIRST <= op <= OP_TYPE_LAST)
            && (n >= 2 ==> inst[1] == w[i + 1]) && (n >= 3 ==> inst[2] == w[i + 2])
  {
    hide NameAt;
    if n >= 3 && Op(w[i]) == OP_EXT_INST_IMPORT { NameInside(w, i, n); }
  }

  lemma StartFound(bound: Word, done: seq<bool>)
    requires |done| == bound && forall id :: 0 <= id < |done| ==> !done[id]
    ensures Found([], bound, 0, [], done, 0)
  {}

  // ---- the insertion ----

  // A word of the output file.
  method Put(out: seq<Word>, x: Word) returns (r: seq<Word>)
    ensures r == out + [x]
  {
    r := out + [x];
  }

  // The decorations, each id once.
  method PutMarks(out0: seq<Word>, fma: array<Word>, nf: nat, done: array<bool>,
                  ghost insts: seq<Inst>) returns (out: seq<Word>)
    requires nf <= fma.Length && forall k :: 0 <= k < nf ==> fma[k] < done.Length
    requires forall id: Word :: id < done.Length ==> done[id] == Decorated(insts, id)
    modifies done
    ensures out == out0 + Flat(Marks(Fresh(insts, fma[..nf])))
  {
    hide Decorated, Fresh, Marks, Mark, Flat;
    out := out0;
    NoMarks(insts);
    ghost var ids := fma[..nf];
    for k := 0 to nf
      invariant ids == fma[..nf]
      invariant out == out0 + Flat(Marks(Fresh(insts, ids[..k])))
      invariant forall id: Word :: id < done.Length ==> done[id] == (Decorated(insts, id) || id in ids[..k])
    {
      FreshOn(insts, ids[..k], ids[k]);
      assert ids[..k + 1] == ids[..k] + [ids[k]];
      if !done[fma[k]] {
        done[fma[k]] := true;
        out := Put(out, 3 * 0x1_0000 + OP_DECORATE);
        out := Put(out, fma[k]);
        out := Put(out, NO_CONTRACTION);
      }
    }
    assert ids[..nf] == ids;
  }

  lemma NoMarks(insts: seq<Inst>)
    ensures Flat(Marks(Fresh(insts, []))) == []
  {}

  lemma FreshOn(insts: seq<Inst>, ids: seq<Word>, id: Word)
    ensures Flat(Marks(Fresh(insts, ids + [id])))
            == Flat(Marks(Fresh(insts, ids)))
               + if Decorated(insts, id) || id in ids then [] else [3 * 0x1_0000 + OP_DECORATE, id, NO_CONTRACTION]
  {
    hide Decorated;
    var on := ids + [id];
    assert on[..|on| - 1] == ids && on[|on| - 1] == id;
    var added := Fresh(insts, ids);
    if Decorated(insts, id) || id in ids {
      assert Fresh(insts, on) == added + [] == added;
    } else {
      assert Marks(added + [id]) == Marks(added) + [Mark(id)];
      FlatConcat(Marks(added), [Mark(id)]);
      assert Flat([Mark(id)]) == Mark(id) + Flat([]);
    }
  }

  // The module that comes out, with the results decorated before the types;
  // None for a file that is no module.
  method Decorate(w: array<Word>) returns (out: Option<seq<Word>>)
    requires w.Length >= HEADER && Split(w[..], HEADER).Some? ==> Sound(Split(w[..], HEADER).value, w[3])
    ensures out.Some? <==> && w.Length >= HEADER && w[0] == MAGIC && Split(w[..], HEADER).Some?
                           && (Results(Split(w[..], HEADER).value) == []
                              || FirstType(Split(w[..], HEADER).value) < |Split(w[..], HEADER).value|)
    ensures out.Some? ==> out.value == w[..HEADER] + Flat(Inserted(Split(w[..], HEADER).value))
  {
    hide Results, FirstType, Fresh, Decorated, Flat, AllTidy, Inserted, TypesAt, Marks, Split, IsInst;
    var n := w.Length;
    if n < HEADER || w[0] != MAGIC {
      return None;
    }
    var fma, done := new Word[n], new bool[w[3]](_ => false);
    ghost var all := w[..];
    var ok, nf, types := Scan(w, fma, done);
    if !ok {
      return None;
    }
    ghost var insts := Split(all, HEADER).value;
    FlatSplit(all, HEADER);
    TypesSplit(all, insts);
    assert nf > 0 ==> fma[..nf][0] == fma[0];
    if nf > 0 && types == 0 {
      return None;
    }
    forall k | 0 <= k < nf ensures fma[k] < done.Length {
      assert fma[..nf][k] in Results(insts);
    }
    var o := Emit(w, types, fma, nf, done, insts);
    out := Some(o);
  }

  // The words, the decorations before those of the types.
  method Emit(w: array<Word>, types: nat, fma: array<Word>, nf: nat, done: array<bool>,
              ghost insts: seq<Inst>) returns (o: seq<Word>)
    requires types < w.Length && nf <= fma.Length && forall k :: 0 <= k < nf ==> fma[k] < done.Length
    requires forall id: Word :: id < done.Length ==> done[id] == Decorated(insts, id)
    modifies done
    ensures o == w[..types] + Flat(Marks(Fresh(insts, fma[..nf]))) + w[types..]
  {
    hide Decorated, Fresh, Flat, Marks;
    o := [];
    ghost var all, marks := w[..], Flat(Marks(Fresh(insts, fma[..nf])));
    for i := 0 to w.Length
      invariant w[..] == all && marks == Flat(Marks(Fresh(insts, fma[..nf])))
      invariant i <= types ==> forall id: Word :: id < done.Length ==> done[id] == Decorated(insts, id)
      invariant o == if i > types then all[..types] + marks + all[types..i] else all[..i]
    {
      if i == types {
        o := PutMarks(o, fma, nf, done, insts);
      }
      o := Put(o, w[i]);
    }
  }

  // What is asked of a module: its names end in their instructions, and the
  // results are below its bound.
  predicate Sound(insts: seq<Inst>, bound: Word) {
    AllTidy(insts) && forall id :: id in Results(insts) ==> id < bound
  }

  // What comes out is a module again: the instructions with the decorations
  // among them, sound as before; and a second run gives the same words.
  lemma OutputIsSettled(w: seq<Word>, out: seq<Word>)
    requires |w| >= HEADER && Split(w, HEADER).Some? && Sound(Split(w, HEADER).value, w[3])
    requires out == w[..HEADER] + Flat(Inserted(Split(w, HEADER).value))
    ensures Split(out, HEADER) == Some(Inserted(Split(w, HEADER).value))
    ensures Sound(Split(out, HEADER).value, out[3])
    ensures out == out[..HEADER] + Flat(Inserted(Split(out, HEADER).value))
  {
    hide Split, Results, Flat, Inserted, IsInst, Tidy;
    var insts := Split(w, HEADER).value;
    FlatSplit(w, HEADER);
    OnlyMarksInserted(insts);
    assert out[HEADER..] == Flat(Inserted(insts));
    SplitFlat(out, HEADER, Inserted(insts));
    ResultsKept(insts);
    TidyAfter(insts);
    SecondRunInsertsNothing(insts);
    assert out[..HEADER] == w[..HEADER];
    assert out[3] == out[..HEADER][3];
  }

  lemma TidyAfter(insts: seq<Inst>)
    requires AllTidy(insts)
    ensures AllTidy(Inserted(insts))
  {
    hide Results, Tidy, Fresh;
    MarksTidy();
  }

  lemma MarksTidy()
    ensures forall id: Word :: Tidy(Mark(id))
  {}

  // Where the types start, in words.
  lemma TypesSplit(w: seq<Word>, insts: seq<Inst>)
    requires |w| >= HEADER && w[HEADER..] == Flat(insts)
    ensures TypesAt(insts) == 0 <==> FirstType(insts) == |insts|
    ensures var t, marks := TypesAt(insts), Flat(Marks(Fresh(insts, Results(insts))));
            (t > 0 || Results(insts) == []) ==>
              t < |w| && w[..HEADER] + Flat(Inserted(insts)) == w[..t] + marks + w[t..]
  {
    hide Results, Fresh, Flat, Marks, FirstType, Inserted, IsInst, Mark, IsType;
    if FirstType(insts) < |insts| {
      SplitAtTypes(w, insts);
    } else if Results(insts) == [] {
      NothingToSplit(w, insts);
    }
  }

  lemma SplitAtTypes(w: seq<Word>, insts: seq<Inst>)
    requires |w| >= HEADER && w[HEADER..] == Flat(insts) && FirstType(insts) < |insts|
    ensures var t, marks := HEADER + |Flat(insts[..FirstType(insts)])|, Flat(Marks(Fresh(insts, Results(insts))));
            t < |w| && w[..HEADER] + Flat(Inserted(insts)) == w[..t] + marks + w[t..]
  {
    hide Results, Fresh, Flat, Marks, FirstType, Inserted, IsInst, Mark, IsType;
    var t := FirstType(insts);
    InsertedFlat(insts);
    FlatCut(insts, t);
    SomeWords(insts, t);
    Between(w, Flat(insts[..t]), Flat(Marks(Fresh(insts, Results(insts)))), Flat(insts[t..]));
    assert |w[HEADER..]| == |w| - HEADER;
  }

  lemma NothingToSplit(w: seq<Word>, insts: seq<Inst>)
    requires |w| >= HEADER && w[HEADER..] == Flat(insts) && Results(insts) == []
    ensures w[..HEADER] + Flat(Inserted(insts)) == w[..0] + Flat(Marks(Fresh(insts, Results(insts)))) + w[0..]
  {
    hide Results, Fresh, Flat, Marks, FirstType, Inserted, IsInst, Mark, IsType;
    var t := FirstType(insts);
    InsertedFlat(insts);
    FlatCut(insts, t);
    NoMarks(insts);
    NoWords(w, Flat(insts[..t]), Flat(Marks(Fresh(insts, Results(insts)))), Flat(insts[t..]));
  }

  lemma FlatCut(insts: seq<Inst>, t: nat)
    requires t <= |insts|
    ensures Flat(insts) == Flat(insts[..t]) + Flat(insts[t..])
  {
    hide Flat;
    FlatConcat(insts[..t], insts[t..]);
    assert insts == insts[..t] + insts[t..];
  }

  lemma SomeWords(insts: seq<Inst>, t: nat)
    requires t < |insts| && IsType(insts[t])
    ensures |Flat(insts[t..])| > 0
  {}

  lemma NoWords(w: seq<Word>, a: seq<Word>, m: seq<Word>, b: seq<Word>)
    requires |w| >= HEADER && w[HEADER..] == a + b && m == []
    ensures w[..HEADER] + (a + m + b) == w[..0] + m + w[0..]
  {
    assert w == w[..HEADER] + (a + b) && a + m + b == a + b && w[..0] + m + w[0..] == w;
  }

  lemma InsertedFlat(insts: seq<Inst>)
    ensures var t := FirstType(insts);
            Flat(Inserted(insts)) == Flat(insts[..t]) + Flat(Marks(Fresh(insts, Results(insts)))) + Flat(insts[t..])
  {
    hide Results, Fresh, Flat, Marks, FirstType, IsInst;
    var t := FirstType(insts);
    var marks := Marks(Fresh(insts, Results(insts)));
    FlatConcat(insts[..t] + marks, insts[t..]);
    FlatConcat(insts[..t], marks);
  }

  lemma Between(w: seq<Word>, a: seq<Word>, m: seq<Word>, b: seq<Word>)
    requires |w| >= HEADER && w[HEADER..] == a + b
    ensures HEADER + |a| <= |w| && w[..HEADER] + (a + m + b) == w[..HEADER + |a|] + m + w[HEADER + |a|..]
  {
    assert w == w[..HEADER] + (a + b);
  }
}
