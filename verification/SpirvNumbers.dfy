// What tools/spv_fma.c decorates, by the numbers of the SPIR-V Specification
// (sections 2.3 and 3.52) and of its extended instructions for GLSL.

module SpirvNumbers {
  import opened Ints
  import opened Spirv

  const NAME: string := "GLSL.std.450"

  // Byte k of an instruction's literal from its third word on, the lowest of
  // a word first.
  function ByteOf(inst: Inst, k: nat): int
    requires 2 + k / 4 < |inst|
  {
    var w := inst[2 + k / 4];
    if k % 4 == 0 then w % 256 else if k % 4 == 1 then w / 256 % 256 else if k % 4 == 2 then w / 65536 % 256
    else w / 16777216
  }

  // OpExtInstImport of the name, which a zero ends.
  predicate ImportsGlsl(inst: Inst) {
    && |inst| >= 6 && inst[0] % 65536 == 11
    && (forall k :: 0 <= k < 12 ==> ByteOf(inst, k) == NAME[k] as int) && ByteOf(inst, 12) == 0
  }

  // The set imported last before instruction k; 0 before any.
  predicate SetAt(insts: seq<Inst>, k: nat, id: Word)
    requires k <= |insts|
  {
    || (id == 0 && forall j :: 0 <= j < k ==> !ImportsGlsl(insts[j]))
    || exists m :: 0 <= m < k && ImportsGlsl(insts[m]) && insts[m][1] == id
                   && forall j :: m < j < k ==> !ImportsGlsl(insts[j])
  }

  // OpFConvert, or OpExtInst of that set's Fma.
  predicate FusesAt(insts: seq<Inst>, k: nat)
    requires k < |insts|
  {
    var inst := insts[k];
    || (|inst| == 4 && inst[0] % 65536 == 115)
    || (|inst| >= 5 && inst[0] % 65536 == 12 && inst[4] == 50 && SetAt(insts, k, inst[3]))
  }

  // OpDecorate of the id with NoContraction.
  predicate HasMark(insts: seq<Inst>, id: Word) {
    exists k :: 0 <= k < |insts| && |insts[k]| >= 3 && insts[k][0] % 65536 == 71 && insts[k][1] == id
                && insts[k][2] == 42
  }

  lemma WordBytes(w: Word, a: int, b: int, c: int, d: int)
    requires 0 <= a < 256 && 0 <= b < 256 && 0 <= c < 256 && 0 <= d < 256
    ensures w == a + 256 * b + 65536 * c + 16777216 * d
            <==> w % 256 == a && w / 256 % 256 == b && w / 65536 % 256 == c && w / 16777216 == d
  {
    var q := w / 256;
    var r := q / 256;
    Quotients(w, q, r);
    Low(w, q, a, b + 256 * c + 65536 * d);
    Low(q, r, b, c + 256 * d);
    Low(r, r / 256, c, d);
  }

  lemma Quotients(w: nat, q: nat, r: nat)
    requires q == w / 256 && r == q / 256
    ensures w / 65536 == r && w / 16777216 == r / 256
  {
    var a, b := w % 256, q % 256;
    assert w == 65536 * r + (256 * b + a);
    var t, c := r / 256, r % 256;
    assert w == 16777216 * t + (65536 * c + 256 * b + a);
  }

  lemma Low(x: int, q: int, a: int, rest: int)
    requires q == x / 256 && 0 <= a < 256
    ensures x == a + 256 * rest <==> x % 256 == a && q == rest
  {}

  lemma ImportsAre(inst: Inst)
    ensures Imports(inst) <==> ImportsGlsl(inst)
  {
    if |inst| >= 6 {
      WordBytes(inst[2], 71, 76, 83, 76);
      WordBytes(inst[3], 46, 115, 116, 100);
      WordBytes(inst[4], 46, 52, 53, 48);
      LiteralIs(inst);
    }
  }

  lemma LiteralIs(inst: Inst)
    requires |inst| >= 6
    ensures (forall k :: 0 <= k < 12 ==> ByteOf(inst, k) == NAME[k] as int)
            <==> && ByteOf(inst, 0) == 71 && ByteOf(inst, 1) == 76 && ByteOf(inst, 2) == 83 && ByteOf(inst, 3) == 76
                 && ByteOf(inst, 4) == 46 && ByteOf(inst, 5) == 115 && ByteOf(inst, 6) == 116 && ByteOf(inst, 7) == 100
                 && ByteOf(inst, 8) == 46 && ByteOf(inst, 9) == 52 && ByteOf(inst, 10) == 53 && ByteOf(inst, 11) == 48
  {
    hide ByteOf;
  }

  lemma {:induction false} GlslIsSet(insts: seq<Inst>, id: Word)
    ensures Glsl(insts) == id <==> SetAt(insts, |insts|, id)
    decreases |insts|
  {
    hide Imports, ImportsGlsl;
    if insts != [] {
      var n := |insts| - 1;
      ImportsAre(insts[n]);
      GlslIsSet(insts[..n], id);
      SetOn(insts, id);
    }
  }

  lemma SetOn(insts: seq<Inst>, id: Word)
    requires insts != []
    ensures var n := |insts| - 1;
            SetAt(insts, |insts|, id)
            <==> if ImportsGlsl(insts[n]) then insts[n][1] == id else SetAt(insts[..n], n, id)
  {
    hide ImportsGlsl;
    var n := |insts| - 1;
    if ImportsGlsl(insts[n]) { assert |insts[n]| >= 6 by { ImportHasId(insts[n]); } }
  }

  lemma ImportHasId(inst: Inst)
    requires ImportsGlsl(inst)
    ensures |inst| >= 6
  {}

  lemma SetBefore(insts: seq<Inst>, k: nat, id: Word)
    requires k <= |insts|
    ensures SetAt(insts, k, id) <==> SetAt(insts[..k], k, id)
  {
    hide ImportsGlsl;
    assert forall j :: 0 <= j < k ==> insts[..k][j] == insts[j];
  }

  // What is decorated is a result of those instructions and no other.
  lemma {:induction false} ResultsAre(insts: seq<Inst>, id: Word)
    ensures id in Results(insts) <==> exists k :: 0 <= k < |insts| && FusesAt(insts, k) && insts[k][2] == id
    decreases |insts|
  {
    hide SetAt, Glsl;
    if insts != [] {
      var n := |insts| - 1;
      var front, last := insts[..n], insts[n];
      ResultsAre(front, id);
      SameBefore(insts);
      if |last| >= 5 {
        GlslIsSet(front, last[3]);
        SetBefore(insts, n, last[3]);
      }
      assert Fuses(last, Glsl(front)) <==> FusesAt(insts, n);
    }
  }

  lemma SameBefore(insts: seq<Inst>)
    requires insts != []
    ensures forall k :: 0 <= k < |insts| - 1 ==>
      (FusesAt(insts[..|insts| - 1], k) <==> FusesAt(insts, k)) && insts[..|insts| - 1][k] == insts[k]
  {
    hide SetAt;
    var front := insts[..|insts| - 1];
    forall k | 0 <= k < |front| ensures FusesAt(front, k) <==> FusesAt(insts, k) {
      if |insts[k]| >= 5 {
        SetBefore(front, k, insts[k][3]);
        SetBefore(insts, k, insts[k][3]);
        assert front[..k] == insts[..k];
      }
    }
  }

  lemma MarksAre(insts: seq<Inst>, id: Word)
    ensures Decorated(insts, id) <==> HasMark(insts, id)
  {
    if Decorated(insts, id) { var k :| 0 <= k < |insts| && Decorates(insts[k], id); }
    if k :| 0 <= k < |insts| && |insts[k]| >= 3 && insts[k][0] % 65536 == 71 && insts[k][1] == id
            && insts[k][2] == 42 {
      assert Decorates(insts[k], id);
    }
  }

  // After a run an id has the mark exactly when it had it, or is the result
  // of a conversion or an fma().
  lemma MarkedAfter(insts: seq<Inst>, id: Word)
    ensures HasMark(Inserted(insts), id)
            <==> HasMark(insts, id) || exists k :: 0 <= k < |insts| && FusesAt(insts, k) && insts[k][2] == id
  {
    hide Decorated, HasMark, Results, Inserted, FusesAt;
    MarksAre(insts, id);
    MarksAre(Inserted(insts), id);
    ResultsAre(insts, id);
    DecoratedAfter(insts, id);
  }

  // A module is five words and instructions; its types are OpTypeVoid to
  // OpTypeForwardPointer, and the marks go before the first of them.
  lemma TypesAre(insts: seq<Inst>)
    ensures MAGIC == 0x07230203 && HEADER == 5
    ensures forall inst: Inst :: IsType(inst) <==> |inst| > 0 && 19 <= inst[0] % 65536 <= 39
    ensures var t := FirstType(insts);
            && t <= |insts| && (t < |insts| ==> 19 <= insts[t][0] % 65536 <= 39)
            && forall k :: 0 <= k < t ==> |insts[k]| == 0 || !(19 <= insts[k][0] % 65536 <= 39)
  {
    var t := FirstType(insts);
    forall k | 0 <= k < t ensures |insts[k]| == 0 || !(19 <= insts[k][0] % 65536 <= 39) {
      assert !IsType(insts[k]);
    }
  }
}
