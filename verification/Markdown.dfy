// The machine of src/chat/markdown.h, which turns marks into styles: it reads
// a byte at a time and holds back what may yet be a mark.

module Markdown {
  import opened Bits

  type Text = seq<byte>

  const NUL: byte := 0
  const TAB: byte := 0x09
  const LF: byte := 0x0a
  const SPACE: byte := 0x20
  const HASH: byte := 0x23
  const STAR: byte := 0x2a
  const PLUS: byte := 0x2b
  const MINUS: byte := 0x2d
  const UNDER: byte := 0x5f
  const TICK: byte := 0x60

  // ---- what is written ----

  datatype Style = Bold | NoBold | Italic | NoItalic | Code | NoCode

  // What goes to the terminal, in order.
  datatype Event = Letter(b: byte) | Bullet | Styled(style: Style)

  // The text of it.
  function Written(out: seq<Event>): Text {
    if out == [] then []
    else
      var e := out[|out| - 1];
      Written(out[..|out| - 1]) + if e.Letter? then [e.b] else []
  }

  // How the terminal writes after it.
  datatype Look = Look(bold: bool, italic: bool, code: bool)

  function After(l: Look, style: Style): Look {
    match style
    case Bold => l.(bold := true)
    case NoBold => l.(bold := false)
    case Italic => l.(italic := true)
    case NoItalic => l.(italic := false)
    case Code => l.(code := true)
    case NoCode => l.(code := false)
  }

  function Seen(out: seq<Event>): Look {
    if out == [] then Look(false, false, false)
    else
      var l, e := Seen(out[..|out| - 1]), out[|out| - 1];
      if e.Styled? then After(l, e.style) else l
  }

  lemma WrittenOn(out: seq<Event>, e: Event)
    ensures Written(out + [e]) == Written(out) + if e.Letter? then [e.b] else []
    ensures !e.Styled? ==> Seen(out + [e]) == Seen(out)
  {
    assert (out + [e])[..|out|] == out;
  }

  lemma StyledOn(out: seq<Event>, style: Style)
    ensures Written(out + [Styled(style)]) == Written(out)
    ensures Seen(out + [Styled(style)]) == After(Seen(out), style)
  {
    assert (out + [Styled(style)])[..|out|] == out;
  }

  // ---- what must come through ----

  predicate IsMark(b: byte) {
    b == TICK || b == UNDER || b == STAR || b == HASH || b == MINUS || b == PLUS
  }

  predicate IsBlank(b: byte) {
    b == SPACE || b == TAB
  }

  // A byte that no rule of the marks may drop.
  predicate Solid(b: byte) {
    !IsMark(b) && !IsBlank(b) && b != NUL
  }

  lemma Marks()
    ensures IsMark(TICK) && IsMark(UNDER) && IsMark(STAR) && IsMark(HASH) && IsMark(MINUS) && IsMark(PLUS)
    ensures forall b: byte :: IsMark(b) ==> !Solid(b)
    ensures !Solid(SPACE) && !Solid(TAB)
    ensures forall b: byte :: IsMark(b) <==> b as char in "`_*#-+"
    ensures [TICK as char, UNDER as char, STAR as char, HASH as char, MINUS as char, PLUS as char] == "`_*#-+"
    ensures [NUL as char, TAB as char, LF as char, SPACE as char] == "\0\t\n "
  {}

  function Solids(s: Text): Text {
    if s == [] then []
    else Solids(s[..|s| - 1]) + if Solid(s[|s| - 1]) then [s[|s| - 1]] else []
  }

  // Where the reading stands among the fences: outside a block with so many
  // backticks just read; on the line of an opening fence; or in a block,
  // with nothing but blanks on the line so far or not.
  datatype Scan = Out(ticks: nat) | Opening | In(blank: bool, ticks: nat)

  function Step(f: Scan, c: byte): Scan {
    match f
    case Out(t) => if c != TICK then Out(0) else if t == 2 then Opening else Out(t + 1)
    case Opening => if c == LF then In(true, 0) else Opening
    case In(b, t) =>
      if c == LF then In(true, 0)
      else if c == TICK && (b || t > 0) then if t == 2 then Out(0) else In(false, t + 1)
      else In(b && IsBlank(c), 0)
  }

  function Fence(s: Text): Scan {
    if s == [] then Out(0) else Step(Fence(s[..|s| - 1]), s[|s| - 1])
  }

  // The solid bytes of a reply, those on the line of an opening fence left
  // out.
  function Content(s: Text): Text {
    if s == [] then []
    else
      var front, c := s[..|s| - 1], s[|s| - 1];
      Content(front) + if Solid(c) && !Fence(front).Opening? then [c] else []
  }

  // o is what is left of s when some bytes are dropped.
  predicate Thinned(o: Text, s: Text)
    decreases |s|
  {
    o == []
    || (s != [] && ((o[|o| - 1] == s[|s| - 1] && Thinned(o[..|o| - 1], s[..|s| - 1])) || Thinned(o, s[..|s| - 1])))
  }

  lemma ThinnedKeeps(o: Text, s: Text, c: byte)
    requires Thinned(o, s)
    ensures Thinned(o + [c], s + [c])
  {
    assert (s + [c])[..|s|] == s && (o + [c])[..|o|] == o;
  }

  lemma ThinnedDrops(o: Text, s: Text, c: byte)
    requires Thinned(o, s)
    ensures Thinned(o, s + [c])
  {
    assert (s + [c])[..|s|] == s;
  }

  lemma {:induction false} ThinnedFront(o: Text, s: Text)
    requires o != [] && Thinned(o, s)
    ensures Thinned(o[..|o| - 1], s)
    decreases |s|
  {
    var front, c := s[..|s| - 1], s[|s| - 1];
    assert s == front + [c];
    if o[|o| - 1] == c && Thinned(o[..|o| - 1], front) {
      ThinnedDrops(o[..|o| - 1], front, c);
    } else {
      ThinnedFront(o, front);
      ThinnedDrops(o[..|o| - 1], front, c);
    }
  }

  lemma {:induction false} ThinnedPrefix(o: Text, rest: Text, s: Text)
    requires Thinned(o + rest, s)
    ensures Thinned(o, s)
    decreases |rest|
  {
    if rest == [] {
      assert o + rest == o;
    } else {
      ThinnedFront(o + rest, s);
      assert (o + rest)[..|o + rest| - 1] == o + rest[..|rest| - 1];
      ThinnedPrefix(o, rest[..|rest| - 1], s);
    }
  }

  lemma InputOn(s: Text, c: byte)
    ensures Fence(s + [c]) == Step(Fence(s), c)
    ensures Content(s + [c]) == Content(s) + if Solid(c) && !Fence(s).Opening? then [c] else []
    ensures Solids(s + [c]) == Solids(s) + if Solid(c) then [c] else []
  {
    assert (s + [c])[..|s|] == s;
  }

  // ---- the account of a reply ----

  // All that is solid of what came is written, once and in order; and what is
  // written, with what is held, is what came with some bytes dropped.
  ghost predicate Account(out: seq<Event>, held: Text, input: Text) {
    Solids(Written(out)) == Content(input) && Thinned(Written(out) + held, input)
  }

  lemma AccountStarts()
    ensures Account([], [], [])
  {}

  // A byte that was held is written.
  lemma HeldWritten(out: seq<Event>, b: byte, held: Text, input: Text)
    requires Account(out, [b] + held, input) && !Solid(b)
    ensures Account(out + [Letter(b)], held, input)
  {
    hide Thinned, Solids, Content;
    WrittenOn(out, Letter(b));
    InputOn(Written(out), b);
    assert Written(out) + ([b] + held) == (Written(out) + [b]) + held;
  }

  // What was held last is dropped.
  lemma HeldDropped(out: seq<Event>, held: Text, dropped: Text, input: Text)
    requires Account(out, held + dropped, input)
    ensures Account(out, held, input)
  {
    hide Thinned, Solids, Content;
    assert Written(out) + (held + dropped) == (Written(out) + held) + dropped;
    ThinnedPrefix(Written(out) + held, dropped, input);
  }

  lemma AllDropped(out: seq<Event>, held: Text, input: Text)
    requires Account(out, held, input)
    ensures Account(out, [], input)
  {
    hide Account;
    assert [] + held == held;
    HeldDropped(out, [], held, input);
  }

  // A byte comes and is held, or dropped.
  lemma NextHeld(out: seq<Event>, held: Text, input: Text, c: byte)
    requires Account(out, held, input) && !Solid(c)
    ensures Account(out, held + [c], input + [c])
  {
    hide Thinned, Solids, Content, Fence;
    InputOn(input, c);
    ThinnedKeeps(Written(out) + held, input, c);
    assert Written(out) + (held + [c]) == (Written(out) + held) + [c];
  }

  lemma NextDropped(out: seq<Event>, held: Text, input: Text, c: byte)
    requires Account(out, held, input) && (!Solid(c) || Fence(input).Opening?)
    ensures Account(out, held, input + [c])
  {
    hide Thinned, Solids, Content, Fence;
    InputOn(input, c);
    ThinnedDrops(Written(out) + held, input, c);
  }

  // A byte comes and is written.
  lemma NextWritten(out: seq<Event>, input: Text, c: byte)
    requires Account(out, [], input) && !Fence(input).Opening?
    ensures Account(out + [Letter(c)], [], input + [c])
  {
    hide Thinned, Solids, Content, Fence, Written, Solid;
    InputOn(input, c);
    InputOn(Written(out), c);
    WrittenOn(out, Letter(c));
    assert Written(out) + [] == Written(out);
    ThinnedKeeps(Written(out), input, c);
    assert Written(out + [Letter(c)]) + [] == Written(out) + [c];
  }

  lemma EventOn(out: seq<Event>, e: Event, held: Text, input: Text)
    requires Account(out, held, input) && !e.Letter?
    ensures Account(out + [e], held, input)
  {
    hide Thinned, Solids, Content;
    if e.Styled? { StyledOn(out, e.style); } else { WrittenOn(out, e); }
    assert Written(out + [e]) == Written(out);
  }

  // What a byte that is no backtick says of the fences does not depend on
  // the backticks before it.
  lemma NoTick(f: Scan, c: byte)
    requires c != TICK && (f.Out? || (f.In? && !f.blank))
    ensures Step(f, c) == Step(f.(ticks := 0), c)
  {}

  lemma OutStep(c: byte)
    ensures Step(Out(0), c) == if c == TICK then Out(1) else Out(0)
  {}

  lemma InStep(blank: bool, c: byte)
    requires c != LF
    ensures Step(In(blank, 0), c) == if c == TICK && blank then In(false, 1) else In(blank && IsBlank(c), 0)
  {}

  // ---- the machine ----

  predicate IsAlnum(b: byte) {
    0x30 <= b <= 0x39 || 0x61 <= b <= 0x7a || 0x41 <= b <= 0x5a
  }

  // A mark that is one at the start of a line.
  predicate Leads(bol: bool, c: byte) {
    bol && (c == HASH || c == MINUS || c == PLUS || c == STAR)
  }

  // Stars open before text and after none of a word, and close after text.
  predicate MayOpen(last: byte, c: byte) {
    c != NUL && c != SPACE && c != TAB && !IsAlnum(last)
  }

  predicate MayClose(last: byte) {
    last != NUL && last != SPACE && last != TAB
  }

  // Stars are no marks inside a word or before a blank; they end one after
  // anything but a blank.
  lemma Rules(last: byte, c: byte)
    ensures IsAlnum(c) <==> var d := c as char; '0' <= d <= '9' || 'a' <= d <= 'z' || 'A' <= d <= 'Z'
    ensures MayOpen(last, c) <==> c as char !in "\0 \t" && !IsAlnum(last)
    ensures MayClose(last) <==> last as char !in "\0 \t"
    ensures forall bol :: Leads(bol, c) <==> bol && c as char in "#-+*"
    ensures IsBlank(c) <==> c as char in " \t"
  {}

  // So many of the mark c.
  function Run(c: byte, n: nat): (s: Text)
    ensures |s| == n && forall k :: 0 <= k < n ==> s[k] == c
  {
    seq(n, _ => c)
  }

  class Md {
    var on: bool
    var fence: bool
    var fenceInfo: bool
    var bold: bool
    var ital: bool
    var mono: bool
    var bol: bool
    var pendBol: bool
    var last: byte
    var heading: bool
    const pend: array<byte>
    var pn: nat
    const indent: array<byte>
    var inn: nat
    var out: seq<Event>
    // All that has come.
    ghost var input: Text

    // What may be held: up to two backticks or stars, six hashes, one of the
    // other marks; and blanks.
    ghost predicate Shape()
      reads this, pend, indent
    {
      && pend.Length == 8 && indent.Length == 16 && pend != indent && inn <= 16
      && (forall k :: 0 <= k < inn ==> IsBlank(indent[k]))
      && (pn > 0 ==>
            && IsMark(pend[0])
            && pn <= (if pend[0] == HASH then 6 else if pend[0] == TICK || pend[0] == STAR then 2 else 1)
            && forall k :: 0 <= k < pn ==> pend[k] == pend[0])
      && (fenceInfo ==> fence && pn == 0 && inn == 0)
      && (fence && pn > 0 ==> pend[0] == TICK && !bol)
      && (pn > 0 && pend[0] != TICK ==> inn == 0)
    }

    ghost function Held(): Text
      reads this, pend, indent
      requires pn <= pend.Length && inn <= indent.Length
    {
      indent[..inn] + pend[..pn]
    }

    function Ticks(): nat
      reads this, pend
      requires pend.Length == 8
    {
      if pn > 0 && pend[0] == TICK then pn else 0
    }

    // Where the machine stands among the fences.
    function Stands(): Scan
      reads this, pend
      requires pend.Length == 8
    {
      if fenceInfo then Opening else if fence then In(bol, Ticks()) else Out(Ticks())
    }

    // What the terminal shows is what is open: bold shows until it or the
    // heading around it closes, and code until one of its marks does.
    ghost predicate Styles()
      reads this
    {
      var l := Seen(out);
      && l.italic == ital && (bold ==> l.bold) && (l.bold ==> heading || bold) && (l.code ==> mono || fence)
    }

    ghost predicate Sound()
      reads this, pend, indent
    {
      Shape() && Styles() && Account(out, Held(), input)
    }

    ghost predicate Valid()
      reads this, pend, indent
    {
      Sound() && Stands() == Fence(input)
    }

    constructor (on: bool)
      ensures Valid() && input == [] && out == [] && this.on == on && fresh(pend) && fresh(indent)
    {
      this.on := on;
      fence, fenceInfo, bold, ital, mono, heading := false, false, false, false, false, false;
      bol, pendBol := true, false;
      last := NUL;
      pn, inn, out, input := 0, 0, [], [];
      pend := new byte[8];
      indent := new byte[16];
      new;
      AccountStarts();
      assert Held() == [];
    }

    // ---- writing ----

    method Letters(s: Text)
      modifies this`out
      ensures Written(out) == Written(old(out)) + s && Seen(out) == Seen(old(out))
    {
      hide Seen, Written;
      for i := 0 to |s|
        invariant Written(out) == Written(old(out)) + s[..i] && Seen(out) == Seen(old(out))
      {
        WrittenOn(out, Letter(s[i]));
        out := out + [Letter(s[i])];
      }
    }

    method FlushIndent()
      requires Shape() && Account(out, Held(), input)
      modifies this`out, this`inn
      ensures inn == 0 && Held() == pend[..pn] && Account(out, Held(), input) && Seen(out) == Seen(old(out))
      ensures Written(out) == Written(old(out)) + old(indent[..inn])
    {
      hide Seen, Account, Written;
      var i := 0;
      ghost var blanks := indent[..inn];
      assert indent[0..inn] == blanks;
      while i < inn
        invariant 0 <= i <= inn && Shape()
        invariant Account(out, indent[i..inn] + pend[..pn], input) && Seen(out) == Seen(old(out))
        invariant indent[..inn] == blanks && Written(out) == Written(old(out)) + blanks[..i]
      {
        assert indent[i..inn] + pend[..pn] == [indent[i]] + (indent[i + 1..inn] + pend[..pn]);
        HeldWritten(out, indent[i], indent[i + 1..inn] + pend[..pn], input);
        WrittenOn(out, Letter(indent[i]));
        out := out + [Letter(indent[i])];
        i := i + 1;
      }
      assert indent[inn..inn] + pend[..pn] == pend[..pn];
      assert blanks[..inn] == blanks;
      inn := 0;
      assert Held() == pend[..pn];
    }

    // No style outlives its line.
    method EndLine(ghost held: Text)
      requires Styles() && Account(out, held, input)
      modifies this`out, this`heading, this`ital, this`bold, this`mono
      ensures Styles() && !heading && !ital && !bold && !mono && Account(out, held, input)
      ensures Written(out) == Written(old(out))
      ensures Seen(out) == Look(false, false, Seen(old(out)).code && !old(mono))
    {
      hide Seen, Account, Written;
      if heading {
        Show(NoBold, held);
        heading := false;
      }
      if ital {
        Show(NoItalic, held);
        ital := false;
      }
      if bold {
        Show(NoBold, held);
        bold := false;
      }
      if mono {
        Show(NoCode, held);
        mono := false;
      }
    }

    method Show(s: Style, ghost held: Text)
      requires Account(out, held, input)
      modifies this`out
      ensures Seen(out) == After(Seen(old(out)), s) && Account(out, held, input) && Written(out) == Written(old(out))
      ensures |out| == |old(out)| + 1
    {
      hide Account, Seen, Written;
      EventOn(out, Styled(s), held, input);
      StyledOn(out, s);
      out := out + [Styled(s)];
    }

    // Marks that were held are text after all.
    method Repeat(b: byte, n: nat)
      modifies this`out
      requires Account(out, Run(b, n), input) && !Solid(b)
      ensures Account(out, [], input) && Seen(out) == Seen(old(out)) && Written(out) == Written(old(out)) + Run(b, n)
    {
      hide Seen, Account, Written;
      var k := 0;
      while k < n
        invariant 0 <= k <= n && Account(out, Run(b, n - k), input) && Seen(out) == Seen(old(out))
        invariant Written(out) == Written(old(out)) + Run(b, k)
      {
        assert Run(b, n - k) == [b] + Run(b, n - k - 1);
        HeldWritten(out, b, Run(b, n - k - 1), input);
        WrittenOn(out, Letter(b));
        out := out + [Letter(b)];
        k := k + 1;
      }
      assert Run(b, n - k) == [];
    }

    // ---- what is held, decided ----

    // What was held is decided now that c is known: c is held or done with
    // too, or it is still to be read, as if nothing had been held.
    ghost predicate Decided(c: byte, took: bool, was: Text)
      reads this, pend, indent
    {
      && Sound() && input == was + (if took then [c] else [])
      && (took ==> c != NUL && Stands() == Fence(input))
      && (!took ==>
            && pn == 0 && !fenceInfo && !Fence(input).Opening?
            && (c != NUL ==> Step(Stands(), c) == Step(Fence(input), c)))
    }

    // Nothing is held, outside every block.
    ghost predicate Free()
      reads this
    {
      pend.Length == 8 && indent.Length == 16 && pend != indent && pn == 0 && inn == 0 && !fence && !fenceInfo
    }

    lemma FreeDecided(c: byte, took: bool, was: Text)
      requires Free() && Styles() && Account(out, [], input) && Fence(input) == Out(0)
      requires input == was + (if took then [c] else []) && (took ==> c != NUL)
      ensures Decided(c, took, was)
    {
      hide Seen, Account, Fence;
      assert Held() == [];
    }

    // What is known while a mark that is no backtick is held.
    lemma MarkHeld()
      requires Valid() && pn > 0 && pend[0] != TICK
      ensures pend.Length == 8 && indent.Length == 16 && pend != indent && inn == 0 && !fence && !fenceInfo
      ensures pn <= (if pend[0] == HASH then 6 else if pend[0] == STAR then 2 else 1) && Styles() && !Solid(pend[0])
      ensures Account(out, Run(pend[0], pn), input) && Fence(input) == Out(0)
    {
      hide Seen, Account, Fence, IsMark, Solid;
      Marks();
      assert Held() == Run(pend[0], pn);
    }

    lemma FenceGoesOn(c: byte)
      requires Fence(input) == Out(0) && c != TICK
      ensures Fence(input + [c]) == Out(0)
    {
      InputOn(input, c);
    }

    // One star or hash more is held.
    method HoldMark(c: byte)
      requires Valid() && pn > 0 && pend[0] == c && ((c == STAR && pn < 2) || (c == HASH && pn < 6))
      modifies this`pn, this`input, pend
      ensures Decided(c, true, old(input)) && pn == old(pn) + 1
    {
      hide Seen, Account, Fence, IsMark, Solid;
      Marks();
      MarkHeld();
      FenceGoesOn(c);
      NextHeld(out, Run(c, pn), input, c);
      assert Run(c, pn) + [c] == Run(c, pn + 1);
      pend[pn] := c;
      pn := pn + 1;
      input := input + [c];
      assert Held() == Run(c, pn);
    }

    // What is known while backticks are held.
    lemma TicksHeld()
      requires Valid() && pn > 0 && pend[0] == TICK
      ensures pend.Length == 8 && indent.Length == 16 && pend != indent && inn <= 16 && pn <= 2 && !fenceInfo
      ensures fence ==> !bol
      ensures (forall k :: 0 <= k < inn ==> IsBlank(indent[k])) && Styles()
      ensures Account(out, indent[..inn] + Run(TICK, pn), input)
      ensures Fence(input) == if fence then In(false, pn) else Out(pn)
    {
      hide Seen, Account, Fence, IsMark, Solid;
      assert pend[..pn] == Run(TICK, pn);
    }

    // A second backtick is held.
    method HoldTick()
      requires Valid() && pn == 1 && pend[0] == TICK
      modifies this`pn, this`input, pend
      ensures Decided(TICK, true, old(input)) && pn == 2
    {
      hide Seen, Account, Fence, IsMark, Solid;
      Marks();
      TicksHeld();
      InputOn(input, TICK);
      ghost var held := indent[..inn] + Run(TICK, 1);
      NextHeld(out, held, input, TICK);
      pend[pn] := TICK;
      pn := pn + 1;
      input := input + [TICK];
      assert Held() == held + [TICK];
    }

    // One or two backticks: a third makes a fence, anything else makes them
    // marks of code.
    method DecideTick(c: byte) returns (took: bool)
      requires Valid() && pn > 0 && pend[0] == TICK
      modifies this`pn, this`inn, this`input, this`fence, this`fenceInfo, this`mono, this`out, pend
      ensures Decided(c, took, old(input))
      ensures took <==> c == TICK
      ensures fence != old(fence) <==> old(pn) == 2 && c == TICK
      ensures fence && !old(fence) ==> fenceInfo
      ensures fence != old(fence) ==> inn == 0 && Seen(out) == Seen(old(out)).(code := fence)
      ensures Written(out) == Written(old(out))
      ensures !took ==> (mono != old(mono) <==> old(pn) == 1) && inn == old(inn)
      ensures !took ==> Seen(out) == Seen(old(out)).(code := mono) && |out| == old(|out| + pn)
    {
      hide Seen, Written, Account, Fence, Step, IsMark, Solid, Valid, Decided;
      if pn == 1 && c == TICK {
        HoldTick();
        return true;
      }
      TicksHeld();
      HeldDropped(out, indent[..inn], Run(TICK, pn), input);
      pend[pn] := c;
      pn := pn + 1;
      if pn == 3 && c == TICK {
        pn := 0;
        Turn(indent[..inn]);
        return true;
      }
      var ticks := pn - 1;
      pn := 0;
      Toggle(ticks, indent[..inn]);
      TicksDecided(c);
      return false;
    }

    // Backticks that were marks of code are gone.
    lemma TicksDecided(c: byte)
      requires pend.Length == 8 && indent.Length == 16 && pend != indent && inn <= 16 && pn == 0 && !fenceInfo
      requires fence ==> !bol
      requires (forall k :: 0 <= k < inn ==> IsBlank(indent[k])) && Styles() && Account(out, indent[..inn], input)
      requires (if fence then Fence(input).In? && !Fence(input).blank else Fence(input).Out?) && c != TICK
      ensures Decided(c, false, input)
    {
      hide Seen, Account, Fence, Step;
      NoTick(Fence(input), c);
      assert Held() == indent[..inn];
    }

    // A fence: a block opens, or closes.
    method Turn(ghost blanks: Text)
      requires pend.Length == 8 && indent.Length == 16 && pend != indent && pn == 0 && !fenceInfo
      requires Styles() && Account(out, blanks, input) && Fence(input) == if fence then In(false, 2) else Out(2)
      modifies this`pn, this`inn, this`input, this`fence, this`fenceInfo, this`out
      ensures Decided(TICK, true, old(input))
      ensures fence != old(fence) && fenceInfo == fence && inn == 0
      ensures Written(out) == Written(old(out)) && Seen(out) == Seen(old(out)).(code := fence)
    {
      hide Seen, Written, Account, Fence;
      AllDropped(out, blanks, input);
      NextDropped(out, [], input, TICK);
      InputOn(input, TICK);
      inn := 0;
      input := input + [TICK];
      fence := !fence;
      if fence {
        Show(Code, []);
        fenceInfo := true;
      } else {
        Show(NoCode, []);
      }
      assert Held() == [];
    }

    method Toggle(ticks: nat, ghost blanks: Text)
      requires Styles() && Account(out, blanks, input)
      modifies this`mono, this`out
      ensures Styles() && Account(out, blanks, input) && (mono != old(mono) <==> ticks % 2 == 1)
      ensures ticks > 0 ==> Seen(out) == Seen(old(out)).(code := mono)
      ensures Written(out) == Written(old(out)) && |out| == |old(out)| + ticks
    {
      hide Seen, Account, Written;
      for k := 0 to ticks
        invariant Styles() && Account(out, blanks, input) && (mono != old(mono) <==> k % 2 == 1)
        invariant Seen(out) == if k > 0 then Seen(old(out)).(code := mono) else Seen(old(out))
        invariant Written(out) == Written(old(out)) && |out| == |old(out)| + k
      {
        mono := !mono;
        if mono {
          Show(Code, blanks);
        } else {
          Show(NoCode, blanks);
        }
      }
    }

    // Underscores held: a single one may be a mark, at the edge of a word.
    method DecideUnder(c: byte) returns (took: bool)
      requires Valid() && pn > 0 && pend[0] == UNDER
      modifies this`pn, this`input, this`ital, this`last, this`out, pend
      ensures Decided(c, took, old(input))
      ensures took <==> c == UNDER
      ensures took ==> ital == old(ital) && Written(out) == Written(old(out)) + [UNDER, UNDER] && last == UNDER
      ensures !took ==> Written(out) == Written(old(out)) + if ital == old(ital) then [UNDER] else []
      ensures !took ==> last == if ital == old(ital) then UNDER else old(last)
      ensures Seen(out) == Seen(old(out)).(italic := ital)
      ensures !took && !old(ital) ==> (ital <==> c != NUL && !IsBlank(c) && c != LF && !IsAlnum(old(last)))
      ensures !took && old(ital) ==> (!ital <==> old(last) != NUL && !IsBlank(old(last)) && !IsAlnum(c))
    {
      hide Seen, Written, Account, Fence, IsAlnum, IsMark, Solid, Valid, Decided;
      MarkHeld();
      pend[pn] := c;
      pn := 0;
      if c == UNDER {
        FenceGoesOn(c);
        Repeat(UNDER, 1);
        NextWritten(out, input, UNDER);
        WrittenOn(out, Letter(UNDER));
        out := out + [Letter(UNDER)];
        input := input + [c];
        last := UNDER;
        FreeDecided(c, true, old(input));
        return true;
      }
      Slant(c);
      FreeDecided(c, false, input);
      return false;
    }

    // It opens where a word begins, and closes where one ends; or it is text.
    method Slant(c: byte)
      requires Styles() && Account(out, Run(UNDER, 1), input)
      modifies this`ital, this`last, this`out
      ensures Styles() && Account(out, [], input)
      ensures !old(ital) ==> (ital <==> c != NUL && !IsBlank(c) && c != LF && !IsAlnum(old(last)))
      ensures old(ital) ==> (!ital <==> old(last) != NUL && !IsBlank(old(last)) && !IsAlnum(c))
      ensures Written(out) == Written(old(out)) + if ital == old(ital) then Run(UNDER, 1) else []
      ensures last == if ital == old(ital) then UNDER else old(last)
      ensures Seen(out) == Seen(old(out)).(italic := ital)
    {
      hide Seen, Account, IsAlnum, Written;
      var opens := !ital && c != NUL && c != SPACE && c != TAB && c != LF && !IsAlnum(last);
      var closes := ital && last != NUL && last != SPACE && last != TAB && !IsAlnum(c);
      if opens || closes {
        AllDropped(out, Run(UNDER, 1), input);
        ital := opens;
        Show(if opens then Italic else NoItalic, []);
      } else {
        Repeat(UNDER, 1);
        last := UNDER;
      }
    }

    // One or two stars: a bullet, marks, or text.
    method DecideStar(c: byte) returns (took: bool)
      requires Valid() && pn > 0 && pend[0] == STAR
      modifies this`pn, this`input, this`bold, this`ital, this`last, this`out, pend
      ensures Decided(c, took, old(input))
      ensures old(pendBol && pn == 1) && c == SPACE ==> took && out == old(out) + [Bullet]
      ensures old(pn) == 1 && c == STAR ==> took && pn == 2 && out == old(out)
      ensures took ==> bold == old(bold) && ital == old(ital) && old(pn) == 1 && (c == SPACE || c == STAR)
      ensures !took ==> (bold != old(bold) <==>
              old(pn) == 2 && if old(bold) then MayClose(old(last)) else MayOpen(old(last), c))
      ensures !took ==> (ital != old(ital) <==>
              old(pn) == 1 && if old(ital) then MayClose(old(last)) else MayOpen(old(last), c))
      ensures !took ==> var text := bold == old(bold) && ital == old(ital);
              && Written(out) == Written(old(out)) + (if text then Run(STAR, old(pn)) else [])
              && last == (if text then STAR else old(last))
      ensures Seen(out)
              == if took then Seen(old(out))
                 else Seen(old(out)).(italic := ital, bold := if bold != old(bold) then bold else Seen(old(out)).bold)
    {
      hide Seen, Written, Account, Fence, IsAlnum, IsMark, Solid, Valid, Decided;
      if pn == 1 && c == STAR {
        HoldMark(c);
        return true;
      }
      MarkHeld();
      ghost var was := pn;
      pend[pn] := c;
      pn := pn + 1;
      if pendBol && pn == 2 && c == SPACE {
        pn := 0;
        FenceGoesOn(c);
        Item(was, STAR, c);
        FreeDecided(c, true, old(input));
        return true;
      }
      var stars := pn - 1;
      var opens := MayOpen(last, c);
      var closes := MayClose(last);
      pn := 0;
      Emphasis(stars, opens, closes);
      FreeDecided(c, false, input);
      return false;
    }

    // A mark opens what is not open, and closes what is; or it is text.
    method Emphasis(stars: nat, opens: bool, closes: bool)
      requires Styles() && Account(out, Run(STAR, stars), input)
      modifies this`bold, this`ital, this`last, this`out
      ensures Styles() && Account(out, [], input)
      ensures stars == 2 ==> ital == old(ital) && (bold != old(bold) <==> if old(bold) then closes else opens)
      ensures stars != 2 ==> bold == old(bold) && (ital != old(ital) <==> if old(ital) then closes else opens)
      ensures Written(out)
              == Written(old(out)) + if bold == old(bold) && ital == old(ital) then Run(STAR, stars) else []
      ensures last == if bold == old(bold) && ital == old(ital) then STAR else old(last)
      ensures Seen(out)
              == Seen(old(out)).(italic := ital, bold := if bold != old(bold) then bold else Seen(old(out)).bold)
    {
      hide Seen, Account, Written;
      var flag := if stars == 2 then bold else ital;
      if !flag && opens {
        AllDropped(out, Run(STAR, stars), input);
        if stars == 2 {
          bold := true;
          Show(Bold, []);
        } else {
          ital := true;
          Show(Italic, []);
        }
      } else if flag && closes {
        AllDropped(out, Run(STAR, stars), input);
        if stars == 2 {
          bold := false;
          Show(NoBold, []);
        } else {
          ital := false;
          Show(NoItalic, []);
        }
      } else {
        Repeat(STAR, stars);
        last := STAR;
      }
    }

    // A bullet, for a mark with a blank behind it.
    method Item(ghost n: nat, ghost b: byte, ghost c: byte)
      requires Styles() && Account(out, Run(b, n), input) && IsBlank(c)
      modifies this`out, this`input
      ensures Account(out, [], input) && input == old(input) + [c] && Seen(out) == Seen(old(out))
      ensures out == old(out) + [Bullet]
    {
      hide Seen, Account;
      AllDropped(out, Run(b, n), input);
      NextDropped(out, [], input, c);
      EventOn(out, Bullet, [], input + [c]);
      WrittenOn(out, Bullet);
      out := out + [Bullet];
      input := input + [c];
    }

    // Hashes: a heading when a space follows.
    method DecideHash(c: byte) returns (took: bool)
      requires Valid() && pn > 0 && pend[0] == HASH
      modifies this`pn, this`input, this`heading, this`out, pend
      ensures Decided(c, took, old(input))
      ensures took <==> (c == HASH && old(pn) < 6) || c == SPACE
      ensures took ==> Written(out) == Written(old(out))
      ensures took ==> (c == SPACE ==> heading) && (c == HASH ==> pn == old(pn) + 1 && out == old(out))
      ensures c == SPACE ==> Seen(out) == Seen(old(out)).(bold := true)
      ensures !took ==> Seen(out) == Seen(old(out))
      ensures !took ==> heading == old(heading) && Written(out) == Written(old(out)) + Run(HASH, old(pn))
    {
      hide Seen, Written, Account, Fence, IsAlnum, IsMark, Solid, Valid, Decided;
      if c == HASH && pn + 1 < 7 {
        HoldMark(c);
        return true;
      }
      MarkHeld();
      ghost var was := pn;
      pend[pn] := c;
      pn := pn + 1;
      var hashes := pn - 1;
      pn := 0;
      if c == SPACE {
        Marks();
        FenceGoesOn(c);
        AllDropped(out, Run(HASH, was), input);
        NextDropped(out, [], input, c);
        heading := true;
        input := input + [c];
        Show(Bold, []);
        FreeDecided(c, true, old(input));
        return true;
      }
      Repeat(HASH, hashes);
      FreeDecided(c, false, input);
      return false;
    }

    // A dash or a plus: a bullet when a space follows.
    method DecideLead(c: byte) returns (took: bool)
      requires Valid() && pn > 0 && (pend[0] == MINUS || pend[0] == PLUS)
      modifies this`pn, this`input, this`out, pend
      ensures Decided(c, took, old(input))
      ensures took <==> c == SPACE
      ensures if took then out == old(out) + [Bullet] else Written(out) == Written(old(out)) + [old(pend[0])]
    {
      hide Seen, Written, Account, Fence, IsAlnum, IsMark, Solid, Valid, Decided;
      MarkHeld();
      var lead := pend[0];
      pend[pn] := c;
      pn := 0;
      if c == SPACE {
        FenceGoesOn(c);
        Item(1, lead, c);
        FreeDecided(c, true, old(input));
        return true;
      }
      Repeat(lead, 1);
      FreeDecided(c, false, input);
      return false;
    }

    // ---- a byte through the machine ----

    // Nothing is held but blanks, and c is what comes next.
    ghost predicate Reads(c: byte)
      reads this, pend, indent
    {
      Sound() && pn == 0 && !fenceInfo && c != NUL && !Fence(input).Opening?
        && Step(Stands(), c) == Step(Fence(input), c)
    }

    method Read(c: byte)
      requires Reads(c)
      modifies this`pn, this`inn, this`input, this`bol, this`pendBol, this`last, this`heading, this`ital, this`bold,
               this`mono, this`out, pend, indent
      ensures Valid() && input == old(input) + [c]
    {
      hide Reads, Valid;
      if c == LF {
        NewLine();
      } else if fence {
        ReadFenced(c);
      } else {
        ReadProse(c);
      }
    }

    method NewLine()
      requires Reads(LF)
      modifies this`pn, this`inn, this`input, this`bol, this`pendBol, this`last, this`heading, this`ital, this`bold,
               this`mono, this`out, pend, indent
      ensures Valid() && input == old(input) + [LF]
      ensures bol && !bold && !ital && !heading && !mono && Written(out) == Written(old(out)) + [LF]
      ensures last == NUL && inn == 0 && Seen(out) == Look(false, false, Seen(old(out)).code && !old(mono))
    {
      hide Seen, Written, Account, Fence, Reads, Valid;
      BlanksHeld(LF);
      AllDropped(out, indent[..inn], input);
      EndLine([]);
      inn := 0;
      InputOn(input, LF);
      Print(LF);
      bol := true;
      last := NUL;
      LineBegun();
    }

    lemma BlanksHeld(c: byte)
      requires Reads(c)
      ensures pend.Length == 8 && indent.Length == 16 && pend != indent && pn == 0 && inn <= 16 && !fenceInfo
      ensures Styles()
      ensures Account(out, indent[..inn], input) && !Fence(input).Opening? && Step(Stands(), c) == Step(Fence(input), c)
    {
      hide Seen, Account, Fence, Step;
      assert Held() == indent[..inn];
    }

    lemma LineBegun()
      requires pend.Length == 8 && indent.Length == 16 && pend != indent && pn == 0 && inn == 0 && !fenceInfo && bol
      requires Styles()
      requires Account(out, [], input) && Fence(input) == if fence then In(true, 0) else Out(0)
      ensures Valid()
    {
      hide Seen, Account, Fence;
      assert Held() == [];
    }

    // In a fenced block nothing is held but a backtick at a line's start.
    method ReadFenced(c: byte)
      requires Reads(c) && fence && c != LF
      modifies this`pn, this`inn, this`input, this`bol, this`pendBol, this`last, this`out, pend, indent
      ensures Valid() && input == old(input) + [c]
      ensures pn == if old(bol) && c == TICK then 1 else 0
      ensures pn == 1 ==> pend[0] == c && pendBol && inn == old(inn) && last == old(last)
      ensures pn == 1 ==> Written(out) == Written(old(out))
      ensures pn == 0 ==> ReadAs(c, old(out), old(inn), old(indent[..inn]), old(bol))
      ensures bol == (pn == 0 && old(bol) && IsBlank(c)) && Seen(out) == Seen(old(out))
    {
      hide Seen, Written, Account, Fence, IsMark, Solid, Step;
      Marks();
      assert Held() == indent[..inn];
      InputOn(input, c);
      InStep(bol, c);
      if bol && c == TICK {
        Hold(c, true);
        return;
      }
      if c == SPACE || c == TAB {
        if bol && inn < indent.Length {
          KeepBlank(c);
          return;
        }
      } else {
        bol := false;
      }
      WriteOut(c);
    }

    method ReadProse(c: byte)
      requires Reads(c) && !fence && c != LF
      modifies this`pn, this`inn, this`input, this`bol, this`pendBol, this`last, this`out, pend, indent
      ensures Valid() && input == old(input) + [c]
      ensures pn == if Leads(old(bol), c) || c == STAR || c == TICK || (c == UNDER && old(last) != UNDER) then 1 else 0
      ensures pn == 1 ==> pend[0] == c && pendBol == Leads(old(bol), c) && last == old(last)
      ensures pn == 1 ==> inn == (if c == TICK then old(inn) else 0)
                          && Written(out) == Written(old(out)) + if c == TICK then [] else old(indent[..inn])
      ensures pn == 0 ==> ReadAs(c, old(out), old(inn), old(indent[..inn]), old(bol))
      ensures bol == (pn == 0 && old(bol) && IsBlank(c)) && Seen(out) == Seen(old(out))
    {
      hide Seen, Written, Account, Fence, IsMark, Solid, Step;
      Marks();
      assert Held() == indent[..inn];
      InputOn(input, c);
      OutStep(c);
      if Leads(bol, c) {
        FlushIndent();
        Hold(c, true);
        return;
      }
      if c == STAR || c == TICK || (c == UNDER && last != UNDER) {
        if c != TICK {
          FlushIndent();
        }
        Hold(c, false);
        return;
      }
      if c == SPACE || c == TAB {
        if bol && inn < indent.Length {
          KeepBlank(c);
          return;
        }
      } else {
        bol := false;
      }
      WriteOut(c);
    }

    // A byte that is no mark was read: a blank at the start of a line is
    // kept, up to sixteen of them; anything else is written after them.
    ghost predicate ReadAs(c: byte, out0: seq<Event>, inn0: nat, blanks: Text, bol0: bool)
      reads this
    {
      && last == c
      && if IsBlank(c) && bol0 && inn0 < 16 then inn == inn0 + 1 && out == out0
         else inn == 0 && Written(out) == Written(out0) + blanks + [c]
    }

    method WriteOut(c: byte)
      requires Shape() && pn == 0 && Account(out, Held(), input) && !Fence(input).Opening?
      modifies this`out, this`inn, this`input, this`last
      ensures Shape() && inn == 0 && Account(out, Held(), input) && input == old(input) + [c]
      ensures Seen(out) == Seen(old(out)) && last == c && Written(out) == Written(old(out)) + old(indent[..inn]) + [c]
    {
      hide Seen, Written, Account, Fence, IsMark;
      FlushIndent();
      assert Held() == [];
      last := c;
      Print(c);
      assert Held() == [];
    }

    // A byte of text.
    method Print(c: byte)
      requires Account(out, [], input) && !Fence(input).Opening?
      modifies this`out, this`input
      ensures Account(out, [], input) && input == old(input) + [c] && Seen(out) == Seen(old(out))
      ensures Written(out) == Written(old(out)) + [c]
    {
      hide Seen, Written, Account, Fence;
      NextWritten(out, input, c);
      WrittenOn(out, Letter(c));
      out := out + [Letter(c)];
      input := input + [c];
    }

    // A byte that may be a mark, at the start of a line or not.
    method Hold(c: byte, start: bool)
      requires Shape() && pn == 0 && !fenceInfo && Account(out, indent[..inn], input) && IsMark(c)
      requires (c != TICK ==> inn == 0) && (fence ==> c == TICK)
      modifies this`pn, this`input, this`bol, this`pendBol, pend
      ensures Shape() && pn == 1 && pend[0] == c && !bol && Account(out, Held(), input) && input == old(input) + [c]
      ensures pendBol == start
    {
      hide Account, IsMark, Solid;
      Marks();
      NextHeld(out, indent[..inn], input, c);
      pend[pn] := c;
      pn := pn + 1;
      pendBol := start;
      bol := false;
      input := input + [c];
      assert Held() == indent[..inn] + [c];
    }

    // A blank at the start of a line: it may be a fence's indent.
    method KeepBlank(c: byte)
      requires Shape() && pn == 0 && !fenceInfo && inn < 16 && Account(out, indent[..inn], input) && IsBlank(c)
      modifies this`inn, this`input, this`last, indent
      ensures Shape() && Account(out, Held(), input) && input == old(input) + [c]
      ensures inn == old(inn) + 1 && indent[..inn] == old(indent[..inn]) + [c] && last == c
    {
      hide Account;
      NextHeld(out, indent[..inn], input, c);
      indent[inn] := c;
      inn := inn + 1;
      last := c;
      input := input + [c];
      assert Held() == old(indent[..inn]) + [c];
    }

    // A byte through the machine, or NUL for the end of the reply.
    method Byte(c: byte)
      requires Valid() && (c == NUL ==> pn > 0)
      modifies this`pn, this`inn, this`input, this`fence, this`fenceInfo, this`bol, this`pendBol, this`last,
               this`heading, this`ital, this`bold, this`mono, this`out, pend, indent
      ensures c != NUL ==> Valid() && input == old(input) + [c]
      ensures c == NUL ==> Sound() && pn == 0 && input == old(input)
    {
      hide Seen, Written, Account, Fence, IsMark, Styles, Decided;
      if fenceInfo {
        Swallow(c);
        return;
      }
      if pn > 0 {
        var took := Decide(c);
        DecidedMeans(c, took, old(input));
        if took || c == NUL {
          return;
        }
      }
      Read(c);
    }

    lemma DecidedMeans(c: byte, took: bool, was: Text)
      requires Decided(c, took, was)
      ensures took ==> c != NUL && Valid() && input == was + [c]
      ensures !took ==> Sound() && pn == 0 && input == was && (c != NUL ==> Reads(c))
    {}

    // The rest of an opening fence's line goes.
    method Swallow(c: byte)
      requires Valid() && fenceInfo && c != NUL
      modifies this`input, this`fenceInfo, this`bol, this`last
      ensures Valid() && input == old(input) + [c]
      ensures fenceInfo == (c != LF) && bol == (c == LF || old(bol)) && last == if c == LF then NUL else old(last)
    {
      hide Seen, Written, Account, Fence;
      NextDropped(out, Held(), input, c);
      InputOn(input, c);
      if c == LF {
        fenceInfo := false;
        bol := true;
        last := NUL;
      }
      input := input + [c];
      assert Held() == [];
    }

    method Decide(c: byte) returns (took: bool)
      requires Valid() && pn > 0
      modifies this`pn, this`inn, this`input, this`fence, this`fenceInfo, this`last, this`heading, this`ital,
               this`bold, this`mono, this`out, pend
      ensures Decided(c, took, old(input))
    {
      hide Seen, Written, Account, Fence, Styles, Decided;
      if pend[0] == TICK {
        took := DecideTick(c);
      } else if pend[0] == UNDER {
        took := DecideUnder(c);
      } else if pend[0] == STAR {
        took := DecideStar(c);
      } else if pend[0] == HASH {
        took := DecideHash(c);
      } else {
        took := DecideLead(c);
      }
    }

    // A piece of the reply. The marks of a machine that is off are text.
    method Write(s: Text)
      requires (on ==> Valid()) && NUL !in s
      modifies this`pn, this`inn, this`input, this`fence, this`fenceInfo, this`bol, this`pendBol, this`last,
               this`heading, this`ital, this`bold, this`mono, this`out, pend, indent
      ensures on ==> Valid() && input == old(input) + s
      ensures !on ==> Written(out) == Written(old(out)) + s
    {
      hide Valid, Written;
      if !on {
        Letters(s);
        return;
      }
      for i := 0 to |s|
        invariant Valid() && input == old(input) + s[..i]
      {
        Byte(s[i]);
      }
    }

    // Nothing more comes: the bytes held are written or taken as marks, and no
    // style stays open.
    method End()
      requires on ==> Valid()
      modifies this`pn, this`inn, this`input, this`fence, this`fenceInfo, this`bol, this`pendBol, this`last,
               this`heading, this`ital, this`bold, this`mono, this`out, pend, indent
      ensures !on ==> out == old(out)
      ensures on ==> pn == 0 && inn == 0 && !fence && input == old(input)
      ensures on ==> Seen(out) == Look(false, false, false)
      ensures on ==> Solids(Written(out)) == Content(input) && Thinned(Written(out), input)
    {
      hide Seen, Written, Account, Fence, IsMark, Solids, Content, Thinned;
      if !on {
        return;
      }
      if pn > 0 {
        Byte(NUL);
      }
      FlushIndent();
      assert Held() == [];
      EndLine([]);
      if fence {
        Show(NoCode, []);
        fence := false;
      }
      AccountEnds(out, input);
    }
  }

  lemma AccountEnds(out: seq<Event>, input: Text)
    requires Account(out, [], input)
    ensures Solids(Written(out)) == Content(input) && Thinned(Written(out), input)
  {
    assert Written(out) + [] == Written(out);
  }

  function Joined(pieces: seq<Text>): Text {
    if pieces == [] then [] else Joined(pieces[..|pieces| - 1]) + pieces[|pieces| - 1]
  }

  // A whole reply, in pieces cut anywhere: every solid byte comes through
  // once and in order, nothing is written that did not come, and nothing is
  // left open.
  method Reply(pieces: seq<Text>) returns (out: seq<Event>)
    requires forall k :: 0 <= k < |pieces| ==> NUL !in pieces[k]
    ensures Solids(Written(out)) == Content(Joined(pieces)) && Thinned(Written(out), Joined(pieces))
    ensures Seen(out) == Look(false, false, false)
  {
    hide Solids, Written, Content, Thinned, Seen;
    var md := new Md(true);
    for k := 0 to |pieces|
      invariant md.on && md.Valid() && md.input == Joined(pieces[..k]) && fresh(md) && fresh(md.pend)
      invariant fresh(md.indent)
    {
      md.Write(pieces[k]);
      assert pieces[..k + 1][..k] == pieces[..k];
    }
    assert pieces[..|pieces|] == pieces;
    md.End();
    out := md.out;
  }
}
