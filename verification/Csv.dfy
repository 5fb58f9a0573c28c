// split_csv of tools/gen_geo.c: a line of comma-separated values taken apart
// in the buffer it was read into, its quotes undone.

module Csv {
  import opened Bits
  import opened ByteText

  const QUOTE: byte := 0x22
  const COMMA: byte := 0x2c
  const NUL: byte := 0
  const LF: byte := 0x0a
  const CR: byte := 0x0d

  lemma Characters()
    ensures [QUOTE as char, COMMA as char, NUL as char, LF as char, CR as char] == "\",\0\n\r"
  {}

  // ---- what a line says ----

  // The text of the field being read at i, within quotes or not.
  function Value(t: Text, i: nat, quoted: bool): Text
    requires i <= |t|
    decreases |t| - i
  {
    if i == |t| then []
    else if quoted && t[i] == QUOTE then
      if i + 1 < |t| && t[i + 1] == QUOTE then [QUOTE] + Value(t, i + 2, true) else Value(t, i + 1, false)
    else if !quoted && t[i] == COMMA then []
    else [t[i]] + Value(t, i + 1, quoted)
  }

  // Where it ends: at its comma, or with the line.
  function End(t: Text, i: nat, quoted: bool): (e: nat)
    requires i <= |t|
    ensures i <= e <= |t| && (e < |t| ==> t[e] == COMMA)
    decreases |t| - i
  {
    if i == |t| then i
    else if quoted && t[i] == QUOTE then
      if i + 1 < |t| && t[i + 1] == QUOTE then End(t, i + 2, true) else End(t, i + 1, false)
    else if !quoted && t[i] == COMMA then i
    else End(t, i + 1, quoted)
  }

  predicate Opens(t: Text, i: nat) {
    i < |t| && t[i] == QUOTE
  }

  // The place after an opening quote.
  function Inside(t: Text, i: nat): (j: nat)
    requires i <= |t|
    ensures i <= j <= |t|
  {
    if Opens(t, i) then i + 1 else i
  }

  // The fields of t from i on, at most so many.
  function Fields(t: Text, i: nat, most: nat): (f: seq<Text>)
    requires i <= |t|
    ensures |f| <= most
    decreases most
  {
    if most == 0 then []
    else
      var e := End(t, Inside(t, i), Opens(t, i));
      [Value(t, Inside(t, i), Opens(t, i))] + if e < |t| then Fields(t, e + 1, most - 1) else []
  }

  predicate Breaks(b: byte) {
    b == CR || b == LF || b == NUL
  }

  // Where the line in a buffer ends.
  function Cut(s: Text): (c: nat)
    ensures c <= |s| && (c < |s| ==> Breaks(s[c])) && forall k :: 0 <= k < c ==> !Breaks(s[k])
  {
    if s == [] || Breaks(s[0]) then 0 else 1 + Cut(s[1..])
  }

  // ---- writing fields ----

  // A field, and whether it is written within quotes.
  datatype Cell = Cell(text: Text, quoted: bool)

  // A field with a comma, or that begins with a quote, is quoted.
  predicate Writable(c: Cell) {
    && (forall k :: 0 <= k < |c.text| ==> !Breaks(c.text[k]))
    && (!c.quoted ==> COMMA !in c.text && !Opens(c.text, 0))
  }

  predicate AllWritable(cells: seq<Cell>) {
    forall k :: 0 <= k < |cells| ==> Writable(cells[k])
  }

  function Doubled(v: Text): Text {
    if v == [] then [] else (if v[0] == QUOTE then [QUOTE, QUOTE] else [v[0]]) + Doubled(v[1..])
  }

  function Written(c: Cell): Text {
    if c.quoted then [QUOTE] + Doubled(c.text) + [QUOTE] else c.text
  }

  function Line(cells: seq<Cell>): Text
    requires cells != []
    decreases |cells|, 1
  {
    Written(cells[0]) + Rest(cells)
  }

  // What comes after a line's first field.
  function Rest(cells: seq<Cell>): Text
    requires cells != []
    decreases |cells|, 0
  {
    if |cells| == 1 then [] else [COMMA] + Line(cells[1..])
  }

  // The line ends, or goes on after a comma.
  predicate Follows(rest: Text) {
    rest == [] || rest[0] == COMMA
  }

  lemma {:induction false} QuotedReadBack(t: Text, i: nat, v: Text, rest: Text)
    requires GoesOn(t, i, Doubled(v) + ([QUOTE] + rest)) && Follows(rest)
    ensures i <= |t| && Value(t, i, true) == v && End(t, i, true) == i + |Doubled(v)| + 1
    decreases |v|
  {
    hide GoesOn;
    if v == [] {
      assert Doubled(v) + ([QUOTE] + rest) == [QUOTE] + rest;
      Past(t, i, [QUOTE], rest);
      Past(t, i + 1, [], rest);
    } else {
      var one, n := if v[0] == QUOTE then [QUOTE, QUOTE] else [v[0]], if v[0] == QUOTE then 2 else 1;
      assert Doubled(v) + ([QUOTE] + rest) == one + (Doubled(v[1..]) + ([QUOTE] + rest));
      Past(t, i, one, Doubled(v[1..]) + ([QUOTE] + rest));
      if n == 2 { SecondQuote(t, i, Doubled(v[1..]) + ([QUOTE] + rest)); }
      QuotedReadBack(t, i + n, v[1..], rest);
      assert v == [v[0]] + v[1..];
    }
  }

  lemma SecondQuote(t: Text, i: nat, rest: Text)
    requires GoesOn(t, i, [QUOTE, QUOTE] + rest)
    ensures i + 1 < |t| && t[i + 1] == QUOTE
  {
    assert t[i + 1] == t[i..][1];
  }

  lemma {:induction false} BareReadBack(t: Text, i: nat, v: Text, rest: Text)
    requires GoesOn(t, i, v + rest) && Follows(rest) && COMMA !in v
    ensures i <= |t| && Value(t, i, false) == v && End(t, i, false) == i + |v|
    decreases |v|
  {
    hide GoesOn;
    Past(t, i, v, rest);
    if v != [] {
      assert v + rest == [v[0]] + (v[1..] + rest);
      Past(t, i, [v[0]], v[1..] + rest);
      BareReadBack(t, i + 1, v[1..], rest);
      assert v == [v[0]] + v[1..];
    }
  }

  lemma LineStarts(cells: seq<Cell>)
    requires cells != []
    ensures Line(cells) == Written(cells[0]) + Rest(cells)
  {}

  // The texts of the first most cells.
  function Texts(cells: seq<Cell>, most: nat): (v: seq<Text>)
    ensures |v| == if |cells| < most then |cells| else most
    ensures forall k :: 0 <= k < |v| ==> v[k] == cells[k].text
  {
    seq(if |cells| < most then |cells| else most, k requires 0 <= k < |cells| => cells[k].text)
  }

  lemma TextsStep(cells: seq<Cell>, most: nat)
    requires cells != []
    ensures Texts(cells, most) == if most == 0 then [] else [cells[0].text] + Texts(cells[1..], most - 1)
  {}

  lemma CellReadBack(t: Text, i: nat, c: Cell, rest: Text)
    requires GoesOn(t, i, Written(c) + rest) && Follows(rest) && Writable(c)
    ensures i <= |t| && Value(t, Inside(t, i), Opens(t, i)) == c.text
    ensures End(t, Inside(t, i), Opens(t, i)) == i + |Written(c)| && GoesOn(t, i + |Written(c)|, rest)
  {
    hide Value, End, GoesOn, Doubled;
    Past(t, i, Written(c), rest);
    if c.quoted {
      assert Written(c) + rest == [QUOTE] + (Doubled(c.text) + ([QUOTE] + rest));
      Past(t, i, [QUOTE], Doubled(c.text) + ([QUOTE] + rest));
      QuotedReadBack(t, i + 1, c.text, rest);
    } else {
      BareReadBack(t, i, c.text, rest);
    }
  }

  // Fields written on a line are those read from it, as many as are asked
  // for.
  lemma {:induction false} FieldsReadBack(t: Text, i: nat, cells: seq<Cell>, most: nat)
    requires cells != [] && AllWritable(cells) && GoesOn(t, i, Line(cells))
    ensures i <= |t| && Fields(t, i, most) == Texts(cells, most)
    decreases most
  {
    hide Writable, Written, Value, End, GoesOn, Opens, Inside, Fields, Line, Texts;
    TextsStep(cells, most);
    var rest := Rest(cells);
    assert Line(cells) == Written(cells[0]) + rest by { LineStarts(cells); }
    Past(t, i, Written(cells[0]), rest);
    if most > 0 {
      FieldsStep(t, i, most);
      CellReadBack(t, i, cells[0], rest);
      var e := i + |Written(cells[0])|;
      Past(t, e, [], rest);
      if |cells| > 1 {
        assert AllWritable(cells[1..]);
        Past(t, e, [COMMA], Line(cells[1..]));
        FieldsReadBack(t, e + 1, cells[1..], most - 1);
      }
    }
  }

  lemma {:induction false} LineDoesNotBreak(cells: seq<Cell>, k: nat)
    requires cells != [] && AllWritable(cells) && k < |Line(cells)|
    ensures !Breaks(Line(cells)[k])
    decreases |cells|
  {
    WrittenDoesNotBreak(cells[0]);
    var n := |Written(cells[0])|;
    if k > n { LineDoesNotBreak(cells[1..], k - n - 1); }
  }

  lemma {:induction false} WrittenDoesNotBreak(c: Cell)
    requires Writable(c)
    ensures forall k :: 0 <= k < |Written(c)| ==> !Breaks(Written(c)[k])
  {
    DoubledDoesNotBreak(c.text);
  }

  lemma DoubledDoesNotBreak(v: Text)
    requires forall k :: 0 <= k < |v| ==> !Breaks(v[k])
    ensures forall k :: 0 <= k < |Doubled(v)| ==> !Breaks(Doubled(v)[k])
  {}

  // So does a buffer that holds the line, a break and anything after it.
  lemma BufferReadBack(s: Text, cells: seq<Cell>, most: nat)
    requires cells != [] && AllWritable(cells)
    requires Line(cells) < s && Breaks(s[|Line(cells)|])
    ensures Fields(s[..Cut(s)], 0, most) == Texts(cells, most)
  {
    hide Line, Fields, AllWritable, Texts;
    var n := |Line(cells)|;
    forall k | 0 <= k < n ensures !Breaks(s[k]) {
      LineDoesNotBreak(cells, k);
      assert s[k] == Line(cells)[k];
    }
    assert Cut(s) == n;
    assert s[..Cut(s)] == Line(cells) && s[..n][0..] == Line(cells);
    FieldsReadBack(s[..n], 0, cells, most);
  }

  // ---- the code ----

  // The string of C that begins at i in a buffer.
  ghost predicate Holds(s: Text, i: nat, v: Text) {
    i + |v| < |s| && s[i..i + |v|] == v && s[i + |v|] == NUL && NUL !in v
  }

  // Both heads' places: what is at r and after is as it was.
  ghost predicate Unread(s: Text, t: Text, r: nat) {
    r <= |t| < |s| && s[r..|t|] == t[r..] && s[|t|] == NUL && NUL !in t
  }

  // Part of a field is written, from w0 to w.
  ghost predicate Reading(l0: Text, l: Text, t: Text, r0: nat, w0: nat, quoted0: bool, r: nat, w: nat, quoted: bool) {
    && w0 <= w <= r && r0 <= r && Unread(l, t, r) && |l| == |l0| && r0 <= |t|
    && Value(t, r0, quoted0) == l[w0..w] + Value(t, r, quoted)
    && End(t, r0, quoted0) == End(t, r, quoted)
    && l[..w0] == l0[..w0] && l[w..] == l0[w..]
  }

  // A byte is written, n bytes read for it.
  lemma ReadingCopies(l0: Text, l: Text, t: Text, r0: nat, w0: nat, quoted0: bool, r: nat, w: nat, quoted: bool,
                      b: byte, n: nat)
    requires Reading(l0, l, t, r0, w0, quoted0, r, w, quoted) && n > 0 && r + n <= |t|
    requires Value(t, r, quoted) == [b] + Value(t, r + n, quoted) && End(t, r, quoted) == End(t, r + n, quoted)
    ensures Reading(l0, l[w := b], t, r0, w0, quoted0, r + n, w + 1, quoted)
  {
    hide Value, End;
    var l' := l[w := b];
    assert l'[w0..w + 1] == l[w0..w] + [b];
    assert l'[r + n..|t|] == l[r..|t|][n..] == t[r + n..];
    assert l'[..w0] == l[..w0];
    assert l'[w + 1..] == l[w..][1..] == l0[w + 1..];
  }

  // The quotes are closed.
  lemma ReadingCloses(l0: Text, l: Text, t: Text, r0: nat, w0: nat, quoted0: bool, r: nat, w: nat)
    requires Reading(l0, l, t, r0, w0, quoted0, r, w, true) && r < |t|
    requires Value(t, r, true) == Value(t, r + 1, false) && End(t, r, true) == End(t, r + 1, false)
    ensures Reading(l0, l, t, r0, w0, quoted0, r + 1, w, false)
  {
    hide Value, End;
    assert l[r + 1..|t|] == l[r..|t|][1..] == t[r + 1..];
  }

  // The byte under the reading head.
  lemma ByteRead(l: Text, t: Text, r: nat)
    requires Unread(l, t, r)
    ensures r <= |t| < |l| && (l[r] == NUL <==> r == |t|)
    ensures r < |t| ==> l[r] == t[r] && l[r + 1] == if r + 1 < |t| then t[r + 1] else NUL
  {
    if r < |t| {
      assert l[r] == l[r..|t|][0] && t[r] == t[r..][0];
      if r + 1 < |t| { assert l[r + 1] == l[r..|t|][1] && t[r + 1] == t[r..][1]; }
    }
  }

  // One turn of the reader.
  lemma TurnRead(t: Text, r: nat, quoted: bool)
    requires r < |t|
    ensures Value(t, r, quoted)
            == if quoted && t[r] == QUOTE then
                 if r + 1 < |t| && t[r + 1] == QUOTE then [QUOTE] + Value(t, r + 2, true) else Value(t, r + 1, false)
               else if !quoted && t[r] == COMMA then [] else [t[r]] + Value(t, r + 1, quoted)
    ensures End(t, r, quoted)
            == if quoted && t[r] == QUOTE then
                 if r + 1 < |t| && t[r + 1] == QUOTE then End(t, r + 2, true) else End(t, r + 1, false)
               else if !quoted && t[r] == COMMA then r else End(t, r + 1, quoted)
  {}

  lemma ReadingDone(l0: Text, l: Text, t: Text, r0: nat, w0: nat, quoted0: bool, r: nat, w: nat, quoted: bool)
    requires Reading(l0, l, t, r0, w0, quoted0, r, w, quoted) && Value(t, r, quoted) == [] && End(t, r, quoted) == r
    ensures r == End(t, r0, quoted0) && w == w0 + |Value(t, r0, quoted0)| <= r && r0 <= r
    ensures l[w0..w] == Value(t, r0, quoted0) && Unread(l, t, r)
    ensures l[..w0] == l0[..w0] && l[w..] == l0[w..]
  {
    hide Value, End;
    assert |l[w0..w]| == w - w0;
  }

  // Reads a field at r and writes it at w, which never passes r.
  method ReadField(line: array<byte>, ghost t: Text, r0: nat, w0: nat, quoted0: bool) returns (r: nat, w: nat)
    requires w0 <= r0 && Unread(line[..], t, r0)
    modifies line
    ensures r == End(t, r0, quoted0) && w == w0 + |Value(t, r0, quoted0)| <= r && r0 <= r
    ensures line[..][w0..w] == Value(t, r0, quoted0) && Unread(line[..], t, r)
    ensures line[..][..w0] == old(line[..])[..w0] && line[..][w..] == old(line[..])[w..]
  {
    hide Value, End, Reading, Unread;
    var quoted := quoted0;
    r, w := r0, w0;
    ghost var l0 := line[..];
    StartsReading(l0, t, r, w, quoted);
    while true
      invariant Reading(l0, line[..], t, r0, w0, quoted0, r, w, quoted)
      decreases |t| - r
    {
      ghost var l := line[..];
      HeadsInside(l0, l, t, r0, w0, quoted0, r, w, quoted);
      ByteRead(l, t, r);
      if line[r] == NUL {
        NothingLeft(t, quoted);
        break;
      }
      TurnRead(t, r, quoted);
      if quoted && line[r] == QUOTE {
        if line[r + 1] == QUOTE {
          ReadingCopies(l0, l, t, r0, w0, quoted0, r, w, quoted, QUOTE, 2);
          line[w] := QUOTE;
          w := w + 1;
          r := r + 2;
          continue;
        }
        ReadingCloses(l0, l, t, r0, w0, quoted0, r, w);
        quoted := false;
        r := r + 1;
        continue;
      }
      if !quoted && line[r] == COMMA {
        break;
      }
      ReadingCopies(l0, l, t, r0, w0, quoted0, r, w, quoted, t[r], 1);
      line[w] := line[r];
      w := w + 1;
      r := r + 1;
    }
    ReadingDone(l0, line[..], t, r0, w0, quoted0, r, w, quoted);
  }

  lemma StartsReading(l: Text, t: Text, r: nat, w: nat, quoted: bool)
    requires w <= r && Unread(l, t, r)
    ensures Reading(l, l, t, r, w, quoted, r, w, quoted)
  {
    assert l[w..w] + Value(t, r, quoted) == Value(t, r, quoted);
  }

  lemma HeadsInside(l0: Text, l: Text, t: Text, r0: nat, w0: nat, quoted0: bool, r: nat, w: nat, quoted: bool)
    requires Reading(l0, l, t, r0, w0, quoted0, r, w, quoted)
    ensures Unread(l, t, r) && w <= r <= |t| < |l|
  {}

  lemma NothingLeft(t: Text, quoted: bool)
    ensures Value(t, |t|, quoted) == [] && End(t, |t|, quoted) == |t|
  {}

  // The field of a line as it is written in the buffer, and where to go on.
  ghost predicate Split(l: Text, starts: seq<nat>, values: seq<Text>, w: nat) {
    && |starts| == |values|
    && forall k :: 0 <= k < |starts| ==> Holds(l, starts[k], values[k]) && starts[k] + |values[k]| < w
  }

  // So many fields of the line are written, and the rest are those from r.
  ghost predicate Going(l: Text, t: Text, most: nat, starts: seq<nat>, values: seq<Text>, r: nat, w: nat) {
    && Unread(l, t, r) && w <= r && |values| <= most && Split(l, starts, values, w)
    && Fields(t, 0, most) == values + Fields(t, r, most - |values|)
  }

  lemma {:induction false} ValueHasNoNul(t: Text, i: nat, quoted: bool)
    requires i <= |t| && NUL !in t
    ensures NUL !in Value(t, i, quoted)
    decreases |t| - i
  {
    if i < |t| {
      TurnRead(t, i, quoted);
      if quoted && t[i] == QUOTE {
        if i + 1 < |t| && t[i + 1] == QUOTE { ValueHasNoNul(t, i + 2, true); } else { ValueHasNoNul(t, i + 1, false); }
      } else {
        ValueHasNoNul(t, i + 1, quoted);
      }
    }
  }

  // One more field is in the buffer.
  lemma SplitOn(l: Text, l': Text, starts: seq<nat>, values: seq<Text>, w: nat, v: Text)
    requires Split(l, starts, values, w) && w + |v| < |l'| && |l| == |l'|
    requires l'[..w] == l[..w] && l'[w..w + |v|] == v && l'[w + |v|] == NUL && NUL !in v
    ensures Split(l', starts + [w], values + [v], w + |v| + 1)
  {
    var starts', values' := starts + [w], values + [v];
    forall k | 0 <= k < |starts'| ensures Holds(l', starts'[k], values'[k]) && starts'[k] + |values'[k]| < w + |v| + 1 {
      if k < |starts| {
        assert Holds(l, starts[k], values[k]);
        HoldsBefore(l, l', w, starts[k], values[k]);
      }
    }
  }

  lemma HoldsBefore(l: Text, l': Text, w: nat, i: nat, v: Text)
    requires Holds(l, i, v) && i + |v| < w <= |l| == |l'| && l'[..w] == l[..w]
    ensures Holds(l', i, v)
  {
    assert l'[i..i + |v|] == l'[..w][i..i + |v|] == l[..w][i..i + |v|];
    assert l'[i + |v|] == l'[..w][i + |v|];
  }

  // Reads a field at r, its quotes and all, and writes it and its end at w;
  // says whether another follows.
  method TakeText(line: array<byte>, ghost t: Text, r0: nat, w0: nat) returns (r: nat, w: nat, more: bool)
    requires Unread(line[..], t, r0) && w0 <= r0 <= |t|
    modifies line
    ensures var v, e := Value(t, Inside(t, r0), Opens(t, r0)), End(t, Inside(t, r0), Opens(t, r0));
            && (more <==> e < |t|) && (more ==> r == e + 1 && Unread(line[..], t, r)) && w == w0 + |v| + 1 <= e + 1
            && e < line.Length && line[..][w0..w - 1] == v && line[w - 1] == NUL && NUL !in v
    ensures line[..][..w0] == old(line[..])[..w0]
  {
    hide Value, End, Unread, Reading;
    ghost var l0 := line[..];
    ByteRead(l0, t, r0);
    var quoted := line[r0] == QUOTE;
    r, w := r0, w0;
    if quoted {
      r := r + 1;
    }
    UnreadOn(l0, t, r0, r);
    ValueHasNoNul(t, r, quoted);
    r, w := ReadField(line, t, r, w, quoted);
    r, w, more := EndField(line, t, r, w);
  }

  // A field's end is written, and its comma passed where it has one.
  method EndField(line: array<byte>, ghost t: Text, e: nat, w0: nat) returns (r: nat, w: nat, more: bool)
    requires Unread(line[..], t, e) && w0 <= e <= |t| < line.Length && (e < |t| ==> t[e] == COMMA)
    modifies line
    ensures w == w0 + 1 && line[..] == old(line[..])[w0 := NUL]
    ensures (more <==> e < |t|) && (more ==> r == e + 1 && Unread(line[..], t, r))
  {
    hide Unread;
    ghost var l1 := line[..];
    ByteRead(l1, t, e);
    more := line[e] == COMMA;
    line[w0] := NUL;
    w := w0 + 1;
    r := e;
    if more {
      r := r + 1;
      UnreadOn(l1, t, e, r);
      UnreadBelow(l1, line[..], t, r);
    }
  }

  // The same, as one of the line's fields.
  method TakeField(line: array<byte>, ghost t: Text, ghost most: nat, ghost starts: seq<nat>, ghost values: seq<Text>,
                   r0: nat, w0: nat)
      returns (r: nat, w: nat, more: bool)
    requires Going(line[..], t, most, starts, values, r0, w0) && |values| < most
    modifies line
    ensures more ==> Going(line[..], t, most, starts + [w0], values + [Fields(t, r0, most - |values|)[0]], r, w)
    ensures !more ==> Fields(t, 0, most) == values + [Fields(t, r0, most - |values|)[0]]
                      && Split(line[..], starts + [w0], Fields(t, 0, most), w)
  {
    hide Value, End, Fields, Unread, Split, Holds, Opens, Inside;
    ByteRead(line[..], t, r0);
    ghost var l0, v := line[..], Value(t, Inside(t, r0), Opens(t, r0));
    FieldsStep(t, r0, most - |values|);
    FieldGone(t, most, values, v, r0, End(t, Inside(t, r0), Opens(t, r0)));
    r, w, more := TakeText(line, t, r0, w0);
    SplitOn(l0, line[..], starts, values, w0, v);
  }

  lemma FieldGone(t: Text, most: nat, values: seq<Text>, v: Text, r0: nat, e: nat)
    requires r0 <= |t| && e <= |t| && |values| < most && Fields(t, 0, most) == values + Fields(t, r0, most - |values|)
    requires Fields(t, r0, most - |values|) == [v] + if e < |t| then Fields(t, e + 1, most - |values| - 1) else []
    ensures Fields(t, r0, most - |values|)[0] == v
    ensures Fields(t, 0, most) == (values + [v]) + if e < |t| then Fields(t, e + 1, most - |values| - 1) else []
  {
    hide Fields;
    var rest := if e < |t| then Fields(t, e + 1, most - |values| - 1) else [];
    assert values + ([v] + rest) == (values + [v]) + rest;
  }

  lemma FieldsStep(t: Text, i: nat, most: nat)
    requires i <= |t| && most > 0
    ensures var e, v := End(t, Inside(t, i), Opens(t, i)), Value(t, Inside(t, i), Opens(t, i));
            Fields(t, i, most) == [v] + if e < |t| then Fields(t, e + 1, most - 1) else []
  {
    hide Value, End;
  }

  lemma UnreadOn(l: Text, t: Text, r: nat, r': nat)
    requires Unread(l, t, r) && r <= r' <= |t|
    ensures Unread(l, t, r')
  {
    assert l[r'..|t|] == l[r..|t|][r' - r..] == t[r'..];
  }

  lemma UnreadBelow(l: Text, l': Text, t: Text, r: nat)
    requires Unread(l, t, r) && |l| == |l'| && l[r..] == l'[r..]
    ensures Unread(l', t, r)
  {
    assert l'[r..|t|] == l'[r..][..|t| - r] == l[r..|t|];
    assert l'[|t|] == l'[r..][|t| - r] == l[r..][|t| - r];
  }

  // Splits a line at its commas. It writes over the line it reads, and
  // nothing it has yet to read.
  method SplitCsv(line: array<byte>, f: array<nat>, most: nat) returns (n: nat)
    requires most <= f.Length && NUL in line[..]
    modifies line, f
    ensures var fields := Fields(old(line[..])[..Cut(old(line[..]))], 0, most);
            n == |fields| && forall k :: 0 <= k < n ==> Holds(line[..], f[k], fields[k])
    ensures f[n..] == old(f[n..])
  {
    hide Value, End, Fields, Unread, Split, Going, Holds;
    n := 0;
    var r: nat, w: nat := 0, 0;
    var cut := CutAt(line);
    ghost var t, values: seq<Text> := line[..cut], [];
    line[cut] := NUL;
    StartsGoing(line[..], t, most);
    var more := true;
    while n < most && more
      invariant n <= most && n == |values| && f[n..] == old(f[n..])
      invariant more ==> Going(line[..], t, most, f[..n], values, r, w)
      invariant !more ==> values == Fields(t, 0, most) && Split(line[..], f[..n], values, w)
      decreases most - n, more
    {
      GoingInside(line[..], t, most, f[..n], values, r, w);
      f[n] := w;
      ghost var v, starts := Fields(t, r, most - n)[0], f[..n] + [w];
      r, w, more := TakeField(line, t, most, f[..n], values, r, w);
      n := n + 1;
      values := values + [v];
      assert f[..n] == starts;
    }
    if more { AllTaken(line[..], t, most, f[..n], values, r, w); }
    AllHold(line[..], f[..n], values, w);
  }

  lemma AllTaken(l: Text, t: Text, most: nat, starts: seq<nat>, values: seq<Text>, r: nat, w: nat)
    requires Going(l, t, most, starts, values, r, w) && |values| == most
    ensures values == Fields(t, 0, most) && Split(l, starts, values, w)
  {}

  lemma AllHold(l: Text, starts: seq<nat>, values: seq<Text>, w: nat)
    requires Split(l, starts, values, w)
    ensures |starts| == |values| && forall k :: 0 <= k < |starts| ==> Holds(l, starts[k], values[k])
  {}

  lemma GoingInside(l: Text, t: Text, most: nat, starts: seq<nat>, values: seq<Text>, r: nat, w: nat)
    requires Going(l, t, most, starts, values, r, w)
    ensures r <= |t| && |values| <= most && (|values| < most ==> |Fields(t, r, most - |values|)| > 0)
  {}

  lemma StartsGoing(l: Text, t: Text, most: nat)
    requires |t| < |l| && l[..|t|] == t && l[|t|] == NUL && NUL !in t
    ensures Going(l, t, most, [], [], 0, 0)
  {
    hide Fields;
    assert l[0..|t|] == t[0..] == t;
  }

  // The line's end, as strcspn finds it.
  method CutAt(line: array<byte>) returns (c: nat)
    requires NUL in line[..]
    ensures c == Cut(line[..]) < line.Length
  {
    c := 0;
    while line[c] != CR && line[c] != LF && line[c] != NUL
      invariant c <= Cut(line[..]) && NUL in line[c..]
      decreases line.Length - c
    {
      c := c + 1;
    }
  }
}
