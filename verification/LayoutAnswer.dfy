// The model's answer read by src/chat/layout.c: the markers are checked and
// the tags put back.

module LayoutAnswer {
  import opened Bits
  import opened Ints
  import opened ByteText
  import opened Layout

  // ---- the answer's text read ----

  // The answer's text ends at tn: nothing but blanks comes before the line
  // of the words.
  ghost predicate TextEnds(ans: Text, tn: nat) {
    tn <= |ans| && Blanks(ans, tn) < |ans| && ans[Blanks(ans, tn)] == EQUALS
  }

  lemma {:induction false} SpacesBefore(ans: Text, tn: nat, i: nat)
    requires TextEnds(ans, tn) && i <= tn
    ensures var x := SpacesEnd(ans, i);
            if x < tn then SpacesEnd(ans[..tn], i) == x
            else SpacesEnd(ans[..tn], i) == tn && x < |ans| && ans[x] == EQUALS
    decreases tn - i
  {
    if i < tn {
      if IsSpace(ans[i]) { SpacesBefore(ans, tn, i + 1); }
    } else {
      SpacesToWords(ans, tn);
    }
  }

  lemma {:induction false} SpacesToWords(ans: Text, i: nat)
    requires i <= |ans| && Blanks(ans, i) < |ans| && ans[Blanks(ans, i)] == EQUALS
    ensures SpacesEnd(ans, i) == Blanks(ans, i)
    decreases |ans| - i
  {
    if IsBlank(ans[i]) { SpacesToWords(ans, i + 1); }
  }

  lemma {:induction false} DigitsBefore(ans: Text, tn: nat, i: nat)
    requires TextEnds(ans, tn) && i <= tn
    ensures DigitsEnd(ans, i) == DigitsEnd(ans[..tn], i) <= tn
    decreases tn - i
  {
    if i < tn && IsDigit(ans[i]) { DigitsBefore(ans, tn, i + 1); }
  }

  // Numbers are read past the text's end, and none is found there.
  lemma NumberBefore(ans: Text, tn: nat, i: nat)
    requires TextEnds(ans, tn) && i <= tn
    ensures Number(ans, i) == Number(ans[..tn], i) && Number(ans, i).1 <= tn
    ensures tn < |ans| && ans[tn] != CLOSING
  {
    hide SpacesEnd, DigitsEnd;
    SpacesBefore(ans, tn, i);
    var x := SpacesEnd(ans, i);
    if x < tn {
      var b := if IsSign(ans[x]) then x + 1 else x;
      DigitsBefore(ans, tn, b);
      assert ans[b..DigitsEnd(ans, b)] == ans[..tn][b..DigitsEnd(ans, b)];
    } else {
      NoDigits(ans, x);
      DigitsBefore(ans, tn, tn);
    }
  }

  lemma NoDigits(ans: Text, x: nat)
    requires x < |ans| && ans[x] == EQUALS
    ensures DigitsEnd(ans, x) == x
  {}

  lemma MarkerBefore(ans: Text, tn: nat, i: nat)
    requires TextEnds(ans, tn) && i < tn && ans[i] == OPENING
    ensures var (k, e) := Number(ans, i + 1);
            MarkerAt(ans[..tn], i) == if e > i + 1 && e < |ans| && ans[e] == CLOSING then Some((k, e + 1)) else None
  {
    hide Number;
    NumberBefore(ans, tn, i + 1);
  }

  // ---- the markers met so far ----

  // The markers ks were met before i, each of them once, and their tags are
  // in out.
  ghost predicate Reading(c: Coded, a: Text, i: nat, ks: seq<nat>, seen: seq<bool>, out: Text) {
    && Matching(c) && i <= |a| && MarkersOf(a, 0) == ks + MarkersOf(a, i) && Put(c, a, 0) == out + Put(c, a, i)
    && |seen| == |c.tags| + 1 && SeenAre(ks, seen)
  }

  ghost predicate SeenAre(ks: seq<nat>, seen: seq<bool>) {
    && |seen| > 0
    && (forall x :: 0 <= x < |ks| ==> 1 <= ks[x] < |seen|)
    && (forall x, y :: 0 <= x < y < |ks| ==> ks[x] != ks[y])
    && (forall k :: 1 <= k < |seen| ==> (seen[k] <==> k in ks))
  }

  lemma SeenOn(ks: seq<nat>, seen: seq<bool>, k: nat)
    requires SeenAre(ks, seen) && 1 <= k < |seen| && !seen[k]
    ensures SeenAre(ks + [k], seen[k := true])
  {
    var on := ks + [k];
    forall x, y | 0 <= x < y < |on| ensures on[x] != on[y] {
      if y == |ks| { assert ks[x] in ks; }
    }
  }

  // A marker made up or doubled is no use.
  lemma Spoilt(c: Coded, a: Text, i: nat, ks: seq<nat>, seen: seq<bool>, out: Text, k: nat)
    requires Reading(c, a, i, ks, seen, out) && i < |a| && MarkerAt(a, i).Some? && MarkerAt(a, i).value.0 == k
    requires k < 1 || k > |c.tags| || seen[k]
    ensures !EachOnce(MarkersOf(a, 0), |c.tags|)
  {
    hide MarkerAt, Put;
    var all := MarkersOf(a, 0);
    assert all[|ks|] == k;
    if 1 <= k <= |c.tags| {
      assert k in ks;
      var x :| 0 <= x < |ks| && ks[x] == k;
      assert all[x] == k;
    }
  }

  lemma AllSeen(c: Coded, a: Text, ks: seq<nat>, seen: seq<bool>, out: Text)
    requires Reading(c, a, |a|, ks, seen, out)
    ensures EachOnce(MarkersOf(a, 0), |c.tags|) <==> forall k :: 1 <= k <= |c.tags| ==> seen[k]
    ensures Put(c, a, 0) == out
  {
    PutNothing(c, a);
    assert MarkersOf(a, 0) == ks;
  }

  // A byte of the text.
  lemma ReadingByte(c: Coded, a: Text, i: nat, ks: seq<nat>, seen: seq<bool>, out: Text)
    requires Reading(c, a, i, ks, seen, out) && i < |a| && MarkerAt(a, i).None?
    ensures Reading(c, a, i + 1, ks, seen, out + [a[i]])
  {
    hide MarkerAt, Takes, SeenAre;
    assert out + ([a[i]] + Put(c, a, i + 1)) == (out + [a[i]]) + Put(c, a, i + 1);
  }

  // A marker, and what it takes after it.
  lemma ReadingMarker(c: Coded, a: Text, i: nat, ks: seq<nat>, seen: seq<bool>, out: Text, k: nat, next: nat)
    requires Reading(c, a, i, ks, seen, out) && MarkerAt(a, i) == Some((k, next)) && 1 <= k <= |c.tags| && !seen[k]
    ensures next <= |a|
    ensures Takes(c, a, k, next) ==>
              Reading(c, a, Run(a, next), ks + [k], seen[k := true], out + c.tags[k - 1] + c.gaps[k - 1])
    ensures !Takes(c, a, k, next) ==> Reading(c, a, next, ks + [k], seen[k := true], out + c.tags[k - 1])
  {
    hide MarkerAt, Takes, Reading, Run;
    ReadingInside(c, a, i, ks, seen, out);
    if Takes(c, a, k, next) {
      MarkerTakes(c, a, i, ks, seen, out, k, next);
    } else {
      MarkerAlone(c, a, i, ks, seen, out, k, next);
    }
  }

  lemma MarkerTakes(c: Coded, a: Text, i: nat, ks: seq<nat>, seen: seq<bool>, out: Text, k: nat, next: nat)
    requires Reading(c, a, i, ks, seen, out) && MarkerAt(a, i) == Some((k, next)) && 1 <= k <= |c.tags| && !seen[k]
    requires Takes(c, a, k, next)
    ensures Reading(c, a, Run(a, next), ks + [k], seen[k := true], out + c.tags[k - 1] + c.gaps[k - 1])
  {
    hide MarkerAt, Takes, SeenAre, Put, MarkersOf, Run;
    SeenOn(ks, seen, k);
    PutStep(c, a, i, k, next);
    PutBlanks(c, a, next, Run(a, next));
    var g, rest := c.tags[k - 1] + c.gaps[k - 1], Put(c, a, Run(a, next));
    Regroup(ks, [k], MarkersOf(a, next));
    Regroup(out, g, rest);
    Regroup(out, c.tags[k - 1], c.gaps[k - 1]);
  }

  lemma MarkerAlone(c: Coded, a: Text, i: nat, ks: seq<nat>, seen: seq<bool>, out: Text, k: nat, next: nat)
    requires Reading(c, a, i, ks, seen, out) && MarkerAt(a, i) == Some((k, next)) && 1 <= k <= |c.tags| && !seen[k]
    requires !Takes(c, a, k, next)
    ensures Reading(c, a, next, ks + [k], seen[k := true], out + c.tags[k - 1])
  {
    hide MarkerAt, Takes, SeenAre, Put, MarkersOf;
    SeenOn(ks, seen, k);
    PutStep(c, a, i, k, next);
    Regroup(ks, [k], MarkersOf(a, next));
    Regroup(out, c.tags[k - 1], Put(c, a, next));
  }

  lemma ReadingStarts(c: Coded, a: Text, seen: seq<bool>)
    requires Matching(c) && |seen| == |c.tags| + 1 && forall k :: 0 <= k < |seen| ==> !seen[k]
    ensures Reading(c, a, 0, [], seen, [])
  {
    hide Put, MarkersOf;
    assert [] + MarkersOf(a, 0) == MarkersOf(a, 0) && [] + Put(c, a, 0) == Put(c, a, 0);
  }

  lemma ReadingInside(c: Coded, a: Text, i: nat, ks: seq<nat>, seen: seq<bool>, out: Text)
    requires Reading(c, a, i, ks, seen, out)
    ensures Matching(c) && |seen| == |c.tags| + 1
  {}

  // ---- the code ----

  // The place after the blanks a marker's tag is to take, and what they are.
  method TakeGap(c: Coded, ans: Text, tn: nat, k: nat, i: nat) returns (gap: Text, next: nat)
    requires Matching(c) && 1 <= k <= |c.tags| && TextEnds(ans, tn) && i <= tn
    ensures if Takes(c, ans[..tn], k, i) then gap == c.gaps[k - 1] && next == Run(ans[..tn], i)
            else gap == [] && next == i
  {
    hide Number;
    ghost var a := ans[..tn];
    var j := i;
    var nl := false;
    while j < tn && (ans[j] == SPACE || ans[j] == LF || ans[j] == CR)
      invariant i <= j <= tn && Run(a, i) == Run(a, j)
      invariant nl <==> exists x :: i <= x < j && a[x] != SPACE
    {
      nl := nl || ans[j] != SPACE;
      j := j + 1;
    }
    var g := c.gaps[k - 1];
    var follows := false;
    if c.toTag[k - 1] && j < tn && ans[j] == OPENING {
      NumberBefore(ans, tn, j + 1);
      var (v, e) := Number(ans, j + 1);
      follows := v == k + 1 && e < |ans| && ans[e] == CLOSING;
    }
    if follows || (nl && LF in g) {
      return g, j;
    }
    return [], i;
  }

  // The answer's text with the tags put back; None when the markers are not
  // those of the tags, each once.
  method DecodeText(c: Coded, ans: Text, tn: nat) returns (out: Option<Text>)
    requires Matching(c) && TextEnds(ans, tn)
    ensures out.Some? <==> EachOnce(MarkersOf(ans[..tn], 0), |c.tags|)
    ensures out.Some? ==> out.value == Put(c, ans[..tn], 0)
  {
    hide Number, Takes, Reading, EachOnce, MarkerAt, Run;
    var n := |c.tags|;
    var seen := new bool[n + 1](_ => false);
    var text: Text := [];
    var i: nat := 0;
    ghost var a, ks: seq<nat> := ans[..tn], [];
    ReadingStarts(c, a, seen[..]);
    while i < tn
      invariant i <= tn && Reading(c, a, i, ks, seen[..], text)
    {
      if ans[i] == OPENING {
        MarkerBefore(ans, tn, i);
        var (k, e) := Number(ans, i + 1);
        if e > i + 1 && e < |ans| && ans[e] == CLOSING {
          ReadingInside(c, a, i, ks, seen[..], text);
          if k < 1 || k > n || seen[k] {
            Spoilt(c, a, i, ks, seen[..], text, k);
            return None;
          }
          ReadingMarker(c, a, i, ks, seen[..], text, k, e + 1);
          seen[k] := true;
          var gap, next := TakeGap(c, ans, tn, k, e + 1);
          text := text + c.tags[k - 1];
          assert text + [] == text;
          text := text + gap;
          ks := ks + [k];
          i := next;
          continue;
        }
      }
      if ans[i] != OPENING { NoMarkerAt(a, i); }
      ReadingByte(c, a, i, ks, seen[..], text);
      text := text + [ans[i]];
      i := i + 1;
    }
    AllSeen(c, a, ks, seen[..], text);
    for k := 1 to n + 1
      invariant forall j :: 1 <= j < k ==> seen[j]
    {
      if !seen[k] {
        return None;
      }
    }
    out := Some(text);
  }
}
