// The low-delay synthesis of src/common/audio_aac_eld.c over exact reals:
// each frame's samples, extended and windowed over four frames, are
// overlapped through a history of three, rolled in place.

module Eld {
  import opened Bits

  // The inverse transform's 2 n samples continued both ways, the sign
  // changing every 2 n.
  function Extended(y: seq<real>, n: nat, j: int): real
    requires n > 0 && |y| == 2 * n
  {
    var p := 2 * n;
    if j / p % 2 == 0 then y[j % p] else -y[j % p]
  }

  // How a frame is taken: its length n, its window, of which 4n - n/4 samples
  // are read, and its gain, -1 / n over the size of 16 bits.
  datatype Bank = Bank(n: nat, window: seq<real>, gain: real)

  predicate BankOk(b: Bank) {
    b.n > 0 && |b.window| >= 4 * b.n - b.n / 4 && b.gain == -1.0 / b.n as real / 32768.0
  }

  // Sample i of a frame over the four it lasts.
  function Windowed(b: Bank, y: seq<real>, i: nat): real
    requires BankOk(b) && |y| == 2 * b.n && i < 4 * b.n
  {
    if i < 4 * b.n - b.n / 4 then b.window[i] * Extended(y, b.n, i - b.n + b.n / 4) * b.gain else 0.0
  }

  // The same of the frame `ago` frames before the last; silence before the
  // first.
  function Sample(b: Bank, frames: seq<seq<real>>, ago: nat, i: nat): real
    requires BankOk(b) && FramesOk(b, frames) && i < 4 * b.n
  {
    if ago < |frames| then Windowed(b, frames[|frames| - 1 - ago], i) else 0.0
  }

  predicate FramesOk(b: Bank, frames: seq<seq<real>>) {
    forall y :: y in frames ==> |y| == 2 * b.n
  }

  // The output after the last frame at i: the newest frame's first quarter
  // and the later quarters of the three before.
  function FourFrames(b: Bank, frames: seq<seq<real>>, i: nat): real
    requires BankOk(b) && FramesOk(b, frames) && i < b.n
  {
    Sample(b, frames, 0, i) + Sample(b, frames, 1, b.n + i) + Sample(b, frames, 2, 2 * b.n + i)
      + Sample(b, frames, 3, 3 * b.n + i)
  }

  // What the history holds at i: what the frames so far have still to give
  // to the sample i after the last.
  function Pending(b: Bank, frames: seq<seq<real>>, i: nat): real
    requires BankOk(b) && FramesOk(b, frames) && i < 3 * b.n
  {
    (if b.n + i < 4 * b.n then Sample(b, frames, 0, b.n + i) else 0.0)
      + (if 2 * b.n + i < 4 * b.n then Sample(b, frames, 1, 2 * b.n + i) else 0.0)
      + (if 3 * b.n + i < 4 * b.n then Sample(b, frames, 2, 3 * b.n + i) else 0.0)
  }

  // ---- one frame as a step ----

  datatype Rolled = Rolled(out: seq<real>, hist: seq<real>)

  function Roll(n: nat, hist: seq<real>, z: seq<real>): (r: Rolled)
    requires |hist| == 3 * n && |z| == 4 * n
    ensures |r.out| == n && |r.hist| == 3 * n
  {
    Rolled(seq(n, i requires 0 <= i < n => z[i] + hist[i]),
           seq(3 * n, i requires 0 <= i < 3 * n => if i < 2 * n then hist[n + i] + z[n + i] else z[n + i]))
  }

  function Frame(b: Bank, y: seq<real>): (z: seq<real>)
    requires BankOk(b) && |y| == 2 * b.n
    ensures |z| == 4 * b.n
  {
    seq(4 * b.n, i requires 0 <= i < 4 * b.n => Windowed(b, y, i))
  }

  // The history after a run of frames from silence.
  function History(b: Bank, frames: seq<seq<real>>): (h: seq<real>)
    requires BankOk(b) && FramesOk(b, frames)
    ensures |h| == 3 * b.n
  {
    if frames == [] then seq(3 * b.n, _ => 0.0)
    else Roll(b.n, History(b, frames[..|frames| - 1]), Frame(b, frames[|frames| - 1])).hist
  }

  // ---- every run ----

  lemma SampleOfPrefix(b: Bank, frames: seq<seq<real>>, ago: nat, i: nat)
    requires BankOk(b) && FramesOk(b, frames) && i < 4 * b.n && frames != []
    ensures FramesOk(b, frames[..|frames| - 1])
    ensures Sample(b, frames[..|frames| - 1], ago, i) == Sample(b, frames, ago + 1, i)
  {}

  // After any number of frames the history is what the last three have still
  // to give.
  lemma {:induction false} HistoryIsPending(b: Bank, frames: seq<seq<real>>, i: nat)
    requires BankOk(b) && FramesOk(b, frames) && i < 3 * b.n
    ensures History(b, frames)[i] == Pending(b, frames, i)
    decreases |frames|
  {
    hide Windowed, History, Sample;
    if frames == [] {
      HistoryStarts(b, frames, i);
    } else {
      var n, before := b.n, frames[..|frames| - 1];
      HistoryOn(b, frames, i);
      SampleOfPrefix(b, frames, 0, i);
      if i < 2 * n {
        HistoryIsPending(b, before, n + i);
        SampleOfPrefix(b, frames, 0, 2 * n + i);
        if i < n { SampleOfPrefix(b, frames, 1, 3 * n + i); }
      }
    }
  }

  lemma HistoryStarts(b: Bank, frames: seq<seq<real>>, i: nat)
    requires BankOk(b) && frames == [] && i < 3 * b.n
    ensures History(b, frames)[i] == Pending(b, frames, i)
  {}

  // What a frame does to the history.
  lemma HistoryOn(b: Bank, frames: seq<seq<real>>, i: nat)
    requires BankOk(b) && FramesOk(b, frames) && frames != [] && i < 3 * b.n
    ensures FramesOk(b, frames[..|frames| - 1])
    ensures History(b, frames)[i]
            == Sample(b, frames, 0, b.n + i) + if i < 2 * b.n then History(b, frames[..|frames| - 1])[b.n + i] else 0.0
  {
    hide Roll, Frame, Windowed, History, Sample;
    LastFrame(b, frames, b.n + i);
    var h, y := History(b, frames[..|frames| - 1]), frames[|frames| - 1];
    HistoryRolls(b, frames);
    FrameAt(b, y, b.n + i);
    RollAt(b.n, h, Frame(b, y), i);
  }

  lemma LastFrame(b: Bank, frames: seq<seq<real>>, i: nat)
    requires BankOk(b) && FramesOk(b, frames) && frames != [] && i < 4 * b.n
    ensures FramesOk(b, frames[..|frames| - 1]) && |frames[|frames| - 1]| == 2 * b.n
    ensures Sample(b, frames, 0, i) == Windowed(b, frames[|frames| - 1], i)
  {
    hide Windowed;
  }

  lemma HistoryRolls(b: Bank, frames: seq<seq<real>>)
    requires BankOk(b) && FramesOk(b, frames) && frames != []
    ensures FramesOk(b, frames[..|frames| - 1])
    ensures History(b, frames) == Roll(b.n, History(b, frames[..|frames| - 1]), Frame(b, frames[|frames| - 1])).hist
  {
    hide Roll, Frame, Windowed;
  }

  lemma FrameAt(b: Bank, y: seq<real>, i: nat)
    requires BankOk(b) && |y| == 2 * b.n && i < 4 * b.n
    ensures Frame(b, y)[i] == Windowed(b, y, i)
  {
    hide Windowed;
  }

  lemma RollAt(n: nat, hist: seq<real>, z: seq<real>, i: nat)
    requires |hist| == 3 * n && |z| == 4 * n && i < 3 * n
    ensures Roll(n, hist, z).hist[i] == z[n + i] + if i < 2 * n then hist[n + i] else 0.0
  {}

  // The output of every frame of every run is the four-frame sum.
  lemma OutputIsFourFrames(b: Bank, frames: seq<seq<real>>, y: seq<real>, i: nat)
    requires BankOk(b) && FramesOk(b, frames) && |y| == 2 * b.n && i < b.n
    ensures FramesOk(b, frames + [y])
    ensures Roll(b.n, History(b, frames), Frame(b, y)).out[i] == FourFrames(b, frames + [y], i)
  {
    hide Windowed;
    var all := frames + [y];
    assert all[..|all| - 1] == frames;
    HistoryIsPending(b, frames, i);
    SampleOfPrefix(b, all, 0, b.n + i);
    SampleOfPrefix(b, all, 1, 2 * b.n + i);
    SampleOfPrefix(b, all, 2, 3 * b.n + i);
  }

  // ---- what the standard asks ----

  // x is the 2 n samples y, and goes on both ways, changing sign every 2 n.
  ghost predicate Continued(y: seq<real>, n: nat, x: int -> real) {
    |y| == 2 * n && (forall j :: 0 <= j < 2 * n ==> x(j) == y[j]) && forall j :: ChangesSign(x, n, j)
  }

  predicate ChangesSign(x: int -> real, n: nat, j: int) {
    x(j + 2 * n) == -x(j)
  }

  ghost predicate AllContinued(b: Bank, frames: seq<seq<real>>, x: nat -> int -> real) {
    forall k: nat :: k < |frames| ==> Continued(frames[k], b.n, x(k))
  }

  // A frame's part in the output, ago frames back, from place at of its four
  // quarters: nothing from a frame that was not, nor from the end of the last
  // quarter.
  function Part(b: Bank, x: nat -> int -> real, count: nat, ago: nat, at: nat): real
    requires b.n > 0 && |b.window| >= 4 * b.n - b.n / 4 && at < 4 * b.n
  {
    if ago < count && at < 4 * b.n - b.n / 4 then
      b.window[at] * x(count - 1 - ago)(at - b.n + b.n / 4) * (-1.0 / b.n as real / 32768.0)
    else 0.0
  }

  // The extension is the only way to go on so.
  lemma {:induction false} ExtendedIsContinued(y: seq<real>, n: nat, x: int -> real, j: int)
    requires n > 0 && Continued(y, n, x)
    ensures Extended(y, n, j) == x(j)
    decreases if j < 0 then -j else j
  {
    hide Extended;
    if j < 0 {
      ExtendedTurns(y, n, j);
      if j + 2 * n < 0 { ExtendedIsContinued(y, n, x, j + 2 * n); } else { ExtendedInside(y, n, j + 2 * n); }
      assert ChangesSign(x, n, j);
    } else if j < 2 * n {
      ExtendedInside(y, n, j);
    } else {
      ExtendedTurns(y, n, j - 2 * n);
      ExtendedIsContinued(y, n, x, j - 2 * n);
      assert ChangesSign(x, n, j - 2 * n);
    }
  }

  // The output is the sum of four frames' samples so continued, windowed.
  lemma OutputIsStandard(b: Bank, frames: seq<seq<real>>, x: nat -> int -> real, i: nat)
    requires BankOk(b) && FramesOk(b, frames) && AllContinued(b, frames, x) && i < b.n
    ensures FourFrames(b, frames, i)
            == Part(b, x, |frames|, 0, i) + Part(b, x, |frames|, 1, b.n + i) + Part(b, x, |frames|, 2, 2 * b.n + i)
               + Part(b, x, |frames|, 3, 3 * b.n + i)
  {
    hide Part, Sample, AllContinued;
    PartIsSample(b, frames, x, 0, i);
    PartIsSample(b, frames, x, 1, b.n + i);
    PartIsSample(b, frames, x, 2, 2 * b.n + i);
    PartIsSample(b, frames, x, 3, 3 * b.n + i);
  }

  lemma PartIsSample(b: Bank, frames: seq<seq<real>>, x: nat -> int -> real, ago: nat, at: nat)
    requires BankOk(b) && FramesOk(b, frames) && AllContinued(b, frames, x) && at < 4 * b.n
    ensures Sample(b, frames, ago, at) == Part(b, x, |frames|, ago, at)
  {
    hide Extended, Continued;
    if ago < |frames| {
      var k: nat := |frames| - 1 - ago;
      assert Continued(frames[k], b.n, x(k));
      ExtendedIsContinued(frames[k], b.n, x(k), at - b.n + b.n / 4);
    }
  }

  // ---- the code ----

  // A period on, the extension changes its sign.
  lemma ExtendedTurns(y: seq<real>, n: nat, j: int)
    requires n > 0 && |y| == 2 * n
    ensures Extended(y, n, j + 2 * n) == -Extended(y, n, j)
  {
    var p := 2 * n;
    DivModUnique(j + p, p, j / p + 1, j % p);
  }

  lemma SignsCancel(a: real, s: real)
    ensures -a * -s == a * s
  {}

  // Where the extension is read: brought into the 2 n samples by whole
  // periods, the sign changing with each.
  method Fold(y: seq<real>, n: nat, at: int, gain: real) returns (j: nat, s: real)
    requires n > 0 && |y| == 2 * n
    ensures j < 2 * n && y[j] * s == Extended(y, n, at) * gain
  {
    hide Extended;
    var k: int := at;
    s := gain;
    while k < 0
      invariant Extended(y, n, k) * s == Extended(y, n, at) * gain
      decreases -k
    {
      ExtendedTurns(y, n, k);
      SignsCancel(Extended(y, n, k), s);
      k := k + 2 * n;
      s := -s;
    }
    while k >= 2 * n
      invariant 0 <= k && Extended(y, n, k) * s == Extended(y, n, at) * gain
      decreases k
    {
      ExtendedTurns(y, n, k - 2 * n);
      SignsCancel(Extended(y, n, k), s);
      k := k - 2 * n;
      s := -s;
    }
    j := k;
    ExtendedInside(y, n, j);
  }

  lemma ExtendedInside(y: seq<real>, n: nat, j: nat)
    requires n > 0 && |y| == 2 * n && j < 2 * n
    ensures Extended(y, n, j) == y[j]
  {
    DivModUnique(j, 2 * n, 0, j);
  }

  // The output: the newest frame's first quarter on the history's.
  method Overlap(n: nat, z: array<real>, hist: array<real>, out: array<real>)
    requires z.Length == 4 * n && hist.Length == 3 * n && out.Length == n && out != z && out != hist
    modifies out
    ensures out[..] == Roll(n, hist[..], z[..]).out
  {
    for i := 0 to n
      invariant forall k :: 0 <= k < i ==> out[k] == z[k] + hist[k]
    {
      out[i] := z[i] + hist[i];
    }
  }

  // The history moved on a frame, in place: each cell is read before it is
  // written.
  method MoveOn(n: nat, z: array<real>, hist: array<real>)
    requires z.Length == 4 * n && hist.Length == 3 * n && z != hist
    modifies hist
    ensures hist[..] == Roll(n, old(hist[..]), z[..]).hist
  {
    for i := 0 to 2 * n
      invariant forall k :: 0 <= k < i ==> hist[k] == old(hist[n + k]) + z[n + k]
      invariant forall k :: i <= k < 3 * n ==> hist[k] == old(hist[k])
    {
      hist[i] := hist[n + i] + z[n + i];
    }
    forall k | 0 <= k < n {
      hist[2 * n + k] := z[3 * n + k];
    }
  }

  class Synth {
    const b: Bank
    const hist: array<real>
    ghost var frames: seq<seq<real>>

    ghost predicate Valid()
      reads this, hist
    {
      BankOk(b) && FramesOk(b, frames) && hist[..] == History(b, frames)
    }

    constructor (b: Bank)
      requires BankOk(b)
      ensures Valid() && this.b == b && frames == [] && fresh(hist)
    {
      this.b := b;
      hist := new real[3 * b.n](_ => 0.0);
      frames := [];
      new;
      assert hist[..] == History(b, frames);
    }

    // The next frame's 2 n samples y to n of output.
    method Next(y: seq<real>, out: array<real>, z: array<real>)
      requires Valid() && |y| == 2 * b.n && out.Length == b.n && z.Length == 4 * b.n
      requires out != z && out != hist && z != hist
      modifies this, hist, out, z
      ensures Valid() && frames == old(frames) + [y]
      ensures forall i :: 0 <= i < b.n ==> out[i] == FourFrames(b, frames, i)
    {
      hide Windowed, Extended, FourFrames;
      var n := b.n;
      ghost var was := frames;
      for i := 0 to 4 * n
        invariant forall k :: 0 <= k < i ==> z[k] == Windowed(b, y, k)
        invariant hist[..] == History(b, was) && frames == was
      {
        z[i] := WindowedSample(y, i);
      }
      assert z[..] == Frame(b, y);
      Overlap(n, z, hist, out);
      MoveOn(n, z, hist);
      frames := frames + [y];
      assert frames[..|frames| - 1] == was;
      forall i | 0 <= i < n ensures out[i] == FourFrames(b, frames, i) {
        OutputIsFourFrames(b, was, y, i);
      }
    }

    method WindowedSample(y: seq<real>, i: nat) returns (z: real)
      requires BankOk(b) && |y| == 2 * b.n && i < 4 * b.n
      ensures z == Windowed(b, y, i)
    {
      hide Extended;
      var j, s := Fold(y, b.n, i - b.n + b.n / 4, b.gain);
      if i < 4 * b.n - b.n / 4 {
        z := b.window[i] * y[j] * s;
        RealAssoc(b.window[i], y[j], s, Extended(y, b.n, i - b.n + b.n / 4), b.gain);
      } else {
        z := 0.0;
      }
    }
  }

  lemma RealAssoc(w: real, y: real, s: real, e: real, g: real)
    requires y * s == e * g
    ensures w * y * s == w * e * g
  {
    assert w * y * s == w * (y * s);
    assert w * e * g == w * (e * g);
  }
}
