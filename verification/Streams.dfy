/** Sample streams that are silent before their start, and the buffer in which a streaming
    kernel keeps the end of its stream from one call to the next. */
module Streams {

  /** Sample p of a stream that is silent outside the part heard. */
  function SampleAt<T>(silence: T, s: seq<T>, p: int): T {
    if 0 <= p < |s| then s[p] else silence
  }

  /** w is the part of the stream that starts at the given time. */
  ghost predicate IsPart<T>(silence: T, w: seq<T>, s: seq<T>, start: int) {
    forall j :: 0 <= j < |w| ==> w[j] == SampleAt(silence, s, start + j)
  }

  /** Keeps the last samples of the stream, whether the input is longer than the history or not. */
  method UpdateHistory<T>(x: seq<T>, history: array<T>, ghost silence: T, ghost past: seq<T>)
    requires IsPart(silence, history[..], past, |past| - history.Length)
    modifies history
    ensures IsPart(silence, history[..], past + x, |past + x| - history.Length)
  {
    hide IsPart;
    ghost var before := history[..];
    if |x| >= history.Length {
      TakeEnd(x, history);
      LastOfInput(silence, history[..], past, x);
    } else if |x| > 0 {
      PushOut(x, history);
      LastOfBoth(silence, before, past, x);
    } else {
      assert past + x == past;
    }
  }

  method TakeEnd<T>(x: seq<T>, history: array<T>)
    requires |x| >= history.Length
    modifies history
    ensures history[..] == x[|x| - history.Length..]
  {
    var n, h := |x|, history.Length;
    for i := 0 to h
      invariant history[..i] == x[n - h..n - h + i]
    {
      history[i] := x[n - h + i];
    }
  }

  /** Moves the history down and puts the input behind it. */
  method PushOut<T>(x: seq<T>, history: array<T>)
    requires |x| < history.Length
    modifies history
    ensures history[..] == old(history[..])[|x|..] + x
  {
    var n, h := |x|, history.Length;
    ghost var before := history[..];
    MoveDown(history, n);
    for i := 0 to n
      invariant history[..h - n] == before[n..]
      invariant history[h - n..h - n + i] == x[..i]
    {
      history[h - n + i] := x[i];
    }
    assert history[..] == history[..h - n] + history[h - n..h];
  }

  method MoveDown<T>(history: array<T>, n: nat)
    requires n <= history.Length
    modifies history
    ensures history[..history.Length - n] == old(history[..])[n..]
  {
    var h := history.Length;
    ghost var before := history[..];
    for i := 0 to h - n
      invariant forall j :: 0 <= j < i ==> history[j] == before[n + j]
      invariant forall j :: i <= j < h ==> history[j] == before[j]
    {
      history[i] := history[n + i];
    }
  }

  lemma LastOfInput<T>(silence: T, w: seq<T>, past: seq<T>, x: seq<T>)
    requires |x| >= |w| && forall j :: 0 <= j < |w| ==> w[j] == x[|x| - |w| + j]
    ensures IsPart(silence, w, past + x, |past + x| - |w|)
  {
  }

  lemma LastOfBoth<T>(silence: T, before: seq<T>, past: seq<T>, x: seq<T>)
    requires IsPart(silence, before, past, |past| - |before|) && |x| <= |before|
    ensures IsPart(silence, before[|x|..] + x, past + x, |past + x| - |before|)
  {
    var w := before[|x|..] + x;
    forall j | 0 <= j < |w| ensures w[j] == SampleAt(silence, past + x, |past + x| - |w| + j) {
      if j < |before| - |x| {
        assert w[j] == before[|x| + j];
      }
    }
  }
}
