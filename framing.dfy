/** Newline framing of a stream buffer. The daemon, the peer node and the
    management connection all frame their input the same way: an on_data
    callback looks for the first newline and reports how many characters of
    the buffer it has consumed, and the stream socket cuts that many off the
    front and asks again while the count is positive. */
module Framing {

  /** str.find(c): the first index of c in s, or -1. */
  function Find(s: string, c: char): (pos: int)
    ensures -1 <= pos < |s|
    ensures pos == -1 <==> c !in s
    ensures pos >= 0 ==> s[pos] == c && c !in s[..pos]
  {
    if s == [] then -1
    else if s[0] == c then 0
    else
      var p := Find(s[1..], c);
      assert s[1..][..if p < 0 then 0 else p] == s[1..1 + if p < 0 then 0 else p];
      if p < 0 then -1 else p + 1
  }

  /** What on_data returns: 0 while no newline has arrived, 1 for a lone
      newline (a keep-alive), otherwise the position of the newline plus one. */
  function LineLength(data: string): (n: nat)
    ensures n <= |data|
    ensures n == 0 <==> '\n' !in data
    ensures n > 0 ==> data[n - 1] == '\n' && '\n' !in data[..n - 1]
  {
    var pos := Find(data, '\n');
    if pos < 0 then 0 else if pos == 0 then 1 else pos + 1
  }

  /** A complete frame: some text and the newline that ends it. */
  predicate IsFrame(line: string) {
    |line| >= 1 && line[|line| - 1] == '\n' && '\n' !in line[..|line| - 1]
  }

  predicate AllFrames(ls: seq<string>) {
    forall i :: 0 <= i < |ls| ==> IsFrame(ls[i])
  }

  /** The frames a buffer holds, in order. */
  function Lines(data: string): (ls: seq<string>)
    ensures AllFrames(ls)
    decreases |data|
  {
    var n := LineLength(data);
    if n == 0 then [] else [data[..n]] + Lines(data[n..])
  }

  /** What is left of a buffer once all its frames are consumed. */
  function Rest(data: string): (r: string)
    ensures '\n' !in r
    decreases |data|
  {
    var n := LineLength(data);
    if n == 0 then data else Rest(data[n..])
  }

  function Concat(ls: seq<string>): string {
    if ls == [] then [] else ls[0] + Concat(ls[1..])
  }

  lemma {:induction false} ConcatAppend(ls: seq<string>, l: string)
    ensures Concat(ls + [l]) == Concat(ls) + l
  {
    if ls == [] {
      assert [] + [l] == [l];
      assert Concat([l]) == l + Concat([]);
    } else {
      ConcatAppend(ls[1..], l);
      assert (ls + [l])[1..] == ls[1..] + [l];
    }
  }

  /** The frames and the rest put together are the whole buffer. */
  lemma {:induction false} LinesAndRest(data: string)
    ensures Concat(Lines(data)) + Rest(data) == data
    decreases |data|
  {
    var n := LineLength(data);
    if n == 0 {
      assert Lines(data) == [] && Rest(data) == data;
    } else {
      var head, tail := data[..n], data[n..];
      var lt, rt := Lines(tail), Rest(tail);
      LinesAndRest(tail);
      LinesStep(data, n);
      ConcatFront(head, lt, rt);
      assert data == head + tail;
    }
  }

  lemma ConcatFront(head: string, ls: seq<string>, tail: string)
    ensures Concat([head] + ls) + tail == head + (Concat(ls) + tail)
  {
    assert ([head] + ls)[1..] == ls;
  }

  /** Consuming the first frame of a buffer. */
  lemma LinesStep(data: string, n: nat)
    requires n == LineLength(data) > 0
    ensures Lines(data) == [data[..n]] + Lines(data[n..])
    ensures Rest(data) == Rest(data[n..])
  {
  }

  /** A frame at the front of a buffer is the first frame of that buffer. */
  lemma LinesCons(l: string, tail: string)
    requires IsFrame(l)
    ensures Lines(l + tail) == [l] + Lines(tail)
    ensures Rest(l + tail) == Rest(tail)
  {
    var d := l + tail;
    FrameLength(l, tail);
    assert d[..|l|] == l;
    assert d[|l|..] == tail;
  }

  lemma ConcatCons(ls: seq<string>, tail: string)
    requires ls != []
    ensures Concat(ls) + tail == ls[0] + (Concat(ls[1..]) + tail)
  {
  }

  /** Frames that are followed by more text stay the same frames. */
  lemma {:induction false} LinesOfFrames(ls: seq<string>, tail: string)
    requires AllFrames(ls)
    ensures Lines(Concat(ls) + tail) == ls + Lines(tail)
  {
    if ls == [] {
      assert Concat(ls) + tail == tail;
    } else {
      var rest := Concat(ls[1..]) + tail;
      var whole := Concat(ls) + tail;
      var lt := Lines(tail);
      assert Lines(rest) == ls[1..] + lt by {
        assert AllFrames(ls[1..]);
        LinesOfFrames(ls[1..], tail);
      }
      assert whole == ls[0] + rest by { ConcatCons(ls, tail); }
      assert Lines(ls[0] + rest) == [ls[0]] + Lines(rest) by { LinesCons(ls[0], rest); }
      assert [ls[0]] + (ls[1..] + lt) == ls + lt by { SeqConsAppend(ls, lt); }
    }
  }

  /** Frames that are followed by more text leave the same rest. */
  lemma {:induction false} RestOfFrames(ls: seq<string>, tail: string)
    requires AllFrames(ls)
    ensures Rest(Concat(ls) + tail) == Rest(tail)
  {
    if ls == [] {
      assert Concat(ls) + tail == tail;
    } else {
      var rest := Concat(ls[1..]) + tail;
      assert AllFrames(ls[1..]);
      RestOfFrames(ls[1..], tail);
      ConcatCons(ls, tail);
      LinesCons(ls[0], rest);
    }
  }

  lemma SeqConsAppend<T>(xs: seq<T>, ys: seq<T>)
    requires xs != []
    ensures [xs[0]] + (xs[1..] + ys) == xs + ys
  {
    assert xs == [xs[0]] + xs[1..];
  }

  lemma FrameLength(l: string, tail: string)
    requires IsFrame(l)
    ensures LineLength(l + tail) == |l|
  {
    var d := l + tail;
    assert d[..|l|] == l;
    assert d[..|l| - 1] == l[..|l| - 1];
    assert d[|l| - 1] == '\n';
  }
}
