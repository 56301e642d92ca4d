/**
 `str::split(c)`: taking a separated list apart and putting it together.
 */
module Separated {
  import opened Strings

  /** Always at least one piece; an empty text is one empty piece. */
  function Split(s: string, c: char): (r: seq<string>)
    ensures r != []
    decreases |s|
  {
    var n := IndexOf(s, c);
    if n == |s| then [s] else [s[..n]] + Split(s[n + 1..], c)
  }

  function Join(pieces: seq<string>, c: char): string
    requires pieces != []
  {
    if |pieces| == 1 then pieces[0] else pieces[0] + [c] + Join(pieces[1..], c)
  }

  lemma {:induction false} JoinOfSplit(s: string, c: char)
    ensures Join(Split(s, c), c) == s
    ensures forall i :: 0 <= i < |Split(s, c)| ==> c !in Split(s, c)[i]
    decreases |s|
  {
    var n := IndexOf(s, c);
    if n < |s| {
      JoinOfSplit(s[n + 1..], c);
      assert s == s[..n] + [c] + s[n + 1..];
      assert Split(s, c)[1..] == Split(s[n + 1..], c);
    }
  }

  lemma {:induction false} SplitOfJoin(pieces: seq<string>, c: char)
    requires pieces != [] && forall i :: 0 <= i < |pieces| ==> c !in pieces[i]
    ensures Split(Join(pieces, c), c) == pieces
  {
    var s := Join(pieces, c);
    if |pieces| == 1 {
      assert IndexOf(s, c) == |s|;
    } else {
      var head, rest := pieces[0], Join(pieces[1..], c);
      assert s[|head|] == c && forall i :: 0 <= i < |head| ==> s[i] == head[i];
      assert IndexOf(s, c) == |head|;
      assert s[..|head|] == head && s[|head| + 1..] == rest;
      SplitOfJoin(pieces[1..], c);
      assert pieces == [head] + pieces[1..];
    }
  }
}
