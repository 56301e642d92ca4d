/**
 `wildcard_matches`: a dynamic program over one boolean row per pattern byte, against the plain meaning of a pattern:
 the subject splits into one piece per pattern byte, `*` takes any piece, every other byte takes itself.
 */
module Wildcard {
  import opened Strings

  ghost predicate Splits(pattern: string, subject: string, pieces: seq<string>) {
    && |pieces| == |pattern|
    && Concat(pieces) == subject
    && forall i :: 0 <= i < |pattern| ==> pattern[i] == '*' || pieces[i] == [pattern[i]]
  }

  /** The meaning of a pattern. */
  ghost predicate Matches(pattern: string, subject: string) {
    exists pieces :: Splits(pattern, subject, pieces)
  }

  // ---------------------------------------------------------------- the recurrence the program computes

  /** Cell (i, j) of the table: the first i pattern bytes match the first j subject bytes. */
  predicate Cell(pattern: string, subject: string, i: nat, j: nat)
    requires i <= |pattern| && j <= |subject|
    decreases i, j
  {
    if i == 0 then j == 0
    else if pattern[i - 1] == '*' then
      Cell(pattern, subject, i - 1, j) || (j > 0 && Cell(pattern, subject, i, j - 1))
    else j > 0 && pattern[i - 1] == subject[j - 1] && Cell(pattern, subject, i - 1, j - 1)
  }

  method WildcardMatches(pattern: string, subject: string) returns (r: bool)
    ensures r <==> Matches(pattern, subject)
  {
    var n := |subject|;
    var previous := new bool[n + 1](j => j == 0);
    for i := 0 to |pattern|
      invariant previous.Length == n + 1
      invariant forall j :: 0 <= j <= n ==> previous[j] == Cell(pattern, subject, i, j)
    {
      previous := NextRow(pattern, subject, i, previous);
    }
    r := previous[n];
    CellIsMatch(pattern, subject, |pattern|, n);
    assert pattern[..|pattern|] == pattern && subject[..n] == subject;
  }

  /** The inner loop: the row of pattern byte i from the row before it. */
  method NextRow(pattern: string, subject: string, i: nat, previous: array<bool>) returns (next: array<bool>)
    requires i < |pattern| && previous.Length == |subject| + 1
    requires forall j :: 0 <= j <= |subject| ==> previous[j] == Cell(pattern, subject, i, j)
    ensures fresh(next) && next.Length == |subject| + 1
    ensures forall j :: 0 <= j <= |subject| ==> next[j] == Cell(pattern, subject, i + 1, j)
  {
    var n := |subject|;
    var token := pattern[i];
    next := new bool[n + 1](j => false);
    next[0] := token == '*' && previous[0];
    for index := 0 to n
      invariant forall j :: 0 <= j <= index ==> next[j] == Cell(pattern, subject, i + 1, j)
      invariant forall j :: 0 <= j <= n ==> previous[j] == Cell(pattern, subject, i, j)
    {
      next[index + 1] := if token == '*' then previous[index + 1] || next[index]
                         else token == subject[index] && previous[index];
    }
  }

  // ---------------------------------------------------------------- the recurrence means what the pattern means

  lemma MatchEmpty(subject: string)
    ensures Matches("", subject) <==> subject == ""
  {
    if subject == "" { assert Splits("", "", []); }
  }

  /** A pattern extended by one byte matches exactly the subjects that end in a piece for that byte. */
  lemma MatchSnoc(pattern: string, c: char, subject: string)
    ensures Matches(pattern + [c], subject) <==>
            exists k :: 0 <= k <= |subject| && Matches(pattern, subject[..k]) && (c == '*' || subject[k..] == [c])
  {
    if Matches(pattern + [c], subject) {
      var pieces :| Splits(pattern + [c], subject, pieces);
      var n := |pattern|;
      var k := |Concat(pieces[..n])|;
      assert pieces == pieces[..n] + [pieces[n]];
      ConcatSnoc(pieces[..n], pieces[n]);
      assert subject == Concat(pieces[..n]) + pieces[n];
      assert subject[..k] == Concat(pieces[..n]) && subject[k..] == pieces[n];
      assert forall i :: 0 <= i < n ==> (pattern + [c])[i] == pattern[i];
      assert Splits(pattern, subject[..k], pieces[..n]);
      assert (pattern + [c])[n] == c;
    }
    if k :| 0 <= k <= |subject| && Matches(pattern, subject[..k]) && (c == '*' || subject[k..] == [c]) {
      var pieces :| Splits(pattern, subject[..k], pieces);
      var longer := pieces + [subject[k..]];
      ConcatSnoc(pieces, subject[k..]);
      assert Concat(longer) == subject[..k] + subject[k..] == subject;
      assert Splits(pattern + [c], subject, longer);
    }
  }

  /** A star may take one byte more, or nothing. */
  lemma MatchStar(pattern: string, subject: string)
    ensures Matches(pattern + ['*'], subject) <==>
            Matches(pattern, subject) || (subject != "" && Matches(pattern + ['*'], subject[..|subject| - 1]))
  {
    MatchSnoc(pattern, '*', subject);
    assert subject[..|subject|] == subject;
    if subject != "" {
      var shorter := subject[..|subject| - 1];
      MatchSnoc(pattern, '*', shorter);
      assert forall k :: 0 <= k <= |shorter| ==> shorter[..k] == subject[..k];
    }
  }

  /** Any other byte takes exactly itself. */
  lemma MatchLiteral(pattern: string, c: char, subject: string)
    requires c != '*'
    ensures Matches(pattern + [c], subject) <==>
            subject != "" && subject[|subject| - 1] == c && Matches(pattern, subject[..|subject| - 1])
  {
    MatchSnoc(pattern, c, subject);
    if subject != "" && subject[|subject| - 1] == c {
      assert subject[|subject| - 1..] == [c];
    }
  }

  lemma {:induction false} CellIsMatch(pattern: string, subject: string, i: nat, j: nat)
    requires i <= |pattern| && j <= |subject|
    ensures Cell(pattern, subject, i, j) <==> Matches(pattern[..i], subject[..j])
    decreases i, j
  {
    if i == 0 {
      assert pattern[..0] == "";
      MatchEmpty(subject[..j]);
    } else {
      var p, c := pattern[..i - 1], pattern[i - 1];
      assert pattern[..i] == p + [c];
      if j > 0 { assert subject[..j][..j - 1] == subject[..j - 1] && subject[..j][j - 1] == subject[j - 1]; }
      if c == '*' {
        CellIsMatch(pattern, subject, i - 1, j);
        if j > 0 { CellIsMatch(pattern, subject, i, j - 1); }
        MatchStar(p, subject[..j]);
      } else {
        if j > 0 { CellIsMatch(pattern, subject, i - 1, j - 1); }
        MatchLiteral(p, c, subject[..j]);
      }
    }
  }
}
