/**
 The store's cursor queries: rows strictly after the cursor, in key order, at most `limit` of them
 (`SELECT … WHERE key > ?1 ORDER BY key LIMIT ?2`).
 */
module Paging {
  import opened Prelude

  function Filter<R>(rows: seq<R>, past: R -> bool): (kept: seq<R>)
  {
    if rows == [] then []
    else (if past(rows[0]) then [rows[0]] else []) + Filter(rows[1..], past)
  }

  /** One page of a table held in key order; `past` says that a row lies beyond the cursor. */
  function Page<R>(rows: seq<R>, limit: nat, past: R -> bool): (page: seq<R>)
    ensures |page| <= limit
  {
    var rest := Filter(rows, past);
    rest[..Min(limit, |rest|)]
  }

  lemma {:induction false} FilterIsSuffix<R>(rows: seq<R>, past: R -> bool, n: nat)
    requires n <= |rows|
    requires forall i :: 0 <= i < n ==> !past(rows[i])
    requires forall i :: n <= i < |rows| ==> past(rows[i])
    ensures Filter(rows, past) == rows[n..]
  {
    if rows != [] {
      FilterIsSuffix(rows[1..], past, if n == 0 then 0 else n - 1);
      if n == 0 {
        assert [rows[0]] + rows[1..] == rows;
      } else {
        assert [] + rows[1..][n - 1..] == rows[n..];
      }
    }
  }

  /** In a table sorted by key, the page after the n-th row starts at the n-th row and is as long as it can be. */
  lemma PageAfter<R>(rows: seq<R>, past: R -> bool, limit: nat, n: nat)
    requires n <= |rows|
    requires forall i :: 0 <= i < n ==> !past(rows[i])
    requires forall i :: n <= i < |rows| ==> past(rows[i])
    ensures Page(rows, limit, past) == rows[n..n + Min(limit, |rows| - n)]
  {
    FilterIsSuffix(rows, past, n);
  }

  // ---------------------------------------------------------------- tables in key order

  ghost predicate StrictOrder<R(!new)>(before: (R, R) -> bool) {
    && (forall a :: !before(a, a))
    && (forall a, b, c :: before(a, b) && before(b, c) ==> before(a, c))
  }

  ghost predicate Ascending<R>(rows: seq<R>, before: (R, R) -> bool) {
    |rows| <= 1 || (before(rows[|rows| - 2], rows[|rows| - 1]) && Ascending(rows[..|rows| - 1], before))
  }

  lemma {:induction false} AscendingPairs<R(!new)>(rows: seq<R>, before: (R, R) -> bool, i: nat, j: nat)
    requires StrictOrder(before) && Ascending(rows, before) && i < j < |rows|
    ensures before(rows[i], rows[j])
  {
    if j < |rows| - 1 {
      AscendingPairs(rows[..|rows| - 1], before, i, j);
    } else if i < j - 1 {
      AscendingPairs(rows[..|rows| - 1], before, i, j - 1);
    }
  }

  /** A cursor on the n-th row separates the first n rows from the others. */
  lemma CursorSplits<R(!new)>(rows: seq<R>, before: (R, R) -> bool, n: nat)
    requires StrictOrder(before) && Ascending(rows, before) && 0 < n <= |rows|
    ensures forall i :: 0 <= i < n ==> !before(rows[n - 1], rows[i])
    ensures forall i :: n <= i < |rows| ==> before(rows[n - 1], rows[i])
  {
    forall i | 0 <= i < n ensures !before(rows[n - 1], rows[i]) {
      if i < n - 1 { AscendingPairs(rows, before, i, n - 1); }
    }
    forall i | n <= i < |rows| ensures before(rows[n - 1], rows[i]) {
      AscendingPairs(rows, before, n - 1, i);
    }
  }

  // ---------------------------------------------------------------- byte-wise string order (SQLite BINARY, Rust `str`)

  predicate Less(a: string, b: string) {
    b != "" && (a == "" || a[0] < b[0] || (a[0] == b[0] && Less(a[1..], b[1..])))
  }

  /** Behind a common beginning the first string ends, or has the smaller character. */
  ghost predicate Precedes(a: string, b: string) {
    exists k: nat :: k <= |a| && k < |b| && a[..k] == b[..k] && (k == |a| || a[k] < b[k])
  }

  lemma {:induction false} LessIffPrecedes(a: string, b: string)
    ensures Less(a, b) <==> Precedes(a, b)
  {
    if a == "" && b != "" {
      assert a[..0] == b[..0];
    } else if b != "" {
      LessIffPrecedes(a[1..], b[1..]);
      if Less(a, b) {
        if a[0] < b[0] {
          assert a[..0] == b[..0];
        } else {
          var k: nat :| k <= |a[1..]| && k < |b[1..]| && a[1..][..k] == b[1..][..k]
            && (k == |a[1..]| || a[1..][k] < b[1..][k]);
          assert a[..k + 1] == [a[0]] + a[1..][..k] && b[..k + 1] == [b[0]] + b[1..][..k];
        }
      }
      if Precedes(a, b) {
        var k: nat :| k <= |a| && k < |b| && a[..k] == b[..k] && (k == |a| || a[k] < b[k]);
        if k > 0 {
          assert a[0] == a[..k][0] == b[..k][0] == b[0];
          assert a[1..][..k - 1] == a[..k][1..] && b[1..][..k - 1] == b[..k][1..];
        }
      }
    }
  }

  lemma {:induction false} LessIrreflexive(a: string)
    ensures !Less(a, a)
  {
    if a != "" { LessIrreflexive(a[1..]); }
  }

  lemma {:induction false} LessTransitive(a: string, b: string, c: string)
    requires Less(a, b) && Less(b, c)
    ensures Less(a, c)
  {
    if a != "" && a[0] == b[0] && b[0] == c[0] {
      LessTransitive(a[1..], b[1..], c[1..]);
    }
  }

  lemma {:induction false} LessTotal(a: string, b: string)
    ensures a == b || Less(a, b) || Less(b, a)
  {
    if a != "" && b != "" && a[0] == b[0] {
      LessTotal(a[1..], b[1..]);
      assert a == [a[0]] + a[1..] && b == [b[0]] + b[1..];
    }
  }

  lemma LessAsymmetric(a: string, b: string)
    requires Less(a, b)
    ensures !Less(b, a)
  {
    if Less(b, a) {
      LessTransitive(a, b, a);
      LessIrreflexive(a);
    }
  }

  lemma LessIsStrict<R(!new)>(before: (R, R) -> bool, id: R -> string)
    requires forall a, b :: before(a, b) == Less(id(a), id(b))
    ensures StrictOrder(before)
  {
    forall a ensures !before(a, a) { LessIrreflexive(id(a)); }
    forall a, b, c | before(a, b) && before(b, c) ensures before(a, c) { LessTransitive(id(a), id(b), id(c)); }
  }

  // ---------------------------------------------------------------- the two kinds of cursor

  ghost predicate Numbered<R>(rows: seq<R>, number: R -> nat) {
    forall i, j :: 0 <= i < j < |rows| ==> number(rows[i]) < number(rows[j])
  }

  /** `WHERE number > ?1`, continuing after the first `n` rows. */
  method PageByNumber<R>(rows: seq<R>, number: R -> nat, limit: nat, after: Option<nat>, ghost n: nat)
      returns (page: seq<R>)
    requires Numbered(rows, number) && n <= |rows|
    requires after == if n == 0 then None else Some(number(rows[n - 1]))
    ensures page == rows[n..n + Min(limit, |rows| - n)]
  {
    var past := (r: R) => after.None? || number(r) > after.value;
    page := Page(rows, limit, past);
    PageAfter(rows, past, limit, n);
  }

  /** `WHERE id > ?1`, continuing after the first `n` rows. */
  method PageById<R(!new)>(rows: seq<R>, id: R -> string, ghost before: (R, R) -> bool, limit: nat,
      after: Option<string>, ghost n: nat)
    returns (page: seq<R>)
    requires (forall a, b :: before(a, b) == Less(id(a), id(b))) && Ascending(rows, before) && n <= |rows|
    requires after == if n == 0 then None else Some(id(rows[n - 1]))
    ensures |page| == Min(limit, |rows| - n) && forall t :: 0 <= t < |page| ==> page[t] == rows[n + t]
  {
    var past := (r: R) => after.None? || Less(after.value, id(r));
    page := Page(rows, limit, past);
    if n > 0 {
      LessIsStrict(before, id);
      CursorSplits(rows, before, n);
    }
    PageAfter(rows, past, limit, n);
  }
}
