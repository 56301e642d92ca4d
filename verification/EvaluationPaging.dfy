/**
 The public evaluation-history walk of `validate_historical_semantics` over `evaluation_history_bounded`: pages of
 an append-only table under a frozen upper bound, while later rows may keep arriving.
 */
module EvaluationPaging {
  import opened Prelude

  /** A stored sequence number. */
  type Sequence = n: nat | n <= I64_MAX

  datatype HistoryPage = HistoryPage(through: nat, records: seq<nat>, nextAfter: Option<nat>, complete: bool)

  /** The sequence numbers of `rows` in (lo, hi], ascending: the page query without its LIMIT. */
  function Between(rows: set<nat>, lo: nat, hi: nat): seq<nat>
    decreases hi - lo
  {
    if lo >= hi then []
    else (if lo + 1 in rows then [lo + 1] else []) + Between(rows, lo + 1, hi)
  }

  /** No sequence number is missing from (lo, hi]. */
  predicate Contiguous(rows: set<nat>, lo: nat, hi: nat) { forall q :: lo < q <= hi ==> q in rows }

  lemma {:induction false} BetweenContents(rows: set<nat>, lo: nat, hi: nat)
    ensures |Between(rows, lo, hi)| <= Max(hi - lo, 0)
    ensures forall i :: 0 <= i < |Between(rows, lo, hi)| ==> Between(rows, lo, hi)[i] in rows
    decreases hi - lo
  {
    if lo < hi { BetweenContents(rows, lo + 1, hi); }
  }

  lemma {:induction false} BetweenPrefix(rows: set<nat>, lo: nat, hi: nat, k: nat)
    requires lo + k <= hi && Contiguous(rows, lo, lo + k)
    ensures |Between(rows, lo, hi)| >= k
    ensures forall i :: 0 <= i < k ==> Between(rows, lo, hi)[i] == lo + 1 + i
    decreases k
  {
    if k > 0 { BetweenPrefix(rows, lo + 1, hi, k - 1); }
  }

  /** The engine's length and sequence checks on one page, restated: nothing is missing from it. */
  predicate PageExact(page: seq<nat>, cursor: nat, expected: nat) {
    |page| == expected && forall i :: 0 <= i < |page| ==> page[i] == cursor + 1 + i
  }

  lemma PageExactIffContiguous(rows: set<nat>, cursor: nat, through: nat, limit: nat)
    requires cursor <= through
    ensures var all := Between(rows, cursor, through);
            var expected := Min(through - cursor, limit);
            PageExact(all[..Min(limit, |all|)], cursor, expected) <==> Contiguous(rows, cursor, cursor + expected)
  {
    var all, expected := Between(rows, cursor, through), Min(through - cursor, limit);
    var page := all[..Min(limit, |all|)];
    BetweenContents(rows, cursor, through);
    if PageExact(page, cursor, expected) {
      forall q | cursor < q <= cursor + expected ensures q in rows {
        assert page[q - cursor - 1] == q && all[q - cursor - 1] == q;
      }
    }
    if Contiguous(rows, cursor, cursor + expected) {
      BetweenPrefix(rows, cursor, through, expected);
    }
  }

  /** The row loop of one page: exact sequence numbers and typed validation. */
  method Reopen(page: seq<nat>, cursor: nat, reopens: nat -> bool) returns (ok: bool)
    ensures ok <==> PageExact(page, cursor, |page|) && forall q :: cursor < q <= cursor + |page| ==> reopens(q)
  {
    for i := 0 to |page|
      invariant forall j :: 0 <= j < i ==> page[j] == cursor + 1 + j
      invariant forall q :: cursor < q <= cursor + i ==> reopens(q)
    {
      if page[i] != cursor + i + 1 || !reopens(page[i]) {
        return false;
      }
    }
    ok := true;
  }

  /** What the engine says to a requested range before it reads a row. */
  datatype Ruling = Admitted | Expired | NotPresent

  function Rule(floor: nat, latest: nat, after: Option<nat>, through: Option<nat>): Ruling {
    var cursor := if after.Some? then after.value else 0;
    var bound := if through.Some? then through.value else latest;
    if after.Some? && through.None? then NotPresent
    else if bound > 9223372036854775807 || cursor > 9223372036854775807 then NotPresent
    else if cursor < floor || (floor > 0 && bound < floor) then Expired
    else if bound > latest || cursor > bound then NotPresent
    else Admitted
  }

  /** The interval has no hole and its rows reopen. */
  ghost predicate Whole(rows: set<nat>, lo: nat, hi: nat, reopens: nat -> bool) {
    Contiguous(rows, lo, hi) && forall q :: lo < q <= hi ==> reopens(q)
  }

  /** The first page of an admitted range has no hole and its rows reopen. */
  ghost predicate Intact(rows: set<nat>, cursor: nat, bound: nat, limit: nat, reopens: nat -> bool) {
    cursor <= bound && Whole(rows, cursor, cursor + Min(bound - cursor, limit), reopens)
  }

  datatype PageResult = Paged(page: HistoryPage) | Refused(ruling: Ruling) | Corrupt

  class EvaluationStore {
    const generation: nat                     // expiry generation; 0 before any expiry
    const floor: Sequence                     // evaluations expired through this sequence
    var rows: set<nat>                        // evaluation rows that hold their source
    var latest: Sequence                      // highest committed sequence

    constructor (generation: nat, floor: Sequence, rows: set<nat>, latest: Sequence)
      requires floor <= latest && forall q :: q in rows ==> q <= latest
      ensures Valid() && this.generation == generation && this.floor == floor && this.rows == rows
              && this.latest == latest
    {
      this.generation, this.floor, this.rows, this.latest := generation, floor, rows, latest;
    }

    /** Rows are numbered up to the latest sequence, and only committed sequences have expired. */
    ghost predicate Valid() reads this { floor <= latest && forall q :: q in rows ==> q <= latest }

    /** Other writers only append, at higher sequence numbers. */
    method Arrive(more: set<nat>, upTo: Sequence)
      requires Valid()
      modifies this
      ensures Valid() && latest == Max(old(latest), upTo)
      ensures forall q :: q <= old(latest) ==> (q in rows <==> q in old(rows))
      ensures forall q :: q in rows <==> q in old(rows) || (q in more && old(latest) < q <= upTo)
    {
      if upTo > latest {
        rows := rows + set q | q in more && latest < q <= upTo;
        latest := upTo;
      }
    }

    /** `evaluation_history_bounded`; `reopens` is the typed validation of one row. */
    method Page(limit: nat, after: Option<nat>, through: Option<nat>, reopens: nat -> bool) returns (r: PageResult)
      requires limit >= 1
      ensures var cursor := if after.Some? then after.value else 0;
              var bound := if through.Some? then through.value else latest;
              var expected := Min(bound - cursor, limit);
              var ruling := Rule(floor, latest, after, through);
              && (r.Refused? <==> !ruling.Admitted?) && (r.Refused? ==> r.ruling == ruling)
              && (r.Paged? <==> ruling.Admitted? && Intact(rows, cursor, bound, limit, reopens))
              && (r.Paged? ==>
                    && r.page.through == bound && |r.page.records| == expected
                    && (forall i :: 0 <= i < expected ==> r.page.records[i] == cursor + 1 + i)
                    && r.page.complete == (cursor + expected == bound)
                    && r.page.nextAfter == if r.page.complete then None else Some(cursor + expected))
    {
      hide Between, Contiguous;
      if after.Some? && through.None? {
        return Refused(NotPresent);
      }
      var bound := if through.Some? then through.value else latest;
      var cursor := if after.Some? then after.value else 0;
      if bound > I64_MAX || cursor > I64_MAX {
        return Refused(NotPresent);
      }
      if cursor < floor || (floor > 0 && bound < floor) {
        return Refused(Expired);
      }
      if bound > latest || cursor > bound {
        return Refused(NotPresent);
      }
      var all := Between(rows, cursor, bound);
      var page := all[..Min(limit, |all|)];
      var available := bound - cursor;
      var expected := Min(available, limit);
      PageExactIffContiguous(rows, cursor, bound, limit);
      if |page| != expected {
        return Corrupt;
      }
      var ok := Reopen(page, cursor, reopens);
      if !ok {
        return Corrupt;
      }
      var more := available > limit;
      r := Paged(HistoryPage(bound, page, if more then Some(page[|page| - 1]) else None, !more));
    }
  }

  /** A range is admitted exactly when it lies between the floor and the latest sequence, in order. */
  lemma AdmittedIffWithin(floor: Sequence, latest: Sequence, after: Option<nat>, through: Option<nat>)
    ensures var cursor := if after.Some? then after.value else 0;
            var bound := if through.Some? then through.value else latest;
            Rule(floor, latest, after, through).Admitted? <==>
              (after.Some? ==> through.Some?) && floor <= cursor <= bound <= latest
  {}

  // ---------------------------------------------------------------- the walk

  function StartOf(generation: nat, floor: nat): nat { if generation > 0 then floor else 0 }

  lemma NothingRead(rows: set<nat>, start: nat, reopens: nat -> bool)
    ensures Whole(rows, start, start, reopens)
  {}

  /** A page continues what was read before it, in rows that may have grown above the bound. */
  lemma PageExtends(first: set<nat>, rows: set<nat>, start: nat, cursor: nat, bound: nat, limit: nat,
                    reopens: nat -> bool)
    requires start <= cursor <= bound && forall q :: q <= bound ==> (q in rows <==> q in first)
    requires Whole(first, start, cursor, reopens)
    ensures Intact(rows, cursor, bound, limit, reopens) <==>
            Whole(first, start, cursor + Min(bound - cursor, limit), reopens)
    ensures Whole(rows, start, bound, reopens) <==> Whole(first, start, bound, reopens)
    ensures Whole(rows, start, bound, reopens) ==> Intact(rows, cursor, bound, limit, reopens)
  {}

  /**
   The paging loop. `arrivals(i)` is what other writers append before the i-th page. `frozen` is the upper bound of
   the first page. The walk succeeds exactly when nothing is missing between the floor and the frozen bound, whatever
   arrives meanwhile, and then counts every row of that interval once.
   */
  method CountPublic(s: EvaluationStore, limit: nat, reopens: nat -> bool, arrivals: nat -> (set<nat>, Sequence))
      returns (r: Option<nat>, ghost frozen: nat)
    requires s.Valid() && limit >= 1
    modifies s
    ensures s.Valid() && old(s.latest) <= frozen <= s.latest
    ensures frozen == if s.generation > 0 then old(s.latest) else Max(old(s.latest), arrivals(0).1)
    ensures forall q :: q <= old(s.latest) ==> (q in s.rows <==> q in old(s.rows))
    ensures var start := StartOf(s.generation, s.floor);
            && (r.Some? <==> s.floor <= start <= frozen && Whole(s.rows, start, frozen, reopens))
            && (r.Some? ==> r.value == frozen - start)
  {
    hide Rule, Whole, Intact;
    var after, through := None, None;
    if s.generation > 0 {
      after, through := Some(s.floor), Some(s.latest);
    }
    ghost var start := StartOf(s.generation, s.floor);
    var count, pages := 0, 0;
    var (more, upTo) := arrivals(0);
    s.Arrive(more, upTo);
    frozen := if through.Some? then through.value else s.latest;
    ghost var first := s.rows;
    assert Whole(first, start, start, reopens) by { NothingRead(first, start, reopens); }
    while true
      invariant s.Valid() && old(s.latest) <= frozen <= s.latest
      invariant forall q :: q <= old(s.latest) ==> (q in s.rows <==> q in old(s.rows))
      invariant forall q :: q <= frozen ==> (q in s.rows <==> q in first)
      invariant pages == 0 ==> count == 0 && after == (if s.generation > 0 then Some(s.floor) else None)
      invariant pages == 0 && through.None? ==> frozen == s.latest && s.generation == 0
      invariant through.Some? ==> through.value == frozen
      invariant pages > 0 ==> through.Some? && after == Some(start + count) && count > 0
      invariant pages > 0 ==> s.floor <= start && start + count <= frozen
      invariant Whole(first, start, start + count, reopens)
      decreases frozen - start - count
    {
      if s.floor <= start && start + count <= frozen {
        PageExtends(first, s.rows, start, start + count, frozen, limit, reopens);
      }
      AdmittedIffWithin(s.floor, s.latest, after, through);
      var page := s.Page(limit, after, through, reopens);
      if !page.Paged? {
        return None, frozen;
      }
      through := Some(page.page.through);
      count := count + |page.page.records|;
      if page.page.complete {
        return Some(count), frozen;
      }
      after := page.page.nextAfter;
      pages := pages + 1;
      more, upTo := arrivals(pages).0, arrivals(pages).1;
      s.Arrive(more, upTo);
    }
  }

  // ---------------------------------------------------------------- the comparison with the typed verifier

  function Held(rows: set<nat>, lo: nat, hi: nat): set<nat> { set q | q in rows && lo < q <= hi }

  /** An interval holds at most one row per sequence number, and exactly that many only when none is missing. */
  lemma {:induction false} HeldCount(rows: set<nat>, lo: nat, hi: nat)
    requires lo <= hi
    ensures |Held(rows, lo, hi)| <= hi - lo
    ensures |Held(rows, lo, hi)| == hi - lo <==> Contiguous(rows, lo, hi)
    decreases hi - lo
  {
    if lo == hi {
      assert Held(rows, lo, hi) == {};
    } else {
      HeldCount(rows, lo, hi - 1);
      if hi in rows {
        assert Held(rows, lo, hi) == Held(rows, lo, hi - 1) + {hi};
      } else {
        assert Held(rows, lo, hi) == Held(rows, lo, hi - 1);
      }
    }
  }

  /**
   The declared islands (rows kept at or below the start) plus one row per number of the public interval make up the
   whole table through the frozen bound exactly when no row is missing above the start.
   */
  lemma IslandsCompleteTheTotal(rows: set<nat>, start: nat, frozen: nat)
    requires start <= frozen && 0 !in rows
    ensures |Held(rows, 0, start)| + (frozen - start) == |Held(rows, 0, frozen)| <==> Contiguous(rows, start, frozen)
  {
    assert Held(rows, 0, frozen) == Held(rows, 0, start) + Held(rows, start, frozen);
    HeldCount(rows, start, frozen);
  }

  /** The rows of an interval, listed and as a set. */
  lemma {:induction false} BetweenIsHeld(rows: set<nat>, lo: nat, hi: nat)
    ensures |Between(rows, lo, hi)| == |Held(rows, lo, hi)|
    decreases hi - lo
  {
    if lo < hi {
      BetweenIsHeld(rows, lo + 1, hi);
      if lo + 1 in rows {
        assert Held(rows, lo, hi) == {lo + 1} + Held(rows, lo + 1, hi);
      } else {
        assert Held(rows, lo, hi) == Held(rows, lo + 1, hi);
      }
    } else {
      assert Held(rows, lo, hi) == {};
    }
  }

  /** Continuing behind the k-th listed row lists the others. */
  lemma {:induction false} BetweenContinues(rows: set<nat>, lo: nat, hi: nat, k: nat)
    requires 0 < k <= |Between(rows, lo, hi)|
    ensures var all := Between(rows, lo, hi); lo < all[k - 1] <= hi && Between(rows, all[k - 1], hi) == all[k..]
    decreases hi - lo
  {
    var all, rest := Between(rows, lo, hi), Between(rows, lo + 1, hi);
    if lo + 1 in rows {
      assert all == [lo + 1] + rest && all[1..] == rest;
      if k > 1 {
        BetweenContinues(rows, lo + 1, hi, k - 1);
        assert all[k - 1] == rest[k - 2] && all[k..] == rest[k - 1..];
      }
    } else {
      BetweenContinues(rows, lo + 1, hi, k);
    }
  }

  lemma {:induction false} BetweenMembers(rows: set<nat>, lo: nat, hi: nat, q: nat)
    ensures q in Between(rows, lo, hi) <==> q in rows && lo < q <= hi
    decreases hi - lo
  {
    if lo < hi { BetweenMembers(rows, lo + 1, hi, q); }
  }

  ghost predicate AllReopen(rows: set<nat>, lo: nat, hi: nat, reopens: nat -> bool) {
    forall q :: q in rows && lo < q <= hi ==> reopens(q)
  }

  /** The typed walk below a bound that was read before: every row that is there, with or without holes. */
  method CountTyped(s: EvaluationStore, limit: nat, start: nat, through: Sequence, reopens: nat -> bool)
      returns (r: Option<nat>)
    requires limit >= 1
    ensures r.Some? <==> AllReopen(s.rows, start, through, reopens)
    ensures r.Some? ==> r.value == |Held(s.rows, start, through)|
  {
    var rows := s.rows;
    var after, count := start, 0;
    BetweenIsHeld(rows, start, through);
    while true
      invariant start <= after && count + |Between(rows, after, through)| == |Between(rows, start, through)|
      invariant forall q :: q in rows && start < q <= after && q <= through ==> reopens(q)
      decreases |Between(rows, after, through)|
    {
      var all := Between(rows, after, through);
      var page := all[..Min(limit, |all|)];
      if page == [] {
        assert forall q :: q in rows && after < q <= through ==> q in all by { BetweenHolds(rows, after, through); }
        return Some(count);
      }
      for t := 0 to |page|
        invariant forall u :: 0 <= u < t ==> reopens(page[u])
      {
        if !reopens(page[t]) {
          BetweenMembers(rows, after, through, page[t]);
          return None;
        }
      }
      BetweenContinues(rows, after, through, |page|);
      PageCovers(rows, after, through, |page|, reopens);
      after, count := page[|page| - 1], count + |page|;
      if |page| < limit {
        assert forall q :: q in rows && after < q <= through ==> q in Between(rows, after, through) by {
          BetweenHolds(rows, after, through);
        }
        return Some(count);
      }
    }
  }

  lemma BetweenHolds(rows: set<nat>, lo: nat, hi: nat)
    ensures forall q :: q in rows && lo < q <= hi ==> q in Between(rows, lo, hi)
  {
    forall q | q in rows && lo < q <= hi ensures q in Between(rows, lo, hi) { BetweenMembers(rows, lo, hi, q); }
  }

  lemma PageCovers(rows: set<nat>, lo: nat, hi: nat, k: nat, reopens: nat -> bool)
    requires 0 < k <= |Between(rows, lo, hi)|
    requires forall u :: 0 <= u < k ==> reopens(Between(rows, lo, hi)[u])
    ensures forall q :: q in rows && lo < q <= Between(rows, lo, hi)[k - 1] ==> reopens(q)
  {
    var all := Between(rows, lo, hi);
    BetweenContinues(rows, lo, hi, k);
    assert forall v :: k <= v < |all| ==> all[v] in all[k..] by {
      forall v | k <= v < |all| ensures all[v] in all[k..] { assert all[k..][v - k] == all[v]; }
    }
    forall q | q in rows && lo < q <= all[k - 1] ensures reopens(q) {
      BetweenMembers(rows, lo, hi, q);
      BetweenMembers(rows, all[k - 1], hi, q);
      var u :| 0 <= u < |all| && all[u] == q;
    }
  }

  /** The rows kept at or below the floor, once something has expired. */
  function Islands(s: EvaluationStore): nat
    reads s
  {
    if s.generation > 0 then |Held(s.rows, 0, s.floor)| else 0
  }

  /** Nothing is missing between the floor and the bound, and every row validates in both walks. */
  ghost predicate Sound(generation: nat, floor: nat, rows: set<nat>, bound: nat, typed: nat -> bool,
      reopens: nat -> bool) {
    var start := StartOf(generation, floor);
    && floor <= start <= bound && Contiguous(rows, start, bound)
    && forall q :: start < q <= bound ==> typed(q) && reopens(q)
  }

  /**
   The evaluation part of `validate_historical_semantics`: the typed walk, what others commit before the public walk
   (`between`) and during it (`arrivals`), and the final comparison. `islandOk` is the typed validation of the islands.
   The verdict is exact: the history must be sound, and nothing may be committed before the public bound is frozen.
   The total is then that of the whole table.
   */
  method CompareEvaluations(s: EvaluationStore, limit: nat, typed: nat -> bool, islandOk: bool, reopens: nat -> bool,
                            between: (set<nat>, Sequence), arrivals: nat -> (set<nat>, Sequence))
      returns (ok: bool, total: nat)
    requires s.Valid() && limit >= 1
    modifies s
    ensures ok ==> total == |Held(old(s.rows), 0, old(s.latest))|
    ensures ok <==>
              && islandOk && Sound(s.generation, s.floor, old(s.rows), old(s.latest), typed, reopens)
              && between.1 <= old(s.latest) && (s.generation > 0 || arrivals(0).1 <= old(s.latest))
  {
    hide Contiguous, Held;
    ghost var rows := s.rows;
    var bound := s.latest;
    var counted := CountTyped(s, limit, s.floor, bound, typed);
    SoundReopens(s.generation, s.floor, rows, bound, typed, reopens);
    if counted.None? || !islandOk {
      return false, 0;
    }
    total := counted.value + Islands(s);
    WholeTable(s.generation, s.floor, rows, bound);
    s.Arrive(between.0, between.1);
    var islands := Islands(s);
    SameHeld(rows, s.rows, 0, s.floor, bound);
    ghost var start := StartOf(s.generation, s.floor);
    var public, frozen := CountPublic(s, limit, reopens, arrivals);
    CountsAgree(s.generation, s.floor, rows, s.rows, bound, frozen, typed, reopens);
    ok := public.Some? && public.value + islands == total;
  }

  /** Islands and the rows above the floor are all rows. */
  lemma WholeTable(generation: nat, floor: nat, rows: set<nat>, bound: nat)
    requires floor <= bound
    ensures generation > 0 || floor == 0 ==>
            |Held(rows, 0, bound)| == |Held(rows, floor, bound)| + if generation > 0 then |Held(rows, 0, floor)| else 0
  {
    assert Held(rows, 0, bound) == Held(rows, 0, floor) + Held(rows, floor, bound);
    assert Held(rows, 0, 0) == {};
  }

  lemma SoundReopens(generation: nat, floor: nat, rows: set<nat>, bound: nat, typed: nat -> bool, reopens: nat -> bool)
    ensures Sound(generation, floor, rows, bound, typed, reopens) ==> AllReopen(rows, floor, bound, typed)
  {}

  lemma SameHeld(rows: set<nat>, rows': set<nat>, lo: nat, hi: nat, bound: nat)
    requires hi <= bound && forall q :: q <= bound ==> (q in rows' <==> q in rows)
    ensures Held(rows', lo, hi) == Held(rows, lo, hi)
  {}

  /** When both walks succeed, their counts agree exactly when they were frozen at the same bound. */
  lemma CountsAgree(generation: nat, floor: nat, rows: set<nat>, rows': set<nat>, bound: nat, frozen: nat,
                    typed: nat -> bool, reopens: nat -> bool)
    requires floor <= bound <= frozen && forall q :: q <= bound ==> (q in rows' <==> q in rows)
    requires AllReopen(rows, floor, bound, typed)
    ensures var start := StartOf(generation, floor);
            var public := floor <= start <= frozen && Whole(rows', start, frozen, reopens);
            (public && frozen - start == |Held(rows, floor, bound)|)
            <==> Sound(generation, floor, rows, bound, typed, reopens) && frozen == bound
  {
    var start := StartOf(generation, floor);
    if floor <= start {
      assert start == floor;
      HeldCount(rows, start, bound);
      assert Contiguous(rows', start, frozen) ==> Contiguous(rows, start, bound);
      assert frozen == bound ==> (Contiguous(rows', start, frozen) <==> Contiguous(rows, start, bound));
      assert Contiguous(rows, start, bound) && AllReopen(rows, floor, bound, typed) ==>
            forall q :: start < q <= bound ==> typed(q);
    }
  }

  /** A sound store that the comparison refuses: one row is committed between the two walks. */
  method CommitBetweenWalks(limit: nat, arrivals: nat -> (set<nat>, Sequence)) returns (ok: bool)
    requires limit >= 1
    ensures Sound(0, 0, {1}, 1, q => true, q => true) && !ok
  {
    var s := new EvaluationStore(0, 0, {1}, 1);
    var total;
    ok, total := CompareEvaluations(s, limit, q => true, true, q => true, ({2}, 2), arrivals);
  }
}
