/**
 The streaming verifier of retained maintenance declarations (`validate_maintenance_history`): the cursor is the
 pair (declared_at, maintenance_id), and a page boundary may fall between declarations of one instant.
 */
module MaintenanceHistory {
  import opened Prelude
  import opened Paging

  datatype Row = Row(declaredAt: string, id: string, material: string)

  /** `ORDER BY declared_at, maintenance_id`. */
  predicate Before(a: Row, b: Row) {
    Less(a.declaredAt, b.declaredAt) || (a.declaredAt == b.declaredAt && Less(a.id, b.id))
  }

  lemma BeforeIsStrict()
    ensures StrictOrder(Before)
    ensures forall a: Row, b: Row :: Before(a, b) || Before(b, a) || (a.declaredAt == b.declaredAt && a.id == b.id)
  {
    forall a: Row, b: Row ensures Before(a, b) || Before(b, a) || (a.declaredAt == b.declaredAt && a.id == b.id) {
      LessTotal(a.declaredAt, b.declaredAt);
      LessTotal(a.id, b.id);
    }
    forall a: Row ensures !Before(a, a) {
      LessIrreflexive(a.declaredAt);
      LessIrreflexive(a.id);
    }
    forall a: Row, b: Row, c: Row | Before(a, b) && Before(b, c) ensures Before(a, c) {
      if Less(a.declaredAt, b.declaredAt) && Less(b.declaredAt, c.declaredAt) {
        LessTransitive(a.declaredAt, b.declaredAt, c.declaredAt);
      } else if a.declaredAt == b.declaredAt == c.declaredAt {
        LessTransitive(a.id, b.id, c.id);
      }
    }
  }

  /** `WHERE declared_at > ?1 OR (declared_at = ?1 AND maintenance_id > ?2)`, continuing after the first `n` rows. */
  method DeclarationPage(rows: seq<Row>, limit: nat, after: Option<(string, string)>, ghost n: nat)
      returns (page: seq<Row>)
    requires Ascending(rows, Before) && n <= |rows|
    requires after == if n == 0 then None else Some((rows[n - 1].declaredAt, rows[n - 1].id))
    ensures |page| == Min(limit, |rows| - n) && forall t :: 0 <= t < |page| ==> page[t] == rows[n + t]
  {
    var past := (r: Row) =>
      after.None? || Less(after.value.0, r.declaredAt) || (after.value.0 == r.declaredAt && Less(after.value.1, r.id));
    page := Page(rows, limit, past);
    if n > 0 {
      BeforeIsStrict();
      CursorSplits(rows, Before, n);
      forall i | 0 <= i < |rows| ensures past(rows[i]) == Before(rows[n - 1], rows[i]) {}
    }
    PageAfter(rows, past, limit, n);
  }

  /** For every page size: accepts exactly when every declaration is well formed, and counts each one once. */
  method ValidateHistory(rows: seq<Row>, declarationOk: Row -> bool, limit: nat) returns (r: Option<nat>)
    requires limit >= 1 && Ascending(rows, Before)
    ensures r.Some? <==> forall i :: 0 <= i < |rows| ==> declarationOk(rows[i])
    ensures r.Some? ==> r.value == |rows|
  {
    hide Ascending;
    var count := 0;
    var after: Option<(string, string)> := None;
    while true
      invariant 0 <= count <= |rows| && forall i :: 0 <= i < count ==> declarationOk(rows[i])
      invariant after == if count == 0 then None else Some((rows[count - 1].declaredAt, rows[count - 1].id))
      decreases |rows| - count
    {
      var page := DeclarationPage(rows, limit, after, count);
      if page == [] {
        return Some(count);
      }
      ghost var start := count;
      for t := 0 to |page|
        invariant count == start + t && forall i :: 0 <= i < count ==> declarationOk(rows[i])
        invariant after == if count == 0 then None else Some((rows[count - 1].declaredAt, rows[count - 1].id))
      {
        if !declarationOk(page[t]) {
          assert !declarationOk(rows[count]);
          return None;
        }
        after := Some((page[t].declaredAt, page[t].id));
        count := count + 1;
      }
      if |page| < limit {
        return Some(count);
      }
    }
  }
}
