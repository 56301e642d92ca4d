/**
 Which maintenance declaration annotates a condition (`maintenance_annotation`): active declarations beat expired ones,
 later beats earlier, and the sorts of the program against a plain statement of the maximum.
 */
module Maintenance {
  import opened Prelude
  import opened Paging
  import opened Wildcard
  import Utf8

  // ---------------------------------------------------------------- declarations and their validation

  datatype Declaration = Declaration(
    id: string, declaredBy: Option<string>, startAt: string, endAt: string,
    component: string, kind: string, subject: Option<string>, reason: Option<string>)

  /** An RFC 3339 reader: the instant a text denotes, if it denotes one. */
  type Clock = string -> Option<int>

  /** 1 to `max` bytes of UTF-8, none of them part of a control character. */
  ghost predicate Bounded(s: string, max: nat) {
    1 <= |Utf8.EncodeAll(s)| <= max && forall c :: c in s ==> '\U{20}' <= c <= '\U{7E}' || '\U{A0}' <= c
  }

  /** A valid declaration: bounded fields, and a window between two UTC instants. */
  ghost predicate Valid(clock: Clock, d: Declaration) {
    && Bounded(d.id, 256) && Bounded(d.component, 256) && Bounded(d.kind, 256)
    && Bounded(d.startAt, 64) && d.startAt[|d.startAt| - 1] == 'Z'
    && Bounded(d.endAt, 64) && d.endAt[|d.endAt| - 1] == 'Z'
    && (d.declaredBy.Some? ==> Bounded(d.declaredBy.value, 256))
    && (d.subject.Some? ==> Bounded(d.subject.value, 256))
    && (d.reason.Some? ==> Bounded(d.reason.value, 1024))
    && clock(d.startAt).Some? && clock(d.endAt).Some? && clock(d.startAt).value < clock(d.endAt).value
  }

  function Utf8Width(c: char): nat {
    if c as int < 0x80 then 1 else if c as int < 0x800 then 2 else if c as int < 0x10000 then 3 else 4
  }

  /** `char::is_control`. */
  predicate IsControl(c: char) { c as int < 0x20 || 0x7F <= c as int < 0xA0 }

  lemma {:induction false} EncodeAppend(s: string, c: char)
    ensures |Utf8.EncodeAll(s + [c])| == |Utf8.EncodeAll(s)| + Utf8Width(c)
  {
    if s == "" {
      assert (s + [c])[1..] == "";
    } else {
      EncodeAppend(s[1..], c);
      assert (s + [c])[1..] == s[1..] + [c];
    }
  }

  /** `bounded`: the length in bytes and the control characters. */
  method CheckBounded(value: string, max: nat) returns (ok: bool)
    ensures ok <==> Bounded(value, max)
  {
    var length, control := 0, false;
    for i := 0 to |value|
      invariant length == |Utf8.EncodeAll(value[..i])| >= i
      invariant control <==> exists j :: 0 <= j < i && IsControl(value[j])
    {
      assert value[..i + 1] == value[..i] + [value[i]];
      EncodeAppend(value[..i], value[i]);
      length := length + Utf8Width(value[i]);
      control := control || IsControl(value[i]);
    }
    assert value[..|value|] == value;
    assert forall j :: 0 <= j < |value| ==> value[j] in value;
    assert forall c :: IsControl(c) <==> !('\U{20}' <= c <= '\U{7E}' || '\U{A0}' <= c);
    ok := value != "" && length <= max && !control;
  }

  method CheckOptional(value: Option<string>, max: nat) returns (ok: bool)
    ensures ok <==> (value.Some? ==> Bounded(value.value, max))
  {
    if value.None? {
      return true;
    }
    ok := CheckBounded(value.value, max);
  }

  predicate EndsInZ(s: string) { s != "" && s[|s| - 1] == 'Z' }

  /** The five required fields of `MaintenanceDeclaration::validate`. */
  method CheckFields(d: Declaration) returns (ok: bool)
    ensures ok <==> Bounded(d.id, 256) && Bounded(d.startAt, 64) && Bounded(d.endAt, 64) && Bounded(d.component, 256)
                    && Bounded(d.kind, 256)
  {
    hide Bounded;
    ok := CheckBounded(d.id, 256);
    if ok { ok := CheckBounded(d.startAt, 64); }
    if ok { ok := CheckBounded(d.endAt, 64); }
    if ok { ok := CheckBounded(d.component, 256); }
    if ok { ok := CheckBounded(d.kind, 256); }
  }

  /** `MaintenanceDeclaration::validate`. */
  method Validate(clock: Clock, d: Declaration) returns (ok: bool)
    ensures ok <==> Valid(clock, d)
  {
    ok := CheckFields(d);
    if ok { ok := CheckOptional(d.declaredBy, 256); }
    if ok { ok := CheckOptional(d.subject, 256); }
    if ok { ok := CheckOptional(d.reason, 1024); }
    if !ok || !EndsInZ(d.startAt) || !EndsInZ(d.endAt) {
      return false;
    }
    var start, end := clock(d.startAt), clock(d.endAt);
    ok := start.Some? && end.Some? && start.value < end.value;
  }

  /** A declaration together with the instant at which it was recorded. */
  datatype Recorded = Recorded(d: Declaration, at: int)

  datatype Query = Query(component: string, kind: string, subject: string, now: int)

  function StartOf(clock: Clock, r: Recorded): int { if clock(r.d.startAt).Some? then clock(r.d.startAt).value else 0 }

  function EndOf(clock: Clock, r: Recorded): int { if clock(r.d.endAt).Some? then clock(r.d.endAt).value else 0 }

  // ---------------------------------------------------------------- the statement

  ghost predicate InScope(q: Query, r: Recorded) {
    && r.at <= q.now
    && r.d.component == q.component && r.d.kind == q.kind
    && (r.d.subject.Some? ==> Matches(r.d.subject.value, q.subject))
  }

  ghost predicate Active(clock: Clock, q: Query, r: Recorded) {
    InScope(q, r) && StartOf(clock, r) <= q.now < EndOf(clock, r)
  }

  ghost predicate Expired(clock: Clock, q: Query, r: Recorded) {
    InScope(q, r) && !(StartOf(clock, r) <= q.now < EndOf(clock, r)) && EndOf(clock, r) <= q.now
  }

  /** Not recorded later, and of those recorded at once not with the greater id. */
  ghost predicate NotLater(o: Recorded, r: Recorded) {
    o.at <= r.at && (o.at == r.at ==> !Precedes(r.d.id, o.d.id))
  }

  datatype Annotation = Covered | Overrun

  type Answer = Option<(Declaration, Annotation)>

  function Elements(rows: seq<Recorded>): set<Recorded> { set r | r in rows }

  /** Of these recorded declarations, which one annotates, and how. */
  ghost predicate Annotates(clock: Clock, q: Query, all: set<Recorded>, answer: Answer) {
    if exists r :: r in all && Active(clock, q, r) then
      exists r :: r in all && Active(clock, q, r) && answer == Some((r.d, Covered))
                  && forall o :: o in all && Active(clock, q, o) ==> NotLater(o, r)
    else if exists r :: r in all && Expired(clock, q, r) then
      exists r :: r in all && Expired(clock, q, r) && answer == Some((r.d, Overrun))
                  && forall o :: o in all && Expired(clock, q, o) ==>
                       EndOf(clock, o) <= EndOf(clock, r) && (EndOf(clock, o) == EndOf(clock, r) ==> NotLater(o, r))
    else answer == None
  }

  // ---------------------------------------------------------------- sorting

  /** A sort key: the end instant (0 for active declarations), the recording instant and the id. */
  datatype Candidate = Candidate(rank: int, r: Recorded)

  /** Later recording first, then the greater id. */
  predicate Later(a: Recorded, b: Recorded) { b.at < a.at || (b.at == a.at && Less(b.d.id, a.d.id)) }

  lemma LaterIsNotNotLater(a: Recorded, b: Recorded)
    ensures !Later(a, b) <==> NotLater(a, b)
  {
    LessIffPrecedes(b.d.id, a.d.id);
  }

  predicate Beats(a: Candidate, b: Candidate) {
    b.rank < a.rank || (b.rank == a.rank && Later(a.r, b.r))
  }

  lemma BeatsIsStrict(a: Candidate, b: Candidate, c: Candidate)
    ensures !Beats(a, a)
    ensures Beats(a, b) && Beats(b, c) ==> Beats(a, c)
    ensures !Beats(a, b) && !Beats(b, c) ==> !Beats(a, c)
  {
    LessIrreflexive(a.r.d.id);
    if Less(c.r.d.id, b.r.d.id) && Less(b.r.d.id, a.r.d.id) {
      LessTransitive(c.r.d.id, b.r.d.id, a.r.d.id);
    }
    LessTotal(a.r.d.id, b.r.d.id);
    LessTotal(b.r.d.id, c.r.d.id);
    if Less(a.r.d.id, b.r.d.id) && Less(b.r.d.id, c.r.d.id) {
      LessTransitive(a.r.d.id, b.r.d.id, c.r.d.id);
    }
    if Less(a.r.d.id, c.r.d.id) { LessAsymmetric(a.r.d.id, c.r.d.id); }
  }

  ghost predicate Descending(s: seq<Candidate>) { forall i, j :: 0 <= i < j < |s| ==> !Beats(s[j], s[i]) }

  /** Insert after everything the new item does not beat, which keeps the sort stable. */
  method Insert(sorted: seq<Candidate>, x: Candidate) returns (r: seq<Candidate>)
    requires Descending(sorted)
    ensures Descending(r) && multiset(r) == multiset(sorted) + multiset{x}
  {
    hide Beats, Descending;
    var k := 0;
    while k < |sorted| && !Beats(x, sorted[k])
      invariant 0 <= k <= |sorted| && forall i :: 0 <= i < k ==> !Beats(x, sorted[i])
    {
      k := k + 1;
    }
    InsertSorted(sorted, x, k);
    r := sorted[..k] + [x] + sorted[k..];
    assert sorted == sorted[..k] + sorted[k..];
  }

  lemma InsertSorted(sorted: seq<Candidate>, x: Candidate, k: nat)
    requires Descending(sorted) && k <= |sorted|
    requires forall i :: 0 <= i < k ==> !Beats(x, sorted[i])
    requires k < |sorted| ==> Beats(x, sorted[k])
    ensures Descending(sorted[..k] + [x] + sorted[k..])
  {
    hide Beats;
    forall j | k <= j < |sorted| ensures !Beats(sorted[j], x) {
      BeatsIsStrict(sorted[j], x, sorted[k]);
      BeatsIsStrict(x, sorted[k], x);
    }
    var r := sorted[..k] + [x] + sorted[k..];
    forall i, j | 0 <= i < j < |r| ensures !Beats(r[j], r[i]) {
      assert r[i] == if i < k then sorted[i] else if i == k then x else sorted[i - 1];
      assert r[j] == if j < k then sorted[j] else if j == k then x else sorted[j - 1];
    }
  }

  /** `sort_by` with the descending comparator. */
  method SortDescending(items: seq<Candidate>) returns (sorted: seq<Candidate>)
    ensures Descending(sorted) && multiset(sorted) == multiset(items)
  {
    sorted := [];
    for i := 0 to |items|
      invariant Descending(sorted) && multiset(sorted) == multiset(items[..i])
    {
      assert items[..i + 1] == items[..i] + [items[i]];
      sorted := Insert(sorted, items[i]);
    }
    assert items[..|items|] == items;
  }

  /** The first of the sorted vector: a candidate that no other beats. */
  method First(items: seq<Candidate>) returns (best: Option<Candidate>)
    ensures best.None? <==> items == []
    ensures best.Some? ==> best.value in items && forall c :: c in items ==> !Beats(c, best.value)
  {
    var sorted := SortDescending(items);
    forall c ensures c in items <==> c in sorted {
      assert c in multiset(items) <==> c in items;
      assert c in multiset(sorted) <==> c in sorted;
    }
    assert items != [] ==> items[0] in sorted;
    if sorted == [] {
      return None;
    }
    best := Some(sorted[0]);
    assert sorted[0] in sorted;
    forall c | c in items ensures !Beats(c, sorted[0]) {
      var j :| 0 <= j < |sorted| && sorted[j] == c;
      BeatsIsStrict(c, c, c);
    }
  }

  // ---------------------------------------------------------------- maintenance_annotation

  datatype Bucket = InActive | InExpired | Skipped

  /** The body of the selection loop for one valid declaration. */
  method Classify(clock: Clock, q: Query, r: Recorded) returns (b: Bucket)
    requires Valid(clock, r.d)
    ensures b.InActive? <==> Active(clock, q, r)
    ensures b.InExpired? <==> Expired(clock, q, r)
  {
    if r.at > q.now || r.d.component != q.component || r.d.kind != q.kind {
      return Skipped;
    }
    if r.d.subject.Some? {
      var matched := WildcardMatches(r.d.subject.value, q.subject);
      if !matched {
        return Skipped;
      }
    }
    var start, end := clock(r.d.startAt).value, clock(r.d.endAt).value;
    if start <= q.now && q.now < end {
      return InActive;
    } else if end <= q.now {
      return InExpired;
    }
    return Skipped;
  }

  /** The two vectors hold exactly the active and the expired declarations among the first n rows. */
  ghost predicate Buckets(clock: Clock, q: Query, rows: seq<Recorded>, n: nat, active: seq<Candidate>,
      expired: seq<Candidate>)
    requires n <= |rows|
  {
    && (forall c :: c in active ==> c.rank == 0 && c.r in rows[..n] && Active(clock, q, c.r))
    && (forall c :: c in expired ==> c.rank == EndOf(clock, c.r) && c.r in rows[..n] && Expired(clock, q, c.r))
    && (forall j :: 0 <= j < n && Active(clock, q, rows[j]) ==> Candidate(0, rows[j]) in active)
    && (forall j :: 0 <= j < n && Expired(clock, q, rows[j]) ==> Candidate(EndOf(clock, rows[j]), rows[j]) in expired)
  }

  lemma BucketsStep(clock: Clock, q: Query, rows: seq<Recorded>, n: nat, active: seq<Candidate>,
      expired: seq<Candidate>, b: Bucket)
    requires n < |rows| && Buckets(clock, q, rows, n, active, expired)
    requires b.InActive? <==> Active(clock, q, rows[n])
    requires b.InExpired? <==> Expired(clock, q, rows[n])
    ensures Buckets(clock, q, rows, n + 1,
                    if b.InActive? then active + [Candidate(0, rows[n])] else active,
                    if b.InExpired? then expired + [Candidate(EndOf(clock, rows[n]), rows[n])] else expired)
  {
    hide Active, Expired, EndOf;
    assert rows[..n + 1] == rows[..n] + [rows[n]];
  }

  /** The answer, or `None` when some declaration is not valid recorded material. */
  method Annotate(clock: Clock, rows: seq<Recorded>, q: Query) returns (r: Option<Answer>)
    ensures r.Some? <==> forall i :: 0 <= i < |rows| ==> Valid(clock, rows[i].d)
    ensures r.Some? ==> Annotates(clock, q, Elements(rows), r.value)
  {
    hide Active, Expired, EndOf, Annotates, Valid;
    var active, expired: seq<Candidate> := [], [];
    for i := 0 to |rows|
      invariant forall j :: 0 <= j < i ==> Valid(clock, rows[j].d)
      invariant Buckets(clock, q, rows, i, active, expired)
    {
      var valid := Validate(clock, rows[i].d);
      if !valid {
        return None;
      }
      var b := Classify(clock, q, rows[i]);
      BucketsStep(clock, q, rows, i, active, expired, b);
      if b.InActive? {
        active := active + [Candidate(0, rows[i])];
      } else if b.InExpired? {
        expired := expired + [Candidate(EndOf(clock, rows[i]), rows[i])];
      }
    }
    var best := First(active);
    if best.Some? {
      BestActive(clock, q, rows, active, expired, best.value);
      return Some(Some((best.value.r.d, Covered)));
    }
    best := First(expired);
    if best.Some? {
      BestExpired(clock, q, rows, expired, best.value);
      return Some(Some((best.value.r.d, Overrun)));
    }
    NoCandidate(clock, q, rows);
    return Some(None);
  }

  lemma BestActive(clock: Clock, q: Query, rows: seq<Recorded>, active: seq<Candidate>, expired: seq<Candidate>,
      best: Candidate)
    requires Buckets(clock, q, rows, |rows|, active, expired)
    requires best in active && forall c :: c in active ==> !Beats(c, best)
    ensures Annotates(clock, q, Elements(rows), Some((best.r.d, Covered)))
  {
    hide Active, Expired, EndOf;
    assert rows[..|rows|] == rows;
    var all := Elements(rows);
    forall o | o in all && Active(clock, q, o) ensures NotLater(o, best.r) {
      var j :| 0 <= j < |rows| && rows[j] == o;
      LaterIsNotNotLater(o, best.r);
      assert !Beats(Candidate(0, o), best);
    }
    assert best.r in all && Active(clock, q, best.r);
  }

  lemma BestExpired(clock: Clock, q: Query, rows: seq<Recorded>, expired: seq<Candidate>, best: Candidate)
    requires Buckets(clock, q, rows, |rows|, [], expired)
    requires best in expired && forall c :: c in expired ==> !Beats(c, best)
    ensures Annotates(clock, q, Elements(rows), Some((best.r.d, Overrun)))
  {
    hide Active, Expired, EndOf;
    assert rows[..|rows|] == rows;
    var all := Elements(rows);
    forall o | o in all ensures !Active(clock, q, o) {
      var j :| 0 <= j < |rows| && rows[j] == o;
    }
    forall o | o in all && Expired(clock, q, o)
      ensures EndOf(clock, o) <= EndOf(clock, best.r)
              && (EndOf(clock, o) == EndOf(clock, best.r) ==> NotLater(o, best.r))
    {
      var j :| 0 <= j < |rows| && rows[j] == o;
      LaterIsNotNotLater(o, best.r);
      assert !Beats(Candidate(EndOf(clock, o), o), best);
    }
    assert best.r in all && Expired(clock, q, best.r);
  }

  lemma NoCandidate(clock: Clock, q: Query, rows: seq<Recorded>)
    requires Buckets(clock, q, rows, |rows|, [], [])
    ensures Annotates(clock, q, Elements(rows), None)
  {
    hide Active, Expired, EndOf;
    var all := Elements(rows);
    forall o | o in all ensures !Active(clock, q, o) && !Expired(clock, q, o) {
      var j :| 0 <= j < |rows| && rows[j] == o;
    }
  }

  // ---------------------------------------------------------------- what the answer depends on

  ghost predicate DistinctIds(all: set<Recorded>) {
    forall a, b :: a in all && b in all && a.d.id == b.d.id ==> a == b
  }

  /** Maintenance ids are a primary key; with distinct ids there is one answer. */
  lemma AnswerIsUnique(clock: Clock, q: Query, all: set<Recorded>, x: Answer, y: Answer)
    requires DistinctIds(all) && Annotates(clock, q, all, x) && Annotates(clock, q, all, y)
    ensures x == y
  {
    hide Active, Expired, Precedes;
    if exists r :: r in all && Active(clock, q, r) {
      var a :| a in all && Active(clock, q, a) && x == Some((a.d, Covered))
               && forall o :: o in all && Active(clock, q, o) ==> NotLater(o, a);
      var b :| b in all && Active(clock, q, b) && y == Some((b.d, Covered))
               && forall o :: o in all && Active(clock, q, o) ==> NotLater(o, b);
      OneOfTwo(a, b);
    } else if exists r :: r in all && Expired(clock, q, r) {
      var a :| a in all && Expired(clock, q, a) && x == Some((a.d, Overrun))
               && forall o :: o in all && Expired(clock, q, o) ==>
                    EndOf(clock, o) <= EndOf(clock, a) && (EndOf(clock, o) == EndOf(clock, a) ==> NotLater(o, a));
      var b :| b in all && Expired(clock, q, b) && y == Some((b.d, Overrun))
               && forall o :: o in all && Expired(clock, q, o) ==>
                    EndOf(clock, o) <= EndOf(clock, b) && (EndOf(clock, o) == EndOf(clock, b) ==> NotLater(o, b));
      OneOfTwo(a, b);
    }
  }

  lemma OneOfTwo(a: Recorded, b: Recorded)
    ensures NotLater(a, b) && NotLater(b, a) ==> a.d.id == b.d.id
  {
    LessTotal(a.d.id, b.d.id);
    LessIffPrecedes(a.d.id, b.d.id);
    LessIffPrecedes(b.d.id, a.d.id);
  }

  /** Reordering the declarations does not change the answer. */
  lemma OrderDoesNotMatter(clock: Clock, q: Query, rows: seq<Recorded>, rows': seq<Recorded>, x: Answer, y: Answer)
    requires multiset(rows) == multiset(rows') && DistinctIds(Elements(rows))
    requires Annotates(clock, q, Elements(rows), x) && Annotates(clock, q, Elements(rows'), y)
    ensures x == y
  {
    hide Annotates;
    forall r ensures r in Elements(rows) <==> r in Elements(rows') {
      assert r in multiset(rows) <==> r in rows;
      assert r in multiset(rows') <==> r in rows';
    }
    assert Elements(rows) == Elements(rows');
    AnswerIsUnique(clock, q, Elements(rows), x, y);
  }

  ghost predicate Begun(clock: Clock, q: Query, r: Recorded) { InScope(q, r) && StartOf(clock, r) <= q.now }

  /** There is an annotation exactly when a declaration in scope has been recorded and has begun. */
  lemma AnnotatedIffBegun(clock: Clock, q: Query, all: set<Recorded>, answer: Answer)
    requires forall r :: r in all ==> Valid(clock, r.d)
    requires Annotates(clock, q, all, answer)
    ensures answer.Some? <==> exists r :: r in all && Begun(clock, q, r)
  {
    forall r | r in all ensures Begun(clock, q, r) <==> Active(clock, q, r) || Expired(clock, q, r) {
      assert Valid(clock, r.d);
    }
    hide Active, Expired, Begun;
    if exists r :: r in all && Active(clock, q, r) {
      var r :| r in all && Active(clock, q, r);
      assert Begun(clock, q, r);
    } else if exists r :: r in all && Expired(clock, q, r) {
      var r :| r in all && Expired(clock, q, r);
      assert Begun(clock, q, r);
    }
  }

  /** With a fixed set of declarations an annotation never reverts to none as time passes. */
  lemma AnnotationPersists(clock: Clock, q: Query, later: int, all: set<Recorded>, before: Answer, after: Answer)
    requires forall r :: r in all ==> Valid(clock, r.d)
    requires q.now <= later
    requires Annotates(clock, q, all, before) && Annotates(clock, q.(now := later), all, after)
    ensures before.Some? ==> after.Some?
  {
    hide Annotates, Valid;
    AnnotatedIffBegun(clock, q, all, before);
    AnnotatedIffBegun(clock, q.(now := later), all, after);
    if before.Some? {
      var r :| r in all && Begun(clock, q, r);
      assert Begun(clock, q.(now := later), r);
    }
  }
}
