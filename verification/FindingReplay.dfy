/**
 The replay of finding transitions over the evaluation history (`engine.rs`), in its three forms: page by page with
 the findings looked up at the page's cursor, one walk that carries them and looks up a lineage at the retention
 floor when it first meets it, and a cursor that a long-lived engine keeps across commits and expiries.

 Evaluations are numbered from 1: `rows[i]` is evaluation i + 1. Expiry raises the floor; the evaluations at or below
 it keep their place and their finding events.
 */
module FindingReplay {
  import opened Prelude

  datatype Lineage = Lineage(detector: string, rest: string)

  datatype State = Present | CannotEvaluate | ExplicitlyAbsent

  datatype Event = Event(findingId: string, revision: int, kind: string, condition: string)

  datatype Row = Row(lineage: Lineage, revision: nat, state: State, event: Option<Event>)

  datatype Finding = Finding(findingId: string, revision: int, condition: string)

  type Findings = map<Lineage, Finding>

  function Lookup(findings: Findings, l: Lineage): Option<Finding> {
    if l in findings then Some(findings[l]) else None
  }

  function HeadOf(e: Event): Finding { Finding(e.findingId, e.revision, e.condition) }

  /** The latest finding event of a lineage among the first k evaluations. */
  function Prior(rows: seq<Row>, k: nat, l: Lineage): Option<Finding>
    requires k <= |rows|
  {
    if k == 0 then None
    else if rows[k - 1].lineage == l && rows[k - 1].event.Some? then Some(HeadOf(rows[k - 1].event.value))
    else Prior(rows, k - 1, l)
  }

  // ---------------------------------------------------------------- the law of one evaluation

  predicate RequiresEvent(prior: Option<Finding>, state: State) {
    match state
    case Present => true
    case CannotEvaluate => prior.Some?
    case ExplicitlyAbsent => prior.Some? && prior.value.condition != "explicitly_absent"
  }

  predicate Continues(prior: Option<Finding>, e: Event) {
    match prior
    case None => e.revision == 1 && e.kind == "opened"
    case Some(p) => e.findingId == p.findingId && e.revision == p.revision + 1
  }

  predicate Follows(prior: Option<Finding>, row: Row) {
    && RequiresEvent(prior, row.state) == row.event.Some?
    && (row.event.Some? ==> Continues(prior, row.event.value))
  }

  /** The evaluation makes the transition that all evaluations before it call for. */
  predicate Lawful(rows: seq<Row>, i: nat)
    requires i < |rows|
  {
    Follows(Prior(rows, i, rows[i].lineage), rows[i])
  }

  ghost predicate LawfulOn(rows: seq<Row>, lo: nat, hi: nat)
    requires hi <= |rows|
  {
    forall i: nat :: lo <= i < hi ==> Lawful(rows, i)
  }

  predicate Positive(prior: Option<Finding>) { prior.Some? ==> prior.value.revision > 0 }

  /** Lawful, and continuing from a positive revision. */
  predicate Sane(rows: seq<Row>, i: nat)
    requires i < |rows|
  {
    Lawful(rows, i) && Positive(Prior(rows, i, rows[i].lineage))
  }

  ghost predicate SaneOn(rows: seq<Row>, lo: nat, hi: nat)
    requires hi <= |rows|
  {
    forall i: nat :: lo <= i < hi ==> Sane(rows, i)
  }

  /** `validate_evaluation_finding_replay_step`. */
  method Step(row: Row, findings: Findings) returns (ok: bool, next: Findings)
    ensures ok <==> Follows(Lookup(findings, row.lineage), row)
    ensures next == if ok && row.event.Some? then findings[row.lineage := HeadOf(row.event.value)] else findings
  {
    next := findings;
    var prior := Lookup(findings, row.lineage);
    if RequiresEvent(prior, row.state) != row.event.Some? {
      return false, next;
    }
    if row.event.None? {
      return true, next;
    }
    var e := row.event.value;
    match prior {
      case None =>
        if e.revision != 1 || e.kind != "opened" { return false, next; }
      case Some(p) =>
        if e.findingId != p.findingId || e.revision != p.revision + 1 { return false, next; }
    }
    next := next[row.lineage := HeadOf(e)];
    ok := true;
  }

  // ---------------------------------------------------------------- prior events

  ghost predicate Met(rows: seq<Row>, lo: nat, hi: nat, l: Lineage)
    requires hi <= |rows|
  {
    exists i: nat :: lo <= i < hi && rows[i].lineage == l
  }

  lemma {:induction false} PriorUnmet(rows: seq<Row>, lo: nat, hi: nat, l: Lineage)
    requires lo <= hi <= |rows| && !Met(rows, lo, hi, l)
    ensures Prior(rows, hi, l) == Prior(rows, lo, l)
    decreases hi
  {
    if lo < hi {
      assert rows[hi - 1].lineage != l;
      PriorUnmet(rows, lo, hi - 1, l);
    }
  }

  lemma {:induction false} PriorStays(rows: seq<Row>, lo: nat, hi: nat, l: Lineage)
    requires lo <= hi <= |rows| && Prior(rows, lo, l).Some?
    ensures Prior(rows, hi, l).Some?
    decreases hi
  {
    if lo < hi { PriorStays(rows, lo, hi - 1, l); }
  }

  lemma {:induction false} PriorOfPrefix(rows: seq<Row>, more: seq<Row>, k: nat, l: Lineage)
    requires k <= |rows|
    ensures Prior(rows + more, k, l) == Prior(rows, k, l)
    decreases k
  {
    if k > 0 { PriorOfPrefix(rows, more, k - 1, l); }
  }

  // ---------------------------------------------------------------- what a lawful history is

  predicate HasEvent(rows: seq<Row>, j: nat, l: Lineage)
    requires j < |rows|
  {
    rows[j].lineage == l && rows[j].event.Some?
  }

  /** How many finding events a lineage has among the first k evaluations. */
  function EventCount(rows: seq<Row>, k: nat, l: Lineage): nat
    requires k <= |rows|
  {
    if k == 0 then 0 else EventCount(rows, k - 1, l) + if HasEvent(rows, k - 1, l) then 1 else 0
  }

  /** The j-th evaluation carries the latest event of the lineage before the i-th. */
  ghost predicate IsLatest(rows: seq<Row>, j: nat, i: nat, l: Lineage)
    requires i <= |rows|
  {
    j < i && HasEvent(rows, j, l) && forall m: nat :: j < m < i ==> !HasEvent(rows, m, l)
  }

  ghost predicate WasPresent(rows: seq<Row>, i: nat, l: Lineage)
    requires i <= |rows|
  {
    exists j: nat :: j < i && rows[j].lineage == l && rows[j].state.Present?
  }

  /** Which evaluations carry a finding event. */
  ghost predicate EventWhereDue(rows: seq<Row>, i: nat)
    requires i < |rows|
  {
    var row := rows[i];
    match row.state
    case Present => row.event.Some?
    case CannotEvaluate => row.event.Some? <==> WasPresent(rows, i, row.lineage)
    case ExplicitlyAbsent =>
      row.event.Some? <==>
        exists j: nat :: IsLatest(rows, j, i, row.lineage) && rows[j].event.value.condition != "explicitly_absent"
  }

  /** The events of a lineage are numbered 1, 2, 3 and so on; the first opens it, and all name one finding. */
  ghost predicate EventInLine(rows: seq<Row>, i: nat)
    requires i < |rows|
  {
    rows[i].event.Some? ==>
      var e := rows[i].event.value;
      && e.revision == EventCount(rows, i, rows[i].lineage) + 1
      && (e.revision == 1 ==> e.kind == "opened")
      && forall j: nat :: j < i && HasEvent(rows, j, rows[i].lineage) ==> rows[j].event.value.findingId == e.findingId
  }

  /** The latest event, if any, is what the replay carries. */
  lemma {:induction false} PriorIsLatest(rows: seq<Row>, k: nat, l: Lineage)
    requires k <= |rows|
    ensures Prior(rows, k, l).None? <==> forall j: nat :: j < k ==> !HasEvent(rows, j, l)
    ensures forall j: nat :: IsLatest(rows, j, k, l) ==> Prior(rows, k, l) == Some(HeadOf(rows[j].event.value))
    ensures Prior(rows, k, l).Some? ==> exists j: nat :: IsLatest(rows, j, k, l)
    decreases k
  {
    if k > 0 {
      PriorIsLatest(rows, k - 1, l);
      if HasEvent(rows, k - 1, l) {
        assert IsLatest(rows, k - 1, k, l);
      } else if Prior(rows, k - 1, l).Some? {
        var j: nat :| IsLatest(rows, j, k - 1, l);
        assert IsLatest(rows, j, k, l);
      }
      assert forall j: nat :: IsLatest(rows, j, k, l) && j < k - 1 ==> IsLatest(rows, j, k - 1, l);
    }
  }

  /** In a lawful history a finding stands exactly where the condition has been present, numbered by its events. */
  lemma {:induction false} FindingStands(rows: seq<Row>, k: nat, l: Lineage)
    requires k <= |rows| && LawfulOn(rows, 0, k)
    ensures Prior(rows, k, l).Some? <==> WasPresent(rows, k, l)
    ensures Prior(rows, k, l).Some? <==> EventCount(rows, k, l) > 0
    ensures Prior(rows, k, l).Some? ==>
              && Prior(rows, k, l).value.revision == EventCount(rows, k, l)
              && forall j: nat :: j < k && HasEvent(rows, j, l) ==>
                   rows[j].event.value.findingId == Prior(rows, k, l).value.findingId
    decreases k
  {
    if k > 0 {
      FindingStands(rows, k - 1, l);
      PriorIsLatest(rows, k - 1, l);
      assert Lawful(rows, k - 1);
      assert WasPresent(rows, k, l) <==>
        WasPresent(rows, k - 1, l) || (rows[k - 1].lineage == l && rows[k - 1].state.Present?);
    }
  }

  lemma LawfulIffInOrder(rows: seq<Row>, i: nat)
    requires i < |rows| && LawfulOn(rows, 0, i)
    ensures Lawful(rows, i) <==> EventWhereDue(rows, i) && EventInLine(rows, i)
  {
    var l := rows[i].lineage;
    PriorIsLatest(rows, i, l);
    FindingStands(rows, i, l);
    if Prior(rows, i, l).Some? {
      var j: nat :| IsLatest(rows, j, i, l);
      assert HasEvent(rows, j, l);
      assert forall m: nat :: IsLatest(rows, m, i, l) ==> m == j;
    }
  }

  /** The whole history is accepted exactly when every event is where it is due and in line. */
  lemma {:induction false} LawfulHistory(rows: seq<Row>, n: nat)
    requires n <= |rows|
    ensures LawfulOn(rows, 0, n) <==> forall i: nat :: i < n ==> EventWhereDue(rows, i) && EventInLine(rows, i)
    decreases n
  {
    hide EventWhereDue, EventInLine, Lawful;
    if n > 0 {
      LawfulHistory(rows, n - 1);
      if LawfulOn(rows, 0, n - 1) { LawfulIffInOrder(rows, n - 1); }
      assert LawfulOn(rows, 0, n) <==> LawfulOn(rows, 0, n - 1) && Lawful(rows, n - 1);
    }
  }

  // ---------------------------------------------------------------- page by page

  /** A lineage of sane evaluations was positive where they begin. */
  lemma {:induction false} SaneSeeds(rows: seq<Row>, lo: nat, i: nat)
    requires lo <= i < |rows| && SaneOn(rows, lo, i + 1)
    ensures Positive(Prior(rows, lo, rows[i].lineage))
    decreases i
  {
    var l := rows[i].lineage;
    if Met(rows, lo, i, l) {
      var j: nat :| lo <= j < i && rows[j].lineage == l;
      SaneSeeds(rows, lo, j);
    } else {
      PriorUnmet(rows, lo, i, l);
      assert Sane(rows, i);
    }
  }

  /** The finding part of `evaluation_history_bounded` for the evaluations (cursor, hi]. */
  method ReplayPage(rows: seq<Row>, cursor: nat, hi: nat) returns (ok: bool)
    requires cursor <= hi <= |rows|
    ensures ok <==> SaneOn(rows, cursor, hi)
  {
    hide Follows;
    var replay: Findings := map[];
    for i := cursor to hi
      invariant forall l :: l in replay ==> Prior(rows, cursor, l) == Some(replay[l]) && replay[l].revision > 0
      invariant forall j: nat :: cursor <= j < i ==>
          var prior := Prior(rows, cursor, rows[j].lineage);
          Lookup(replay, rows[j].lineage) == prior && Positive(prior)
    {
      var l := rows[i].lineage;
      if l !in replay {
        var prior := Prior(rows, cursor, l);
        if prior.Some? {
          if prior.value.revision <= 0 {
            if SaneOn(rows, cursor, hi) { SaneSeeds(rows, cursor, i); }
            return false;
          }
          replay := replay[l := prior.value];
        }
      }
    }
    ok := ReplaySeeded(rows, cursor, hi, replay);
  }

  method ReplaySeeded(rows: seq<Row>, cursor: nat, hi: nat, seeds: Findings) returns (ok: bool)
    requires cursor <= hi <= |rows|
    requires forall j: nat :: cursor <= j < hi ==>
        var prior := Prior(rows, cursor, rows[j].lineage);
        Lookup(seeds, rows[j].lineage) == prior && Positive(prior)
    ensures ok <==> SaneOn(rows, cursor, hi)
  {
    hide RequiresEvent;
    var replay := seeds;
    for i := cursor to hi
      invariant forall j: nat :: cursor <= j < hi ==>
          var prior := Prior(rows, i, rows[j].lineage);
          Lookup(replay, rows[j].lineage) == prior && Positive(prior)
      invariant SaneOn(rows, cursor, i)
    {
      var accepted, next := Step(rows[i], replay);
      assert accepted <==> Sane(rows, i);
      if !accepted {
        return false;
      }
      replay := next;
    }
    ok := true;
  }

  /** All pages above the floor, of any size: their verdict is that of each evaluation on its own. */
  method ReplayPages(rows: seq<Row>, floor: nat, limit: nat) returns (ok: bool)
    requires floor <= |rows| && limit >= 1
    ensures ok <==> SaneOn(rows, floor, |rows|)
  {
    var cursor := floor;
    while cursor < |rows|
      invariant floor <= cursor <= |rows| && SaneOn(rows, floor, cursor)
    {
      var hi := Min(cursor + limit, |rows|);
      var page := ReplayPage(rows, cursor, hi);
      if !page {
        return false;
      }
      cursor := hi;
    }
    ok := true;
  }

  lemma {:induction false} PositiveStays(rows: seq<Row>, lo: nat, hi: nat, l: Lineage)
    requires lo <= hi <= |rows| && LawfulOn(rows, lo, hi) && Positive(Prior(rows, lo, l))
    ensures Positive(Prior(rows, hi, l))
    decreases hi
  {
    if lo < hi {
      PositiveStays(rows, lo, hi - 1, l);
      assert Lawful(rows, hi - 1);
    }
  }

  /**
   The pages ask for no more than the laws, except that a lineage resumed above the floor must not resume from a
   revision that is not positive. Before anything has expired they ask for the laws alone.
   */
  lemma SaneIffLawful(rows: seq<Row>, floor: nat)
    requires floor <= |rows|
    ensures SaneOn(rows, floor, |rows|) <==>
            && LawfulOn(rows, floor, |rows|)
            && forall i: nat :: floor <= i < |rows| ==> Positive(Prior(rows, floor, rows[i].lineage))
    ensures SaneOn(rows, 0, |rows|) <==> LawfulOn(rows, 0, |rows|)
  {
    hide Follows, Positive;
    SaneFrom(rows, floor);
    SaneFrom(rows, 0);
    assert forall i: nat :: i < |rows| ==> Positive(Prior(rows, 0, rows[i].lineage)) by { NothingPrior(rows); }
  }

  lemma NothingPrior(rows: seq<Row>)
    ensures forall l :: Prior(rows, 0, l) == None && Positive(None)
  {}

  lemma SaneFrom(rows: seq<Row>, lo: nat)
    requires lo <= |rows|
    ensures SaneOn(rows, lo, |rows|) <==>
            && LawfulOn(rows, lo, |rows|)
            && forall i: nat :: lo <= i < |rows| ==> Positive(Prior(rows, lo, rows[i].lineage))
  {
    hide Follows, Positive;
    if SaneOn(rows, lo, |rows|) {
      assert forall i: nat :: lo <= i < |rows| ==> Sane(rows, i) && Lawful(rows, i);
      forall i: nat | lo <= i < |rows| ensures Positive(Prior(rows, lo, rows[i].lineage)) { SaneSeeds(rows, lo, i); }
    } else if LawfulOn(rows, lo, |rows|)
        && forall i: nat :: lo <= i < |rows| ==> Positive(Prior(rows, lo, rows[i].lineage)) {
      forall i: nat | lo <= i < |rows| ensures Sane(rows, i) {
        assert Lawful(rows, i);
        PositiveStays(rows, lo, i, rows[i].lineage);
      }
    }
  }

  // ---------------------------------------------------------------- one walk that carries the findings

  /** Where the newest evaluation of a lineage is. */
  datatype Position = Position(revision: nat, sequence: nat)

  datatype Heads = Heads(findings: Findings, newest: map<Lineage, Position>)

  const NO_HEADS: Heads := Heads(map[], map[])

  /** The store numbers the evaluations of a detector upwards, so later ones of a lineage have higher revisions. */
  ghost predicate Growing(rows: seq<Row>) {
    forall i: nat, j: nat :: i < j < |rows| && rows[i].lineage == rows[j].lineage ==>
      rows[i].revision < rows[j].revision
  }

  /** The carried findings are those of the lineages met above the floor, as they stand at `through`. */
  ghost predicate FindingsAt(rows: seq<Row>, floor: nat, through: nat, findings: Findings)
    requires through <= |rows|
  {
    forall l :: Lookup(findings, l) == if Met(rows, floor, through, l) then Prior(rows, through, l) else None
  }

  ghost predicate IsRowOf(rows: seq<Row>, through: nat, l: Lineage, p: Position)
    requires through <= |rows|
  {
    1 <= p.sequence <= through && rows[p.sequence - 1].lineage == l && rows[p.sequence - 1].revision == p.revision
  }

  /** Each position is one of its lineage, and the last one for a lineage met above the floor. */
  ghost predicate NewestAt(rows: seq<Row>, floor: nat, through: nat, newest: map<Lineage, Position>)
    requires through <= |rows|
  {
    && (forall l :: l in newest ==> IsRowOf(rows, through, l, newest[l]))
    && (forall i: nat :: floor <= i < through ==>
          rows[i].lineage in newest && i + 1 <= newest[rows[i].lineage].sequence)
  }

  ghost predicate HeadsAt(rows: seq<Row>, floor: nat, through: nat, heads: Heads)
    requires through <= |rows|
  {
    FindingsAt(rows, floor, through, heads.findings) && NewestAt(rows, floor, through, heads.newest)
  }

  /** A lineage stands where it is carried, or else where it stood at the floor. */
  lemma Standing(rows: seq<Row>, floor: nat, through: nat, findings: Findings, l: Lineage)
    requires floor <= through <= |rows| && FindingsAt(rows, floor, through, findings)
    ensures Prior(rows, through, l) == if l in findings then Some(findings[l]) else Prior(rows, floor, l)
    ensures Prior(rows, 0, l) == None
  {
    assert Lookup(findings, l) == if Met(rows, floor, through, l) then Prior(rows, through, l) else None;
    if !Met(rows, floor, through, l) {
      PriorUnmet(rows, floor, through, l);
    } else if Prior(rows, floor, l).Some? {
      PriorStays(rows, floor, through, l);
    }
  }

  lemma MetNext(rows: seq<Row>, floor: nat, i: nat, l: Lineage)
    requires floor <= i < |rows|
    ensures Met(rows, floor, i + 1, l) <==> Met(rows, floor, i, l) || rows[i].lineage == l
  {}

  /** What was looked up and is not carried had no event at the floor. */
  ghost predicate SeededAt(rows: seq<Row>, floor: nat, findings: Findings, seeded: set<Lineage>)
    requires floor <= |rows|
  {
    forall l :: l in seeded && l !in findings ==> Prior(rows, floor, l).None?
  }

  /** `seed_lineage_at_floor`. */
  method SeedAtFloor(rows: seq<Row>, floor: nat, l: Lineage, findings: Findings, seeded: set<Lineage>)
      returns (findings': Findings, seeded': set<Lineage>)
    requires floor <= |rows| && SeededAt(rows, floor, findings, seeded)
    ensures SeededAt(rows, floor, findings', seeded')
    ensures Lookup(findings', l) == if l in findings then Some(findings[l]) else Prior(rows, floor, l)
    ensures forall k :: k != l ==> Lookup(findings', k) == Lookup(findings, k)
  {
    findings', seeded' := findings, seeded;
    if l in findings || l in seeded {
      return;
    }
    seeded' := seeded + {l};
    var prior := Prior(rows, floor, l);
    if prior.Some? {
      findings' := findings[l := prior.value];
    }
  }

  /** `advance_evaluation`. */
  method Newer(newest: map<Lineage, Position>, l: Lineage, candidate: Position) returns (r: map<Lineage, Position>)
    ensures l in newest && newest[l].revision >= candidate.revision ==> r == newest
    ensures !(l in newest && newest[l].revision >= candidate.revision) ==> r == newest[l := candidate]
  {
    if l !in newest {
      return newest[l := candidate];
    }
    if candidate.revision > newest[l].revision {
      return newest[l := candidate];
    }
    return newest;
  }

  lemma NewestNext(rows: seq<Row>, floor: nat, i: nat, newest: map<Lineage, Position>, r: map<Lineage, Position>)
    requires i < |rows| && NewestAt(rows, floor, i, newest)
    requires r == newest[rows[i].lineage := Position(rows[i].revision, i + 1)]
    ensures NewestAt(rows, floor, i + 1, r)
  {
    forall j: nat | floor <= j < i + 1 ensures rows[j].lineage in r && j + 1 <= r[rows[j].lineage].sequence {
      if j < i { assert rows[j].lineage in newest; }
    }
  }

  lemma FindingsNext(rows: seq<Row>, floor: nat, i: nat, carried: Findings, known: Findings, next: Findings)
    requires floor <= i < |rows| && FindingsAt(rows, floor, i, carried)
    requires forall k :: Lookup(known, k) == if k == rows[i].lineage then Prior(rows, i, k) else Lookup(carried, k)
    requires next == if rows[i].event.Some? then known[rows[i].lineage := HeadOf(rows[i].event.value)] else known
    ensures FindingsAt(rows, floor, i + 1, next)
  {
    hide Met;
    forall k
      ensures Lookup(next, k) == if Met(rows, floor, i + 1, k) then Prior(rows, i + 1, k) else None
    {
      MetNext(rows, floor, i, k);
      assert Lookup(known, k) == if k == rows[i].lineage then Prior(rows, i, k) else Lookup(carried, k);
    }
  }

  /** One evaluation of the walk: look up its lineage, check the transition, note the position. */
  method VisitRow(rows: seq<Row>, floor: nat, i: nat, heads: Heads, seeded: set<Lineage>)
      returns (ok: bool, heads': Heads, seeded': set<Lineage>)
    requires floor <= i < |rows| && Growing(rows) && HeadsAt(rows, floor, i, heads)
    requires SeededAt(rows, floor, heads.findings, seeded)
    ensures ok <==> Lawful(rows, i)
    ensures ok ==> HeadsAt(rows, floor, i + 1, heads') && SeededAt(rows, floor, heads'.findings, seeded')
  {
    hide Follows, Growing, NewestAt, FindingsAt, Prior;
    var row, l := rows[i], rows[i].lineage;
    var findings := heads.findings;
    seeded' := seeded;
    Standing(rows, floor, i, findings, l);
    if floor > 0 {
      findings, seeded' := SeedAtFloor(rows, floor, l, findings, seeded);
    }
    assert Lookup(findings, l) == Prior(rows, i, l);
    ghost var known := findings;
    ok, findings := Step(row, findings);
    var newest := Newer(heads.newest, l, Position(row.revision, i + 1));
    heads' := Heads(findings, newest);
    if ok {
      NewestReplaced(rows, floor, i, heads.newest);
      NewestNext(rows, floor, i, heads.newest, newest);
      FindingsNext(rows, floor, i, heads.findings, known, findings);
    }
  }

  lemma NewestReplaced(rows: seq<Row>, floor: nat, i: nat, newest: map<Lineage, Position>)
    requires i < |rows| && Growing(rows) && NewestAt(rows, floor, i, newest)
    ensures rows[i].lineage in newest ==> newest[rows[i].lineage].revision < rows[i].revision
  {}

  /** Contiguous history starts above the floor. */
  function Start(after: Option<nat>, floor: nat): nat { Max(if after.Some? then after.value else 0, floor) }

  /**
   `visit_evaluation_history_beyond`: pages of `pageSize` evaluations behind `after`. From heads that are right at
   its start it accepts exactly the lawful evaluations, for every page size, and ends with heads that are right at
   `through`.
   */
  method Visit(rows: seq<Row>, floor: nat, after: Option<nat>, replay: Heads, through: nat, pageSize: nat)
      returns (ok: bool, heads: Heads)
    requires Start(after, floor) <= through <= |rows| && pageSize >= 1
    requires Growing(rows) && HeadsAt(rows, floor, Start(after, floor), replay)
    ensures ok <==> LawfulOn(rows, Start(after, floor), through)
    ensures ok ==> HeadsAt(rows, floor, through, heads)
  {
    hide HeadsAt, Lawful, Growing;
    heads := replay;
    var seeded: set<Lineage> := {};
    var next := if after.Some? then after.value else 0;
    if floor > 0 {
      next := Max(if after.Some? then after.value else floor, floor);
    }
    ghost var start := next;
    while next < through
      invariant start <= next <= through
      invariant HeadsAt(rows, floor, next, heads) && SeededAt(rows, floor, heads.findings, seeded)
      invariant LawfulOn(rows, start, next)
    {
      var end := Min(next + pageSize, through);
      for i := next to end
        invariant HeadsAt(rows, floor, i, heads) && SeededAt(rows, floor, heads.findings, seeded)
        invariant LawfulOn(rows, start, i)
      {
        var row;
        row, heads, seeded := VisitRow(rows, floor, i, heads, seeded);
        if !row {
          return false, heads;
        }
      }
      next := end;
    }
    ok := true;
  }

  // ---------------------------------------------------------------- the cursor of a long-lived engine

  const PAGE: nat := 1000

  datatype Cursor = Cursor(generation: nat, through: nat, heads: Heads)

  /** The evaluations up to the cursor are lawful, and its heads are what a replay of them ends with. */
  ghost predicate CursorAt(rows: seq<Row>, floor: nat, c: Cursor) {
    floor <= c.through <= |rows| && LawfulOn(rows, floor, c.through) && HeadsAt(rows, floor, c.through, c.heads)
  }

  /** `fold_island_heads`: evaluations kept below the floor, where no newer one of their lineage is known. */
  method FoldIslands(rows: seq<Row>, floor: nat, heads: Heads, islands: seq<nat>) returns (r: Heads)
    requires floor <= |rows| && Growing(rows) && HeadsAt(rows, floor, |rows|, heads)
    requires forall s :: s in islands ==> 1 <= s <= floor
    ensures HeadsAt(rows, floor, |rows|, r) && r.findings == heads.findings
  {
    hide FindingsAt, Growing;
    var newest := heads.newest;
    for k := 0 to |islands|
      invariant NewestAt(rows, floor, |rows|, newest)
    {
      var s := islands[k];
      assert s in islands;
      ghost var before := newest;
      newest := Newer(newest, rows[s - 1].lineage, Position(rows[s - 1].revision, s));
      if newest != before { IslandFolds(rows, floor, before, s, newest); }
    }
    r := Heads(heads.findings, newest);
  }

  lemma IslandFolds(rows: seq<Row>, floor: nat, newest: map<Lineage, Position>, s: nat, r: map<Lineage, Position>)
    requires 1 <= s <= floor <= |rows| && Growing(rows) && NewestAt(rows, floor, |rows|, newest)
    requires var l := rows[s - 1].lineage;
             && r == newest[l := Position(rows[s - 1].revision, s)]
             && (l in newest ==> newest[l].revision < rows[s - 1].revision)
    ensures NewestAt(rows, floor, |rows|, r)
  {
    var l := rows[s - 1].lineage;
    assert l in newest ==> IsRowOf(rows, |rows|, l, newest[l]) && newest[l].sequence <= s;
    forall i: nat | floor <= i < |rows| ensures rows[i].lineage in r && i + 1 <= r[rows[i].lineage].sequence {
      assert rows[i].lineage in newest && i + 1 <= newest[rows[i].lineage].sequence;
    }
  }

  lemma NothingMet(rows: seq<Row>, floor: nat)
    requires floor <= |rows|
    ensures HeadsAt(rows, floor, floor, NO_HEADS)
  {}

  /** The heads at a lower floor, without those that have no evaluation above the new one. */
  lemma PrunedHeads(rows: seq<Row>, was: nat, floor: nat, c: Cursor, kept: map<Lineage, Position>, findings: Findings)
    requires was <= floor <= c.through && CursorAt(rows, was, c)
    requires forall l :: l in kept ==> l in c.heads.newest && kept[l] == c.heads.newest[l]
    requires forall l :: l in c.heads.newest && c.heads.newest[l].sequence > floor ==> l in kept
    requires forall l :: Lookup(findings, l) ==
               if l in kept && kept[l].sequence > floor then Lookup(c.heads.findings, l) else None
    ensures HeadsAt(rows, floor, c.through, Heads(findings, kept))
  {
    forall l ensures Lookup(findings, l) == if Met(rows, floor, c.through, l) then Prior(rows, c.through, l) else None {
      if Met(rows, floor, c.through, l) {
        var i: nat :| floor <= i < c.through && rows[i].lineage == l;
        assert Met(rows, was, c.through, l);
      } else if l in kept {
        assert IsRowOf(rows, c.through, l, kept[l]);
        assert kept[l].sequence <= floor;
      }
    }
  }

  /** One more evaluation changes nothing below it. */
  lemma CursorKept(rows: seq<Row>, row: Row, floor: nat, c: Cursor)
    requires CursorAt(rows, floor, c)
    ensures CursorAt(rows + [row], floor, c)
  {
    var more := rows + [row];
    forall k: nat, l | k <= c.through ensures Prior(more, k, l) == Prior(rows, k, l) {
      PriorOfPrefix(rows, [row], k, l);
    }
    forall l ensures Met(more, floor, c.through, l) <==> Met(rows, floor, c.through, l) {
      assert forall i: nat :: i < c.through ==> more[i] == rows[i];
    }
    assert forall i: nat :: i < c.through && Lawful(rows, i) ==> Lawful(more, i);
  }

  function NextRevision(rows: seq<Row>, detector: string): (r: nat)
    ensures forall i: nat :: i < |rows| && rows[i].lineage.detector == detector ==> rows[i].revision < r
    ensures r == 1 || exists i: nat :: i < |rows| && rows[i].lineage.detector == detector && rows[i].revision + 1 == r
  {
    if rows == [] then 1
    else
      var last := rows[|rows| - 1];
      var rest := NextRevision(rows[..|rows| - 1], detector);
      if last.lineage.detector == detector && last.revision >= rest then last.revision + 1 else rest
  }

  class Engine {
    var rows: seq<Row>                        // the evaluation history
    var floor: nat                            // expired through this evaluation
    var generation: nat                       // how often history has expired
    var islands: seq<nat>                     // evaluations kept whole at or below the floor
    var cursor: Option<Cursor>                // how far this engine has replayed
    ghost var seen: nat                       // the floor that the cursor knows

    ghost predicate Valid()
      reads this
    {
      && floor <= |rows| && Growing(rows) && (forall s :: s in islands ==> 1 <= s <= floor)
      && (cursor.Some? ==>
            && CursorAt(rows, seen, cursor.value) && seen <= floor && cursor.value.generation <= generation
            && (cursor.value.generation == generation ==> seen == floor))
    }

    constructor ()
      ensures Valid() && rows == [] && floor == 0 && cursor.None?
    {
      rows, floor, generation, islands, cursor, seen := [], 0, 0, [], None, 0;
    }

    /** Another writer commits an evaluation. */
    method Commit(lineage: Lineage, state: State, event: Option<Event>)
      requires Valid()
      modifies this`rows
      ensures Valid() && exists revision :: rows == old(rows) + [Row(lineage, revision, state, event)]
    {
      hide CursorAt;
      var row := Row(lineage, NextRevision(rows, lineage.detector), state, event);
      if cursor.Some? { CursorKept(rows, row, seen, cursor.value); }
      rows := rows + [row];
    }

    /** History expires through `to`; the store keeps `kept` whole. */
    method Expire(to: nat, kept: seq<nat>)
      requires Valid() && floor <= to <= |rows| && forall s :: s in kept ==> 1 <= s <= to
      modifies this`floor, this`generation, this`islands
      ensures Valid() && floor == to && generation == old(generation) + 1
    {
      floor, generation, islands := to, generation + 1, kept;
    }

    /** `establish_replay_cursor`: the whole history above the floor. */
    method Establish() returns (ok: bool)
      requires Valid()
      modifies this`cursor, this`seen
      ensures Valid()
      ensures ok <==> LawfulOn(rows, floor, |rows|)
      ensures ok ==> cursor.Some? && cursor.value.generation == generation && cursor.value.through == |rows|
      ensures !ok ==> cursor == old(cursor) && seen == old(seen)
    {
      hide HeadsAt, Growing;
      NothingMet(rows, floor);
      var heads;
      ok, heads := Visit(rows, floor, None, NO_HEADS, |rows|, PAGE);
      if ok {
        heads := FoldIslands(rows, floor, heads, islands);
        cursor, seen := Some(Cursor(generation, |rows|, heads)), floor;
      }
    }

    /** `prune_replay_cursor`: follow an expiry without replaying. */
    method Prune()
      requires Valid()
      modifies this`cursor, this`seen
      ensures Valid()
      ensures cursor.Some? <==> old(cursor).Some? && floor <= old(cursor).value.through
      ensures cursor.Some? ==>
                cursor.value.generation == generation && cursor.value.through == old(cursor).value.through
      ensures cursor.Some? ==>
                var was := old(cursor).value.heads.newest;
                forall l :: l in cursor.value.heads.newest <==>
                              l in was && (was[l].sequence > floor || was[l].sequence in islands)
    {
      hide HeadsAt, Growing;
      if cursor.None? {
        return;
      }
      var c := cursor.value;
      if c.through < floor {
        cursor := None;
        return;
      }
      var newest := c.heads.newest;
      var kept := map l | l in newest && (newest[l].sequence > floor || newest[l].sequence in islands) :: newest[l];
      var above := set l | l in kept && kept[l].sequence > floor;
      var findings := map l | l in c.heads.findings && l in above :: c.heads.findings[l];
      PrunedHeads(rows, seen, floor, c, kept, findings);
      cursor, seen := Some(Cursor(generation, c.through, Heads(findings, kept))), floor;
    }

    /** `ensure_replay_cursor`. */
    method Ensure() returns (ok: bool)
      requires Valid()
      modifies this`cursor, this`seen
      ensures Valid()
      ensures ok <==> cursor.Some? && cursor.value.generation == generation
      ensures !ok ==> cursor.None? && !LawfulOn(rows, floor, |rows|)
    {
      if cursor.Some? && cursor.value.generation != generation {
        Prune();
      }
      if cursor.None? {
        ok := Establish();
      } else {
        ok := true;
      }
    }

    /**
     `advance_replay_cursor`: only what was appended behind the cursor is replayed. In every state that commits,
     expiries and these methods reach, the verdict and the findings are those of a replay of the whole history above
     the floor.
     */
    method Advance() returns (ok: bool)
      requires Valid() && cursor.Some?
      modifies this`cursor, this`seen
      ensures Valid()
      ensures ok <==> LawfulOn(rows, floor, |rows|)
      ensures ok ==>
                && cursor.Some? && cursor.value.generation == generation && cursor.value.through == |rows|
                && FindingsAt(rows, floor, |rows|, cursor.value.heads.findings)
      ensures !ok ==> cursor == old(cursor)
    {
      hide FindingsAt, NewestAt, Growing;
      var c := cursor.value;
      if c.generation != generation {
        ok := Establish();
        return;
      }
      var heads;
      ok, heads := Visit(rows, floor, Some(c.through), c.heads, |rows|, PAGE);
      if ok {
        cursor := Some(Cursor(generation, |rows|, heads));
      }
    }
  }

  /** A replay of the evaluations above a floor ends with one map of findings. */
  lemma OneReplay(rows: seq<Row>, floor: nat, through: nat, a: Findings, b: Findings)
    requires through <= |rows| && FindingsAt(rows, floor, through, a) && FindingsAt(rows, floor, through, b)
    ensures a == b
  {
    hide Met, Prior;
    assert forall l :: Lookup(a, l) == Lookup(b, l);
    assert forall l :: (l in a <==> Lookup(a, l).Some?) && (l in b <==> Lookup(b, l).Some?);
  }
}
