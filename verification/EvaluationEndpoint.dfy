/**
 The evaluation-history endpoint end to end: a query string, the engine's page, and the resume interval it names when
 history has expired.
 */
module EvaluationEndpoint {
  import opened Prelude
  import opened QueryParsing
  import opened EvaluationPaging

  /** 200, 400, 410 with the resume interval, or an internal failure. */
  datatype Response = Served(page: HistoryPage) | Invalid | Gone(floor: nat, through: nat) | Failed

  function AfterOf(q: Query): Option<nat> {
    if q.after.Some? && q.after.value.Sequence? then Some(q.after.value.n) else None
  }

  function CursorOf(q: Query): nat { if AfterOf(q).Some? then AfterOf(q).value else 0 }

  function BoundOf(q: Query, latest: nat): nat { if q.through.Some? then q.through.value else latest }

  /** The store serves this query. */
  ghost predicate Serves(rows: set<nat>, floor: nat, latest: nat, q: Query, reopens: nat -> bool) {
    && Rule(floor, latest, AfterOf(q), q.through).Admitted?
    && Intact(rows, CursorOf(q), BoundOf(q, latest), q.limit, reopens)
  }

  lemma DenotedLimit(e: Endpoint, text: string, q: Query)
    requires Denotes(e, text, q)
    ensures q.limit >= 1
  {
    hide Distinct, Kind, Name, Written;
    var ps, f :| Spells(e, text, ps) && Holds(ps, f) && Coherent(f) && q == Finish(f);
    if f.limit.Some? {
      assert Limit(f.limit.value) in ps;
      var i :| 0 <= i < |ps| && ps[i] == Limit(f.limit.value);
      assert Legal(e, ps[i]);
    }
  }

  /** What a request with this query string asks for; without one it asks for the first page of everything. */
  ghost predicate AsksFor(query: Option<string>, q: Query) {
    match query
    case None => q == Query(1000, None, None)
    case Some(text) => Denotes(Evaluations, text, q)
  }

  /** The cursor of a request is the sequence number it names. */
  lemma CursorIsNamed(query: Option<string>, q: Query)
    requires AsksFor(query, q)
    ensures AfterOf(q).Some? <==> q.after.Some?
    ensures q.after.Some? ==> q.after == Some(Cursor.Sequence(AfterOf(q).value))
  {
    hide Distinct, Kind, Name, Written, Renders;
    if query.Some? {
      var ps, f :| Spells(Evaluations, query.value, ps) && Holds(ps, f) && Coherent(f) && q == Finish(f);
      SequenceCursor(Evaluations, query.value, ps, f);
    }
  }

  lemma OneRequest(query: Option<string>, p: Query, q: Query)
    requires AsksFor(query, p) && AsksFor(query, q)
    ensures p == q && q.limit >= 1
  {
    hide Denotes;
    if query.Some? {
      OneMeaning(Evaluations, query.value, p, q);
      DenotedLimit(Evaluations, query.value, q);
    }
  }

  /** The `/v1/evaluations` route. */
  method Respond(s: EvaluationStore, query: Option<string>, reopens: nat -> bool) returns (r: Response)
    ensures (forall q :: !AsksFor(query, q)) ==> r.Invalid?
    ensures forall q :: AsksFor(query, q) ==>
              var ruling := Rule(s.floor, s.latest, AfterOf(q), q.through);
              && (r.Served? <==> Serves(s.rows, s.floor, s.latest, q, reopens))
              && (r.Invalid? <==> ruling.NotPresent?)
              && (ruling.Expired? <==> r.Gone?)
              && (r.Gone? ==>
                    && r.floor == s.floor
                    && r.through == if q.through.Some? && s.floor < q.through.value <= 9223372036854775807
                                    then q.through.value else s.latest)
              && (r.Served? ==> r.page.through == BoundOf(q, s.latest)
                                && forall i :: 0 <= i < |r.page.records| ==> r.page.records[i] == CursorOf(q) + 1 + i)
  {
    hide Denotes, Rule, Intact;
    var parsed := Parse(Evaluations, query);
    if parsed.None? {
      return Invalid;
    }
    var q := parsed.value;
    assert AsksFor(query, q);
    forall p | AsksFor(query, p) ensures p == q && q.limit >= 1 { OneRequest(query, p, q); }
    var page := s.Page(q.limit, AfterOf(q), q.through, reopens);
    match page
    case Paged(p) => r := Served(p);
    case Refused(ruling) =>
      r := if ruling.Expired? then Gone(s.floor, ResumeThrough(q.through, s.floor, s.latest)) else Invalid;
    case Corrupt => r := Failed;
  }

  /** The query a refused reader is told to send instead. */
  function ResumeQuery(floor: nat, through: nat): Query {
    Query(MAX_PER_RESPONSE, Some(Cursor.Sequence(floor)), Some(through))
  }

  /**
   The resume interval of a 410 response is served exactly when its upper bound is not above the latest sequence and the
   rows of its first page are intact.
   */
  lemma ResumeIsServedIff(rows: set<nat>, floor: EvaluationPaging.Sequence, latest: EvaluationPaging.Sequence,
                          requested: Option<nat>, reopens: nat -> bool)
    requires floor <= latest
    ensures var through := ResumeThrough(requested, floor, latest);
            && Denotes(Evaluations, ResumeText(floor, through), ResumeQuery(floor, through))
            && (Serves(rows, floor, latest, ResumeQuery(floor, through), reopens)
                <==> through <= latest && Intact(rows, floor, through, MAX_PER_RESPONSE, reopens))
            && (through <= latest <==> !(requested.Some? && latest < requested.value <= I64_MAX))
            && (through > latest ==> Rule(floor, latest, Some(floor), Some(through)).NotPresent?)
  {
    hide Denotes, Intact;
    var through := ResumeThrough(requested, floor, latest);
    ResumeIsAccepted(requested, floor, latest);
    AdmittedIffWithin(floor, latest, Some(floor), Some(through));
  }

  /** A reader whose own bound lies above the latest sequence is sent to an interval that is refused in turn. */
  lemma ResumeCanBeRefused()
    ensures var floor, latest, requested := 5, 7, Some(1_000_000);
            var through := ResumeThrough(requested, floor, latest);
            && Rule(floor, latest, Some(3), requested).Expired?
            && Rule(floor, latest, Some(floor), Some(through)).NotPresent?
  {}
}
