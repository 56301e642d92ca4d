/**
 The streaming verifier of retained saved-check history (`validate_saved_check_history`) against a plain
 statement about whole event logs.
 */
module SavedCheckHistory {
  import opened Prelude
  import opened Paging

  /** The value under "binding" of an event detail. */
  datatype Binding = Binding(value: string, nonEmptyObject: bool)

  /**
   A canonical JSON detail: its binding, and the digest it installs when it is exactly {"definition_digest": digest}.
   */
  datatype Detail = Detail(binding: Option<Binding>, installs: Option<string>)

  datatype Definition = Definition(id: string, reference: string, digest: string, material: string)

  datatype Event = Event(number: nat, occurredAt: string, outcome: string, detail: string,
      evaluationId: Option<string>)

  /**
   The two tables, a definition's events in primary-key order, and the unique index that the schema keeps over
   claims: the definition and position of the one claim of an evaluation.
   */
  datatype Store = Store(
    definitions: seq<Definition>, events: map<string, seq<Event>>, claims: map<string, (string, nat)>)

  /** Decoders and validators of code outside the verifier. */
  datatype Rules = Rules(
    isTime: string -> bool,
    decode: string -> Option<Detail>,                  // canonical JSON only
    definitionOk: Definition -> bool,                  // canonical bytes, digest, typed contract, reference, time
    retainedOk: (Definition, string, Detail) -> bool) // validate_retained_saved_check_event

  function Log(s: Store, id: string): seq<Event> { if id in s.events then s.events[id] else [] }

  predicate IsClaim(e: Event, evaluation: string) {
    e.outcome == "claimed" && e.evaluationId == Some(evaluation)
  }

  predicate Before(a: Definition, b: Definition) { Less(a.id, b.id) }

  function Number(e: Event): nat { e.number }

  function DefinitionId(d: Definition): string { d.id }

  predicate ClaimedAt(s: Store, evaluation: string, id: string, i: nat) {
    i < |Log(s, id)| && IsClaim(Log(s, id)[i], evaluation)
  }

  /** Primary keys are sorted and unique, and the claim index lists exactly the claims. */
  ghost predicate Keyed(s: Store) {
    && Ascending(s.definitions, Before)
    && (forall id :: id in s.events ==> Numbered(s.events[id], Number))
    && (forall evaluation, id, i: nat :: ClaimedAt(s, evaluation, id, i) ==>
          evaluation in s.claims && s.claims[evaluation] == (id, i))
    && (forall evaluation :: evaluation in s.claims ==>
          ClaimedAt(s, evaluation, s.claims[evaluation].0, s.claims[evaluation].1))
  }

  // ---------------------------------------------------------------- the whole-history statement

  /** An earlier event of the log claims the same evaluation, with the same binding. */
  ghost predicate HasClaim(rules: Rules, log: seq<Event>, i: nat, v: Detail)
    requires i < |log|
  {
    exists j: nat :: j < i && log[j].outcome == "claimed" && log[j].evaluationId == log[i].evaluationId
                     && rules.decode(log[j].detail).Some? && rules.decode(log[j].detail).value.binding == v.binding
  }

  /**
   The first event installs the definition. Every other one names an evaluation and passes the retained-event rule:
   a claim with a binding that is not empty, or a refusal, a pass or a failure of an evaluation that was claimed before.
   */
  ghost predicate EventOk(rules: Rules, d: Definition, log: seq<Event>, i: nat)
    requires i < |log|
  {
    var e := log[i];
    && e.number == i + 1 && rules.isTime(e.occurredAt) && rules.decode(e.detail).Some?
    && var v := rules.decode(e.detail).value;
       if i == 0 then e.outcome == "installed" && e.evaluationId.None? && v.installs == Some(d.digest)
       else
         && e.evaluationId.Some? && e.evaluationId.value != "" && v.binding.Some?
         && rules.retainedOk(d, e.outcome, v)
         && (e.outcome == "claimed" ==> v.binding.value.nonEmptyObject)
         && (e.outcome != "claimed" ==> e.outcome in {"refused", "passed", "failed"} && HasClaim(rules, log, i, v))
  }

  ghost predicate LogOk(rules: Rules, d: Definition, log: seq<Event>) {
    1 <= |log| < U32_MAX && EventsOk(rules, d, log, |log|)
  }

  ghost predicate EventsOk(rules: Rules, d: Definition, log: seq<Event>, n: nat)
    requires n <= |log|
  {
    n == 0 || (EventsOk(rules, d, log, n - 1) && EventOk(rules, d, log, n - 1))
  }

  lemma {:induction false} EventsOkIsForAll(rules: Rules, d: Definition, log: seq<Event>, n: nat)
    requires n <= |log|
    ensures EventsOk(rules, d, log, n) <==> forall i :: 0 <= i < n ==> EventOk(rules, d, log, i)
  {
    if n > 0 { EventsOkIsForAll(rules, d, log, n - 1); }
  }

  ghost predicate DefinitionOk(rules: Rules, s: Store, d: Definition) {
    rules.definitionOk(d) && LogOk(rules, d, Log(s, d.id))
  }

  ghost predicate HistoryOk(rules: Rules, s: Store, n: nat)
    requires n <= |s.definitions|
  {
    n == 0 || (HistoryOk(rules, s, n - 1) && DefinitionOk(rules, s, s.definitions[n - 1]))
  }

  lemma {:induction false} HistoryOkIsForAll(rules: Rules, s: Store, n: nat)
    requires n <= |s.definitions|
    ensures HistoryOk(rules, s, n) <==> forall i :: 0 <= i < n ==> DefinitionOk(rules, s, s.definitions[i])
  {
    if n > 0 { HistoryOkIsForAll(rules, s, n - 1); }
  }

  lemma {:induction false} HistoryOkDown(rules: Rules, s: Store, n: nat, m: nat)
    requires n <= m <= |s.definitions|
    ensures HistoryOk(rules, s, m) ==> HistoryOk(rules, s, n)
  {
    if n < m { HistoryOkDown(rules, s, n, m - 1); }
  }

  function EventTotal(s: Store, n: nat): nat
    requires n <= |s.definitions|
  {
    if n == 0 then 0 else EventTotal(s, n - 1) + |Log(s, s.definitions[n - 1].id)|
  }

  lemma HistoryStep(rules: Rules, s: Store, n: nat)
    requires n < |s.definitions|
    ensures HistoryOk(rules, s, n + 1) <==> HistoryOk(rules, s, n) && DefinitionOk(rules, s, s.definitions[n])
    ensures EventTotal(s, n + 1) == EventTotal(s, n) + |Log(s, s.definitions[n].id)|
  {}

  // ---------------------------------------------------------------- the streaming verifier

  datatype Claim = Claim(definitionId: string, number: nat, detail: string)

  /** `saved_check_claim_by_evaluation_id`: the claim of an evaluation, in whichever definition it lies. */
  function LookupClaim(s: Store, evaluation: string): Option<Claim>
    requires Keyed(s)
  {
    if evaluation in s.claims then
      var (id, i) := s.claims[evaluation];
      Some(Claim(id, Log(s, id)[i].number, Log(s, id)[i].detail))
    else None
  }

  predicate Terminal(outcome: string) { outcome == "refused" || outcome == "passed" || outcome == "failed" }

  predicate Identified(e: Event) { e.evaluationId.Some? && e.evaluationId.value != "" }

  /** The terminal arm of the per-row match. */
  method CheckTerminal(rules: Rules, s: Store, d: Definition, ghost log: seq<Event>, ghost i: nat, row: Event,
      v: Detail)
      returns (ok: bool)
    requires Keyed(s) && log == Log(s, d.id) && i < |log| && row == log[i] && row.number == i + 1
    ensures ok <==>
            && row.evaluationId.Some? && row.evaluationId.value != "" && v.binding.Some?
            && rules.retainedOk(d, row.outcome, v) && HasClaim(rules, log, i, v)
  {
    hide Ascending, Less;
    if !Identified(row) || v.binding.None? {
      return false;
    }
    var evaluation := row.evaluationId.value;
    assert forall j: nat :: ClaimedAt(s, evaluation, d.id, j) <==> j < |log| && IsClaim(log[j], evaluation);
    var claim := LookupClaim(s, evaluation);
    if claim.None? {
      return false;
    }
    var value := rules.decode(claim.value.detail);
    ok := value.Some? && claim.value.definitionId == d.id && claim.value.number < row.number
          && value.value.binding == v.binding && rules.retainedOk(d, row.outcome, v);
    assert forall j: nat :: ClaimedAt(s, evaluation, d.id, j) ==> s.claims[evaluation] == (d.id, j);
    if claim.value.definitionId == d.id && claim.value.number < row.number {
      assert Numbered(log, Number);
    }
  }

  /** One iteration of the row loop, given that the rows before it were accepted. */
  method CheckRow(rules: Rules, s: Store, d: Definition, ghost log: seq<Event>, ghost i: nat, row: Event,
      expected: nat, installed: bool)
      returns (ok: bool)
    requires Keyed(s) && log == Log(s, d.id) && i < |log| && row == log[i]
    requires expected == i + 1 <= U32_MAX && installed == (i > 0)
    ensures ok <==> EventOk(rules, d, log, i) && expected < U32_MAX
  {
    if row.number != expected || expected == U32_MAX || !rules.isTime(row.occurredAt) {
      return false;
    }
    var value := rules.decode(row.detail);
    if value.None? || (row.number == 1 && row.outcome != "installed") {
      return false;
    }
    if row.outcome == "installed" && row.number == 1 && row.evaluationId.None? {
      ok := value.value.installs == Some(d.digest);
    } else if row.outcome == "claimed" && installed {
      ok := Identified(row) && value.value.binding.Some? && value.value.binding.value.nonEmptyObject
            && rules.retainedOk(d, row.outcome, value.value);
    } else if Terminal(row.outcome) && installed {
      ok := CheckTerminal(rules, s, d, log, i, row, value.value);
    } else {
      ok := false;
    }
  }

  /** The rows of one page, which continue the log at position `count`. */
  method CheckRows(rules: Rules, s: Store, d: Definition, ghost log: seq<Event>, rows: seq<Event>, count: nat,
      expected: nat, installed: bool)
      returns (ok: bool)
    requires Keyed(s) && log == Log(s, d.id) && count + |rows| <= |log| && rows == log[count..count + |rows|]
    requires expected == count + 1 <= U32_MAX && installed == (count > 0)
    ensures ok <==> count + |rows| < U32_MAX && forall i :: count <= i < count + |rows| ==> EventOk(rules, d, log, i)
  {
    for t := 0 to |rows|
      invariant count + t < U32_MAX
      invariant forall i :: count <= i < count + t ==> EventOk(rules, d, log, i)
    {
      ok := CheckRow(rules, s, d, log, count + t, rows[t], expected + t, installed || t > 0);
      if !ok {
        return;
      }
    }
    ok := true;
  }

  /** The event loop of one definition: the number of events, or a refusal. */
  method ValidateEvents(rules: Rules, s: Store, d: Definition, limit: nat) returns (r: Option<nat>)
    requires limit >= 1 && Keyed(s)
    ensures r.Some? <==> LogOk(rules, d, Log(s, d.id))
    ensures r.Some? ==> r.value == |Log(s, d.id)|
  {
    hide EventOk;
    ghost var log := Log(s, d.id);
    EventsOkIsForAll(rules, d, log, |log|);
    var after: Option<nat> := None;
    var expected, installed, count := 1, false, 0;
    while true
      invariant 0 <= count <= |log| && expected == count + 1 <= U32_MAX && installed == (count > 0)
      invariant after == if count == 0 then None else Some(log[count - 1].number)
      invariant forall i :: 0 <= i < count ==> EventOk(rules, d, log, i)
      decreases |log| - count
    {
      var rows := PageByNumber(Log(s, d.id), Number, limit, after, count);
      if rows == [] {
        break;
      }
      var checked := CheckRows(rules, s, d, log, rows, count, expected, installed);
      if !checked {
        return None;
      }
      expected, installed, count := expected + |rows|, true, count + |rows|;
      after := Some(rows[|rows| - 1].number);
    }
    r := if installed then Some(count) else None;
  }

  /** One definition with its event log. */
  method CheckDefinition(rules: Rules, s: Store, d: Definition, limit: nat) returns (r: Option<nat>)
    requires limit >= 1 && Keyed(s)
    ensures r.Some? <==> DefinitionOk(rules, s, d)
    ensures r.Some? ==> r.value == |Log(s, d.id)|
  {
    if !rules.definitionOk(d) {
      return None;
    }
    r := ValidateEvents(rules, s, d, limit);
  }

  /** The definitions of one page, starting at position `n`: how many events they hold together. */
  method CheckDefinitions(rules: Rules, s: Store, page: seq<Definition>, limit: nat, ghost n: nat)
      returns (r: Option<nat>)
    requires limit >= 1 && Keyed(s) && n + |page| <= |s.definitions|
    requires forall t :: 0 <= t < |page| ==> page[t] == s.definitions[n + t]
    requires HistoryOk(rules, s, n)
    ensures r.Some? <==> HistoryOk(rules, s, n + |page|)
    ensures r.Some? ==> EventTotal(s, n) + r.value == EventTotal(s, n + |page|)
  {
    hide DefinitionOk, Keyed, Ascending, Less;
    var events := 0;
    for t := 0 to |page|
      invariant HistoryOk(rules, s, n + t) && EventTotal(s, n) + events == EventTotal(s, n + t)
    {
      HistoryStep(rules, s, n + t);
      var count := CheckDefinition(rules, s, page[t], limit);
      if count.None? {
        HistoryOkDown(rules, s, n + t + 1, n + |page|);
        return None;
      }
      events := events + count.value;
    }
    r := Some(events);
  }

  lemma KeyedRows(s: Store)
    requires Keyed(s)
    ensures Ascending(s.definitions, Before)
  {}

  lemma HistoryStart(rules: Rules, s: Store)
    ensures HistoryOk(rules, s, 0) && EventTotal(s, 0) == 0
  {}

  /**
   `validate_saved_check_history`: for every page size it accepts exactly the stores whose whole history is in
   order, and it returns the sizes of the two tables.
   */
  method ValidateHistory(rules: Rules, s: Store, limit: nat) returns (r: Option<(nat, nat)>)
    requires limit >= 1 && Keyed(s)
    ensures r.Some? <==> HistoryOk(rules, s, |s.definitions|)
    ensures r.Some? ==> r.value == (|s.definitions|, EventTotal(s, |s.definitions|))
  {
    hide DefinitionOk, Keyed, Ascending, Less, HistoryOk, EventTotal;
    KeyedRows(s);
    HistoryStart(rules, s);
    var definitions, events := 0, 0;
    var after: Option<string> := None;
    while true
      invariant 0 <= definitions <= |s.definitions| && HistoryOk(rules, s, definitions)
      invariant events == EventTotal(s, definitions)
      invariant after == if definitions == 0 then None else Some(s.definitions[definitions - 1].id)
      decreases |s.definitions| - definitions
    {
      var page := PageById(s.definitions, DefinitionId, Before, limit, after, definitions);
      if page == [] {
        assert definitions == |s.definitions|;
        return Some((definitions, events));
      }
      var counted := CheckDefinitions(rules, s, page, limit, definitions);
      if counted.None? {
        HistoryOkDown(rules, s, definitions + |page|, |s.definitions|);
        return None;
      }
      definitions, events, after := definitions + |page|, events + counted.value, Some(page[|page| - 1].id);
      if |page| < limit {
        assert definitions == |s.definitions|;
        return Some((definitions, events));
      }
    }
  }

  // ---------------------------------------------------------------- the longest log

  function Name(i: nat): (s: string)
    ensures |s| == i
  {
    seq(i, _ => 'x')
  }

  const ANY_RULES: Rules :=
    Rules(_ => true, _ => Some(Detail(Some(Binding("", true)), Some(""))), _ => true, (_, _, _) => true)

  const ONE_DEFINITION: Definition := Definition("", "", "", "")

  /** An installation followed by claims of ever new evaluations. */
  function ClaimLog(n: nat): (log: seq<Event>)
    ensures |log| == n
    ensures forall i :: 0 <= i < n ==>
              log[i] == if i == 0 then Event(1, "", "installed", "", None)
                    else Event(i + 1, "", "claimed", "", Some(Name(i)))
  {
    seq(n, (i: nat) =>
      if i == 0 then Event(1, "", "installed", "", None) else Event(i + 1, "", "claimed", "", Some(Name(i))))
  }

  function ClaimStore(n: nat): Store {
    Store([ONE_DEFINITION], map["" := ClaimLog(n)], map i | 1 <= i < n :: Name(i) := ("", i))
  }

  lemma ClaimStoreIsKeyed(n: nat)
    ensures Keyed(ClaimStore(n)) && Log(ClaimStore(n), "") == ClaimLog(n)
  {
    var s := ClaimStore(n);
    forall evaluation, id, i: nat | ClaimedAt(s, evaluation, id, i)
      ensures evaluation in s.claims && s.claims[evaluation] == (id, i)
    {
      assert id == "" && 1 <= i < n && evaluation == Name(i);
    }
    forall evaluation | evaluation in s.claims
      ensures ClaimedAt(s, evaluation, s.claims[evaluation].0, s.claims[evaluation].1)
    {
      var i :| 1 <= i < n && evaluation == Name(i) && s.claims[evaluation] == ("", i);
    }
  }

  /**
   The 32-bit event number bounds the log: of logs of any length whose events are all in order, exactly those shorter
   than its maximum are accepted.
   */
  lemma LongLogIsRefused(n: nat) returns (rules: Rules, s: Store, d: Definition)
    requires n >= 1
    ensures Keyed(s) && |Log(s, d.id)| == n && EventsOk(rules, d, Log(s, d.id), n)
    ensures LogOk(rules, d, Log(s, d.id)) <==> n < 4294967295
  {
    rules, s, d := ANY_RULES, ClaimStore(n), ONE_DEFINITION;
    ClaimStoreIsKeyed(n);
    var log := ClaimLog(n);
    forall i | 0 <= i < n ensures EventOk(rules, d, log, i) {
      assert i > 0 ==> Name(i) != "";
    }
    EventsOkIsForAll(rules, d, log, n);
  }

  // ---------------------------------------------------------------- a claim can be settled

  lemma EventOkOfPrefix(rules: Rules, d: Definition, log: seq<Event>, e: Event, i: nat)
    requires i < |log|
    ensures EventOk(rules, d, log + [e], i) <==> EventOk(rules, d, log, i)
  {
    var more := log + [e];
    assert forall j: nat :: j <= i ==> more[j] == log[j];
    if rules.decode(log[i].detail).Some? {
      var v := rules.decode(log[i].detail).value;
      assert HasClaim(rules, more, i, v) <==> HasClaim(rules, log, i, v);
    }
  }

  /** A log that ends in a claim stays accepted when the claim is refused, passed or failed with its binding. */
  lemma ClaimCanBeSettled(rules: Rules, d: Definition, log: seq<Event>, e: Event)
    requires LogOk(rules, d, log) && log[|log| - 1].outcome == "claimed" && |log| + 1 < 4294967295
    requires e.number == |log| + 1 && rules.isTime(e.occurredAt) && e.evaluationId == log[|log| - 1].evaluationId
    requires rules.decode(e.detail).Some? && rules.decode(log[|log| - 1].detail).Some?
    requires rules.decode(e.detail).value.binding == rules.decode(log[|log| - 1].detail).value.binding
    requires rules.retainedOk(d, e.outcome, rules.decode(e.detail).value)
    ensures e.outcome in {"refused", "passed", "failed"} ==> LogOk(rules, d, log + [e])
    ensures e.outcome !in {"claimed", "refused", "passed", "failed"} ==> !LogOk(rules, d, log + [e])
  {
    hide EventOk;
    var n, more := |log|, log + [e];
    EventsOkIsForAll(rules, d, log, n);
    EventsOkIsForAll(rules, d, more, n + 1);
    forall i | 0 <= i < n ensures EventOk(rules, d, more, i) <==> EventOk(rules, d, log, i) {
      EventOkOfPrefix(rules, d, log, e, i);
    }
    SettledIsOk(rules, d, log, e);
  }

  lemma SettledIsOk(rules: Rules, d: Definition, log: seq<Event>, e: Event)
    requires log != [] && EventOk(rules, d, log, |log| - 1) && log[|log| - 1].outcome == "claimed"
    requires e.number == |log| + 1 && rules.isTime(e.occurredAt) && e.evaluationId == log[|log| - 1].evaluationId
    requires rules.decode(e.detail).Some? && rules.decode(log[|log| - 1].detail).Some?
    requires rules.decode(e.detail).value.binding == rules.decode(log[|log| - 1].detail).value.binding
    requires rules.retainedOk(d, e.outcome, rules.decode(e.detail).value)
    ensures e.outcome in {"refused", "passed", "failed"} ==> EventOk(rules, d, log + [e], |log|)
    ensures e.outcome !in {"claimed", "refused", "passed", "failed"} ==> !EventOk(rules, d, log + [e], |log|)
  {
    var n, more := |log|, log + [e];
    assert more[n - 1] == log[n - 1] && more[n] == e;
    assert HasClaim(rules, more, n, rules.decode(e.detail).value);
  }
}
