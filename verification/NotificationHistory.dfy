/**
 The streaming verifier of notification deliveries (`validate_notification_delivery_history`): a small state
 machine over paged events, against the four event sequences a delivery may have, and against the SQL view that
 projects its state.
 */
module NotificationHistory {
  import opened Prelude
  import opened Paging

  datatype Intent = Intent(id: string, material: string)

  datatype Event = Event(number: nat, occurredAt: string, outcome: string, detail: string)

  datatype Status = Status(eventCount: nat, state: string)

  datatype Store = Store(intents: seq<Intent>, events: map<string, seq<Event>>, statuses: map<string, Status>)

  datatype Rules = Rules(
    isTime: string -> bool,
    isCanonical: string -> bool,
    intentOk: Intent -> bool)          // typed intent, column equality, digests, payload, creation time

  function Log(s: Store, id: string): seq<Event> { if id in s.events then s.events[id] else [] }

  predicate Before(a: Intent, b: Intent) { Less(a.id, b.id) }

  function Number(e: Event): nat { e.number }

  function IntentId(d: Intent): string { d.id }

  ghost predicate Keyed(s: Store) {
    && Ascending(s.intents, Before)
    && (forall id :: id in s.events ==> Numbered(s.events[id], Number))
  }

  // ---------------------------------------------------------------- the whole-history statement

  /** [], [claimed], [refused] or [claimed, failed | unknown | accepted], numbered from 1. */
  ghost predicate Shape(log: seq<Event>) {
    && (forall i :: 0 <= i < |log| ==> log[i].number == i + 1)
    && |log| <= 2
    && (|log| == 1 ==> log[0].outcome == "claimed" || log[0].outcome == "refused")
    && (|log| == 2 ==> log[0].outcome == "claimed" && log[1].outcome in {"failed", "unknown", "accepted"})
  }

  function Outcomes(log: seq<Event>): (outcomes: seq<string>)
    ensures |outcomes| == |log| && forall i :: 0 <= i < |log| ==> outcomes[i] == log[i].outcome
  {
    seq(|log|, i requires 0 <= i < |log| => log[i].outcome)
  }

  /** The admitted logs, listed by their outcomes. */
  lemma ShapeByOutcomes(log: seq<Event>)
    ensures Shape(log) <==>
            && (forall i :: 0 <= i < |log| ==> log[i].number == i + 1)
            && (|| Outcomes(log) == [] || Outcomes(log) == ["claimed"] || Outcomes(log) == ["refused"]
                || Outcomes(log) == ["claimed", "failed"] || Outcomes(log) == ["claimed", "unknown"]
                || Outcomes(log) == ["claimed", "accepted"])
  {
    var o := Outcomes(log);
    if |log| == 1 {
      assert o == [log[0].outcome];
    } else if |log| == 2 {
      assert o == [log[0].outcome, log[1].outcome];
    }
  }

  function StateOf(log: seq<Event>): string {
    if log == [] then "pending"
    else if log[|log| - 1].outcome == "claimed" then "unknown"
    else log[|log| - 1].outcome
  }

  ghost predicate RowsOk(rules: Rules, log: seq<Event>) {
    forall i :: 0 <= i < |log| ==> rules.isTime(log[i].occurredAt) && rules.isCanonical(log[i].detail)
  }

  ghost predicate DeliveryOk(rules: Rules, s: Store, n: Intent) {
    && rules.intentOk(n)
    && Shape(Log(s, n.id)) && RowsOk(rules, Log(s, n.id))
    && n.id in s.statuses && s.statuses[n.id] == Status(|Log(s, n.id)|, StateOf(Log(s, n.id)))
  }

  ghost predicate HistoryOk(rules: Rules, s: Store, n: nat)
    requires n <= |s.intents|
  {
    n == 0 || (HistoryOk(rules, s, n - 1) && DeliveryOk(rules, s, s.intents[n - 1]))
  }

  lemma {:induction false} HistoryOkIsForAll(rules: Rules, s: Store, n: nat)
    requires n <= |s.intents|
    ensures HistoryOk(rules, s, n) <==> forall i :: 0 <= i < n ==> DeliveryOk(rules, s, s.intents[i])
  {
    if n > 0 { HistoryOkIsForAll(rules, s, n - 1); }
  }

  lemma {:induction false} HistoryOkDown(rules: Rules, s: Store, n: nat, m: nat)
    requires n <= m <= |s.intents|
    ensures HistoryOk(rules, s, m) ==> HistoryOk(rules, s, n)
  {
    if n < m { HistoryOkDown(rules, s, n, m - 1); }
  }

  function EventTotal(s: Store, n: nat): nat
    requires n <= |s.intents|
  {
    if n == 0 then 0 else EventTotal(s, n - 1) + |Log(s, s.intents[n - 1].id)|
  }

  lemma HistoryStep(rules: Rules, s: Store, n: nat)
    requires n < |s.intents|
    ensures HistoryOk(rules, s, n + 1) <==> HistoryOk(rules, s, n) && DeliveryOk(rules, s, s.intents[n])
    ensures EventTotal(s, n + 1) == EventTotal(s, n) + |Log(s, s.intents[n].id)|
  {}

  // ---------------------------------------------------------------- the status view

  /** `MAX(CASE WHEN outcome IN (…) THEN outcome END)`: the greatest terminal outcome, `None` for SQL NULL. */
  function MaxTerminal(log: seq<Event>): Option<string> {
    if log == [] then None
    else
      var rest := MaxTerminal(log[..|log| - 1]);
      var o := log[|log| - 1].outcome;
      if o in {"failed", "unknown", "accepted", "refused"} && (rest.None? || Less(rest.value, o)) then Some(o) else rest
  }

  /** The view row, after `notification_delivery_state` rewrote "pending" with events to "unknown". */
  function ViewStatus(log: seq<Event>): Status {
    var state := if MaxTerminal(log).Some? then MaxTerminal(log).value else "pending";
    Status(|log|, if |log| > 0 && state == "pending" then "unknown" else state)
  }

  /** On every event sequence the verifier admits, the view says what the event sequence says. */
  lemma ViewAgrees(log: seq<Event>)
    requires Shape(log)
    ensures ViewStatus(log) == Status(|log|, StateOf(log))
  {
    assert "refused"[0] != "pending"[0] && "unknown"[0] != "pending"[0];
    assert "claimed"[0] != "refused"[0] && "claimed"[0] != "unknown"[0];
    if |log| == 1 {
      assert log[..0] == [] && MaxTerminal([]) == None;
    } else if |log| == 2 {
      assert log[..1][..0] == [] && log[..1][0] == log[0];
      assert MaxTerminal(log[..1]) == None;
    }
  }

  /** Not so on others: a terminal event before a later claim still decides the view. */
  lemma ViewNeedsShape()
    ensures var log := [Event(1, "", "refused", ""), Event(2, "", "claimed", "")];
            !Shape(log) && ViewStatus(log) != Status(|log|, StateOf(log))
  {
    var log := [Event(1, "", "refused", ""), Event(2, "", "claimed", "")];
    assert log[..1] == [Event(1, "", "refused", "")] && log[..1][..0] == [];
    assert MaxTerminal(log[..1]) == Some("refused");
    assert MaxTerminal(log) == Some("refused");
    assert StateOf(log) == "unknown";
    assert "refused" != "unknown" by { assert "refused"[0] != "unknown"[0]; }
  }

  // ---------------------------------------------------------------- the streaming verifier

  predicate Settles(outcome: string) { outcome == "failed" || outcome == "unknown" || outcome == "accepted" }

  /** What the fold has seen: no event, one open claim, or a terminal outcome. */
  ghost predicate FoldIs(log: seq<Event>, n: nat, terminal: Option<string>)
    requires n <= |log|
  {
    && (n == 0 ==> terminal.None?)
    && (n == 1 ==> if log[0].outcome == "claimed" then terminal.None? else terminal == Some("refused"))
    && (n == 2 ==> terminal == Some(log[1].outcome))
  }

  /** One iteration of the row loop: `None` is a refusal, `Some` the new `terminal`. */
  method CheckRow(rules: Rules, ghost log: seq<Event>, ghost n: nat, row: Event, expected: nat,
      terminal: Option<string>)
      returns (r: Option<Option<string>>)
    requires n < |log| && row == log[n] && expected == n + 1
    requires Shape(log[..n]) && RowsOk(rules, log[..n]) && FoldIs(log, n, terminal)
    ensures r.Some? <==> Shape(log[..n + 1]) && RowsOk(rules, log[..n + 1])
    ensures r.Some? ==> FoldIs(log, n + 1, r.value)
  {
    assert log[..n + 1] == log[..n] + [row];
    assert forall i :: 0 <= i < n ==> log[..n][i] == log[i];
    if row.number != expected || !rules.isTime(row.occurredAt) || !rules.isCanonical(row.detail) {
      assert log[..n + 1][n] == row;
      return None;
    }
    if row.number == 1 && row.outcome == "claimed" && terminal.None? {
      return Some(None);
    } else if row.number == 1 && row.outcome == "refused" && terminal.None? {
      return Some(Some("refused"));
    } else if row.number == 2 && Settles(row.outcome) && terminal.None? {
      return Some(Some(row.outcome));
    } else {
      return None;
    }
  }

  ghost predicate PrefixOk(rules: Rules, log: seq<Event>, n: nat)
    requires n <= |log|
  {
    Shape(log[..n]) && RowsOk(rules, log[..n])
  }

  lemma PrefixOkDown(rules: Rules, log: seq<Event>, n: nat, m: nat)
    requires n <= m <= |log| && PrefixOk(rules, log, m)
    ensures PrefixOk(rules, log, n)
  {
    assert log[..n] == log[..m][..n];
  }

  /** The rows of one page, which continue the log at position `n`. */
  method CheckRows(rules: Rules, ghost log: seq<Event>, n: nat, rows: seq<Event>, terminal: Option<string>)
      returns (r: Option<Option<string>>)
    requires n + |rows| <= |log| && rows == log[n..n + |rows|] && PrefixOk(rules, log, n) && FoldIs(log, n, terminal)
    ensures r.Some? <==> PrefixOk(rules, log, n + |rows|)
    ensures r.Some? ==> FoldIs(log, n + |rows|, r.value)
  {
    var current := terminal;
    for t := 0 to |rows|
      invariant PrefixOk(rules, log, n + t) && FoldIs(log, n + t, current)
    {
      var next := CheckRow(rules, log, n + t, rows[t], n + t + 1, current);
      if next.None? {
        if PrefixOk(rules, log, n + |rows|) {
          PrefixOkDown(rules, log, n + t + 1, n + |rows|);
        }
        return None;
      }
      current := next.value;
    }
    r := Some(current);
  }

  /** The event loop of one intent: the event count and the folded terminal outcome, or a refusal. */
  method FoldEvents(rules: Rules, s: Store, id: string, limit: nat) returns (r: Option<(nat, Option<string>)>)
    requires limit >= 1 && Keyed(s)
    ensures r.Some? <==> Shape(Log(s, id)) && RowsOk(rules, Log(s, id))
    ensures r.Some? ==> r.value.0 == |Log(s, id)| && FoldIs(Log(s, id), r.value.0, r.value.1)
  {
    ghost var log := Log(s, id);
    var after: Option<nat> := None;
    var count, terminal := 0, None;
    while true
      invariant 0 <= count <= |log| && PrefixOk(rules, log, count) && FoldIs(log, count, terminal)
      invariant after == if count == 0 then None else Some(log[count - 1].number)
      decreases |log| - count
    {
      var rows := PageByNumber(Log(s, id), Number, limit, after, count);
      if rows == [] {
        break;
      }
      var next := CheckRows(rules, log, count, rows, terminal);
      if next.None? {
        assert log[..|log|] == log;
        if PrefixOk(rules, log, |log|) {
          PrefixOkDown(rules, log, count + |rows|, |log|);
        }
        return None;
      }
      count, terminal, after := count + |rows|, next.value, Some(rows[|rows| - 1].number);
    }
    assert log[..|log|] == log;
    r := Some((count, terminal));
  }

  /** One intent with its events and its status projection. */
  method CheckDelivery(rules: Rules, s: Store, n: Intent, limit: nat) returns (r: Option<nat>)
    requires limit >= 1 && Keyed(s)
    ensures r.Some? <==> DeliveryOk(rules, s, n)
    ensures r.Some? ==> r.value == |Log(s, n.id)|
  {
    if !rules.intentOk(n) {
      return None;
    }
    var folded := FoldEvents(rules, s, n.id, limit);
    if folded.None? || n.id !in s.statuses {
      return None;
    }
    var (count, terminal) := folded.value;
    var expected := if terminal.Some? then terminal.value else if count == 0 then "pending" else "unknown";
    assert expected == StateOf(Log(s, n.id));
    if s.statuses[n.id].eventCount != count || s.statuses[n.id].state != expected {
      return None;
    }
    r := Some(count);
  }

  method CheckIntents(rules: Rules, s: Store, page: seq<Intent>, limit: nat, ghost n: nat) returns (r: Option<nat>)
    requires limit >= 1 && Keyed(s) && n + |page| <= |s.intents|
    requires forall t :: 0 <= t < |page| ==> page[t] == s.intents[n + t]
    requires HistoryOk(rules, s, n)
    ensures r.Some? <==> HistoryOk(rules, s, n + |page|)
    ensures r.Some? ==> EventTotal(s, n) + r.value == EventTotal(s, n + |page|)
  {
    hide DeliveryOk, Keyed, Ascending, Less;
    var events := 0;
    for t := 0 to |page|
      invariant HistoryOk(rules, s, n + t) && EventTotal(s, n) + events == EventTotal(s, n + t)
    {
      HistoryStep(rules, s, n + t);
      var count := CheckDelivery(rules, s, page[t], limit);
      if count.None? {
        HistoryOkDown(rules, s, n + t + 1, n + |page|);
        return None;
      }
      events := events + count.value;
    }
    r := Some(events);
  }

  lemma KeyedRows(s: Store)
    requires Keyed(s)
    ensures Ascending(s.intents, Before)
  {}

  lemma HistoryStart(rules: Rules, s: Store)
    ensures HistoryOk(rules, s, 0) && EventTotal(s, 0) == 0
  {}

  /**
   `validate_notification_delivery_history`: for every page size it accepts exactly when every delivery has one of
   the four event sequences and a status projection equal to its fold; it returns the two table sizes.
   */
  method ValidateHistory(rules: Rules, s: Store, limit: nat) returns (r: Option<(nat, nat)>)
    requires limit >= 1 && Keyed(s)
    ensures r.Some? <==> HistoryOk(rules, s, |s.intents|)
    ensures r.Some? ==> r.value == (|s.intents|, EventTotal(s, |s.intents|))
  {
    hide DeliveryOk, Keyed, Ascending, Less, HistoryOk, EventTotal;
    KeyedRows(s);
    HistoryStart(rules, s);
    var intents, events := 0, 0;
    var after: Option<string> := None;
    while true
      invariant 0 <= intents <= |s.intents| && HistoryOk(rules, s, intents)
      invariant events == EventTotal(s, intents)
      invariant after == if intents == 0 then None else Some(s.intents[intents - 1].id)
      decreases |s.intents| - intents
    {
      var page := PageById(s.intents, IntentId, Before, limit, after, intents);
      if page == [] {
        assert intents == |s.intents|;
        return Some((intents, events));
      }
      var counted := CheckIntents(rules, s, page, limit, intents);
      if counted.None? {
        HistoryOkDown(rules, s, intents + |page|, |s.intents|);
        return None;
      }
      intents, events, after := intents + |page|, events + counted.value, Some(page[|page| - 1].id);
      if |page| < limit {
        assert intents == |s.intents|;
        return Some((intents, events));
      }
    }
  }

  /** With the schema's view as projection, the status comparison never refuses by itself. */
  lemma ViewMakesStatusRedundant(rules: Rules, s: Store)
    requires forall i :: 0 <= i < |s.intents| ==>
               s.intents[i].id in s.statuses && s.statuses[s.intents[i].id] == ViewStatus(Log(s, s.intents[i].id))
    ensures HistoryOk(rules, s, |s.intents|) <==>
            forall i :: 0 <= i < |s.intents| ==>
              rules.intentOk(s.intents[i]) && Shape(Log(s, s.intents[i].id)) && RowsOk(rules, Log(s, s.intents[i].id))
  {
    forall i | 0 <= i < |s.intents| && Shape(Log(s, s.intents[i].id))
      ensures s.statuses[s.intents[i].id] == Status(|Log(s, s.intents[i].id)|, StateOf(Log(s, s.intents[i].id)))
    {
      ViewAgrees(Log(s, s.intents[i].id));
    }
    HistoryOkIsForAll(rules, s, |s.intents|);
  }
}
