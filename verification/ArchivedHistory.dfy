/**
 The archive and the history verifiers together: what a verified archive says about the database inside it.

 A database file is decoded by a parameter. Its four retained histories are judged by the streaming verifiers, and the
 archive's claim about the database is judged by reopening the sealed bytes.
 */
module ArchivedHistory {
  import opened Prelude
  import Checks = SavedCheckHistory
  import Deliveries = NotificationHistory
  import Declarations = MaintenanceHistory
  import Evaluations = EvaluationPaging
  import Paging
  import opened SealedArchive

  datatype Database = Database(
    checks: Checks.Store, deliveries: Deliveries.Store, declarations: seq<Declarations.Row>,
    generation: nat, floor: Evaluations.Sequence, rows: set<nat>, latest: Evaluations.Sequence,
    boundary: string)

  /** The typed validators of single rows. */
  datatype Rules = Rules(
    checks: Checks.Rules, deliveries: Deliveries.Rules, declaration: Declarations.Row -> bool,
    typed: nat -> bool, reopens: nat -> bool, islands: set<nat> -> bool)

  /** What the schema keeps: primary keys, unique indexes, and sequences up to the latest one. */
  ghost predicate Keyed(db: Database) {
    && Checks.Keyed(db.checks) && Deliveries.Keyed(db.deliveries)
    && Paging.Ascending(db.declarations, Declarations.Before)
    && db.floor <= db.latest && forall q :: q in db.rows ==> q <= db.latest
  }

  /** All four histories are in order. */
  ghost predicate InOrder(rules: Rules, db: Database) {
    && Checks.HistoryOk(rules.checks, db.checks, |db.checks.definitions|)
    && Deliveries.HistoryOk(rules.deliveries, db.deliveries, |db.deliveries.intents|)
    && (forall i :: 0 <= i < |db.declarations| ==> rules.declaration(db.declarations[i]))
    && rules.islands(db.rows)
    && Evaluations.Sound(db.generation, db.floor, db.rows, db.latest, rules.typed, rules.reopens)
  }

  /** `validate_historical_semantics` on a database that nobody writes to. */
  method ValidateHistoricalSemantics(rules: Rules, db: Database, limit: nat) returns (ok: bool)
    requires limit >= 1 && Keyed(db)
    ensures ok <==> InOrder(rules, db)
  {
    hide Checks.Keyed, Deliveries.Keyed, Paging.Ascending, Evaluations.Sound, Checks.HistoryOk, Deliveries.HistoryOk;
    var store := new Evaluations.EvaluationStore(db.generation, db.floor, db.rows, db.latest);
    var none: (set<nat>, Evaluations.Sequence) := ({}, 0);
    var evaluations, total := Evaluations.CompareEvaluations(store, limit, rules.typed, rules.islands(db.rows),
                                                             rules.reopens, none, _ => none);
    if !evaluations {
      return false;
    }
    var checks := Checks.ValidateHistory(rules.checks, db.checks, limit);
    if checks.None? {
      return false;
    }
    var declarations := Declarations.ValidateHistory(db.declarations, rules.declaration, limit);
    if declarations.None? {
      return false;
    }
    var deliveries := Deliveries.ValidateHistory(rules.deliveries, db.deliveries, limit);
    ok := deliveries.Some?;
  }

  // ---------------------------------------------------------------- the sealed database

  function RetentionOf(db: Database): Retention { Retention(db.generation, db.boundary) }

  /** The verifier reopens database files by decoding them and judging their histories. */
  ghost predicate ReopensBy(v: Verifier, parse: string -> Option<Database>, rules: Rules) {
    forall bytes :: v.reopen(bytes) ==
                    if parse(bytes).Some?
                    then Some(History(InOrder(rules, parse(bytes).value), RetentionOf(parse(bytes).value)))
                    else None
  }

  /** The bytes decode, every history in them is in order, and they keep this retention boundary. */
  ghost predicate HoldsHistory(parse: string -> Option<Database>, rules: Rules, bytes: string, retention: Retention) {
    parse(bytes).Some? && InOrder(rules, parse(bytes).value) && RetentionOf(parse(bytes).value) == retention
  }

  /** An archive that verifies and claims an openable source holds sound histories, with the boundary it declares. */
  lemma VerifiedArchiveHoldsHistory(v: Verifier, parse: string -> Option<Database>, rules: Rules, t: Tree)
    requires ReopensBy(v, parse, rules) && Verifies(v, t)
    ensures var m := v.decode(Bytes(t, ArchiveJson)).value;
            && (m.sourceOpenable ==>
                  m.retention.Some? && HoldsHistory(parse, rules, Bytes(t, SealedArchive.Database), m.retention.value))
            && (!m.sourceOpenable ==> parse(Bytes(t, SealedArchive.Database)).None?)
  {
    hide InOrder, ManifestOk, Digest;
    assert v.reopen(Bytes(t, SealedArchive.Database)).Some? <==> parse(Bytes(t, SealedArchive.Database)).Some?;
  }

  /** An opened store is archived exactly when the frozen copy holds sound histories with the live store's boundary. */
  lemma ArchivedExactlyWhenHeld(v: Verifier, parse: string -> Option<Database>, rules: Rules, src: Source)
    requires ReopensBy(v, parse, rules) && src.live.Opened?
    requires forall b :: PlainHex(v.hex(b))
    requires forall m :: v.decode(v.encode(m)) == Some(m)
    ensures Verifies(v, Staged(v, src)) <==> HoldsHistory(parse, rules, src.frozen, src.live.history.retention)
  {
    hide InOrder, Verifies, Staged;
    StagedVerifies(v, src);
    assert v.reopen(src.frozen).Some? <==> parse(src.frozen).Some?;
  }
}
