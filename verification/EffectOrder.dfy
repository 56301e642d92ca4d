/**
 When the recorded outcome only moves forward.

 RECOVERY.json is read by `reconcile-effect` before it inspects the producer and is written back at the end, so
 overlapping processes can move a known outcome back. The exact operating condition for "never" is proved here.
 */
module EffectOrder {
  import opened Prelude
  import opened EffectDispatch
  import opened EffectCustody

  /** The readable outcome moves along the chain, except where a power loss drops an unsynced rename. */
  predicate VisibleForward(w: World, a: Action, w': World) {
    (a.ByEnvironment? && a.e.PowerLoss?) || Advances(OutcomeIn(w.visible), OutcomeIn(w'.visible))
  }

  /** The outcome that survives a power loss moves along the chain. */
  predicate DurableForward(w: World, w': World) {
    Advances(OutcomeIn(w.durable), OutcomeIn(w'.durable))
  }

  ghost predicate RunsVisiblyForward(cx: Context) {
    forall ws, acts, i :: IsRun(cx, ws, acts) && 0 <= i < |acts| ==>
          VisibleForward(ws[i], acts[i], Apply(cx, ws[i], acts[i]))
  }

  ghost predicate RunsDurablyForward(cx: Context) {
    forall ws, acts, i :: IsRun(cx, ws, acts) && 0 <= i < |acts| ==> DurableForward(ws[i], Apply(cx, ws[i], acts[i]))
  }

  predicate Serialized(d: Discipline) { d.oneAtATime && (d.afterProducer || d.consistentOwner) }

  /** What one reconciler may still write is not behind the record it will overwrite. */
  ghost predicate Pending(cx: Context, w: World, r: Reconciler) {
    match r.pc
    case Asked(_, reply) =>
      Class(cx, w, reply).Some? ==> Advances(OutcomeIn(w.visible), OutcomeState(Class(cx, w, reply).value))
    case EvidenceAbsent(_, a) => Advances(OutcomeIn(w.visible), OutcomeState(a))
    case EvidencePartial(_, a) => Advances(OutcomeIn(w.visible), OutcomeState(a))
    case Settled(_, a) => Advances(OutcomeIn(w.visible), OutcomeState(a))
    case _ => cx.discipline.afterProducer ==> OutcomeIn(w.visible).OutcomeUnknown? && !Alive(w.producer)
  }

  ghost predicate Ordered(cx: Context, w: World) {
    && (Alive(w.producer) ==> Advances(OutcomeIn(w.visible), w.producer.outcome))
    && (forall j, k :: j in w.reconcilers && k in w.reconcilers ==> j == k)
    && (forall k :: k in w.reconcilers ==> Pending(cx, w, w.reconcilers[k]))
  }

  lemma ProducerOrdered(cx: Context, w: World, a: ProducerAction)
    requires Serialized(cx.discipline) && Safe(cx, w) && Ordered(cx, w) && ProducerEnabled(cx, w, a)
    ensures Ordered(cx, ProducerApply(cx, w, a))
    ensures VisibleForward(w, ByProducer(a), ProducerApply(cx, w, a))
  {}

  lemma ReconcilerAskOrdered(cx: Context, w: World, k: nat, a: ReconcilerAction)
    requires Serialized(cx.discipline) && Safe(cx, w) && Ordered(cx, w) && ReconcilerEnabled(cx, w, k, a)
    requires a.Load? || a.Inspect? || a.Admit? || a.Ask?
    ensures Ordered(cx, ReconcilerApply(cx, w, k, a))
    ensures VisibleForward(w, ByReconciler(k, a), ReconcilerApply(cx, w, k, a))
  {
    hide ProducerInv, CallInv;
  }

  lemma ReconcilerWriteOrdered(cx: Context, w: World, k: nat, a: ReconcilerAction)
    requires Serialized(cx.discipline) && Safe(cx, w) && Ordered(cx, w) && ReconcilerEnabled(cx, w, k, a)
    requires !(a.Load? || a.Inspect? || a.Admit? || a.Ask?)
    ensures Ordered(cx, ReconcilerApply(cx, w, k, a))
    ensures VisibleForward(w, ByReconciler(k, a), ReconcilerApply(cx, w, k, a))
  {
    hide ProducerInv, CallInv;
  }

  lemma EnvironmentOrdered(cx: Context, w: World, a: EnvironmentAction)
    requires Ordered(cx, w)
    ensures Ordered(cx, EnvironmentApply(w, a))
    ensures VisibleForward(w, ByEnvironment(a), EnvironmentApply(w, a))
  {}

  lemma StepOrdered(cx: Context, w: World, a: Action)
    requires Serialized(cx.discipline) && Safe(cx, w) && Ordered(cx, w) && Enabled(cx, w, a)
    ensures Ordered(cx, Apply(cx, w, a)) && VisibleForward(w, a, Apply(cx, w, a))
  {
    hide Safe, Ordered, VisibleForward;
    match a
    case ByProducer(p) => ProducerOrdered(cx, w, p);
    case ByReconciler(k, r) =>
      if r.Load? || r.Inspect? || r.Admit? || r.Ask? {
        ReconcilerAskOrdered(cx, w, k, r);
      } else {
        ReconcilerWriteOrdered(cx, w, k, r);
      }
    case ByEnvironment(e) => EnvironmentOrdered(cx, w, e);
  }

  lemma {:induction false} RunOrdered(cx: Context, ws: seq<World>, acts: seq<Action>, i: nat)
    requires Lawful(cx) && Serialized(cx.discipline) && IsRun(cx, ws, acts) && i < |ws|
    ensures Ordered(cx, ws[i])
  {
    if i > 0 {
      RunOrdered(cx, ws, acts, i - 1);
      RunSafe(cx, ws, acts, i - 1);
      StepOrdered(cx, ws[i - 1], acts[i - 1]);
    }
  }

  // ---------------------------------------------------------------- the record that survives

  /** The durable outcome is at most one step behind, and not behind "unknown" once anything can resolve it. */
  ghost predicate Backed(w: World) {
    && Advances(OutcomeIn(w.durable), OutcomeIn(w.visible))
    && (w.reconcilers != map[] || Known(w.producer.outcome) ==> !OutcomeIn(w.durable).NoEffectAttempted?)
  }

  lemma ProducerBacked(cx: Context, w: World, a: ProducerAction)
    requires Safe(cx, w) && Backed(w) && ProducerEnabled(cx, w, a)
    requires VisibleForward(w, ByProducer(a), ProducerApply(cx, w, a))
    ensures Backed(ProducerApply(cx, w, a)) && DurableForward(w, ProducerApply(cx, w, a))
  {}

  lemma ReconcilerBacked(cx: Context, w: World, k: nat, a: ReconcilerAction)
    requires cx.discipline.synced && Safe(cx, w) && Backed(w) && ReconcilerEnabled(cx, w, k, a)
    requires VisibleForward(w, ByReconciler(k, a), ReconcilerApply(cx, w, k, a))
    ensures Backed(ReconcilerApply(cx, w, k, a)) && DurableForward(w, ReconcilerApply(cx, w, k, a))
  {
    hide ProducerInv, CallInv;
  }

  lemma EnvironmentBacked(w: World, a: EnvironmentAction)
    requires Backed(w)
    ensures Backed(EnvironmentApply(w, a)) && DurableForward(w, EnvironmentApply(w, a))
  {}

  lemma StepBacked(cx: Context, w: World, a: Action)
    requires cx.discipline.synced && Safe(cx, w) && Backed(w) && Enabled(cx, w, a)
    requires VisibleForward(w, a, Apply(cx, w, a))
    ensures Backed(Apply(cx, w, a)) && DurableForward(w, Apply(cx, w, a))
  {
    hide Safe, Backed, VisibleForward, DurableForward;
    match a
    case ByProducer(p) => ProducerBacked(cx, w, p);
    case ByReconciler(k, r) => ReconcilerBacked(cx, w, k, r);
    case ByEnvironment(e) => EnvironmentBacked(w, e);
  }

  lemma {:induction false} RunBacked(cx: Context, ws: seq<World>, acts: seq<Action>, i: nat)
    requires Lawful(cx) && Serialized(cx.discipline) && cx.discipline.synced && IsRun(cx, ws, acts) && i < |ws|
    ensures Backed(ws[i])
  {
    if i > 0 {
      RunBacked(cx, ws, acts, i - 1);
      RunSafe(cx, ws, acts, i - 1);
      RunOrdered(cx, ws, acts, i - 1);
      StepOrdered(cx, ws[i - 1], acts[i - 1]);
      StepBacked(cx, ws[i - 1], acts[i - 1]);
    }
  }

  // ---------------------------------------------------------------- what goes wrong otherwise

  ghost predicate Reachable(cx: Context, w: World) {
    exists ws, acts :: IsRun(cx, ws, acts) && ws[|ws| - 1] == w
  }

  lemma Extend(cx: Context, ws: seq<World>, acts: seq<Action>, a: Action) returns (ws': seq<World>, acts': seq<Action>)
    requires IsRun(cx, ws, acts) && Enabled(cx, ws[|ws| - 1], a)
    ensures IsRun(cx, ws', acts') && acts' == acts + [a] && ws' == ws + [Apply(cx, ws[|ws| - 1], a)]
  {
    ws', acts' := ws + [Apply(cx, ws[|ws| - 1], a)], acts + [a];
    assert ws'[0] == ws[0];
  }

  lemma Start(cx: Context, f: Files)
    ensures Reachable(cx, Initial(f))
  {
    assert IsRun(cx, [Initial(f)], []);
    assert [Initial(f)][|[Initial(f)]| - 1] == Initial(f);
  }

  lemma Step(cx: Context, w: World, a: Action) returns (w': World)
    requires Reachable(cx, w) && Enabled(cx, w, a)
    ensures w' == Apply(cx, w, a) && Reachable(cx, w')
  {
    var ws, acts :| IsRun(cx, ws, acts) && ws[|ws| - 1] == w;
    var ws', acts' := Extend(cx, ws, acts, a);
    w' := Apply(cx, w, a);
    assert ws'[|ws'| - 1] == w';
  }

  /** Inputs and replies with which the protocol can be driven. */
  ghost predicate Playable(cx: Context, i: Inputs, good: Reply, vague: Reply) {
    var cust := cx.custody(i);
    && cx.admits(Record(cx.runId, OutcomeUnknown, Some(cust)), cx.files(i)).Some?
    && cx.verify(good, cust.attempt, cust.marker) == Some(Success)
    && cx.verify(vague, cust.attempt, cust.marker) == Some(Indeterminate)
  }

  /** The producer has issued the effect and waits for the owner. */
  function WaitingWorld(cx: Context, i: Inputs): World {
    var cust := cx.custody(i);
    var rec := Some(Record(cx.runId, OutcomeUnknown, Some(cust)));
    var dispatch := cx.files(i).guestDispatch;
    World(rec, rec, false, None, false, cx.files(i), true,
          Producer(Executing, OutcomeUnknown, Some(cust), Idle, dispatch),
          map[], [Execute(dispatch)], {}, {}, false)
  }

  /** The run root exists and says that no effect was attempted; the dispatch is installed and in custody. */
  function PreparedWorld(cx: Context, i: Inputs): World {
    var rec := Some(Record(cx.runId, NoEffectAttempted, None));
    World(rec, rec, false, None, false, cx.files(i), true,
          Producer(Prepared, OutcomeUnknown, Some(cx.custody(i)), Idle, cx.files(i).guestDispatch),
          map[], [], {}, {}, false)
  }

  /** One complete write of RECOVERY.json by the producer. */
  lemma WriteRecord(cx: Context, w: World) returns (w': World)
    requires Reachable(cx, w) && Writes(w.producer.pc) && w.producer.stage.Idle? && !w.partial
    ensures Reachable(cx, w')
    ensures var rec := Some(Record(cx.runId, w.producer.outcome, w.producer.custody));
            w' == w.(visible := rec, durable := rec, producer := w.producer.(pc :=
              if w.producer.pc.Prepared? then Ready else if w.producer.pc.Refusing? then Refused else w.producer.pc))
  {
    hide Reachable;
    w' := Step(cx, w, ByProducer(WritePartial));
    w' := Step(cx, w', ByProducer(WriteReplace));
    w' := Step(cx, w', ByProducer(WriteSync));
  }

  lemma ReachPrepared(cx: Context, i: Inputs)
    ensures Reachable(cx, PreparedWorld(cx, i))
  {
    hide Reachable;
    Start(cx, cx.files(i));
    var w := Step(cx, Initial(cx.files(i)), ByProducer(CreateRun));
    w := WriteRecord(cx, w);
    w := Step(cx, w, ByProducer(PrepareDispatch(i)));
    w := Step(cx, w, ByProducer(DeclareUnknown));
  }

  lemma ReachWaiting(cx: Context, i: Inputs)
    ensures Reachable(cx, WaitingWorld(cx, i))
  {
    hide Reachable;
    ReachPrepared(cx, i);
    var w := WriteRecord(cx, PreparedWorld(cx, i));
    w := Step(cx, w, ByProducer(IssueExecute));
    assert [] + [Execute(cx.files(i).guestDispatch)] == WaitingWorld(cx, i).calls;
  }

  /** A reconciler that already passed its evidence check will write its answer over whatever is there. */
  lemma Overwrite(cx: Context, w: World, k: nat) returns (w1: World, w2: World)
    requires Reachable(cx, w) && k in w.reconcilers && !w.partial && !w.evidencePartial
    requires w.reconcilers[k].pc.EvidenceAbsent? && w.reconcilers[k].pc.answer.Indeterminate?
    requires w.reconcilers[k].stage.Idle?
    requires Known(OutcomeIn(w.visible)) && Known(OutcomeIn(w.durable))
    ensures Reachable(cx, w1) && Enabled(cx, w1, ByReconciler(k, RecoveryReplace))
    ensures !VisibleForward(w1, ByReconciler(k, RecoveryReplace), Apply(cx, w1, ByReconciler(k, RecoveryReplace)))
    ensures Reachable(cx, w2) && Enabled(cx, w2, ByReconciler(k, RecoverySync))
    ensures !DurableForward(w2, Apply(cx, w2, ByReconciler(k, RecoverySync)))
  {
    hide Reachable;
    w1 := Step(cx, w, ByReconciler(k, EvidenceCreate));
    w1 := Step(cx, w1, ByReconciler(k, EvidenceReplace));
    w1 := Step(cx, w1, ByReconciler(k, RecoveryPartial));
    w2 := Step(cx, w1, ByReconciler(k, RecoveryReplace));
  }

  /** A loaded reconciler inspects, is admitted, asks the owner and finds no retained evidence. */
  lemma AskOwner(cx: Context, w: World, k: nat, reply: Reply, answer: Answer) returns (w': World)
    requires Lawful(cx) && Reachable(cx, w) && k in w.reconcilers && w.reconcilers[k].pc.Loaded?
    requires !Alive(w.producer) && w.targetActive && w.evidence.None?
    requires w.reconcilers[k].record.custody == w.producer.custody
    requires cx.admits(w.reconcilers[k].record, w.files).Some?
    requires OwnerMay(cx, w, reply) && Class(cx, w, reply) == Some(answer)
    ensures Reachable(cx, w')
    ensures w' == w.(calls := w'.calls, replies := w'.replies, reported := w.reported + {answer},
                     reconcilers := w.reconcilers[k := w.reconcilers[k].(pc := EvidenceAbsent(reply, answer))])
  {
    hide Reachable;
    w' := Step(cx, w, ByReconciler(k, Inspect));
    w' := Step(cx, w', ByReconciler(k, Admit));
    w' := Step(cx, w', ByReconciler(k, Ask(reply)));
    w' := Step(cx, w', ByReconciler(k, EvidenceCheck));
  }

  /** It then retains the reply and replaces RECOVERY.json. */
  lemma Commit(cx: Context, w: World, k: nat) returns (w': World)
    requires Reachable(cx, w) && k in w.reconcilers && !w.partial && !w.evidencePartial
    requires w.reconcilers[k].pc.EvidenceAbsent? && w.reconcilers[k].stage.Idle?
    ensures Reachable(cx, w') && Enabled(cx, w', ByReconciler(k, RecoverySync))
    ensures w' == w.(visible := w'.visible, evidence := Some(w.reconcilers[k].pc.reply), reconcilers := w'.reconcilers)
    ensures w'.visible == Some(w.reconcilers[k].record.(outcome := OutcomeState(w.reconcilers[k].pc.answer)))
    ensures w'.reconcilers.Keys == w.reconcilers.Keys
    ensures forall j :: j in w.reconcilers && j != k ==> w'.reconcilers[j] == w.reconcilers[j]
  {
    hide Reachable;
    w' := Step(cx, w, ByReconciler(k, EvidenceCreate));
    w' := Step(cx, w', ByReconciler(k, EvidenceReplace));
    w' := Step(cx, w', ByReconciler(k, RecoveryPartial));
    w' := Step(cx, w', ByReconciler(k, RecoveryReplace));
  }

  /** Two reconciles ask at the same time, and the owner answers them differently. */
  lemma BothAsk(cx: Context, i: Inputs, good: Reply, vague: Reply) returns (w: World)
    requires Lawful(cx) && !cx.discipline.oneAtATime && Playable(cx, i, good, vague)
    ensures Reachable(cx, w) && !w.partial && !w.evidencePartial && 0 in w.reconcilers && 1 in w.reconcilers
    ensures w.reconcilers[0].pc == EvidenceAbsent(vague, Indeterminate) && w.reconcilers[0].stage.Idle?
    ensures w.reconcilers[1].pc == EvidenceAbsent(good, Success) && w.reconcilers[1].stage.Idle?
  {
    hide Reachable;
    ReachWaiting(cx, i);
    w := Step(cx, WaitingWorld(cx, i), ByProducer(ProducerCrash));
    w := Step(cx, w, ByReconciler(0, Load));
    w := Step(cx, w, ByReconciler(1, Load));
    w := AskOwner(cx, w, 0, vague, Indeterminate);
    w := AskOwner(cx, w, 1, good, Success);
  }

  /** Two overlapping reconciles: the slower one restores "unknown" over the known outcome of the faster one. */
  lemma OverlappingReconcilesRegress(cx: Context, i: Inputs, good: Reply, vague: Reply) returns (w1: World, w2: World)
    requires Lawful(cx) && !cx.discipline.oneAtATime && Playable(cx, i, good, vague)
    ensures Reachable(cx, w1) && Enabled(cx, w1, ByReconciler(0, RecoveryReplace))
    ensures !VisibleForward(w1, ByReconciler(0, RecoveryReplace), Apply(cx, w1, ByReconciler(0, RecoveryReplace)))
    ensures Reachable(cx, w2) && Enabled(cx, w2, ByReconciler(0, RecoverySync))
    ensures !DurableForward(w2, Apply(cx, w2, ByReconciler(0, RecoverySync)))
  {
    hide Reachable, VisibleForward, DurableForward, Playable;
    var w := BothAsk(cx, i, good, vague);
    w := Commit(cx, w, 1);
    w := Step(cx, w, ByReconciler(1, RecoverySync));
    w1, w2 := Overwrite(cx, w, 0);
  }

  /** A reconcile that read the record while the producer still ran forgets the producer's known outcome. */
  lemma StaleReconcileRegresses(cx: Context, i: Inputs, good: Reply, vague: Reply) returns (w1: World, w2: World)
    requires Lawful(cx) && !cx.discipline.afterProducer && !cx.discipline.consistentOwner
            && Playable(cx, i, good, vague)
    ensures Reachable(cx, w1) && Enabled(cx, w1, ByReconciler(0, RecoveryReplace))
    ensures !VisibleForward(w1, ByReconciler(0, RecoveryReplace), Apply(cx, w1, ByReconciler(0, RecoveryReplace)))
    ensures Reachable(cx, w2) && Enabled(cx, w2, ByReconciler(0, RecoverySync))
    ensures !DurableForward(w2, Apply(cx, w2, ByReconciler(0, RecoverySync)))
  {
    hide Reachable, VisibleForward, DurableForward;
    ReachWaiting(cx, i);
    var w := Step(cx, WaitingWorld(cx, i), ByReconciler(0, Load));
    w := Step(cx, w, ByProducer(OwnerReplies(good)));
    w := Step(cx, w, ByProducer(TakeOutcome));
    w := WriteRecord(cx, w);
    w := Step(cx, w, ByProducer(ProducerCrash));
    w := AskOwner(cx, w, 0, vague, Indeterminate);
    w1, w2 := Overwrite(cx, w, 0);
  }

  /**
   The producer dies between renaming "outcome unknown" into place and syncing the directory. A reconcile reads the
   renamed record, and its own sync takes the durable outcome from "no effect attempted" to "known" at once.
   */
  lemma UnsyncedReconcileSkipsUnknown(cx: Context, i: Inputs, good: Reply, vague: Reply) returns (w: World)
    requires Lawful(cx) && !cx.discipline.synced && Playable(cx, i, good, vague)
    ensures Reachable(cx, w) && Enabled(cx, w, ByReconciler(0, RecoverySync))
    ensures OutcomeIn(w.durable).NoEffectAttempted?
    ensures OutcomeIn(Apply(cx, w, ByReconciler(0, RecoverySync)).durable).KnownSuccess?
  {
    hide Reachable;
    ReachPrepared(cx, i);
    w := Step(cx, PreparedWorld(cx, i), ByProducer(WritePartial));
    w := Step(cx, w, ByProducer(WriteReplace));
    w := Step(cx, w, ByProducer(ProducerCrash));
    w := Step(cx, w, ByReconciler(0, Load));
    w := AskOwner(cx, w, 0, good, Success);
    w := Commit(cx, w, 0);
  }

  // ---------------------------------------------------------------- the exact conditions

  const RECEIPT: string := "sha256:" + seq(64, _ => '0')

  lemma CodecIsPlayable(c: Codec, runId: string, disc: Discipline) returns (i: Inputs, good: Reply, vague: Reply)
    ensures Playable(ContextOf(c, runId, disc), i, good, vague)
  {
    i := Inputs(runId, "", "");
    var cust := PreparedCustody(c, runId, i);
    good := Reply(true, cust.attempt, cust.marker, RECEIPT, "success");
    vague := Reply(true, cust.attempt, cust.marker, RECEIPT, "indeterminate");
    assert IsReceipt(RECEIPT);
    PreparedIsAdmitted(c, runId, i);
  }

  lemma PreparedIsAdmitted(c: Codec, runId: string, i: Inputs)
    requires i.runId == runId
    ensures var rec := Record(runId, OutcomeUnknown, Some(PreparedCustody(c, runId, i)));
            Admits(c, rec, PreparedFiles(c, runId, i)).Some?
  {}

  /** A reached world and an enabled action are consecutive in some run. */
  lemma InSomeRun(cx: Context, w: World, a: Action) returns (ws: seq<World>, acts: seq<Action>, n: nat)
    requires Reachable(cx, w) && Enabled(cx, w, a)
    ensures IsRun(cx, ws, acts) && n < |acts| && ws[n] == w && acts[n] == a
  {
    hide Apply, Enabled;
    var vs, before :| IsRun(cx, vs, before) && vs[|vs| - 1] == w;
    ws, acts := Extend(cx, vs, before, a);
    n := |before|;
  }

  /**
   Exactly when reconciles run one at a time, and either start after the producer is gone or face an owner that
   never contradicts a definite answer, does the readable outcome move along the chain in every run.
   */
  lemma ForwardIffSerialized(c: Codec, runId: string, disc: Discipline)
    ensures RunsVisiblyForward(ContextOf(c, runId, disc)) <==> Serialized(disc)
  {
    hide Apply, Enabled, VisibleForward, DurableForward, Reachable, Playable, Safe, Ordered;
    var cx := ContextOf(c, runId, disc);
    ContextOfIsLawful(c, runId, disc);
    if Serialized(disc) {
      forall ws, acts, i | IsRun(cx, ws, acts) && 0 <= i < |acts|
        ensures VisibleForward(ws[i], acts[i], Apply(cx, ws[i], acts[i]))
      {
        RunSafe(cx, ws, acts, i);
        RunOrdered(cx, ws, acts, i);
        StepOrdered(cx, ws[i], acts[i]);
      }
    } else {
      var i, good, vague := CodecIsPlayable(c, runId, disc);
      var w, w2;
      if !disc.oneAtATime {
        w, w2 := OverlappingReconcilesRegress(cx, i, good, vague);
      } else {
        w, w2 := StaleReconcileRegresses(cx, i, good, vague);
      }
      var ws, acts, n := InSomeRun(cx, w, ByReconciler(0, RecoveryReplace));
      assert !VisibleForward(ws[n], acts[n], Apply(cx, ws[n], acts[n]));
    }
  }

  /**
   The durable outcome moves along the chain in every run exactly when, besides, reconciles start on a synced record.
   */
  lemma DurableForwardIffSynced(c: Codec, runId: string, disc: Discipline)
    ensures RunsDurablyForward(ContextOf(c, runId, disc)) <==> Serialized(disc) && disc.synced
  {
    hide Apply, Enabled, VisibleForward, Reachable, Playable, Safe, Ordered, Backed;
    var cx := ContextOf(c, runId, disc);
    ContextOfIsLawful(c, runId, disc);
    if Serialized(disc) && disc.synced {
      forall ws, acts, i | IsRun(cx, ws, acts) && 0 <= i < |acts|
        ensures DurableForward(ws[i], Apply(cx, ws[i], acts[i]))
      {
        RunSafe(cx, ws, acts, i);
        RunOrdered(cx, ws, acts, i);
        StepOrdered(cx, ws[i], acts[i]);
        RunBacked(cx, ws, acts, i);
        StepBacked(cx, ws[i], acts[i]);
      }
    } else {
      var i, good, vague := CodecIsPlayable(c, runId, disc);
      var w, w1;
      if !disc.oneAtATime {
        w1, w := OverlappingReconcilesRegress(cx, i, good, vague);
      } else if !Serialized(disc) {
        w1, w := StaleReconcileRegresses(cx, i, good, vague);
      } else {
        w := UnsyncedReconcileSkipsUnknown(cx, i, good, vague);
      }
      var ws, acts, n := InSomeRun(cx, w, ByReconciler(0, RecoverySync));
      assert !DurableForward(ws[n], Apply(cx, ws[n], acts[n]));
    }
  }
}
