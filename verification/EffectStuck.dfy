/**
 When a retained unknown outcome can still be resolved, and two ways in which it no longer can, whatever the owner
 answers later.
 */
module EffectStuck {
  import opened Prelude
  import opened EffectDispatch
  import opened EffectCustody
  import opened EffectOrder

  /** No reconciler can get past its inspection any more. */
  ghost predicate Unreachable(w: World) {
    !w.targetActive && forall k :: k in w.reconcilers ==> w.reconcilers[k].pc.Loaded?
  }

  // ---------------------------------------------------------------- a leftover RECOVERY.json.partial

  ghost predicate Blocked(w: World) {
    && w.producer.pc.Gone?
    && (forall k :: k in w.reconcilers ==> w.reconcilers[k].stage.Idle?)
    && (w.partial || Unreachable(w))
  }

  lemma GoneIsIdle(cx: Context, w: World, a: ProducerAction)
    requires w.producer.pc.Gone?
    ensures !ProducerEnabled(cx, w, a)
  {}

  lemma ReconcilerBlocked(cx: Context, w: World, k: nat, a: ReconcilerAction)
    requires Blocked(w) && ReconcilerEnabled(cx, w, k, a)
    ensures Blocked(ReconcilerApply(cx, w, k, a))
    ensures ReconcilerApply(cx, w, k, a).visible == w.visible && ReconcilerApply(cx, w, k, a).durable == w.durable
    ensures w.partial ==> ReconcilerApply(cx, w, k, a).partial
  {}

  lemma EnvironmentBlocked(w: World, a: EnvironmentAction)
    requires Blocked(w)
    ensures Blocked(EnvironmentApply(w, a))
    ensures EnvironmentApply(w, a).visible in {w.visible, w.durable}
            && EnvironmentApply(w, a).durable in {w.visible, w.durable}
  {}

  lemma StepBlocked(cx: Context, w: World, a: Action)
    requires Blocked(w) && Enabled(cx, w, a)
    ensures Blocked(Apply(cx, w, a))
    ensures Apply(cx, w, a).visible in {w.visible, w.durable} && Apply(cx, w, a).durable in {w.visible, w.durable}
  {
    match a
    case ByProducer(p) => GoneIsIdle(cx, w, p);
    case ByReconciler(k, r) => ReconcilerBlocked(cx, w, k, r);
    case ByEnvironment(e) => EnvironmentBlocked(w, e);
  }

  /**
   `atomic_write` creates its temporary file exclusively and never removes a stale one: once a process died inside
   it, with no other process running, RECOVERY.json keeps one of its two current contents forever.
   */
  lemma {:induction false} StalePartialFreezesRecord(cx: Context, ws: seq<World>, acts: seq<Action>, i: nat, j: nat)
    requires IsRun(cx, ws, acts) && i <= j < |ws|
    requires ws[i].producer.pc.Gone? && ws[i].reconcilers == map[] && ws[i].partial
    ensures Blocked(ws[j])
    ensures ws[j].visible in {ws[i].visible, ws[i].durable} && ws[j].durable in {ws[i].visible, ws[i].durable}
  {
    hide Apply, Enabled;
    if i < j {
      StalePartialFreezesRecord(cx, ws, acts, i, j - 1);
      StepBlocked(cx, ws[j - 1], acts[j - 1]);
    }
  }

  // ---------------------------------------------------------------- a retained indeterminate answer

  predicate Definite(a: Option<Answer>) { a == Some(Success) || a == Some(Failure) }

  ghost predicate Sticky(cx: Context, w: World) { Fixed(cx, w) && !Known(OutcomeIn(w.durable)) }

  /** The readable record is not known, and no reconcile will make it so. */
  ghost predicate Fixed(cx: Context, w: World) {
    && w.producer.pc.Gone? && !Known(OutcomeIn(w.visible))
    && (Unreachable(w) ||
        (&& w.evidence.Some? && !Definite(Class(cx, w, w.evidence.value))
         && forall k :: k in w.reconcilers ==> StickyReconciler(w.reconcilers[k])))
  }

  predicate StickyReconciler(r: Reconciler) {
    && !r.pc.EvidenceAbsent? && !r.pc.EvidencePartial?
    && (r.pc.Settled? ==> r.pc.answer.Indeterminate?)
    && (!r.stage.Idle? ==> r.pc.Settled?)
  }

  lemma StepSticky(cx: Context, w: World, a: Action)
    requires Safe(cx, w) && Sticky(cx, w) && Enabled(cx, w, a)
    ensures Sticky(cx, Apply(cx, w, a))
  {
    match a
    case ByProducer(p) => GoneIsIdle(cx, w, p);
    case ByReconciler(k, r) => ReconcilerFixed(cx, w, k, r);
    case ByEnvironment(e) => EnvironmentSticky(cx, w, e);
  }

  lemma EnvironmentSticky(cx: Context, w: World, a: EnvironmentAction)
    requires Sticky(cx, w)
    ensures Sticky(cx, EnvironmentApply(w, a))
  {}

  lemma ReconcilerFixed(cx: Context, w: World, k: nat, a: ReconcilerAction)
    requires Safe(cx, w) && Fixed(cx, w) && ReconcilerEnabled(cx, w, k, a)
    ensures Fixed(cx, ReconcilerApply(cx, w, k, a))
    ensures ReconcilerApply(cx, w, k, a).durable in {w.visible, w.durable}
  {
    hide ProducerInv, RecordInv, CallInv;
    if k in w.reconcilers {
      assert ReconcilerInv(cx, w, w.reconcilers[k]);
    }
  }

  /**
   The first retained reconciliation reply is final: a later reply with other bytes is refused, so after an
   indeterminate one no run of `reconcile-effect`, under any discipline, records a known outcome.
   */
  lemma {:induction false} IndeterminateEvidenceIsFinal(c: Codec, runId: string, disc: Discipline, ws: seq<World>,
      acts: seq<Action>, i: nat, j: nat)
    requires IsRun(ContextOf(c, runId, disc), ws, acts) && i <= j < |ws|
    requires ws[i].producer.pc.Gone? && ws[i].reconcilers == map[]
    requires !Known(OutcomeIn(ws[i].visible)) && !Known(OutcomeIn(ws[i].durable))
    requires ws[i].evidence.Some?
            && Class(ContextOf(c, runId, disc), ws[i], ws[i].evidence.value) == Some(Indeterminate)
    ensures !Known(OutcomeIn(ws[j].visible)) && !Known(OutcomeIn(ws[j].durable))
    ensures Sticky(ContextOf(c, runId, disc), ws[j])
  {
    if i < j {
      IndeterminateEvidenceIsFinal(c, runId, disc, ws, acts, i, j - 1);
      ContextOfIsLawful(c, runId, disc);
      RunSafe(ContextOf(c, runId, disc), ws, acts, j - 1);
      StepSticky(ContextOf(c, runId, disc), ws[j - 1], acts[j - 1]);
    }
  }

  // ---------------------------------------------------------------- both happen

  /** The world a new `reconcile-effect` finds when nothing else runs: it would be allowed to ask the owner. */
  predicate CanAsk(cx: Context, w: World) {
    && w.visible.Some? && w.visible.value.outcome.OutcomeUnknown?
    && !Alive(w.producer) && w.targetActive && cx.admits(w.visible.value, w.files).Some?
    && (cx.discipline.synced ==> w.durable == w.visible)
  }

  ghost predicate Quiet(w: World) { w.producer.pc.Gone? && w.reconcilers == map[] }

  /** The producer dies while its handler writes the refusal: the temporary file stays behind. */
  lemma StalePartialHappens(c: Codec, runId: string, disc: Discipline) returns (w: World)
    ensures var cx := ContextOf(c, runId, disc);
            Reachable(cx, w) && Quiet(w) && CanAsk(cx, w) && w.partial && w.evidence.None? && !w.evidencePartial
  {
    hide Reachable, VerifyOutcome, Admits, PreparedFiles, PreparedCustody;
    var cx := ContextOf(c, runId, disc);
    var i, good, vague := CodecIsPlayable(c, runId, disc);
    ReachWaiting(cx, i);
    w := Step(cx, WaitingWorld(cx, i), ByProducer(Fail));
    w := Step(cx, w, ByProducer(WritePartial));
    w := Step(cx, w, ByProducer(ProducerCrash));
  }

  /** One reconcile is answered "indeterminate" and retains that reply. */
  lemma IndeterminateEvidenceHappens(c: Codec, runId: string, disc: Discipline) returns (w: World)
    ensures var cx := ContextOf(c, runId, disc);
            && Reachable(cx, w) && Quiet(w) && CanAsk(cx, w) && !w.partial
            && w.evidence.Some? && Class(cx, w, w.evidence.value) == Some(Indeterminate)
  {
    hide Reachable, VerifyOutcome, Admits, PreparedFiles, PreparedCustody;
    var cx := ContextOf(c, runId, disc);
    ContextOfIsLawful(c, runId, disc);
    var i, good, vague := CodecIsPlayable(c, runId, disc);
    ReachWaiting(cx, i);
    w := Step(cx, WaitingWorld(cx, i), ByProducer(ProducerCrash));
    w := Step(cx, w, ByReconciler(0, Load));
    w := AskOwner(cx, w, 0, vague, Indeterminate);
    w := Commit(cx, w, 0);
    w := Step(cx, w, ByReconciler(0, RecoverySync));
  }

  // ---------------------------------------------------------------- what the owner's replies leave behind

  /** Retained evidence is a verified reply, and a consistent owner has given at most one definite answer. */
  ghost predicate Retained(cx: Context, w: World) {
    && (w.evidence.Some? ==>
          w.producer.custody.Some? && Class(cx, w, w.evidence.value).Some?
                && Class(cx, w, w.evidence.value).value in w.reported)
    && (w.reported != {} ==> w.producer.custody.Some?)
    && (forall k :: k in w.reconcilers ==> Holds(cx, w, w.reconcilers[k]))
    && (cx.discipline.consistentOwner ==> OneDefinite(w.reported))
  }

  predicate OneDefinite(reported: set<Answer>) { !(Success in reported && Failure in reported) }

  ghost predicate Holds(cx: Context, w: World, r: Reconciler) {
    match r.pc
    case EvidenceAbsent(reply, a) => Class(cx, w, reply) == Some(a)
    case EvidencePartial(reply, a) => Class(cx, w, reply) == Some(a)
    case _ => true
  }

  lemma ProducerRetained(cx: Context, w: World, a: ProducerAction)
    requires Safe(cx, w) && Retained(cx, w) && ProducerEnabled(cx, w, a)
    ensures Retained(cx, ProducerApply(cx, w, a))
  {
    hide RecordInv, CallInv;
  }

  lemma QuestionRetained(cx: Context, w: World, k: nat, a: ReconcilerAction)
    requires Safe(cx, w) && Retained(cx, w) && ReconcilerEnabled(cx, w, k, a)
    requires a.Load? || a.Inspect? || a.Admit? || a.Ask?
    ensures Retained(cx, ReconcilerApply(cx, w, k, a))
  {
    hide RecordInv, CallInv, ProducerInv;
    if k in w.reconcilers {
      assert ReconcilerInv(cx, w, w.reconcilers[k]);
    }
  }

  lemma EvidenceRetained(cx: Context, w: World, k: nat, a: ReconcilerAction)
    requires Safe(cx, w) && Retained(cx, w) && ReconcilerEnabled(cx, w, k, a)
    requires a.EvidenceCheck? || a.EvidenceCreate? || a.EvidenceReplace?
    ensures Retained(cx, ReconcilerApply(cx, w, k, a))
  {
    hide RecordInv, CallInv, ProducerInv;
    assert ReconcilerInv(cx, w, w.reconcilers[k]) && Holds(cx, w, w.reconcilers[k]);
  }

  lemma RecoveryRetained(cx: Context, w: World, k: nat, a: ReconcilerAction)
    requires Retained(cx, w) && ReconcilerEnabled(cx, w, k, a)
    requires a.RecoveryPartial? || a.RecoveryReplace? || a.RecoverySync? || a.ReconcilerStops?
    ensures Retained(cx, ReconcilerApply(cx, w, k, a))
  {}

  lemma ReconcilerRetained(cx: Context, w: World, k: nat, a: ReconcilerAction)
    requires Safe(cx, w) && Retained(cx, w) && ReconcilerEnabled(cx, w, k, a)
    ensures Retained(cx, ReconcilerApply(cx, w, k, a))
  {
    hide Safe, Retained, ReconcilerApply, ReconcilerEnabled;
    if a.Load? || a.Inspect? || a.Admit? || a.Ask? {
      QuestionRetained(cx, w, k, a);
    } else if a.EvidenceCheck? || a.EvidenceCreate? || a.EvidenceReplace? {
      EvidenceRetained(cx, w, k, a);
    } else {
      RecoveryRetained(cx, w, k, a);
    }
  }

  lemma EnvironmentRetained(cx: Context, w: World, a: EnvironmentAction)
    requires Retained(cx, w)
    ensures Retained(cx, EnvironmentApply(w, a))
  {}

  lemma StepRetained(cx: Context, w: World, a: Action)
    requires Safe(cx, w) && Retained(cx, w) && Enabled(cx, w, a)
    ensures Retained(cx, Apply(cx, w, a))
  {
    hide Safe, Retained;
    match a
    case ByProducer(p) => ProducerRetained(cx, w, p);
    case ByReconciler(k, r) => ReconcilerRetained(cx, w, k, r);
    case ByEnvironment(e) => EnvironmentRetained(cx, w, e);
  }

  lemma {:induction false} RunRetained(cx: Context, ws: seq<World>, acts: seq<Action>, i: nat)
    requires Lawful(cx) && IsRun(cx, ws, acts) && i < |ws|
    ensures Retained(cx, ws[i])
  {
    if i > 0 {
      hide Apply, Enabled, Retained, Safe, Lawful;
      RunRetained(cx, ws, acts, i - 1);
      RunSafe(cx, ws, acts, i - 1);
      StepRetained(cx, ws[i - 1], acts[i - 1]);
    }
  }

  lemma ReachableIsSafe(cx: Context, w: World)
    requires Lawful(cx) && Reachable(cx, w)
    ensures Safe(cx, w) && Retained(cx, w)
  {
    hide Safe, Retained, Apply, Enabled, Lawful;
    var ws, acts :| IsRun(cx, ws, acts) && ws[|ws| - 1] == w;
    RunSafe(cx, ws, acts, |ws| - 1);
    RunRetained(cx, ws, acts, |ws| - 1);
  }

  // ---------------------------------------------------------------- when reconciling can still help

  /** `reconcile-effect` commands only, any number of them, interleaved and interrupted in any way. */
  ghost predicate Reconciling(cx: Context, ws: seq<World>, acts: seq<Action>) {
    && |ws| == |acts| + 1
    && forall i :: 0 <= i < |acts| ==>
         acts[i].ByReconciler? && Enabled(cx, ws[i], acts[i]) && ws[i + 1] == Apply(cx, ws[i], acts[i])
  }

  ghost predicate Leads(cx: Context, w: World, w': World) {
    exists ws, acts :: Reconciling(cx, ws, acts) && ws[0] == w && ws[|ws| - 1] == w'
  }

  ghost predicate Resolvable(cx: Context, w: World) {
    exists w' :: Leads(cx, w, w') && Known(OutcomeIn(w'.visible))
  }

  /**
   The question may be asked, and neither a leftover file nor the retained reply stands in the way of a known record.
   */
  predicate Open(cx: Context, w: World) {
    && CanAsk(cx, w) && !w.partial
    && if w.evidence.Some? then Definite(Class(cx, w, w.evidence.value)) else !w.evidencePartial
  }

  lemma LeadsNowhere(cx: Context, w: World)
    ensures Leads(cx, w, w)
  {
    assert Reconciling(cx, [w], []);
    assert [w][|[w]| - 1] == w;
  }

  lemma LeadsOn(cx: Context, w: World, v: World, k: nat, a: ReconcilerAction) returns (v': World)
    requires Leads(cx, w, v) && ReconcilerEnabled(cx, v, k, a)
    ensures v' == ReconcilerApply(cx, v, k, a) && Leads(cx, w, v')
  {
    hide ReconcilerApply, ReconcilerEnabled;
    var ws, acts :| Reconciling(cx, ws, acts) && ws[0] == w && ws[|ws| - 1] == v;
    v' := ReconcilerApply(cx, v, k, a);
    var ws', acts' := ws + [v'], acts + [ByReconciler(k, a)];
    assert Reconciling(cx, ws', acts') && ws'[0] == w && ws'[|ws'| - 1] == v';
  }

  /** A reply that the owner may give and that settles the outcome. */
  ghost predicate Settles(cx: Context, w: World, reply: Reply) {
    && OwnerMay(cx, w, reply) && Definite(Class(cx, w, reply))
    && (w.evidence.Some? ==> w.evidence.value == reply)
  }

  lemma SettlingReply(c: Codec, runId: string, disc: Discipline, w: World) returns (reply: Reply)
    requires Retained(ContextOf(c, runId, disc), w) && w.producer.custody.Some?
    requires w.evidence.Some? ==> Definite(Class(ContextOf(c, runId, disc), w, w.evidence.value))
    ensures Settles(ContextOf(c, runId, disc), w, reply)
  {
    var attempt, marker := AttemptOf(w).0, AttemptOf(w).1;
    assert IsReceipt(RECEIPT);
    if w.evidence.Some? {
      reply := w.evidence.value;
    } else if Failure in w.reported {
      reply := Reply(true, attempt, marker, RECEIPT, "failure");
      assert Class(ContextOf(c, runId, disc), w, reply) == Some(Failure);
    } else {
      reply := Reply(true, attempt, marker, RECEIPT, "success");
      assert Class(ContextOf(c, runId, disc), w, reply) == Some(Success);
    }
  }

  lemma AskAndCheck(cx: Context, w: World, reply: Reply) returns (v: World)
    requires Lawful(cx) && Quiet(w) && Open(cx, w) && Settles(cx, w, reply)
            && w.visible.value.custody == w.producer.custody
    ensures Leads(cx, w, v) && 0 in v.reconcilers && v.reconcilers[0].stage.Idle?
    ensures v.partial == w.partial && v.evidencePartial == w.evidencePartial && v.evidence == w.evidence
    ensures if w.evidence.Some? then v.reconcilers[0].pc.Settled? else v.reconcilers[0].pc.EvidenceAbsent?
    ensures Known(OutcomeState(v.reconcilers[0].pc.answer))
  {
    hide Leads;
    LeadsNowhere(cx, w);
    v := LeadsOn(cx, w, w, 0, Load);
    v := LeadsOn(cx, w, v, 0, Inspect);
    v := LeadsOn(cx, w, v, 0, Admit);
    v := LeadsOn(cx, w, v, 0, Ask(reply));
    v := LeadsOn(cx, w, v, 0, EvidenceCheck);
  }

  /** Asking with a settling reply reaches the point where only RECOVERY.json is left to write. */
  lemma AskAndSettle(cx: Context, w: World, reply: Reply) returns (v: World)
    requires Lawful(cx) && Quiet(w) && Open(cx, w) && Settles(cx, w, reply)
            && w.visible.value.custody == w.producer.custody
    ensures Leads(cx, w, v) && 0 in v.reconcilers && !v.partial && v.reconcilers[0].stage.Idle?
    ensures v.reconcilers[0].pc.Settled? && Known(OutcomeState(v.reconcilers[0].pc.answer))
  {
    hide Leads, Lawful, Settles, Class;
    v := AskAndCheck(cx, w, reply);
    if w.evidence.None? {
      v := LeadsOn(cx, w, v, 0, EvidenceCreate);
      v := LeadsOn(cx, w, v, 0, EvidenceReplace);
    }
  }

  lemma OpenIsResolvable(c: Codec, runId: string, disc: Discipline, w: World)
    requires var cx := ContextOf(c, runId, disc); Reachable(cx, w) && Quiet(w) && Open(cx, w)
    ensures Resolvable(ContextOf(c, runId, disc), w)
  {
    hide Reachable, Leads, Settles, Open;
    var cx := ContextOf(c, runId, disc);
    ContextOfIsLawful(c, runId, disc);
    ReachableIsSafe(cx, w);
    OpenHasCustody(cx, w);
    var reply := SettlingReply(c, runId, disc, w);
    var v := AskAndSettle(cx, w, reply);
    v := LeadsOn(cx, w, v, 0, RecoveryPartial);
    v := LeadsOn(cx, w, v, 0, RecoveryReplace);
  }

  lemma OpenHasCustody(cx: Context, w: World)
    requires Safe(cx, w) && Open(cx, w)
    ensures w.visible.Some? && w.visible.value.custody == w.producer.custody && w.producer.custody.Some?
    ensures w.evidence.Some? ==> Definite(Class(cx, w, w.evidence.value))
  {}

  // ---------------------------------------------------------------- why nothing helps otherwise

  /** No reconcile gets as far as its question. */
  ghost predicate Unaskable(cx: Context, w: World) {
    && w.producer.pc.Gone? && w.visible.Some?
    && (|| (cx.discipline.synced && w.durable != w.visible && w.reconcilers == map[])
        || (&& (!w.targetActive || cx.admits(w.visible.value, w.files).None?)
            && forall k :: k in w.reconcilers ==>
                 && w.reconcilers[k].record == w.visible.value && w.reconcilers[k].stage.Idle?
                 && (w.reconcilers[k].pc.Loaded? || (w.reconcilers[k].pc.Inspected? && w.targetActive))))
  }

  /** No reconcile can retain its reply. */
  ghost predicate Unretainable(w: World) {
    && w.producer.pc.Gone? && w.evidence.None? && w.evidencePartial
    && forall k :: k in w.reconcilers ==>
         !w.reconcilers[k].pc.EvidencePartial? && !w.reconcilers[k].pc.Settled? && w.reconcilers[k].stage.Idle?
  }

  ghost predicate Closed(cx: Context, w: World) {
    && !Known(OutcomeIn(w.visible))
    && (Unaskable(cx, w) || (w.partial && Blocked(w)) || Fixed(cx, w) || Unretainable(w))
  }

  lemma ReconcilerUnaskable(cx: Context, w: World, k: nat, a: ReconcilerAction)
    requires Unaskable(cx, w) && ReconcilerEnabled(cx, w, k, a)
    ensures var w' := ReconcilerApply(cx, w, k, a); Unaskable(cx, w') && w'.visible == w.visible
  {}

  lemma ReconcilerUnretainable(cx: Context, w: World, k: nat, a: ReconcilerAction)
    requires Unretainable(w) && ReconcilerEnabled(cx, w, k, a)
    ensures var w' := ReconcilerApply(cx, w, k, a); Unretainable(w') && w'.visible == w.visible
  {}

  lemma ReconcilerClosed(cx: Context, w: World, k: nat, a: ReconcilerAction)
    requires Safe(cx, w) && Closed(cx, w) && ReconcilerEnabled(cx, w, k, a)
    ensures Closed(cx, ReconcilerApply(cx, w, k, a))
  {
    hide Safe, Unaskable, Unretainable, ReconcilerEnabled, ReconcilerApply;
    if Unaskable(cx, w) {
      ReconcilerUnaskable(cx, w, k, a);
    } else if w.partial && Blocked(w) {
      ReconcilerBlocked(cx, w, k, a);
    } else if Fixed(cx, w) {
      ReconcilerFixed(cx, w, k, a);
    } else {
      ReconcilerUnretainable(cx, w, k, a);
    }
  }

  lemma {:induction false} StaysClosed(cx: Context, ws: seq<World>, acts: seq<Action>, i: nat)
    requires Lawful(cx) && Reconciling(cx, ws, acts) && i < |ws| && Safe(cx, ws[0]) && Closed(cx, ws[0])
    ensures Safe(cx, ws[i]) && Closed(cx, ws[i])
  {
    if i > 0 {
      hide Apply, Enabled, Safe, Closed, Lawful;
      StaysClosed(cx, ws, acts, i - 1);
      StepSafe(cx, ws[i - 1], acts[i - 1]);
      ClosedStep(cx, ws[i - 1], acts[i - 1]);
    }
  }

  lemma ClosedStep(cx: Context, w: World, a: Action)
    requires Safe(cx, w) && Closed(cx, w) && Enabled(cx, w, a) && a.ByReconciler?
    ensures Closed(cx, Apply(cx, w, a))
  {
    hide Safe, Closed, ReconcilerApply, ReconcilerEnabled;
    ReconcilerClosed(cx, w, a.k, a.r);
  }

  lemma NotOpenIsClosed(cx: Context, w: World)
    requires Quiet(w) && w.visible.Some? && w.visible.value.outcome.OutcomeUnknown?
    requires !Open(cx, w)
    ensures Closed(cx, w)
  {}

  /**
   A retained unknown outcome that is left alone can still be resolved by reconcile commands exactly when the question
   may be asked, no temporary RECOVERY.json is left behind, and the retained reply is definite or, if there is none, no
   temporary evidence file is left behind.
   */
  lemma ResolvableIffOpen(c: Codec, runId: string, disc: Discipline, w: World)
    requires Reachable(ContextOf(c, runId, disc), w) && Quiet(w)
    requires w.visible.Some? && w.visible.value.outcome.OutcomeUnknown?
    ensures Resolvable(ContextOf(c, runId, disc), w) <==> Open(ContextOf(c, runId, disc), w)
  {
    hide Reachable, Open, Closed, Safe, ContextOf, Retained, Lawful;
    var cx := ContextOf(c, runId, disc);
    ContextOfIsLawful(c, runId, disc);
    ReachableIsSafe(cx, w);
    if Open(cx, w) {
      OpenIsResolvable(c, runId, disc, w);
    } else {
      NotOpenIsClosed(cx, w);
      forall w' | Leads(cx, w, w') ensures !Known(OutcomeIn(w'.visible)) {
        var ws, acts :| Reconciling(cx, ws, acts) && ws[0] == w && ws[|ws| - 1] == w';
        StaysClosed(cx, ws, acts, |ws| - 1);
        ClosedIsUnknown(cx, w');
      }
    }
  }

  lemma ClosedIsUnknown(cx: Context, w: World)
    requires Closed(cx, w)
    ensures !Known(OutcomeIn(w.visible))
  {}
}
