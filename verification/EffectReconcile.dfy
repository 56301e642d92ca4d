/**
 `reconcile-effect` as the program it is: one command that reads the run root, asks the effect owner about the retained
 attempt, and updates the evidence and RECOVERY.json in place.  A ghost world shows that the command is a run of the
 step system, so that the safety theorems cover it; the contract says what one undisturbed call does.
 */
module EffectReconcile {
  import opened Prelude
  import opened AtomicFile
  import opened EffectDispatch
  import opened EffectCustody
  import opened EffectOrder

  const EVIDENCE: string := "evidence/reconciliation-outcome-v1.json"

  /** The two records and their temporary files are four names. */
  lemma FourNames()
    ensures |RECOVERY| < |PartialOf(RECOVERY)| < |EVIDENCE| < |PartialOf(EVIDENCE)|
  {}

  /** What the command has left to do once the reply is judged. */
  function Judging(evidence: Option<Reply>, reply: Reply, answer: Answer): ReconcilePc {
    if evidence.Some? then Settled(reply, answer) else EvidenceAbsent(reply, answer)
  }

  class RunRoot {
    const cx: Context
    const dir: RunDirectory
    const render: Record -> string             // the canonical JSON of a record
    const renderReply: Reply -> string         // the canonical JSON of an owner reply
    const files: Files
    const targetActive: bool
    const producerAlive: bool
    var recovery: Option<Record>               // RECOVERY.json
    var evidence: Option<Reply>                // evidence/reconciliation-outcome-v1.json
    ghost var world: World

    ghost function RecordBytes(r: Option<Record>): Option<string> {
      if r.Some? then Some(render(r.value)) else None
    }

    ghost function ReplyBytes(r: Option<Reply>): Option<string> {
      if r.Some? then Some(renderReply(r.value)) else None
    }

    /** The directory shows what the world says. */
    ghost predicate OnDisk(w: World) reads this, dir {
      && dir.Valid()
      && Shows(dir.files, RECOVERY, RecordBytes(w.visible)) && Shows(dir.durable, RECOVERY, RecordBytes(w.durable))
      && Shows(dir.files, EVIDENCE, ReplyBytes(w.evidence))
      && (PartialOf(RECOVERY) in dir.files <==> w.partial) && (PartialOf(EVIDENCE) in dir.files <==> w.evidencePartial)
    }

    ghost predicate Valid() reads this, dir {
      && Reachable(cx, world) && Lawful(cx) && Reads(cx) && OnDisk(world)
      && world.visible == recovery && world.evidence == evidence
      && world.files == files && world.targetActive == targetActive && Alive(world.producer) == producerAlive
    }

    /** A new process, in a run root that was left behind in a reached world. */
    constructor (codec: Codec, runId: string, discipline: Discipline, dir: RunDirectory,
                 render: Record -> string, renderReply: Reply -> string,
                 files: Files, targetActive: bool, producerAlive: bool,
                 recovery: Option<Record>, evidence: Option<Reply>, ghost world: World)
      requires Reachable(ContextOf(codec, runId, discipline), world) && dir.Valid()
      requires Shows(dir.files, RECOVERY, if recovery.Some? then Some(render(recovery.value)) else None)
      requires Shows(dir.durable, RECOVERY, if world.durable.Some? then Some(render(world.durable.value)) else None)
      requires Shows(dir.files, EVIDENCE, if evidence.Some? then Some(renderReply(evidence.value)) else None)
      requires (PartialOf(RECOVERY) in dir.files <==> world.partial)
              && (PartialOf(EVIDENCE) in dir.files <==> world.evidencePartial)
      requires world.visible == recovery && world.evidence == evidence
      requires world.files == files && world.targetActive == targetActive && Alive(world.producer) == producerAlive
      ensures Valid() && this.world == world && cx == ContextOf(codec, runId, discipline) && this.dir == dir
    {
      cx, this.dir := ContextOf(codec, runId, discipline), dir;
      this.render, this.renderReply := render, renderReply;
      this.files, this.targetActive, this.producerAlive := files, targetActive, producerAlive;
      this.recovery, this.evidence, this.world := recovery, evidence, world;
      ContextOfIsLawful(codec, runId, discipline);
      ContextOfReads(codec, runId, discipline);
    }

    /** The command may start, and is alone. */
    ghost predicate Free() reads this {
      && world.reconcilers == map[] && (cx.discipline.afterProducer ==> !producerAlive)
      && (cx.discipline.synced ==> world.durable == world.visible)
    }

    ghost method Act(k: nat, a: ReconcilerAction)
      requires Reachable(cx, world) && ReconcilerEnabled(cx, world, k, a)
      modifies this`world
      ensures Reachable(cx, world) && world == ReconcilerApply(cx, old(world), k, a)
    {
      world := Step(cx, world, ByReconciler(k, a));
    }

    /** The single reconciler of a free run root after one more step. */
    ghost predicate Only(k: nat, r: Reconciler) reads this { world.reconcilers == map[k := r] }

    ghost method Stop(k: nat, r: Reconciler)
      requires Reachable(cx, world) && Only(k, r)
      modifies this`world
      ensures Reachable(cx, world) && world == old(world).(reconcilers := map[])
    {
      Act(k, ReconcilerStops);
      assert world.reconcilers == map[];
    }

    /** Loading, inspecting and admitting, when all three succeed. */
    ghost method Enter(k: nat, d: Dispatch)
      requires Reachable(cx, world) && Free() && world.visible.Some? && world.visible.value.outcome.OutcomeUnknown?
      requires !Alive(world.producer) && world.targetActive && cx.admits(world.visible.value, world.files) == Some(d)
      modifies this`world
      ensures Reachable(cx, world)
      ensures Only(k, Reconciler(Admitted(d, old(world).files.guestDispatch), old(world).visible.value, Idle))
      ensures world == old(world).(reconcilers := world.reconcilers)
    {
      hide Reachable;
      ghost var rec := world.visible.value;
      Act(k, Load);
      assert world.reconcilers == map[k := Reconciler(Loaded, rec, Idle)];
      Act(k, Inspect);
      assert world.reconcilers == map[k := Reconciler(Inspected, rec, Idle)];
      Act(k, Admit);
      assert world.reconcilers == map[k := Reconciler(Admitted(d, world.files.guestDispatch), rec, Idle)];
    }

    ghost method AskOwner(k: nat, r: Reconciler, reply: Reply)
      requires Reachable(cx, world) && Only(k, r) && r.pc.Admitted? && OwnerMay(cx, world, reply)
      modifies this`world
      ensures Reachable(cx, world)
      ensures world == old(world).(calls := old(world).calls + [Call.Reconcile(old(world).files.guestDispatch)],
                                   replies := world.replies, reported := world.reported,
                                   reconcilers := map[k := r.(pc := Asked(r.pc.dispatch, reply))])
    {
      Act(k, Ask(reply));
      assert world.reconcilers == map[k := r.(pc := Asked(r.pc.dispatch, reply))];
    }

    ghost method CheckReply(k: nat, r: Reconciler, answer: Answer)
      requires Reachable(cx, world) && Only(k, r) && r.pc.Asked?
      requires cx.verify(r.pc.reply, r.pc.asked.attempt, r.pc.asked.marker) == Some(answer)
      requires world.evidence.Some? ==> world.evidence.value == r.pc.reply
      modifies this`world
      ensures Reachable(cx, world)
      ensures world == old(world).(reconcilers := map[k := r.(pc :=
                if old(world).evidence.Some? then Settled(r.pc.reply, answer) else EvidenceAbsent(r.pc.reply, answer))])
    {
      ghost var next := if world.evidence.Some? then Settled(r.pc.reply, answer)
          else EvidenceAbsent(r.pc.reply, answer);
      Act(k, EvidenceCheck);
      assert world.reconcilers == map[k := r.(pc := next)];
    }

    ghost method CreateEvidence(k: nat, r: Reconciler)
      requires Reachable(cx, world) && Only(k, r) && r.pc.EvidenceAbsent? && !world.evidencePartial
      modifies this`world
      ensures Reachable(cx, world)
      ensures world == old(world).(evidencePartial := true,
                                   reconcilers := map[k := r.(pc := EvidencePartial(r.pc.reply, r.pc.answer))])
    {
      Act(k, EvidenceCreate);
      assert world.reconcilers == map[k := r.(pc := EvidencePartial(r.pc.reply, r.pc.answer))];
    }

    ghost method ReplaceEvidence(k: nat, r: Reconciler)
      requires Reachable(cx, world) && Only(k, r) && r.pc.EvidencePartial?
      modifies this`world
      ensures Reachable(cx, world)
      ensures world == old(world).(evidence := Some(r.pc.reply), evidencePartial := false,
                                   reconcilers := map[k := r.(pc := Settled(r.pc.reply, r.pc.answer))])
    {
      Act(k, EvidenceReplace);
      assert world.reconcilers == map[k := r.(pc := Settled(r.pc.reply, r.pc.answer))];
    }

    ghost method CreateRecovery(k: nat, r: Reconciler)
      requires Reachable(cx, world) && Only(k, r) && r.pc.Settled? && r.stage.Idle? && !world.partial
      modifies this`world
      ensures Reachable(cx, world)
      ensures world == old(world).(partial := true, reconcilers := map[k := r.(stage := Partial)])
    {
      Act(k, RecoveryPartial);
      assert world.reconcilers == map[k := r.(stage := Partial)];
    }

    ghost method ReplaceRecovery(k: nat, r: Reconciler)
      requires Reachable(cx, world) && Only(k, r) && r.pc.Settled? && r.stage.Partial?
      modifies this`world
      ensures Reachable(cx, world)
      ensures world == old(world).(visible := Some(r.record.(outcome := OutcomeState(r.pc.answer))), partial := false,
                                   reconcilers := map[k := r.(stage := Replaced)])
    {
      Act(k, RecoveryReplace);
      assert world.reconcilers == map[k := r.(stage := Replaced)];
    }

    ghost method SyncRecovery(k: nat, r: Reconciler)
      requires Reachable(cx, world) && Only(k, r) && r.pc.Settled? && r.stage.Replaced?
      modifies this`world
      ensures Reachable(cx, world)
      ensures world == old(world).(durable := old(world).visible, reconcilers := map[])
    {
      Act(k, RecoverySync);
      assert world.reconcilers == map[];
    }

    /** The checks up to the question: the dispatch to ask about, if there is one. */
    function Asks(): Option<Dispatch>
      reads this
    {
      if recovery.Some? && recovery.value.outcome.OutcomeUnknown? && !producerAlive && targetActive
      then cx.admits(recovery.value, files) else None
    }

    /** Loading, inspecting and admitting; a refusal leaves no trace. */
    method Begin(ghost k: nat) returns (d: Option<Dispatch>)
      requires Valid() && Free()
      modifies this`world
      ensures Valid() && d == Asks()
      ensures d.None? ==> world == old(world)
      ensures d.Some? ==> Only(k, Reconciler(Admitted(d.value, files.guestDispatch), recovery.value, Idle))
                          && world == old(world).(reconcilers := world.reconcilers)
    {
      hide Reachable, Shows;
      if recovery.None? || !recovery.value.outcome.OutcomeUnknown? {
        return None;
      }
      if producerAlive || !targetActive {
        return None;
      }
      d := cx.admits(recovery.value, files);
      if d.None? {
        return;
      }
      Enter(k, d.value);
    }

    /** The owner reads the guest's dispatch file, and nothing else changed. */
    ghost predicate OnlyAsked(w: World, w': World) {
      && w'.calls == w.calls + [Call.Reconcile(w.files.guestDispatch)]
      && w'.producer == w.producer && w'.killed == w.killed && w'.files == w.files && w'.targetActive == w.targetActive
      && w'.partial == w.partial && w'.evidencePartial == w.evidencePartial
    }

    /**
     A reply that says nothing about the attempt, or differs from the retained one, stops the command before it writes.
     */
    predicate Usable(reply: Reply, d: Dispatch)
      reads this
    {
      && (|| Says(reply, d.attempt, d.marker, "success") || Says(reply, d.attempt, d.marker, "failure")
          || Says(reply, d.attempt, d.marker, "indeterminate"))
      && (evidence.Some? ==> evidence.value == reply)
    }

    /** Asking and judging the reply; a command that failed or printed no outcome is a reply that does not verify. */
    method Question(ghost k: nat, rec: Record, d: Dispatch, reply: Reply) returns (answer: Option<Answer>)
      requires Valid() && Only(k, Reconciler(Admitted(d, files.guestDispatch), rec, Idle)) && OwnerMay(cx, world, reply)
      modifies this`world
      ensures Valid() && OnlyAsked(old(world), world) && world.durable == old(world).durable
      ensures answer.Some? <==> Usable(reply, d)
      ensures answer.Some? ==> Recounts(OutcomeState(answer.value), Some(reply), d.attempt, d.marker)
      ensures answer.None? ==> world.reconcilers == map[]
      ensures answer.Some? ==> Only(k, Reconciler(Judging(evidence, reply, answer.value), rec, Idle))
    {
      hide Reachable, OwnerMay, Shows, Says, Reads, Lawful, Recounts;
      AskOwner(k, Reconciler(Admitted(d, files.guestDispatch), rec, Idle), reply);
      ghost var asked := Reconciler(Asked(d, reply), rec, Idle);
      answer := cx.verify(reply, d.attempt, d.marker);
      ReadOff(cx, reply, d.attempt, d.marker);
      if answer.None? || (evidence.Some? && evidence.value != reply) {
        Stop(k, asked);
        return None;
      }
      CheckReply(k, asked, answer.value);
    }

    /** The steps of the `atomic_write` of the evidence, up to its fault. */
    ghost method ActEvidence(k: nat, rec: Record, reply: Reply, answer: Answer, fault: Fault)
      requires Reachable(cx, world) && Only(k, Reconciler(EvidenceAbsent(reply, answer), rec, Idle))
      requires world.evidence.None?
      modifies this`world
      ensures var created := !old(world).evidencePartial;
              var renamed := created && (fault.Intact? || fault.BeforeSync?);
              && world == old(world).(evidence := world.evidence, evidencePartial := world.evidencePartial,
                                      reconcilers := world.reconcilers)
              && world.evidence == (if renamed then Some(reply) else None)
              && world.evidencePartial == !renamed
              && (created && fault.Intact? ==> Only(k, Reconciler(Settled(reply, answer), rec, Idle)))
              && (!(created && fault.Intact?) ==> world.reconcilers == map[])
      ensures Reachable(cx, world)
    {
      hide Reachable;
      ghost var r := Reconciler(EvidenceAbsent(reply, answer), rec, Idle);
      if world.evidencePartial {
        Stop(k, r);
        return;
      }
      CreateEvidence(k, r);
      if fault.DuringWrite? || fault.BeforeRename? {
        Stop(k, r.(pc := EvidencePartial(reply, answer)));
        return;
      }
      ReplaceEvidence(k, r.(pc := EvidencePartial(reply, answer)));
      if fault.BeforeSync? {
        Stop(k, r.(pc := Settled(reply, answer)));
      }
    }

    /** The retained reply is written once; a later equal reply leaves it as it is. */
    method Retain(ghost k: nat, rec: Record, reply: Reply, ghost answer: Answer, fault: Fault) returns (ok: bool)
      requires Valid() && (evidence.Some? ==> evidence.value == reply)
      requires Only(k, Reconciler(Judging(evidence, reply, answer), rec, Idle))
      modifies this`world, this`evidence, dir
      ensures Valid() && OnlyWrote(old(world), world) && world.durable == old(world).durable
              && world.partial == old(world).partial
      ensures ok <==> old(evidence).Some? || (!old(world).evidencePartial && fault.Intact?)
      ensures ok ==> evidence == Some(reply) && Only(k, Reconciler(Settled(reply, answer), rec, Idle))
      ensures !ok ==> world.reconcilers == map[]
      ensures !ok ==> evidence == old(evidence) || (fault.BeforeSync? && evidence == Some(reply))
    {
      hide Reachable;
      if evidence.Some? {
        return true;
      }
      FourNames();
      ok := dir.AtomicWrite(EVIDENCE, renderReply(reply), fault);
      ActEvidence(k, rec, reply, answer, fault);
      evidence := if EVIDENCE in dir.files then Some(reply) else None;
    }

    ghost predicate OnlyWrote(w: World, w': World) {
      && w'.calls == w.calls && w'.reported == w.reported && w'.producer == w.producer
      && w'.killed == w.killed && w'.files == w.files && w'.targetActive == w.targetActive
    }

    /** The steps of the `atomic_write` of RECOVERY.json, up to its fault. */
    ghost method ActRecovery(k: nat, rec: Record, reply: Reply, answer: Answer, fault: Fault)
      requires Reachable(cx, world) && Only(k, Reconciler(Settled(reply, answer), rec, Idle))
      modifies this`world
      ensures var created := !old(world).partial;
              var renamed := created && (fault.Intact? || fault.BeforeSync?);
              var next := Some(rec.(outcome := OutcomeState(answer)));
              world == old(world).(visible := if renamed then next else old(world).visible,
                                   durable := if created && fault.Intact? then next else old(world).durable,
                                   partial := !renamed, reconcilers := map[])
      ensures Reachable(cx, world)
    {
      hide Reachable;
      ghost var r := Reconciler(Settled(reply, answer), rec, Idle);
      if world.partial {
        Stop(k, r);
        return;
      }
      CreateRecovery(k, r);
      if fault.DuringWrite? || fault.BeforeRename? {
        Stop(k, r.(stage := Partial));
        return;
      }
      ReplaceRecovery(k, r.(stage := Partial));
      if fault.BeforeSync? {
        Stop(k, r.(stage := Replaced));
        return;
      }
      SyncRecovery(k, r.(stage := Replaced));
    }

    /** The new RECOVERY.json: the record that was loaded, with the outcome the owner reported. */
    method Conclude(ghost k: nat, rec: Record, ghost reply: Reply, answer: Answer, fault: Fault) returns (ok: bool)
      requires Valid() && recovery.Some? && Only(k, Reconciler(Settled(reply, answer), rec, Idle))
      modifies this`world, this`recovery, dir
      ensures Valid() && OnlyWrote(old(world), world) && world.reconcilers == map[]
      ensures ok <==> !old(world).partial && fault.Intact?
      ensures ok ==> recovery == world.durable == Some(rec.(outcome := OutcomeState(answer)))
      ensures !ok ==> world.durable == old(world).durable
      ensures !ok && !fault.BeforeSync? ==> recovery == old(recovery)
      ensures !ok ==> recovery == old(recovery) || recovery == Some(rec.(outcome := OutcomeState(answer)))
    {
      hide Reachable;
      FourNames();
      var next := rec.(outcome := OutcomeState(answer));
      var blocked := PartialOf(RECOVERY) in dir.files;
      ok := dir.AtomicWrite(RECOVERY, render(next), fault);
      if !blocked && (fault.Intact? || fault.BeforeSync?) {
        recovery := Some(next);
      }
      ActRecovery(k, rec, reply, answer, fault);
    }

    /** `reconcile_effect`. */
    method ReconcileEffect(ghost k: nat, reply: Reply, evidenceFault: Fault, recoveryFault: Fault)
        returns (r: Option<Answer>)
      requires Valid() && Free() && OwnerMay(cx, world, reply)
      modifies this, dir
      ensures Valid() && world.reconcilers == map[]
      ensures old(Asks()).None? ==> r.None? && world == old(world)
      ensures old(Asks()).Some? ==>
                && world.calls == old(world).calls + [Call.Reconcile(files.guestDispatch)]
                && (r.Some? <==>
                      && old(Usable(reply, Asks().value))
                      && (old(evidence).Some? || (!old(world).evidencePartial && evidenceFault.Intact?))
                      && !old(world).partial && recoveryFault.Intact?)
      ensures r.Some? ==>
                && evidence == Some(reply) && old(recovery).Some? && old(recovery).value.custody.Some?
                && recovery == world.durable == Some(old(recovery).value.(outcome := OutcomeState(r.value)))
                && var custody := old(recovery).value.custody.value;
                   Recounts(recovery.value.outcome, Some(reply), custody.attempt, custody.marker)
      ensures evidence != old(evidence) ==>
                evidence == Some(reply) && old(evidence).None? && old(Asks()).Some? && old(Usable(reply, Asks().value))
      ensures r.None? ==> world.durable == old(world).durable
      ensures r.None? && !recoveryFault.BeforeSync? ==> recovery == old(recovery)
    {
      hide Reachable, OnDisk, Says, Reads;
      var d := Begin(k);
      if d.None? {
        return None;
      }
      var rec := recovery.value;
      var answer := Question(k, rec, d.value, reply);
      if answer.None? {
        return None;
      }
      var retained := Retain(k, rec, reply, answer.value, evidenceFault);
      if !retained {
        return None;
      }
      var ok := Conclude(k, rec, reply, answer.value, recoveryFault);
      r := if ok then answer else None;
    }
  }
}
