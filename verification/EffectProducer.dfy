/**
 The producer as the program it is: an object whose methods update its fields and write RECOVERY.json through
 `atomic_write`. A ghost world shows that everything `execute` does is a run of the step system, whose safety theorems
 therefore apply.
 */
module EffectProducer {
  import opened Prelude
  import opened AtomicFile
  import opened EffectDispatch
  import opened EffectCustody
  import opened EffectOrder

  /** Where an exception strikes one call of `Producer.state`, if anywhere: the runtime bound, or its `atomic_write`. */
  datatype Fault = RuntimeExceeded | InWrite(at: AtomicFile.Fault)

  predicate NoFault(f: Fault) { f.InWrite? && f.at.Intact? }

  /**
   What goes wrong in one run of the producer. `inputs` is an exception while `create_run` retains its inputs, outside
   the handler; `early` and `late` are exceptions of the phases around `enact`; `signal` strikes between its two
   assignments.
   */
  datatype Trouble = Trouble(
    created: Fault, inputs: bool, early: bool, signal: bool,
    prepared: Fault, completed: Fault, late: bool, handler: Fault)

  /** Outcomes after which the guests can go. */
  predicate Harmless(o: Outcome) { o.NoEffectAttempted? || o.KnownNoEffect? }

  class Producer {
    const cx: Context
    const dir: RunDirectory
    const render: Record -> string             // the canonical JSON of a record
    var effectOutcome: Outcome
    var effectCustody: Option<Custody>
    ghost var world: World

    ghost function Bytes(r: Option<Record>): Option<string> {
      if r.Some? then Some(render(r.value)) else None
    }

    ghost predicate Valid() reads this, dir {
      && dir.Valid() && Reachable(cx, world) && Reads(cx)
      && Shows(dir.files, RECOVERY, Bytes(world.visible)) && Shows(dir.durable, RECOVERY, Bytes(world.durable))
      && (PartialOf(RECOVERY) in dir.files <==> world.partial)
      && world.producer.outcome == effectOutcome && world.producer.custody == effectCustody
    }

    constructor (codec: Codec, runId: string, discipline: Discipline, render: Record -> string, ghost files: Files)
      ensures Valid() && fresh(dir) && world == Initial(files) && cx == ContextOf(codec, runId, discipline)
    {
      cx, this.render := ContextOf(codec, runId, discipline), render;
      dir := new RunDirectory();
      effectOutcome, effectCustody := NoEffectAttempted, None;
      world := Initial(files);
      new;
      Start(cx, files);
      ContextOfReads(codec, runId, discipline);
    }

    /** One primitive event, as the step system sees it. */
    ghost method Act(a: ProducerAction)
      requires Reachable(cx, world) && ProducerEnabled(cx, world, a)
      modifies this`world
      ensures Reachable(cx, world) && world == ProducerApply(cx, old(world), a)
    {
      world := Step(cx, world, ByProducer(a));
    }

    /** The steps of one `atomic_write` of RECOVERY.json, up to its fault. */
    ghost method ActWrite(at: AtomicFile.Fault)
      requires Reachable(cx, world) && Writes(world.producer.pc) && world.producer.stage.Idle? && !world.partial
      modifies this`world
      ensures Reachable(cx, world) && Quiet(old(world), world)
      ensures world.partial == (at.DuringWrite? || at.BeforeRename?)
      ensures world.visible == if at.Intact? || at.BeforeSync? then Current(old(world)) else old(world).visible
      ensures world.durable == if at.Intact? then Current(old(world)) else old(world).durable
      ensures world.producer.outcome == old(world).producer.outcome
              && world.producer.custody == old(world).producer.custody
      ensures world.producer.pc == if at.Intact? then AfterWrite(old(world).producer.pc) else old(world).producer.pc
      ensures at.Intact? ==> world.producer.stage.Idle?
    {
      hide Reachable, Reads;
      Act(WritePartial);
      if at.Intact? || at.BeforeSync? {
        Act(WriteReplace);
      }
      if at.Intact? {
        Act(WriteSync);
      }
    }

    ghost function Current(w: World): Option<Record> {
      Some(Record(cx.runId, w.producer.outcome, w.producer.custody))
    }

    ghost function AfterWrite(pc: ProducerPc): ProducerPc {
      if pc.Prepared? then Ready else if pc.Refusing? then Refused else pc
    }

    /** Writing the record touches neither the owner nor the guests. */
    ghost predicate Quiet(w: World, w': World) {
      && w'.calls == w.calls && w'.reported == w.reported && w'.killed == w.killed
            && w'.producer.sent == w.producer.sent
      && w'.files == w.files && w'.reconcilers == w.reconcilers && w'.targetActive == w.targetActive
    }

    /** `Producer.state`: on return the record with the current fields is durable. */
    method State(fault: Fault) returns (ok: bool)
      requires Valid() && Writes(world.producer.pc) && world.producer.stage.Idle?
      modifies this`world, dir
      ensures Valid() && Quiet(old(world), world)
      ensures ok <==> NoFault(fault) && !old(world).partial
      ensures ok ==> world.durable == world.visible == Some(Record(cx.runId, effectOutcome, effectCustody))
      ensures ok ==>
              world.producer.stage.Idle? && !world.partial && world.producer.pc == AfterWrite(old(world).producer.pc)
      ensures !ok ==> world.producer.pc == old(world).producer.pc && world.durable == old(world).durable
    {
      hide Reachable, Writes, Reads;
      if fault.RuntimeExceeded? {
        return false;
      }
      ok := dir.AtomicWrite(RECOVERY, render(Record(cx.runId, effectOutcome, effectCustody)), fault.at);
      if !world.partial {
        ActWrite(fault.at);
      }
    }

    /** The owner call of `enact` and the judgement of its reply; only a verified success continues. */
    method Invoke(reply: Option<Reply>) returns (ok: bool)
      requires Valid() && world.producer.pc.Ready? && world.producer.stage.Idle? && effectCustody.Some?
      requires world.reported == {} && effectOutcome.OutcomeUnknown?
      modifies this`effectOutcome, this`world
      ensures Valid() && world.killed == old(world).killed && world.partial == old(world).partial
      ensures world.producer.stage.Idle?
      ensures world.calls == old(world).calls + [Call.Execute(old(world).files.guestDispatch)]
      ensures world.durable == old(world).durable && world.visible == old(world).visible
      ensures Recounts(effectOutcome, reply, effectCustody.value.attempt, effectCustody.value.marker)
      ensures ok <==> effectOutcome.KnownSuccess?
      ensures if ok then world.producer.pc.AfterEffect? else InTry(world.producer.pc) || world.producer.pc.Refusing?
    {
      hide Reachable, Says, Reads;
      Act(IssueExecute);
      if reply.None? {
        return false;
      }
      Act(OwnerReplies(reply.value));
      var answer := cx.verify(reply.value, effectCustody.value.attempt, effectCustody.value.marker);
      ReadOff(cx, reply.value, effectCustody.value.attempt, effectCustody.value.marker);
      if answer.None? {
        return false;
      }
      Act(TakeOutcome);
      effectOutcome := OutcomeState(answer.value);
      ok := answer.value.Success?;
    }

    /** `enact` up to the owner call: install the dispatch, take custody, and record the unknown outcome. */
    method Prepare(inputs: Inputs, signal: bool, first: Fault) returns (ok: bool)
      requires Valid() && world.producer.pc.BeforeEffect? && world.producer.stage.Idle?
              && effectOutcome.NoEffectAttempted?
      modifies this, dir
      ensures Valid() && world.killed == old(world).killed && world.calls == old(world).calls
      ensures world.reported == old(world).reported && effectCustody == Some(cx.custody(inputs))
      ensures effectOutcome == if signal then NoEffectAttempted else OutcomeUnknown
      ensures ok <==> !signal && NoFault(first) && !old(world).partial
      ensures ok ==> world.producer.pc.Ready? && world.producer.stage.Idle? && !world.partial
      ensures ok ==> world.files == cx.files(inputs)
      ensures !ok ==> InTry(world.producer.pc)
      ensures signal ==> world.partial == old(world).partial
    {
      hide Reachable, Shows, Reads;
      Act(PrepareDispatch(inputs));
      effectCustody := Some(cx.custody(inputs));
      if signal {
        return false;
      }
      Act(DeclareUnknown);
      effectOutcome := OutcomeUnknown;
      ok := State(first);
    }

    /** `Producer.enact`: `reply` is what `ag-effectd execute` printed, `None` when the command itself failed. */
    method Enact(inputs: Inputs, reply: Option<Reply>, signal: bool, first: Fault, second: Fault) returns (ok: bool)
      requires Valid() && world.producer.pc.BeforeEffect? && world.producer.stage.Idle?
      requires world.reported == {} && effectOutcome.NoEffectAttempted?
      modifies this, dir
      ensures Valid() && world.killed == old(world).killed && effectCustody == Some(cx.custody(inputs))
      ensures var issued := !signal && NoFault(first) && !old(world).partial;
              && world.calls == (if issued then old(world).calls + [Call.Execute(cx.files(inputs).guestDispatch)]
                                 else old(world).calls)
              && (issued ==> Recounts(effectOutcome, reply, effectCustody.value.attempt, effectCustody.value.marker))
              && (!issued ==> effectOutcome == if signal then NoEffectAttempted else OutcomeUnknown)
              && (ok <==> issued && effectOutcome.KnownSuccess? && NoFault(second))
              && (signal ==> world.partial == old(world).partial)
              && (issued && !effectOutcome.KnownSuccess? ==> !world.partial)
      ensures ok ==> world.producer.pc.AfterEffect? && world.producer.stage.Idle? && !world.partial
      ensures ok ==> world.durable == Some(Record(cx.runId, KnownSuccess, effectCustody))
      ensures !ok ==> InTry(world.producer.pc) || (world.producer.pc.Refusing? && world.producer.stage.Idle?)
    {
      hide Reachable, Recounts, Shows, Reads;
      ok := Prepare(inputs, signal, first);
      if !ok {
        return;
      }
      ok := Invoke(reply);
      if !ok {
        return;
      }
      ok := State(second);
    }

    ghost method EnterHandler()
      requires Valid() && (InTry(world.producer.pc) || (world.producer.pc.Refusing? && world.producer.stage.Idle?))
      modifies this`world
      ensures Valid() && world == old(world).(producer := old(world).producer.(pc := Refusing, stage := Idle))
    {
      hide Reachable, Reads;
      if InTry(world.producer.pc) {
        Act(Fail);
      }
    }

    /**
     The `except` block of `Producer.execute`: record the refusal, then terminate guests only if nothing can have run.
     */
    method OnException(fault: Fault) returns (terminated: bool)
      requires Valid() && (InTry(world.producer.pc) || (world.producer.pc.Refusing? && world.producer.stage.Idle?))
      requires !world.killed
      modifies this`world, dir
      ensures Valid() && world.producer.pc.Gone?
      ensures terminated == world.killed
      ensures terminated <==> NoFault(fault) && !old(world).partial && Harmless(effectOutcome)
      ensures terminated ==> world.durable == Some(Record(cx.runId, effectOutcome, effectCustody))
      ensures world.calls == old(world).calls
    {
      hide Reachable, Reads;
      EnterHandler();
      var ok := State(fault);
      if !ok {
        Act(ProducerCrash);
        return false;
      }
      Act(HandlerEnd);
      terminated := Harmless(effectOutcome);
    }

    /** The rest of `execute` once the run has been recorded. */
    method Continue(inputs: Inputs, reply: Option<Reply>, t: Trouble) returns (finished: bool, terminated: bool)
      requires Valid() && world.producer.pc.BeforeEffect? && world.producer.stage.Idle? && !world.partial
      requires world.reported == {} && world.calls == [] && !world.killed
      requires effectOutcome.NoEffectAttempted? && effectCustody.None?
      modifies this, dir
      ensures Valid() && world.producer.pc.Gone? && world.killed == terminated
      ensures var custody := cx.custody(inputs);
              var issued := !t.early && !t.signal && NoFault(t.prepared);
              && effectCustody == (if !t.early then Some(custody) else None)
              && world.calls == (if issued then [Call.Execute(cx.files(inputs).guestDispatch)] else [])
              && (issued ==> Recounts(effectOutcome, reply, custody.attempt, custody.marker))
              && (!issued ==> effectOutcome == if !t.early && !t.signal then OutcomeUnknown else NoEffectAttempted)
              && (finished <==> issued && effectOutcome.KnownSuccess? && NoFault(t.completed) && !t.late)
              && (terminated <==> NoFault(t.handler) && (t.early || t.signal || effectOutcome.KnownNoEffect?))
      ensures finished || terminated ==> world.durable == Some(Record(cx.runId, effectOutcome, effectCustody))
    {
      hide Reachable, Shows, Reads;
      terminated, finished := false, false;
      if t.early {
        terminated := OnException(t.handler);
        return;
      }
      finished := Enact(inputs, reply, t.signal, t.prepared, t.completed);
      if finished && !t.late {
        Act(Finish);
      } else {
        finished := false;
        terminated := OnException(t.handler);
      }
    }

    /** `Producer.execute`, from the created run root to the exit of the process. */
    method Execute(inputs: Inputs, reply: Option<Reply>, t: Trouble) returns (finished: bool, terminated: bool)
      requires Valid() && exists f :: world == Initial(f)
      modifies this, dir
      ensures Valid() && world.producer.pc.Gone? && world.killed == terminated
      ensures var custody := cx.custody(inputs);
              var begun := NoFault(t.created) && !t.inputs;
              var held := begun && !t.early;
              var issued := held && !t.signal && NoFault(t.prepared);
              && effectCustody == (if held then Some(custody) else None)
              && world.calls == (if issued then [Call.Execute(cx.files(inputs).guestDispatch)] else [])
              && (issued ==> Recounts(effectOutcome, reply, custody.attempt, custody.marker))
              && (!issued ==> effectOutcome == if held && !t.signal then OutcomeUnknown else NoEffectAttempted)
              && (finished <==> issued && effectOutcome.KnownSuccess? && NoFault(t.completed) && !t.late)
              && (terminated <==> begun && NoFault(t.handler) && (t.early || t.signal || effectOutcome.KnownNoEffect?))
      ensures finished || terminated ==> world.durable == Some(Record(cx.runId, effectOutcome, effectCustody))
    {
      hide Reachable, Recounts, Reads;
      terminated := false;
      Act(CreateRun);
      finished := State(t.created);
      if !finished || t.inputs {
        Act(ProducerCrash);
        finished := false;
        return;
      }
      finished, terminated := Continue(inputs, reply, t);
    }
  }
}
