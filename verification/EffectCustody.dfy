/**
 The effect-custody protocol of the two-VM qualification producer.

 One producer process records OUTCOME_UNKNOWN durably before it issues a one-shot external effect, and
 resolves it from the owner's reply; later `reconcile-effect` processes may resolve a retained unknown.
 The model is a step system: every primitive file, process and owner event is one action, so a crash, an
 exception or a power loss may fall between any two of them.
 */
module EffectCustody {
  import opened Prelude
  import opened EffectDispatch

  // ---------------------------------------------------------------- the world

  /** Progress of one `atomic_write` of RECOVERY.json: temporary file created, renamed over the target. */
  datatype Stage = Idle | Partial | Replaced

  datatype ProducerPc =
    | NotStarted
    | BeforeEffect
    | Holding              // dispatch installed and custody taken, outcome not yet declared unknown
    | Prepared             // outcome unknown in memory, about to be recorded
    | Ready                // outcome unknown durable, effect not yet issued
    | Executing            // effect issued, no reply yet
    | Answered(reply: Reply)
    | AfterEffect          // owner success taken
    | Refusing             // exception handler, before its RECOVERY.json is durable
    | Refused              // exception handler, after it
    | Gone

  /** The producer's fields; they stay readable after it is gone, as history. */
  datatype Producer = Producer(
    pc: ProducerPc, outcome: Outcome, custody: Option<Custody>, stage: Stage,
    sent: string)                  // the dispatch bytes it installed in the guest

  datatype ReconcilePc =
    | Loaded
    | Inspected
    | Admitted(dispatch: Dispatch, seen: string)     // `seen`: the guest dispatch bytes that were checked
    | Asked(asked: Dispatch, reply: Reply)
    | EvidenceAbsent(reply: Reply, answer: Answer)
    | EvidencePartial(reply: Reply, answer: Answer)
    | Settled(reply: Reply, answer: Answer)

  datatype Reconciler = Reconciler(pc: ReconcilePc, record: Record, stage: Stage)

  /** A call to the effect owner reads the guest's dispatch file as it is at that moment. */
  datatype Call = Execute(stdin: string) | Reconcile(stdin: string)

  datatype World = World(
    visible: Option<Record>,       // RECOVERY.json as processes read it
    durable: Option<Record>,       // RECOVERY.json as it survives a power loss
    partial: bool,                 // RECOVERY.json.partial exists
    evidence: Option<Reply>,       // evidence/reconciliation-outcome-v1.json
    evidencePartial: bool,
    files: Files,
    targetActive: bool,
    producer: Producer,
    reconcilers: map<nat, Reconciler>,
    calls: seq<Call>,              // every call made to the effect owner
    replies: set<Reply>,           // everything the owner has replied
    reported: set<Answer>,         // classes the owner has reported for the attempt in custody
    killed: bool)                  // the handler terminated the guests

  function OutcomeIn(r: Option<Record>): Outcome {
    if r.Some? then r.value.outcome else NoEffectAttempted
  }

  predicate Alive(p: Producer) { !p.pc.NotStarted? && !p.pc.Gone? }

  /**
   How operators run `reconcile-effect` (only after the producer, one at a time, only when the directory is synced),
   and whether the owner ever contradicts a definite answer.
   */
  datatype Discipline = Discipline(afterProducer: bool, oneAtATime: bool, synced: bool, consistentOwner: bool)

  /** One run root: its id, the functions of `EffectDispatch` it uses, and the operating discipline. */
  datatype Context = Context(
    runId: string,
    files: Inputs -> Files,
    custody: Inputs -> Custody,
    admits: (Record, Files) -> Option<Dispatch>,
    verify: (Reply, string, string) -> Option<Answer>,
    discipline: Discipline)

  function ContextOf(c: Codec, runId: string, discipline: Discipline): Context {
    Context(runId, i => PreparedFiles(c, runId, i), i => PreparedCustody(c, runId, i),
            (rec, f) => Admits(c, rec, f), (r, attempt, marker) => VerifyOutcome(r, attempt, marker), discipline)
  }

  function Initial(files: Files): World {
    World(None, None, false, None, false, files, true,
          Producer(NotStarted, NoEffectAttempted, None, Idle, ""), map[], [], {}, {}, false)
  }

  // ---------------------------------------------------------------- actions

  datatype ProducerAction =
    | CreateRun
    | WritePartial | WriteReplace | WriteSync        // Producer.state
    | PrepareDispatch(inputs: Inputs) | DeclareUnknown
    | IssueExecute
    | OwnerReplies(reply: Reply)
    | TakeOutcome
    | Fail                                           // any exception inside `execute`'s try block
    | HandlerEnd
    | Finish
    | ProducerCrash                                  // also an exception inside the handler

  datatype ReconcilerAction =
    | Load | Inspect | Admit
    | Ask(reply: Reply)
    | EvidenceCheck | EvidenceCreate | EvidenceReplace
    | RecoveryPartial | RecoveryReplace | RecoverySync
    | ReconcilerStops                                // refusal or crash

  datatype EnvironmentAction =
    | Tamper(files: Files)                           // evidence or guest files change under the run
    | TargetExits
    | Flush                                          // the kernel writes directory entries back on its own
    // a dropped rename may leave the temporary name
    | PowerLoss(keepRename: bool, keepPartial: bool, keepEvidence: bool)

  datatype Action =
    | ByProducer(p: ProducerAction)
    | ByReconciler(k: nat, r: ReconcilerAction)
    | ByEnvironment(e: EnvironmentAction)

  function AttemptOf(w: World): (string, string) {
    if w.producer.custody.Some?
    then (w.producer.custody.value.attempt, w.producer.custody.value.marker) else ("", "")
  }

  function Class(cx: Context, w: World, r: Reply): Option<Answer> { cx.verify(r, AttemptOf(w).0, AttemptOf(w).1) }

  /** A consistent owner repeats the first definite answer it gave. */
  predicate OwnerMay(cx: Context, w: World, r: Reply) {
    cx.discipline.consistentOwner && Class(cx, w, r).Some? ==>
      forall a :: a in w.reported && !a.Indeterminate? ==> Class(cx, w, r) == Some(a)
  }

  function Reporting(cx: Context, w: World, r: Reply): set<Answer> {
    w.reported + match Class(cx, w, r) case Some(a) => {a} case None => {}
  }

  predicate Writes(pc: ProducerPc) { pc.BeforeEffect? || pc.Prepared? || pc.AfterEffect? || pc.Refusing? }

  predicate InTry(pc: ProducerPc) {
    pc.BeforeEffect? || pc.Holding? || pc.Prepared? || pc.Ready? || pc.Executing? || pc.Answered? || pc.AfterEffect?
  }

  predicate ProducerEnabled(cx: Context, w: World, a: ProducerAction) {
    var p := w.producer;
    match a
    case CreateRun => p.pc.NotStarted?
    case WritePartial => Writes(p.pc) && p.stage.Idle? && !w.partial
    case WriteReplace => Writes(p.pc) && p.stage.Partial?
    case WriteSync => Writes(p.pc) && p.stage.Replaced?
    case PrepareDispatch(_) => p.pc.BeforeEffect? && p.stage.Idle?
    case DeclareUnknown => p.pc.Holding?
    case IssueExecute => p.pc.Ready?
    case OwnerReplies(r) => p.pc.Executing? && OwnerMay(cx, w, r)
    case TakeOutcome => p.pc.Answered? && Class(cx, w, p.pc.reply).Some?
    case Fail => InTry(p.pc)
    case HandlerEnd => p.pc.Refused?
    case Finish => p.pc.AfterEffect? && p.stage.Idle?
    case ProducerCrash => Alive(p)
  }

  function ProducerApply(cx: Context, w: World, a: ProducerAction): World
    requires ProducerEnabled(cx, w, a)
  {
    var p := w.producer;
    match a
    case CreateRun => w.(producer := p.(pc := BeforeEffect))
    case WritePartial => w.(partial := true, producer := p.(stage := Partial))
    case WriteReplace =>
      w.(visible := Some(Record(cx.runId, p.outcome, p.custody)), partial := false, producer := p.(stage := Replaced))
    case WriteSync =>
      w.(durable := w.visible,
         producer := p.(stage := Idle,
                        pc := if p.pc.Prepared? then Ready else if p.pc.Refusing? then Refused else p.pc))
    case PrepareDispatch(inputs) =>
      w.(files := cx.files(inputs),
         producer := Producer(Holding, p.outcome, Some(cx.custody(inputs)), Idle, cx.files(inputs).guestDispatch))
    case DeclareUnknown => w.(producer := p.(pc := Prepared, outcome := OutcomeUnknown))
    case IssueExecute =>
      w.(calls := w.calls + [Execute(w.files.guestDispatch)], producer := p.(pc := Executing))
    case OwnerReplies(r) =>
      w.(replies := w.replies + {r}, reported := Reporting(cx, w, r), producer := p.(pc := Answered(r)))
    case TakeOutcome =>
      var answer := Class(cx, w, p.pc.reply).value;
      w.(producer := p.(outcome := OutcomeState(answer), pc := if answer.Success? then AfterEffect else Refusing))
    case Fail => w.(producer := p.(pc := Refusing, stage := Idle))
    case HandlerEnd =>
      if p.outcome.NoEffectAttempted? || p.outcome.KnownNoEffect?
      then w.(producer := p.(pc := Gone), killed := true, targetActive := false)
      else w.(producer := p.(pc := Gone))
    case Finish => w.(producer := p.(pc := Gone))
    case ProducerCrash => w.(producer := p.(pc := Gone, stage := Idle))
  }

  predicate ReconcilerEnabled(cx: Context, w: World, k: nat, a: ReconcilerAction) {
    if a.Load? then
      && k !in w.reconcilers
      && w.visible.Some? && w.visible.value.outcome.OutcomeUnknown?
      && (cx.discipline.afterProducer ==> !Alive(w.producer))
      && (cx.discipline.oneAtATime ==> w.reconcilers == map[])
      && (cx.discipline.synced ==> w.durable == w.visible)
    else
      k in w.reconcilers &&
      var Reconciler(pc, rec, stage) := w.reconcilers[k];
      match a
      case Inspect => pc.Loaded? && !Alive(w.producer) && w.targetActive
      case Admit => pc.Inspected? && cx.admits(rec, w.files).Some?
      case Ask(r) => pc.Admitted? && OwnerMay(cx, w, r)
      case EvidenceCheck =>
        && pc.Asked?
        && cx.verify(pc.reply, pc.asked.attempt, pc.asked.marker).Some?
        && (w.evidence.Some? ==> w.evidence.value == pc.reply)
      case EvidenceCreate => pc.EvidenceAbsent? && !w.evidencePartial
      case EvidenceReplace => pc.EvidencePartial?
      case RecoveryPartial => pc.Settled? && stage.Idle? && !w.partial
      case RecoveryReplace => pc.Settled? && stage.Partial?
      case RecoverySync => pc.Settled? && stage.Replaced?
      case ReconcilerStops => true
  }

  function ReconcilerApply(cx: Context, w: World, k: nat, a: ReconcilerAction): World
    requires ReconcilerEnabled(cx, w, k, a)
  {
    if a.Load? then w.(reconcilers := w.reconcilers[k := Reconciler(Loaded, w.visible.value, Idle)])
    else
      var r := w.reconcilers[k];
      match a
      case Inspect => w.(reconcilers := w.reconcilers[k := r.(pc := Inspected)])
      case Admit =>
        var d := cx.admits(r.record, w.files).value;
        w.(reconcilers := w.reconcilers[k := r.(pc := Admitted(d, w.files.guestDispatch))])
      case Ask(reply) =>
        var d := r.pc.dispatch;
        w.(calls := w.calls + [Reconcile(w.files.guestDispatch)],
           replies := w.replies + {reply}, reported := Reporting(cx, w, reply),
           reconcilers := w.reconcilers[k := r.(pc := Asked(d, reply))])
      case EvidenceCheck =>
        var answer := cx.verify(r.pc.reply, r.pc.asked.attempt, r.pc.asked.marker).value;
        var next := if w.evidence.Some? then Settled(r.pc.reply, answer) else EvidenceAbsent(r.pc.reply, answer);
        w.(reconcilers := w.reconcilers[k := r.(pc := next)])
      case EvidenceCreate =>
        w.(evidencePartial := true,
           reconcilers := w.reconcilers[k := r.(pc := EvidencePartial(r.pc.reply, r.pc.answer))])
      case EvidenceReplace =>
        w.(evidence := Some(r.pc.reply), evidencePartial := false,
           reconcilers := w.reconcilers[k := r.(pc := Settled(r.pc.reply, r.pc.answer))])
      case RecoveryPartial => w.(partial := true, reconcilers := w.reconcilers[k := r.(stage := Partial)])
      case RecoveryReplace =>
        w.(visible := Some(r.record.(outcome := OutcomeState(r.pc.answer))), partial := false,
           reconcilers := w.reconcilers[k := r.(stage := Replaced)])
      case RecoverySync => w.(durable := w.visible, reconcilers := w.reconcilers - {k})
      case ReconcilerStops => w.(reconcilers := w.reconcilers - {k})
  }

  function EnvironmentApply(w: World, a: EnvironmentAction): World {
    match a
    case Tamper(f) => w.(files := f)
    case TargetExits => w.(targetActive := false)
    case Flush => w.(durable := w.visible)
    case PowerLoss(keepRename, keepPartial, keepEvidence) =>
      var kept := if keepRename then w.visible else w.durable;
      w.(visible := kept, durable := kept, partial := keepPartial && (w.partial || !keepRename),
         evidence := if keepEvidence then w.evidence else None, targetActive := false,
         producer := if w.producer.pc.NotStarted? then w.producer else w.producer.(pc := Gone, stage := Idle),
         reconcilers := map[])
  }

  predicate Enabled(cx: Context, w: World, a: Action) {
    match a
    case ByProducer(p) => ProducerEnabled(cx, w, p)
    case ByReconciler(k, r) => ReconcilerEnabled(cx, w, k, r)
    case ByEnvironment(_) => true
  }

  function Apply(cx: Context, w: World, a: Action): World
    requires Enabled(cx, w, a)
  {
    match a
    case ByProducer(p) => ProducerApply(cx, w, p)
    case ByReconciler(k, r) => ReconcilerApply(cx, w, k, r)
    case ByEnvironment(e) => EnvironmentApply(w, e)
  }

  /** A run: worlds linked by enabled actions, from an initial world. */
  ghost predicate IsRun(cx: Context, ws: seq<World>, acts: seq<Action>) {
    && |ws| == |acts| + 1
    && (exists f :: ws[0] == Initial(f))
    && forall i :: 0 <= i < |acts| ==> Enabled(cx, ws[i], acts[i]) && ws[i + 1] == Apply(cx, ws[i], acts[i])
  }

  // ---------------------------------------------------------------- what every reachable world satisfies

  /** Replies are judged by their text. */
  ghost predicate Reads(cx: Context) {
    forall r, attempt, marker ::
      && (cx.verify(r, attempt, marker) == Some(Success) <==> Says(r, attempt, marker, "success"))
      && (cx.verify(r, attempt, marker) == Some(Failure) <==> Says(r, attempt, marker, "failure"))
      && (cx.verify(r, attempt, marker) == Some(Indeterminate) <==> Says(r, attempt, marker, "indeterminate"))
  }

  lemma ContextOfReads(c: Codec, runId: string, discipline: Discipline)
    ensures Reads(ContextOf(c, runId, discipline))
  {
    hide VerifyOutcome, Says;
    var cx := ContextOf(c, runId, discipline);
    forall r, attempt, marker
      ensures cx.verify(r, attempt, marker) == Some(Success) <==> Says(r, attempt, marker, "success")
      ensures cx.verify(r, attempt, marker) == Some(Failure) <==> Says(r, attempt, marker, "failure")
      ensures cx.verify(r, attempt, marker) == Some(Indeterminate) <==> Says(r, attempt, marker, "indeterminate")
    {
      VerdictIsWhatItSays(r, attempt, marker);
    }
  }

  lemma ReadOff(cx: Context, r: Reply, attempt: string, marker: string)
    requires Reads(cx)
    ensures var answer := cx.verify(r, attempt, marker);
            && (answer.Some? <==>
                  || Says(r, attempt, marker, "success") || Says(r, attempt, marker, "failure")
                  || Says(r, attempt, marker, "indeterminate"))
            && (answer.Some? ==> Recounts(OutcomeState(answer.value), Some(r), attempt, marker))
  {
    hide Says;
    var answer := cx.verify(r, attempt, marker);
    assert answer == Some(Success) <==> Says(r, attempt, marker, "success");
    assert answer == Some(Failure) <==> Says(r, attempt, marker, "failure");
    assert answer == Some(Indeterminate) <==> Says(r, attempt, marker, "indeterminate");
    assert answer.Some? ==> answer.value.Success? || answer.value.Failure? || answer.value.Indeterminate?;
  }

  /** A reconcile that is admitted asks about the attempt held in custody. */
  ghost predicate Lawful(cx: Context) {
    forall rec, f :: cx.admits(rec, f).Some? ==>
      && rec.custody.Some?
      && cx.admits(rec, f).value.attempt == rec.custody.value.attempt
      && cx.admits(rec, f).value.marker == rec.custody.value.marker
  }

  lemma ContextOfIsLawful(c: Codec, runId: string, discipline: Discipline)
    ensures Lawful(ContextOf(c, runId, discipline))
  {}

  predicate Executed(w: World) { w.calls != [] && w.calls[0].Execute? }

  /** A known outcome is one the owner reported for the attempt in custody. */
  predicate Grounded(w: World, o: Outcome) {
    (o.KnownSuccess? ==> Success in w.reported) && (o.KnownNoEffect? ==> Failure in w.reported)
  }

  ghost predicate ProducerInv(cx: Context, w: World) {
    var p := w.producer;
    && (p.pc.NotStarted? ==>
          w.visible.None? && w.durable.None? && w.reconcilers == map[] && !w.killed && p.stage.Idle?)
    && (p.pc.NotStarted? || p.pc.BeforeEffect? ==> p.outcome.NoEffectAttempted? && p.custody.None?)
    && (p.pc.Holding? ==> p.outcome.NoEffectAttempted? && p.custody.Some? && p.stage.Idle?)
    && (p.pc.Executing? || p.pc.Answered? || Known(p.outcome) ==> Executed(w))
    && (p.pc.Prepared? || p.pc.Ready? || p.pc.Executing? || p.pc.Answered? ==> p.outcome.OutcomeUnknown?)
    && (p.pc.Answered? && Class(cx, w, p.pc.reply).Some? ==> Class(cx, w, p.pc.reply).value in w.reported)
    && (p.pc.AfterEffect? ==> p.outcome.KnownSuccess?)
    && (p.custody.None? ==> p.outcome.NoEffectAttempted?)
    && (p.outcome.NoEffectAttempted? ==>
          OutcomeIn(w.visible).NoEffectAttempted? && OutcomeIn(w.durable).NoEffectAttempted?)
    && (!p.stage.Idle? ==> Writes(p.pc))
    && (p.stage.Replaced? ==> w.visible == Some(Record(cx.runId, p.outcome, p.custody)))
    && (p.pc.Ready? || p.pc.Executing? || p.pc.Answered? || p.pc.Refused? || w.killed ==>
          w.visible.Some? && w.visible.value.outcome == p.outcome && w.durable == w.visible)
    && (w.killed ==> p.pc.Gone? && !w.targetActive && (p.outcome.NoEffectAttempted? || p.outcome.KnownNoEffect?))
    && Grounded(w, p.outcome)
  }

  ghost predicate RecordInv(cx: Context, w: World, r: Option<Record>) {
    && (r.Some? && !r.value.outcome.NoEffectAttempted? ==>
          r.value.custody == w.producer.custody && r.value.custody.Some?)
    && Grounded(w, OutcomeIn(r))
  }

  ghost predicate CallInv(cx: Context, w: World) {
    var p := w.producer;
    && (p.pc.NotStarted? || p.pc.BeforeEffect? || p.pc.Holding? || p.pc.Prepared? || p.pc.Ready? ==> w.calls == [])
    && (p.outcome.NoEffectAttempted? ==> w.calls == [])
    && (forall i :: 0 <= i < |w.calls| && w.calls[i].Execute? ==> i == 0)
    && (p.pc.Ready? || Executed(w) ==>
          !OutcomeIn(w.durable).NoEffectAttempted? && !OutcomeIn(w.visible).NoEffectAttempted?)
  }

  ghost predicate ReconcilerInv(cx: Context, w: World, r: Reconciler) {
    && !OutcomeIn(w.visible).NoEffectAttempted?
    && r.record.outcome.OutcomeUnknown?
    && r.record.custody == w.producer.custody && r.record.custody.Some?
    && (Alive(w.producer) || w.killed ==> r.pc.Loaded?)
    && (!r.stage.Idle? ==> r.pc.Settled?)
    && (r.stage.Replaced? ==> w.visible.Some?)
    && (match r.pc
        case Admitted(d, _) => (d.attempt, d.marker) == AttemptOf(w)
        case Asked(d, reply) =>
          && (d.attempt, d.marker) == AttemptOf(w)
          && (Class(cx, w, reply).Some? ==> Class(cx, w, reply).value in w.reported)
        case EvidenceAbsent(_, a) => a in w.reported
        case EvidencePartial(_, a) => a in w.reported
        case Settled(_, a) => a in w.reported
        case _ => true)
  }

  ghost predicate Safe(cx: Context, w: World) {
    && ProducerInv(cx, w)
    && RecordInv(cx, w, w.visible) && RecordInv(cx, w, w.durable)
    && CallInv(cx, w)
    && forall k :: k in w.reconcilers ==> ReconcilerInv(cx, w, w.reconcilers[k])
  }

  lemma ProducerWriteSafe(cx: Context, w: World, a: ProducerAction)
    requires Safe(cx, w) && ProducerEnabled(cx, w, a)
    requires a.WritePartial? || a.WriteReplace? || a.WriteSync? || a.CreateRun?
    ensures Safe(cx, ProducerApply(cx, w, a))
  {}

  lemma ProducerEffectSafe(cx: Context, w: World, a: ProducerAction)
    requires Safe(cx, w) && ProducerEnabled(cx, w, a)
    requires a.PrepareDispatch? || a.DeclareUnknown? || a.IssueExecute?
    ensures Safe(cx, ProducerApply(cx, w, a))
  {}

  lemma ProducerReplySafe(cx: Context, w: World, a: ProducerAction)
    requires Safe(cx, w) && ProducerEnabled(cx, w, a)
    requires a.OwnerReplies? || a.TakeOutcome?
    ensures Safe(cx, ProducerApply(cx, w, a))
  {}

  lemma ProducerFailSafe(cx: Context, w: World, a: ProducerAction)
    requires Safe(cx, w) && ProducerEnabled(cx, w, a)
    requires a.Fail? || a.ProducerCrash?
    ensures Safe(cx, ProducerApply(cx, w, a))
  {}

  /** While the producer lives, reconcilers have only loaded the record; they keep their obligations when it ends. */
  lemma LoadedKept(cx: Context, w: World, w': World)
    requires Alive(w.producer) && w'.producer.custody == w.producer.custody && w'.reported == w.reported
    requires w'.visible == w.visible && w'.reconcilers == w.reconcilers
    requires forall j :: j in w.reconcilers ==> ReconcilerInv(cx, w, w.reconcilers[j])
    ensures forall j :: j in w'.reconcilers ==> ReconcilerInv(cx, w', w'.reconcilers[j])
  {}

  lemma HandlerEndSafe(cx: Context, w: World)
    requires Safe(cx, w) && ProducerEnabled(cx, w, HandlerEnd)
    ensures Safe(cx, ProducerApply(cx, w, HandlerEnd))
  {
    hide ReconcilerInv;
    LoadedKept(cx, w, ProducerApply(cx, w, HandlerEnd));
  }

  lemma FinishSafe(cx: Context, w: World)
    requires Safe(cx, w) && ProducerEnabled(cx, w, Finish)
    ensures Safe(cx, ProducerApply(cx, w, Finish))
  {}

  /** A step of one reconciler leaves the others' obligations alone. */
  lemma OthersKept(cx: Context, w: World, w': World, k: nat)
    requires forall j :: j in w.reconcilers ==> ReconcilerInv(cx, w, w.reconcilers[j])
    requires w'.producer == w.producer && w'.killed == w.killed
    requires w.reported <= w'.reported && !OutcomeIn(w'.visible).NoEffectAttempted?
    requires w'.reconcilers.Keys <= w.reconcilers.Keys + {k}
    requires forall j :: j in w'.reconcilers && j != k ==> w'.reconcilers[j] == w.reconcilers[j]
    requires k in w'.reconcilers ==> ReconcilerInv(cx, w', w'.reconcilers[k])
    ensures forall j :: j in w'.reconcilers ==> ReconcilerInv(cx, w', w'.reconcilers[j])
  {}

  lemma ReconcilerLoadSafe(cx: Context, w: World, k: nat, a: ReconcilerAction)
    requires Safe(cx, w) && ReconcilerEnabled(cx, w, k, a)
    requires a.Load? || a.Inspect?
    ensures Safe(cx, ReconcilerApply(cx, w, k, a))
  {
    OthersKept(cx, w, ReconcilerApply(cx, w, k, a), k);
  }

  lemma ReconcilerAskSafe(cx: Context, w: World, k: nat, a: ReconcilerAction)
    requires Lawful(cx) && Safe(cx, w) && ReconcilerEnabled(cx, w, k, a)
    requires a.Admit? || a.Ask?
    ensures Safe(cx, ReconcilerApply(cx, w, k, a))
  {
    OthersKept(cx, w, ReconcilerApply(cx, w, k, a), k);
  }

  lemma ReconcilerEvidenceSafe(cx: Context, w: World, k: nat, a: ReconcilerAction)
    requires Safe(cx, w) && ReconcilerEnabled(cx, w, k, a)
    requires a.EvidenceCheck?
    ensures Safe(cx, ReconcilerApply(cx, w, k, a))
  {
    OthersKept(cx, w, ReconcilerApply(cx, w, k, a), k);
  }

  lemma ReconcilerCreateSafe(cx: Context, w: World, k: nat, a: ReconcilerAction)
    requires Safe(cx, w) && ReconcilerEnabled(cx, w, k, a)
    requires a.EvidenceCreate?
    ensures Safe(cx, ReconcilerApply(cx, w, k, a))
  {
    OthersKept(cx, w, ReconcilerApply(cx, w, k, a), k);
  }

  lemma ReconcilerSettleSafe(cx: Context, w: World, k: nat, a: ReconcilerAction)
    requires Safe(cx, w) && ReconcilerEnabled(cx, w, k, a)
    requires a.EvidenceReplace? || a.ReconcilerStops?
    ensures Safe(cx, ReconcilerApply(cx, w, k, a))
  {
    OthersKept(cx, w, ReconcilerApply(cx, w, k, a), k);
  }

  lemma ReconcilerPartialSafe(cx: Context, w: World, k: nat)
    requires Safe(cx, w) && ReconcilerEnabled(cx, w, k, RecoveryPartial)
    ensures Safe(cx, ReconcilerApply(cx, w, k, RecoveryPartial))
  {
    OthersKept(cx, w, ReconcilerApply(cx, w, k, RecoveryPartial), k);
  }

  lemma ReconcilerReplaceSafe(cx: Context, w: World, k: nat)
    requires Safe(cx, w) && ReconcilerEnabled(cx, w, k, RecoveryReplace)
    ensures Safe(cx, ReconcilerApply(cx, w, k, RecoveryReplace))
  {
    OthersKept(cx, w, ReconcilerApply(cx, w, k, RecoveryReplace), k);
  }

  lemma ReconcilerSyncSafe(cx: Context, w: World, k: nat, a: ReconcilerAction)
    requires Safe(cx, w) && ReconcilerEnabled(cx, w, k, a)
    requires a.RecoverySync?
    ensures Safe(cx, ReconcilerApply(cx, w, k, a))
  {
    OthersKept(cx, w, ReconcilerApply(cx, w, k, a), k);
  }

  lemma PowerLossSafe(cx: Context, w: World, a: EnvironmentAction)
    requires Safe(cx, w) && a.PowerLoss?
    ensures Safe(cx, EnvironmentApply(w, a))
  {}

  lemma ReconcilersKept(cx: Context, w: World, w': World)
    requires w'.producer == w.producer && w'.killed == w.killed && w'.reported == w.reported
    requires w'.visible == w.visible && w'.reconcilers == w.reconcilers
    requires forall j :: j in w.reconcilers ==> ReconcilerInv(cx, w, w.reconcilers[j])
    ensures forall j :: j in w'.reconcilers ==> ReconcilerInv(cx, w', w'.reconcilers[j])
  {}

  lemma FlushSafe(cx: Context, w: World)
    requires Safe(cx, w)
    ensures Safe(cx, EnvironmentApply(w, Flush))
  {
    hide ReconcilerInv;
    ReconcilersKept(cx, w, EnvironmentApply(w, Flush));
  }

  lemma OutsideSafe(cx: Context, w: World, a: EnvironmentAction)
    requires Safe(cx, w) && (a.Tamper? || a.TargetExits?)
    ensures Safe(cx, EnvironmentApply(w, a))
  {
    hide ReconcilerInv;
    ReconcilersKept(cx, w, EnvironmentApply(w, a));
  }

  lemma EnvironmentSafe(cx: Context, w: World, a: EnvironmentAction)
    requires Safe(cx, w)
    ensures Safe(cx, EnvironmentApply(w, a))
  {
    hide Safe, EnvironmentApply;
    match a
    case PowerLoss(_, _, _) => PowerLossSafe(cx, w, a);
    case Flush => FlushSafe(cx, w);
    case _ => OutsideSafe(cx, w, a);
  }

  lemma ProducerSafe(cx: Context, w: World, a: ProducerAction)
    requires Lawful(cx) && Safe(cx, w) && ProducerEnabled(cx, w, a)
    ensures Safe(cx, ProducerApply(cx, w, a))
  {
    hide Safe, Lawful, ProducerApply;
    match a
    case WritePartial => ProducerWriteSafe(cx, w, a);
    case WriteReplace => ProducerWriteSafe(cx, w, a);
    case WriteSync => ProducerWriteSafe(cx, w, a);
    case CreateRun => ProducerWriteSafe(cx, w, a);
    case PrepareDispatch(_) => ProducerEffectSafe(cx, w, a);
    case DeclareUnknown => ProducerEffectSafe(cx, w, a);
    case IssueExecute => ProducerEffectSafe(cx, w, a);
    case OwnerReplies(_) => ProducerReplySafe(cx, w, a);
    case TakeOutcome => ProducerReplySafe(cx, w, a);
    case Fail => ProducerFailSafe(cx, w, a);
    case ProducerCrash => ProducerFailSafe(cx, w, a);
    case HandlerEnd => HandlerEndSafe(cx, w);
    case Finish => FinishSafe(cx, w);
  }

  lemma ReconcilerSafe(cx: Context, w: World, k: nat, a: ReconcilerAction)
    requires Lawful(cx) && Safe(cx, w) && ReconcilerEnabled(cx, w, k, a)
    ensures Safe(cx, ReconcilerApply(cx, w, k, a))
  {
    hide Safe, Lawful, ReconcilerApply;
    match a
    case Load => ReconcilerLoadSafe(cx, w, k, a);
    case Inspect => ReconcilerLoadSafe(cx, w, k, a);
    case Admit => ReconcilerAskSafe(cx, w, k, a);
    case Ask(_) => ReconcilerAskSafe(cx, w, k, a);
    case EvidenceCheck => ReconcilerEvidenceSafe(cx, w, k, a);
    case EvidenceCreate => ReconcilerCreateSafe(cx, w, k, a);
    case EvidenceReplace => ReconcilerSettleSafe(cx, w, k, a);
    case ReconcilerStops => ReconcilerSettleSafe(cx, w, k, a);
    case RecoveryPartial => ReconcilerPartialSafe(cx, w, k);
    case RecoveryReplace => ReconcilerReplaceSafe(cx, w, k);
    case RecoverySync => ReconcilerSyncSafe(cx, w, k, a);
  }

  lemma StepSafe(cx: Context, w: World, a: Action)
    requires Lawful(cx) && Safe(cx, w) && Enabled(cx, w, a)
    ensures Safe(cx, Apply(cx, w, a))
  {
    hide Safe, Lawful;
    match a
    case ByProducer(p) => ProducerSafe(cx, w, p);
    case ByReconciler(k, r) => ReconcilerSafe(cx, w, k, r);
    case ByEnvironment(e) => EnvironmentSafe(cx, w, e);
  }

  lemma {:induction false} RunSafe(cx: Context, ws: seq<World>, acts: seq<Action>, i: nat)
    requires Lawful(cx) && IsRun(cx, ws, acts) && i < |ws|
    ensures Safe(cx, ws[i])
  {
    if i > 0 {
      RunSafe(cx, ws, acts, i - 1);
      StepSafe(cx, ws[i - 1], acts[i - 1]);
    }
  }

  // ---------------------------------------------------------------- what the owner has said

  /** Every reported class stands in some reply about the attempt in custody. */
  ghost predicate Logged(cx: Context, w: World) {
    && (forall a :: a in w.reported ==> exists r :: r in w.replies && Class(cx, w, r) == Some(a))
    && (w.producer.pc.NotStarted? || w.producer.pc.BeforeEffect? ==> w.reported == {})
    && (w.reported != {} ==> w.producer.custody.Some?)
  }

  lemma ProducerLogged(cx: Context, w: World, a: ProducerAction)
    requires Safe(cx, w) && Logged(cx, w) && ProducerEnabled(cx, w, a)
    ensures Logged(cx, ProducerApply(cx, w, a))
  {
    hide RecordInv, CallInv, ReconcilerInv;
    var w' := ProducerApply(cx, w, a);
    if !a.PrepareDispatch? {
      forall r ensures Class(cx, w', r) == Class(cx, w, r) {}
      forall b | b in w'.reported ensures exists r :: r in w'.replies && Class(cx, w', r) == Some(b) {
        if b in w.reported {
          var r :| r in w.replies && Class(cx, w, r) == Some(b);
          assert r in w'.replies && Class(cx, w', r) == Some(b);
        } else {
          assert a.reply in w'.replies && Class(cx, w', a.reply) == Some(b);
        }
      }
    }
  }

  lemma ReconcilerLogged(cx: Context, w: World, k: nat, a: ReconcilerAction)
    requires Safe(cx, w) && Logged(cx, w) && ReconcilerEnabled(cx, w, k, a)
    ensures Logged(cx, ReconcilerApply(cx, w, k, a))
  {
    hide RecordInv, CallInv, Grounded;
    var w' := ReconcilerApply(cx, w, k, a);
    if a.Ask? { assert ReconcilerInv(cx, w, w.reconcilers[k]); }
    forall r ensures Class(cx, w', r) == Class(cx, w, r) {}
    forall b | b in w'.reported ensures exists r :: r in w'.replies && Class(cx, w', r) == Some(b) {
      if b in w.reported {
        var r :| r in w.replies && Class(cx, w, r) == Some(b);
        assert r in w'.replies && Class(cx, w', r) == Some(b);
      } else {
        assert a.reply in w'.replies && Class(cx, w', a.reply) == Some(b);
      }
    }
  }

  lemma EnvironmentLogged(cx: Context, w: World, a: EnvironmentAction)
    requires Logged(cx, w)
    ensures Logged(cx, EnvironmentApply(w, a))
  {
    var w' := EnvironmentApply(w, a);
    forall r ensures Class(cx, w', r) == Class(cx, w, r) {}
  }

  lemma {:induction false} RunLogged(cx: Context, ws: seq<World>, acts: seq<Action>, i: nat)
    requires Lawful(cx) && IsRun(cx, ws, acts) && i < |ws|
    ensures Logged(cx, ws[i])
  {
    hide Safe, Logged, Lawful;
    if i == 0 {
      NothingLogged(cx, ws[0]);
    } else {
      RunLogged(cx, ws, acts, i - 1);
      RunSafe(cx, ws, acts, i - 1);
      match acts[i - 1]
      case ByProducer(p) => ProducerLogged(cx, ws[i - 1], p);
      case ByReconciler(k, r) => ReconcilerLogged(cx, ws[i - 1], k, r);
      case ByEnvironment(e) => EnvironmentLogged(cx, ws[i - 1], e);
    }
  }

  lemma NothingLogged(cx: Context, w: World)
    requires exists f :: w == Initial(f)
    ensures Logged(cx, w)
  {}

  /** Some reply of the owner says this about the attempt in custody. */
  ghost predicate OwnerSaid(w: World, c: Option<Custody>, class_: string) {
    c.Some? && exists r :: r in w.replies && Says(r, c.value.attempt, c.value.marker, class_)
  }

  lemma ReportedWasSaid(cx: Context, w: World)
    requires Reads(cx) && Logged(cx, w)
    ensures Success in w.reported ==> OwnerSaid(w, w.producer.custody, "success")
    ensures Failure in w.reported ==> OwnerSaid(w, w.producer.custody, "failure")
  {
    hide Says;
  }

  // ---------------------------------------------------------------- main results, for every discipline

  /** The effect is issued at most once, and only when the unknown outcome has survived an fsync. */
  lemma ExecuteOnceAfterDurableUnknown(c: Codec, runId: string, disc: Discipline, ws: seq<World>, acts: seq<Action>,
      i: nat)
    requires IsRun(ContextOf(c, runId, disc), ws, acts) && i < |acts|
    ensures forall call :: call in ws[i + 1].calls[Min(1, |ws[i + 1].calls|)..] ==> call.Reconcile?
    ensures acts[i] == ByProducer(IssueExecute) ==>
              ws[i].calls == [] && ws[i].durable.Some? && ws[i].durable.value.outcome.OutcomeUnknown?
  {
    var cx := ContextOf(c, runId, disc);
    ContextOfIsLawful(c, runId, disc);
    RunSafe(cx, ws, acts, i);
    RunSafe(cx, ws, acts, i + 1);
  }

  /**
   What RECOVERY.json says is true at every moment, as read and as it would survive a power loss: "no effect
   attempted" means none was issued, and a known outcome is what a reply of the owner says about the attempt in the
   record.
   */
  lemma RecordIsTruthful(c: Codec, runId: string, disc: Discipline, ws: seq<World>, acts: seq<Action>, i: nat)
    requires IsRun(ContextOf(c, runId, disc), ws, acts) && i < |ws|
    ensures forall r :: r in {ws[i].visible, ws[i].durable} ==>
              && (OutcomeIn(r).NoEffectAttempted? ==> !Executed(ws[i]))
              && (OutcomeIn(r).KnownSuccess? ==> OwnerSaid(ws[i], r.value.custody, "success"))
              && (OutcomeIn(r).KnownNoEffect? ==> OwnerSaid(ws[i], r.value.custody, "failure"))
  {
    hide Logged, Reads, OwnerSaid, ReconcilerInv, Lawful;
    var cx := ContextOf(c, runId, disc);
    ContextOfIsLawful(c, runId, disc);
    ContextOfReads(c, runId, disc);
    RunSafe(cx, ws, acts, i);
    RunLogged(cx, ws, acts, i);
    ReportedWasSaid(cx, ws[i]);
  }

  /** The handler kills guests only without an effect or after owner failure, and never strands an unknown record. */
  lemma KillIsSafe(c: Codec, runId: string, disc: Discipline, ws: seq<World>, acts: seq<Action>, i: nat)
    requires IsRun(ContextOf(c, runId, disc), ws, acts) && i < |ws| && ws[i].killed
    ensures ws[i].calls == [] || OwnerSaid(ws[i], ws[i].producer.custody, "failure")
    ensures ws[i].durable == ws[i].visible
    ensures OutcomeIn(ws[i].durable).NoEffectAttempted? || OutcomeIn(ws[i].durable).KnownNoEffect?
  {
    hide Logged, Reads, OwnerSaid, ReconcilerInv, Lawful;
    var cx := ContextOf(c, runId, disc);
    ContextOfIsLawful(c, runId, disc);
    ContextOfReads(c, runId, disc);
    RunSafe(cx, ws, acts, i);
    RunLogged(cx, ws, acts, i);
    ReportedWasSaid(cx, ws[i]);
  }
}
