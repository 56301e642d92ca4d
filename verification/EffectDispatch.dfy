/**
 The values of the effect-custody protocol: owner replies, plan, dispatch and custody, and the checks
 `reconcile-effect` makes before it asks the effect owner about a retained attempt.
 */
module EffectDispatch {
  import opened Prelude
  import Framing = DigestFraming

  // ---------------------------------------------------------------- outcomes and owner replies

  datatype Outcome = NoEffectAttempted | OutcomeUnknown | KnownSuccess | KnownNoEffect

  datatype Answer = Success | Failure | Indeterminate

  function OutcomeState(a: Answer): Outcome {
    match a
    case Success => KnownSuccess
    case Failure => KnownNoEffect
    case Indeterminate => OutcomeUnknown
  }

  predicate Known(o: Outcome) { o.KnownSuccess? || o.KnownNoEffect? }

  /** NO_EFFECT_ATTEMPTED, then OUTCOME_UNKNOWN, then one fixed KNOWN_* value. */
  predicate Advances(o: Outcome, o': Outcome) {
    || o == o'
    || (o.NoEffectAttempted? && o'.OutcomeUnknown?)
    || (o.OutcomeUnknown? && Known(o'))
  }

  /** The owner's JSON reply; `closed` says that it has exactly these four fields. */
  datatype Reply = Reply(closed: bool, attempt: string, marker: string, receipt: string, class_: string)

  function AnswerClass(class_: string): Option<Answer> {
    if class_ == "success" then Some(Success)
    else if class_ == "failure" then Some(Failure)
    else if class_ == "indeterminate" then Some(Indeterminate)
    else None
  }

  predicate IsReceipt(s: string) {
    && |s| == 71
    && s[..7] == "sha256:"
    && forall i :: 7 <= i < 71 ==> '0' <= s[i] <= '9' || 'a' <= s[i] <= 'f'
  }

  /** `verify_effect_outcome`: the reply must be closed and bind the exact attempt and marker. */
  function VerifyOutcome(r: Reply, attempt: string, marker: string): Option<Answer> {
    if !r.closed || r.attempt != attempt || r.marker != marker || !IsReceipt(r.receipt) then None
    else AnswerClass(r.class_)
  }

  /** The reply is a well-formed statement about one attempt, and this is what it says. */
  predicate Says(r: Reply, attempt: string, marker: string, class_: string) {
    && r.closed && r.attempt == attempt && r.marker == marker && r.class_ == class_
    && |r.receipt| == 71 && r.receipt[..7] == "sha256:"
    && forall i :: 7 <= i < 71 ==> r.receipt[i] in "0123456789abcdef"
  }

  lemma HexDigit(c: char)
    ensures '0' <= c <= '9' || 'a' <= c <= 'f' <==> c in "0123456789abcdef"
  {
    var hex := "0123456789abcdef";
    if '0' <= c <= '9' || 'a' <= c <= 'f' {
      assert hex[if c <= '9' then c as int - 48 else c as int - 87] == c;
    }
  }

  /** Replies are judged by their text. */
  lemma VerdictIsWhatItSays(r: Reply, attempt: string, marker: string)
    ensures VerifyOutcome(r, attempt, marker) == Some(Success) <==> Says(r, attempt, marker, "success")
    ensures VerifyOutcome(r, attempt, marker) == Some(Failure) <==> Says(r, attempt, marker, "failure")
    ensures VerifyOutcome(r, attempt, marker) == Some(Indeterminate) <==> Says(r, attempt, marker, "indeterminate")
  {
    forall c: char ensures '0' <= c <= '9' || 'a' <= c <= 'f' <==> c in "0123456789abcdef" { HexDigit(c); }
    assert IsReceipt(r.receipt) <==>
      |r.receipt| == 71 && r.receipt[..7] == "sha256:"
      && forall i :: 7 <= i < 71 ==> r.receipt[i] in "0123456789abcdef";
  }

  /** What becomes of an attempt after a reply: success and failure are recorded exactly when the reply says so. */
  predicate Recounts(o: Outcome, reply: Option<Reply>, attempt: string, marker: string) {
    && (o.KnownSuccess? <==> reply.Some? && Says(reply.value, attempt, marker, "success"))
    && (o.KnownNoEffect? <==> reply.Some? && Says(reply.value, attempt, marker, "failure"))
    && !o.NoEffectAttempted?
  }

  // ---------------------------------------------------------------- plan, dispatch and custody

  /** Canonical JSON of anything small enough for the 16-byte length field. */
  type Text = s: string | |s| < Framing.Pow256(16) witness ""

  datatype Inputs = Inputs(runId: string, subject: string, machine: string)

  datatype Plan = Plan(scope: string, subject: string, machine: string)

  datatype Dispatch = Dispatch(attempt: string, marker: string, scope: string, subject: string, work: string)

  datatype Codec = Codec(
    sha: string -> string,
    canonicalScope: string -> string,
    canonicalPlan: Plan -> Text,
    canonicalDispatch: Dispatch -> string)

  const PLAN_DOMAIN: Text := "ag-effectd.docket-executor-systemd-plan/v2"

  function ExpectedPlan(c: Codec, inputs: Inputs): Plan {
    Plan(c.sha(c.canonicalScope(inputs.subject)), inputs.subject, inputs.machine)
  }

  function ExpectedDispatch(c: Codec, runId: string, plan: Plan): Dispatch {
    var work := c.sha(Framing.DomainPreimage(PLAN_DOMAIN, c.canonicalPlan(plan)));
    Dispatch(c.sha(Framing.AttemptPreimage(runId, work)), c.sha(Framing.MarkerPreimage(runId, work)),
             plan.scope, plan.subject, work)
  }

  /** Attempt and marker never coincide, and an attempt names its run and its exact canonical plan. */
  lemma DispatchIdentity(c: Codec, runId: string, plan: Plan, runId': string, plan': Plan)
    requires Injective(c.sha) && forall s :: Framing.NulFree(c.sha(s))
    ensures var d, d' := ExpectedDispatch(c, runId, plan), ExpectedDispatch(c, runId', plan');
            && d.attempt != d'.marker
            && (d.attempt == d'.attempt ==> runId == runId' && c.canonicalPlan(plan) == c.canonicalPlan(plan'))
  {
    var d, d' := ExpectedDispatch(c, runId, plan), ExpectedDispatch(c, runId', plan');
    Framing.AttemptNeverMarker(runId, d.work, runId', d'.work);
    if d.attempt == d'.attempt {
      Framing.AttemptPreimageInjective(runId, d.work, runId', d'.work);
      Framing.DomainPreimageInjective(PLAN_DOMAIN, c.canonicalPlan(plan), PLAN_DOMAIN, c.canonicalPlan(plan'));
    }
  }

  datatype Custody = Custody(
    planSha: string, dispatchSha: string,
    attempt: string, marker: string, work: string, subject: string, scope: string)

  /** One RECOVERY.json, reduced to the fields the protocol reads back. */
  datatype Record = Record(runId: string, outcome: Outcome, custody: Option<Custody>)

  /** A retained JSON artifact: canonical with an optional newline, or anything else. */
  datatype Artifact<T> = Canonical(value: T, newline: bool) | Other(bytes: string)

  function ArtifactBytes<T>(a: Artifact<T>, canonical: T -> string): string {
    match a
    case Canonical(v, nl) => canonical(v) + if nl then "\n" else ""
    case Other(bytes) => bytes
  }

  /** Evidence files of the run root and the two files installed in the target guest. */
  datatype Files = Files(
    inputs: Inputs, plan: Artifact<Plan>, dispatch: Artifact<Dispatch>,
    guestPlan: string, guestDispatch: string)

  function CustodyOf(c: Codec, f: Files, d: Dispatch): Custody {
    Custody(c.sha(ArtifactBytes(f.plan, p => c.canonicalPlan(p))),
            c.sha(ArtifactBytes(f.dispatch, c.canonicalDispatch)),
            d.attempt, d.marker, d.work, d.subject, d.scope)
  }

  /** The evidence and guest files `enact` leaves behind just before it records the unknown outcome. */
  function PreparedFiles(c: Codec, runId: string, inputs: Inputs): Files {
    var plan := ExpectedPlan(c, inputs);
    var d := ExpectedDispatch(c, runId, plan);
    Files(inputs, Canonical(plan, true), Canonical(d, true), c.canonicalPlan(plan) + "\n",
          c.canonicalDispatch(d) + "\n")
  }

  function PreparedCustody(c: Codec, runId: string, inputs: Inputs): Custody {
    CustodyOf(c, PreparedFiles(c, runId, inputs), ExpectedDispatch(c, runId, ExpectedPlan(c, inputs)))
  }

  /** The exit status of `a; b`, as a remote shell reports it: only the last command counts. */
  predicate SequenceStatus(first: bool, second: bool) { second }

  predicate RemoteCheck(c: Codec, f: Files) {
    SequenceStatus(
      c.sha(f.guestPlan) == c.sha(ArtifactBytes(f.plan, p => c.canonicalPlan(p))),
      c.sha(f.guestDispatch) == c.sha(ArtifactBytes(f.dispatch, c.canonicalDispatch)))
  }

  /** Every check `reconcile_effect` makes between inspecting the processes and asking the owner. */
  function Admits(c: Codec, rec: Record, f: Files): Option<Dispatch> {
    var plan := ExpectedPlan(c, f.inputs);
    var d := ExpectedDispatch(c, rec.runId, plan);
    if f.inputs.runId == rec.runId
       && f.plan.Canonical? && f.plan.value == plan
       && f.dispatch.Canonical? && f.dispatch.value == d
       && rec.custody == Some(CustodyOf(c, f, d))
       && RemoteCheck(c, f)
    then Some(d) else None
  }

  /**
   A reconcile is admitted exactly in a run root as `enact` left it: the inputs of this run, the plan and the dispatch
   written for them (the final newline may be missing), a custody that names them, and the same dispatch in the guest.
   */
  lemma AdmittedIffAsPrepared(c: Codec, rec: Record, f: Files)
    requires Injective(c.sha)
    ensures var left := PreparedFiles(c, rec.runId, f.inputs);
            var dispatch := ArtifactBytes(f.dispatch, c.canonicalDispatch);
            Admits(c, rec, f).Some? <==>
              && f.inputs.runId == rec.runId
              && (f.plan == left.plan || f.plan == left.plan.(newline := false))
              && (f.dispatch == left.dispatch || f.dispatch == left.dispatch.(newline := false))
              && f.guestDispatch == dispatch
              && rec.custody.Some?
              && var k, d := rec.custody.value, left.dispatch.value;
                 && k.planSha == c.sha(ArtifactBytes(f.plan, p => c.canonicalPlan(p)))
                 && k.dispatchSha == c.sha(dispatch)
                 && k.attempt == d.attempt && k.marker == d.marker
                 && k.work == d.work && k.subject == d.subject && k.scope == d.scope
  {
    var dispatch := ArtifactBytes(f.dispatch, c.canonicalDispatch);
    assert c.sha(f.guestDispatch) == c.sha(dispatch) <==> f.guestDispatch == dispatch;
  }

  /** What `enact` leaves behind, spelled out. */
  lemma DispatchText(c: Codec, runId: string, inputs: Inputs)
    ensures var left := PreparedFiles(c, runId, inputs);
            var plan, d := left.plan.value, left.dispatch.value;
            && plan == Plan(c.sha(c.canonicalScope(inputs.subject)), inputs.subject, inputs.machine)
            && d.work == c.sha(Framing.DomainPreimage("ag-effectd.docket-executor-systemd-plan/v2",
                                                      c.canonicalPlan(plan)))
            && d.attempt == c.sha(runId + "\0attempt\0" + d.work) && d.marker == c.sha(runId + "\0marker\0" + d.work)
            && d.subject == inputs.subject && d.scope == plan.scope && left.inputs == inputs
            && left.guestPlan == c.canonicalPlan(plan) + "\n" && left.guestDispatch == c.canonicalDispatch(d) + "\n"
  {}

  /** An admitted reconcile asks about the attempt in custody, and the guest holds the retained dispatch bytes. */
  lemma AdmittedDispatchIsRetained(c: Codec, rec: Record, f: Files)
    requires Injective(c.sha)
    requires Admits(c, rec, f).Some?
    ensures rec.custody.Some?
    ensures Admits(c, rec, f).value.attempt == rec.custody.value.attempt
    ensures Admits(c, rec, f).value.marker == rec.custody.value.marker
    ensures f.guestDispatch == ArtifactBytes(f.dispatch, c.canonicalDispatch)
  {
    assert c.sha(f.guestDispatch) == c.sha(ArtifactBytes(f.dispatch, c.canonicalDispatch));
  }

  /** The plan in the guest is not checked: `;` discards the first comparison, so any plan bytes are admitted. */
  lemma GuestPlanIsUnchecked(c: Codec, rec: Record, f: Files, otherPlan: string)
    ensures Admits(c, rec, f) == Admits(c, rec, f.(guestPlan := otherPlan))
  {
    var g := f.(guestPlan := otherPlan);
    assert ArtifactBytes(g.plan, p => c.canonicalPlan(p)) == ArtifactBytes(f.plan, p => c.canonicalPlan(p));
    assert CustodyOf(c, g, ExpectedDispatch(c, rec.runId, ExpectedPlan(c, g.inputs)))
        == CustodyOf(c, f, ExpectedDispatch(c, rec.runId, ExpectedPlan(c, f.inputs)));
  }
}
