/**
 What the effect owner is told.

 `execute` and `reconcile` both read the dispatch from a file in the target guest. The producer installs that file and
 never looks at it again; a reconcile compares its digest once and then lets the owner read the file anew. The exact
 condition under which every call of a run carries the retained dispatch is proved here.
 */
module EffectGuest {
  import opened Prelude
  import opened EffectDispatch
  import opened EffectCustody
  import opened EffectOrder

  /** The bytes of a call are the ones whose digest is in custody. */
  predicate Carries(c: Codec, w: World, call: Call) {
    w.producer.custody.Some? && c.sha(call.stdin) == w.producer.custody.value.dispatchSha
  }

  ghost predicate AllCarry(c: Codec, w: World) {
    forall j :: 0 <= j < |w.calls| ==> Carries(c, w, w.calls[j])
  }

  /** At a call, the guest file is what it was at preparation, or when this reconcile compared it. */
  predicate Undisturbed(w: World, a: Action) {
    && (a == ByProducer(IssueExecute) ==> w.files.guestDispatch == w.producer.sent)
    && (a.ByReconciler? && a.r.Ask? && a.k in w.reconcilers && w.reconcilers[a.k].pc.Admitted? ==>
          w.files.guestDispatch == w.reconcilers[a.k].pc.seen)
  }

  // ---------------------------------------------------------------- what custody binds

  predicate PreparedFrom(c: Codec, runId: string, w: World, i: Inputs) {
    && w.producer.custody == Some(PreparedCustody(c, runId, i))
    && w.producer.sent == PreparedFiles(c, runId, i).guestDispatch
  }

  /** Custody and the installed dispatch come from one preparation. */
  ghost predicate Installed(c: Codec, runId: string, w: World) {
    w.producer.custody.Some? ==> exists i :: PreparedFrom(c, runId, w, i)
  }

  /** A reconcile is admitted on the installed bytes. */
  ghost predicate Compared(w: World) {
    forall k :: k in w.reconcilers && w.reconcilers[k].pc.Admitted? ==> w.reconcilers[k].pc.seen == w.producer.sent
  }

  lemma PreparedIsBound(c: Codec, runId: string, i: Inputs)
    ensures c.sha(PreparedFiles(c, runId, i).guestDispatch) == PreparedCustody(c, runId, i).dispatchSha
  {}

  lemma AdmittedIsBound(c: Codec, rec: Record, f: Files)
    requires Admits(c, rec, f).Some?
    ensures rec.custody.Some? && c.sha(f.guestDispatch) == rec.custody.value.dispatchSha
  {}

  /** The bytes are a canonical dispatch with the attempt and marker in custody. */
  ghost predicate NamesTheAttempt(c: Codec, w: World, bytes: string) {
    && w.producer.custody.Some?
    && exists d :: && bytes == c.canonicalDispatch(d) + "\n"
                   && d.attempt == w.producer.custody.value.attempt && d.marker == w.producer.custody.value.marker
  }

  lemma CarriedNamesTheAttempt(c: Codec, runId: string, w: World, call: Call)
    requires Injective(c.sha) && Installed(c, runId, w) && Carries(c, w, call)
    ensures NamesTheAttempt(c, w, call.stdin)
  {
    CarriesIffSent(c, runId, w, call);
    var i :| PreparedFrom(c, runId, w, i);
    var d := ExpectedDispatch(c, runId, ExpectedPlan(c, i));
    assert call.stdin == c.canonicalDispatch(d) + "\n";
  }

  // ---------------------------------------------------------------- every step

  ghost predicate Bound(c: Codec, runId: string, w: World) { Installed(c, runId, w) && Compared(w) }

  lemma InstalledKept(c: Codec, runId: string, w: World, w': World)
    requires w'.producer.custody == w.producer.custody && w'.producer.sent == w.producer.sent
    ensures Installed(c, runId, w) ==> Installed(c, runId, w')
  {
    hide PreparedFiles, PreparedCustody;
    if Installed(c, runId, w) && w.producer.custody.Some? {
      var i :| PreparedFrom(c, runId, w, i);
      assert PreparedFrom(c, runId, w', i);
    }
  }

  lemma ProducerBound(c: Codec, runId: string, disc: Discipline, w: World, a: ProducerAction)
    requires var cx := ContextOf(c, runId, disc); Safe(cx, w) && ProducerEnabled(cx, w, a)
    requires Bound(c, runId, w)
    ensures var w' := ProducerApply(ContextOf(c, runId, disc), w, a);
            && Bound(c, runId, w')
            && (if a.PrepareDispatch? then w.calls == [] else w'.producer.custody == w.producer.custody)
            && (a.IssueExecute? ==> w'.calls == w.calls + [Execute(w.files.guestDispatch)])
            && (!a.IssueExecute? ==> w'.calls == w.calls)
  {
    hide Admits, VerifyOutcome, PreparedFiles, PreparedCustody;
    var w' := ProducerApply(ContextOf(c, runId, disc), w, a);
    if a.PrepareDispatch? {
      assert PreparedFrom(c, runId, w', a.inputs);
    } else if w.producer.custody.Some? {
      var i :| PreparedFrom(c, runId, w, i);
      assert PreparedFrom(c, runId, w', i);
    }
  }

  /** An admitted reconcile has compared the installed bytes. */
  lemma AdmitCompares(c: Codec, runId: string, disc: Discipline, w: World, k: nat)
    requires var cx := ContextOf(c, runId, disc); Safe(cx, w) && ReconcilerEnabled(cx, w, k, Admit)
    requires Injective(c.sha) && Installed(c, runId, w)
    ensures w.files.guestDispatch == w.producer.sent
  {
    hide Admits, Installed, Injective, ProducerInv, CallInv, RecordInv;
    assert ReconcilerInv(ContextOf(c, runId, disc), w, w.reconcilers[k]);
    AdmittedIsBound(c, w.reconcilers[k].record, w.files);
    CarriesIffSent(c, runId, w, Reconcile(w.files.guestDispatch));
  }

  lemma ReconcilerBound(c: Codec, runId: string, disc: Discipline, w: World, k: nat, a: ReconcilerAction)
    requires var cx := ContextOf(c, runId, disc); Safe(cx, w) && ReconcilerEnabled(cx, w, k, a)
    requires Injective(c.sha) && Bound(c, runId, w)
    ensures var w' := ReconcilerApply(ContextOf(c, runId, disc), w, k, a);
            && Bound(c, runId, w') && w'.producer == w.producer
            && (a.Ask? ==> w'.calls == w.calls + [Reconcile(w.files.guestDispatch)])
            && (!a.Ask? ==> w'.calls == w.calls)
  {
    hide Safe, Installed, Injective, Compared, ReconcilerApply, ReconcilerEnabled, ContextOf;
    if a.Admit? { AdmitCompares(c, runId, disc, w, k); }
    ReconcilerCompared(ContextOf(c, runId, disc), w, k, a);
    InstalledKept(c, runId, w, ReconcilerApply(ContextOf(c, runId, disc), w, k, a));
  }

  lemma ReconcilerCompared(cx: Context, w: World, k: nat, a: ReconcilerAction)
    requires ReconcilerEnabled(cx, w, k, a) && Compared(w)
    requires a.Admit? ==> w.files.guestDispatch == w.producer.sent
    ensures var w' := ReconcilerApply(cx, w, k, a);
            && Compared(w') && w'.producer == w.producer
            && (a.Ask? ==> w'.calls == w.calls + [Reconcile(w.files.guestDispatch)])
            && (!a.Ask? ==> w'.calls == w.calls)
  {}

  lemma EnvironmentBound(c: Codec, runId: string, w: World, a: EnvironmentAction)
    requires Bound(c, runId, w)
    ensures var w' := EnvironmentApply(w, a);
            Bound(c, runId, w') && w'.calls == w.calls && w'.producer.custody == w.producer.custody
  {
    hide PreparedFiles, PreparedCustody;
    InstalledKept(c, runId, w, EnvironmentApply(w, a));
  }

  lemma AppendCarries(c: Codec, w: World, w': World, call: Call)
    requires w'.calls == w.calls + [call] && w'.producer.custody == w.producer.custody
    ensures AllCarry(c, w') <==> AllCarry(c, w) && Carries(c, w, call)
  {
    assert w'.calls[|w.calls|] == call && forall j :: 0 <= j < |w.calls| ==> w'.calls[j] == w.calls[j];
  }

  /** Under injectivity, carrying the digest in custody is carrying the installed bytes. */
  lemma CarriesIffSent(c: Codec, runId: string, w: World, call: Call)
    requires Injective(c.sha) && Installed(c, runId, w) && w.producer.custody.Some?
    ensures Carries(c, w, call) <==> call.stdin == w.producer.sent
  {
    hide PreparedFiles, PreparedCustody;
    var i :| PreparedFrom(c, runId, w, i);
    PreparedIsBound(c, runId, i);
  }

  lemma ProducerCarries(c: Codec, runId: string, disc: Discipline, w: World, a: ProducerAction)
    requires var cx := ContextOf(c, runId, disc); Safe(cx, w) && ProducerEnabled(cx, w, a)
    requires Injective(c.sha) && Bound(c, runId, w)
    ensures var w' := ProducerApply(ContextOf(c, runId, disc), w, a);
            AllCarry(c, w') <==> AllCarry(c, w) && Undisturbed(w, ByProducer(a))
  {
    hide ProducerApply, Admits, VerifyOutcome, PreparedFiles, PreparedCustody, Injective, Installed, Carries;
    ProducerBound(c, runId, disc, w, a);
    var w' := ProducerApply(ContextOf(c, runId, disc), w, a);
    if a.IssueExecute? {
      AppendCarries(c, w, w', Execute(w.files.guestDispatch));
      CarriesIffSent(c, runId, w, Execute(w.files.guestDispatch));
    } else if !a.PrepareDispatch? {
      SameCarry(c, w, w');
    }
  }

  lemma SameCarry(c: Codec, w: World, w': World)
    requires w'.calls == w.calls && w'.producer.custody == w.producer.custody
    ensures AllCarry(c, w') <==> AllCarry(c, w)
  {}

  lemma ReconcilerCarries(c: Codec, runId: string, disc: Discipline, w: World, k: nat, a: ReconcilerAction)
    requires var cx := ContextOf(c, runId, disc); Safe(cx, w) && ReconcilerEnabled(cx, w, k, a)
    requires Injective(c.sha) && Bound(c, runId, w)
    ensures var w' := ReconcilerApply(ContextOf(c, runId, disc), w, k, a);
            AllCarry(c, w') <==> AllCarry(c, w) && Undisturbed(w, ByReconciler(k, a))
  {
    hide ReconcilerApply, Admits, VerifyOutcome, PreparedFiles, PreparedCustody, Injective, Installed, Carries;
    ReconcilerBound(c, runId, disc, w, k, a);
    var w' := ReconcilerApply(ContextOf(c, runId, disc), w, k, a);
    if a.Ask? {
      assert ReconcilerInv(ContextOf(c, runId, disc), w, w.reconcilers[k]);
      AppendCarries(c, w, w', Reconcile(w.files.guestDispatch));
      CarriesIffSent(c, runId, w, Reconcile(w.files.guestDispatch));
    } else {
      SameCarry(c, w, w');
    }
  }

  /** One step keeps the binding; its call carries the retained dispatch exactly when the guest file was left alone. */
  lemma StepCarries(c: Codec, runId: string, disc: Discipline, w: World, a: Action)
    requires var cx := ContextOf(c, runId, disc); Safe(cx, w) && Enabled(cx, w, a)
    requires Injective(c.sha) && Bound(c, runId, w)
    ensures var w' := Apply(ContextOf(c, runId, disc), w, a);
            Bound(c, runId, w') && (AllCarry(c, w') <==> AllCarry(c, w) && Undisturbed(w, a))
  {
    hide Safe, Bound, AllCarry, Injective, ProducerApply, ReconcilerApply, EnvironmentApply, ContextOf;
    match a
    case ByProducer(p) =>
      ProducerBound(c, runId, disc, w, p);
      ProducerCarries(c, runId, disc, w, p);
    case ByReconciler(k, r) =>
      ReconcilerBound(c, runId, disc, w, k, r);
      ReconcilerCarries(c, runId, disc, w, k, r);
    case ByEnvironment(e) =>
      EnvironmentBound(c, runId, w, e);
      SameCarry(c, w, EnvironmentApply(w, e));
  }

  lemma {:induction false} RunCarries(c: Codec, runId: string, disc: Discipline, ws: seq<World>, acts: seq<Action>,
      i: nat)
    requires Injective(c.sha) && IsRun(ContextOf(c, runId, disc), ws, acts) && i < |ws|
    ensures Bound(c, runId, ws[i])
    ensures AllCarry(c, ws[i]) <==> forall t :: 0 <= t < i ==> Undisturbed(ws[t], acts[t])
  {
    hide Undisturbed, Apply, Enabled, ContextOf, Injective;
    if i > 0 {
      RunCarries(c, runId, disc, ws, acts, i - 1);
      ContextOfIsLawful(c, runId, disc);
      RunSafe(ContextOf(c, runId, disc), ws, acts, i - 1);
      StepCarries(c, runId, disc, ws[i - 1], acts[i - 1]);
    }
  }

  // ---------------------------------------------------------------- main results

  /**
   In every run, every call to the owner carries the retained dispatch exactly when the guest's dispatch file is the
   installed one at `execute` and the compared one at each reconcile.
   */
  lemma CallsCarryTheRetainedDispatch(c: Codec, runId: string, disc: Discipline, ws: seq<World>, acts: seq<Action>,
      i: nat)
    requires Injective(c.sha) && IsRun(ContextOf(c, runId, disc), ws, acts) && i < |ws|
    ensures AllCarry(c, ws[i]) <==> forall t :: 0 <= t < i ==> Undisturbed(ws[t], acts[t])
    ensures AllCarry(c, ws[i]) ==> forall j :: 0 <= j < |ws[i].calls| ==>
            NamesTheAttempt(c, ws[i], ws[i].calls[j].stdin)
  {
    hide Undisturbed, Apply, Enabled, ContextOf, Injective, NamesTheAttempt, Carries;
    RunCarries(c, runId, disc, ws, acts, i);
    forall j | 0 <= j < |ws[i].calls| && Carries(c, ws[i], ws[i].calls[j])
      ensures NamesTheAttempt(c, ws[i], ws[i].calls[j].stdin)
    {
      CarriedNamesTheAttempt(c, runId, ws[i], ws[i].calls[j]);
    }
  }

  /** Nothing checks the guest file between its installation and `execute`. */
  lemma ExecuteReadsWhateverIsThere(c: Codec, runId: string, disc: Discipline) returns (w: World)
    requires Injective(c.sha)
    ensures Reachable(ContextOf(c, runId, disc), w)
    ensures |w.calls| == 1 && w.calls[0].Execute? && !Carries(c, w, w.calls[0])
  {
    hide Reachable, PreparedFiles, PreparedCustody;
    var cx, i := ContextOf(c, runId, disc), Inputs(runId, "", "");
    ReachPrepared(cx, i);
    w := WriteRecord(cx, PreparedWorld(cx, i));
    var other := w.files.guestDispatch + "x";
    w := Step(cx, w, ByEnvironment(Tamper(w.files.(guestDispatch := other))));
    w := Step(cx, w, ByProducer(IssueExecute));
    PreparedIsBound(c, runId, i);
    assert w.calls == [Execute(other)] && |other| != |cx.files(i).guestDispatch|;
  }

  /** A reconcile compares the guest file and then lets the owner read it again. */
  lemma ReconcileReadsAgain(c: Codec, runId: string, disc: Discipline) returns (w: World)
    requires Injective(c.sha)
    ensures Reachable(ContextOf(c, runId, disc), w)
    ensures |w.calls| == 2 && w.calls[1].Reconcile? && Carries(c, w, w.calls[0]) && !Carries(c, w, w.calls[1])
  {
    hide Reachable, PreparedFiles, PreparedCustody, VerifyOutcome, Admits;
    var cx := ContextOf(c, runId, disc);
    var i, good, vague := CodecIsPlayable(c, runId, disc);
    ReachWaiting(cx, i);
    w := Step(cx, WaitingWorld(cx, i), ByProducer(ProducerCrash));
    w := Step(cx, w, ByReconciler(0, Load));
    w := Step(cx, w, ByReconciler(0, Inspect));
    w := Step(cx, w, ByReconciler(0, Admit));
    var other := w.files.guestDispatch + "x";
    w := Step(cx, w, ByEnvironment(Tamper(w.files.(guestDispatch := other))));
    w := Step(cx, w, ByReconciler(0, Ask(good)));
    PreparedIsBound(c, runId, i);
    assert w.calls == [Execute(cx.files(i).guestDispatch), Reconcile(other)] && |other| != |cx.files(i).guestDispatch|;
  }
}
