/**
 Writer serialization in the daemon: `store_operation` takes a FIFO permit and moves it into the blocking operation,
 so cancelling the asynchronous waiter neither stops a running operation nor releases its permit.

 Operations are numbered in the order in which they ask for the permit.
 */
module WriterPermit {
  datatype Phase =
    | Queued       // waiting in the mutex queue
    | Assigned     // handed the permit, its waiter not polled yet
    | Spawned      // permit moved into a blocking task that has not started
    | Running      // blocking task running
    | Done         // operation returned, refused or panicked
    | Cancelled    // gave up before its operation started

  predicate Holds(p: Phase) { p.Assigned? || p.Spawned? || p.Running? }

  datatype World = World(
    permits: nat,
    queue: seq<nat>,
    phase: map<nat, Phase>,
    awaited: set<nat>,         // operations whose asynchronous waiter is still alive
    next: nat,                 // number of the next arrival
    starts: seq<nat>)          // operations in the order in which they began to run

  const INITIAL: World := World(1, [], map[], {}, 0, [])

  datatype Result = Returned | RefusedByStore | Panicked

  datatype Action =
    | Arrive
    | Wake(op: nat)
    | Begin(op: nat)
    | Finish(op: nat, result: Result)
    | Cancel(op: nat)
    | DropUnstarted(op: nat)   // runtime shutdown drops a blocking task that never started

  predicate Enabled(w: World, a: Action) {
    match a
    case Arrive => true
    case Wake(op) => op in w.phase && w.phase[op].Assigned?
    case Begin(op) => op in w.phase && w.phase[op].Spawned?
    case Finish(op, _) => op in w.phase && w.phase[op].Running?
    case Cancel(op) => op in w.phase && op in w.awaited
    case DropUnstarted(op) => op in w.phase && w.phase[op].Spawned?
  }

  /** Dropping the permit hands it to the longest waiter, or back to the mutex. */
  function Release(w: World): World {
    if w.queue == [] then w.(permits := w.permits + 1)
    else w.(queue := w.queue[1..], phase := w.phase[w.queue[0] := Assigned])
  }

  function Remove(queue: seq<nat>, op: nat): (r: seq<nat>)
    ensures forall q :: q in r <==> q in queue && q != op
  {
    if queue == [] then []
    else if queue[0] == op then Remove(queue[1..], op)
    else [queue[0]] + Remove(queue[1..], op)
  }

  function Apply(w: World, a: Action): World
    requires Enabled(w, a)
  {
    match a
    case Arrive =>
      if w.permits > 0
      then w.(permits := w.permits - 1, phase := w.phase[w.next := Spawned], awaited := w.awaited + {w.next},
            next := w.next + 1)
      else w.(queue := w.queue + [w.next], phase := w.phase[w.next := Queued], awaited := w.awaited + {w.next},
            next := w.next + 1)
    case Wake(op) => w.(phase := w.phase[op := Spawned])
    case Begin(op) => w.(phase := w.phase[op := Running], starts := w.starts + [op])
    case Finish(op, _) => Release(w.(phase := w.phase[op := Done], awaited := w.awaited - {op}))
    case Cancel(op) =>
      var v := w.(awaited := w.awaited - {op});
      if w.phase[op].Queued? then v.(queue := Remove(w.queue, op), phase := w.phase[op := Cancelled])
      else if w.phase[op].Assigned? then Release(v.(phase := w.phase[op := Cancelled]))
      else v
    case DropUnstarted(op) => Release(w.(phase := w.phase[op := Cancelled], awaited := w.awaited - {op}))
  }

  ghost predicate IsRun(ws: seq<World>, acts: seq<Action>) {
    && |ws| == |acts| + 1 && ws[0] == INITIAL
    && forall i :: 0 <= i < |acts| ==> Enabled(ws[i], acts[i]) && ws[i + 1] == Apply(ws[i], acts[i])
  }

  // ---------------------------------------------------------------- the invariant

  ghost predicate Holder(w: World, op: nat) { op in w.phase && Holds(w.phase[op]) }

  ghost predicate Increasing(s: seq<nat>) { forall i, j :: 0 <= i < j < |s| ==> s[i] < s[j] }

  /** One permit in all: free, or held by exactly one operation. */
  ghost predicate PermitInv(w: World) {
    && w.permits <= 1
    && (forall a, b :: a in w.phase && b in w.phase && Holds(w.phase[a]) && Holds(w.phase[b]) ==> a == b)
    && (w.permits == 1 ==> forall a :: a in w.phase ==> !Holds(w.phase[a]))
    && (w.permits == 0 ==> exists a :: a in w.phase && Holds(w.phase[a]))
    && (w.queue != [] ==> w.permits == 0)
  }

  ghost predicate QueueInv(w: World) {
    && (forall op: nat :: op in w.phase <==> op < w.next)
    && (forall op :: op in w.phase && w.phase[op].Queued? <==> op in w.queue)
    && Increasing(w.queue)
  }

  ghost predicate Started(p: Phase) { p.Running? || p.Done? }

  /** Everything that ever started is behind whoever holds the permit unstarted, and behind the queue. */
  ghost predicate OrderInv(w: World) {
    && Increasing(w.starts)
    && (forall op :: op in w.starts <==> op in w.phase && Started(w.phase[op]))
    && (forall a, b ::
          a in w.phase && b in w.phase && w.phase[a].Queued? && !w.phase[b].Queued? && !w.phase[b].Cancelled? ==> b < a)
    && (forall a, b :: a in w.phase && Holds(w.phase[a]) && !w.phase[a].Running? && b in w.starts ==> b < a)
  }

  ghost predicate Inv(w: World) { PermitInv(w) && QueueInv(w) && OrderInv(w) }

  lemma InitialInv()
    ensures Inv(INITIAL)
  {
    assert INITIAL.phase == map[] && INITIAL.queue == [] && INITIAL.starts == [];
  }

  lemma ArrivePermit(w: World)
    requires Inv(w)
    ensures PermitInv(Apply(w, Arrive))
  {
    hide OrderInv, Increasing;
    var v := Apply(w, Arrive);
    assert v.phase[w.next].Spawned? || v.phase[w.next].Queued?;
    if w.permits == 0 {
      var h :| h in w.phase && Holds(w.phase[h]);
      assert h in v.phase && Holds(v.phase[h]);
    }
  }

  lemma ArriveQueue(w: World)
    requires Inv(w)
    ensures QueueInv(Apply(w, Arrive))
  {
    hide OrderInv;
    assert forall i :: 0 <= i < |w.queue| ==> w.queue[i] in w.queue;
  }

  lemma ArriveOrder(w: World)
    requires Inv(w)
    ensures OrderInv(Apply(w, Arrive))
  {
    hide Increasing;
    assert w.permits > 0 ==> w.queue == [];
  }

  lemma ArriveInv(w: World)
    requires Inv(w)
    ensures Inv(Apply(w, Arrive))
  {
    ArrivePermit(w);
    ArriveQueue(w);
    ArriveOrder(w);
  }

  /** `v` is `w` with the holder `op` out of the way and its permit about to be dropped. */
  ghost predicate Leaving(w: World, v: World, op: nat) {
    && op in w.phase && Holds(w.phase[op])
    && v.permits == w.permits && v.queue == w.queue && v.next == w.next && v.starts == w.starts
    && v.phase == w.phase[op := if w.phase[op].Running? then Done else Cancelled]
  }

  lemma ReleasePermit(w: World, v: World, op: nat)
    requires Inv(w) && Leaving(w, v, op)
    ensures PermitInv(Release(v))
  {
    hide OrderInv, Increasing;
    var u := Release(v);
    if w.queue != [] {
      assert w.queue[0] in w.queue;
      assert u.phase[w.queue[0]].Assigned?;
    }
  }

  lemma ReleaseQueue(w: World, v: World, op: nat)
    requires Inv(w) && Leaving(w, v, op)
    ensures QueueInv(Release(v))
  {
    hide OrderInv, PermitInv;
    if w.queue != [] {
      assert w.queue[0] in w.queue;
      assert forall i :: 0 <= i < |w.queue| ==> w.queue[i] in w.queue;
      assert forall q :: q in w.queue[1..] <==> q in w.queue && q != w.queue[0];
    }
  }

  lemma LeavingOrder(w: World, v: World, op: nat)
    requires OrderInv(w) && Leaving(w, v, op)
    ensures OrderInv(v)
  {
    hide Increasing;
  }

  lemma ReleaseOrder(w: World, v: World, op: nat)
    requires Inv(w) && Leaving(w, v, op)
    ensures OrderInv(Release(v))
  {
    LeavingOrder(w, v, op);
    if w.queue != [] { HandOver(w, v, op); }
  }

  /** The permit goes to the head of the queue. */
  lemma HandOver(w: World, v: World, op: nat)
    requires QueueInv(w) && OrderInv(v) && Leaving(w, v, op) && w.queue != []
    ensures OrderInv(Release(v))
  {
    var head := w.queue[0];
    assert head in w.queue;
    assert forall q :: q in w.queue && q != head ==> head < q;
  }

  lemma ReleaseInv(w: World, v: World, op: nat)
    requires Inv(w) && Leaving(w, v, op)
    ensures Inv(Release(v))
  {
    ReleasePermit(w, v, op);
    ReleaseQueue(w, v, op);
    ReleaseOrder(w, v, op);
  }

  lemma {:induction false} RemoveIncreasing(queue: seq<nat>, op: nat)
    requires Increasing(queue)
    ensures Increasing(Remove(queue, op))
  {
    if queue != [] {
      RemoveIncreasing(queue[1..], op);
      assert forall q :: q in queue[1..] ==> queue[0] < q;
      var r := Remove(queue[1..], op);
      assert forall i :: 0 <= i < |r| ==> r[i] in r;
    }
  }

  lemma RunPermit(w: World, a: Action)
    requires Inv(w) && Enabled(w, a) && (a.Wake? || a.Begin?)
    ensures PermitInv(Apply(w, a)) && QueueInv(Apply(w, a))
  {
    hide OrderInv;
    assert Holds(w.phase[a.op]) && Holds(Apply(w, a).phase[a.op]);
  }

  lemma RunOrder(w: World, a: Action)
    requires Inv(w) && Enabled(w, a) && (a.Wake? || a.Begin?)
    ensures OrderInv(Apply(w, a))
  {
    hide QueueInv;
    assert Holds(w.phase[a.op]);
    assert forall i :: 0 <= i < |w.starts| ==> w.starts[i] in w.starts;
  }

  lemma RunInv(w: World, a: Action)
    requires Inv(w) && Enabled(w, a) && (a.Wake? || a.Begin?)
    ensures Inv(Apply(w, a))
  {
    RunPermit(w, a);
    RunOrder(w, a);
    hide PermitInv, QueueInv, OrderInv, Apply;
  }

  /** A waiter that holds nothing leaves the permit where it is. */
  lemma CancelPermit(w: World, op: nat)
    requires Inv(w) && Enabled(w, Cancel(op)) && !w.phase[op].Assigned?
    ensures PermitInv(Apply(w, Cancel(op)))
  {
    hide OrderInv;
    var v := Apply(w, Cancel(op));
    if w.permits == 0 {
      var h :| h in w.phase && Holds(w.phase[h]);
      assert h in v.phase && Holds(v.phase[h]);
    }
  }

  lemma CancelOrder(w: World, op: nat)
    requires Inv(w) && Enabled(w, Cancel(op)) && !w.phase[op].Assigned?
    ensures QueueInv(Apply(w, Cancel(op))) && OrderInv(Apply(w, Cancel(op)))
  {
    hide PermitInv;
    RemoveIncreasing(w.queue, op);
  }

  lemma CancelInv(w: World, op: nat)
    requires Inv(w) && Enabled(w, Cancel(op))
    ensures Inv(Apply(w, Cancel(op)))
  {
    hide PermitInv, QueueInv, OrderInv;
    if w.phase[op].Assigned? {
      ReleaseInv(w, w.(awaited := w.awaited - {op}, phase := w.phase[op := Cancelled]), op);
    } else {
      CancelPermit(w, op);
      CancelOrder(w, op);
    }
  }

  lemma StepInv(w: World, a: Action)
    requires Inv(w) && Enabled(w, a)
    ensures Inv(Apply(w, a))
  {
    match a
    case Arrive => ArriveInv(w);
    case Wake(_) => RunInv(w, a);
    case Begin(_) => RunInv(w, a);
    case Finish(op, _) => ReleaseInv(w, w.(phase := w.phase[op := Done], awaited := w.awaited - {op}), op);
    case Cancel(op) => CancelInv(w, op);
    case DropUnstarted(op) => ReleaseInv(w, w.(phase := w.phase[op := Cancelled], awaited := w.awaited - {op}), op);
  }

  lemma {:induction false} RunKeepsInv(ws: seq<World>, acts: seq<Action>, i: nat)
    requires IsRun(ws, acts) && i < |ws|
    ensures Inv(ws[i])
  {
    InitialInv();
    if i > 0 {
      RunKeepsInv(ws, acts, i - 1);
      StepInv(ws[i - 1], acts[i - 1]);
    }
  }

  // ---------------------------------------------------------------- main results

  /** In every interleaving the free permits and the holders make one. */
  lemma OnePermit(ws: seq<World>, acts: seq<Action>, i: nat)
    requires IsRun(ws, acts) && i < |ws|
    ensures var holders := set op | op in ws[i].phase && Holds(ws[i].phase[op]);
            |holders| + ws[i].permits == 1
  {
    RunKeepsInv(ws, acts, i);
    var w := ws[i];
    var holders := set op | op in w.phase && Holds(w.phase[op]);
    if w.permits == 1 {
      assert holders == {};
    } else {
      var h :| h in w.phase && Holds(w.phase[h]);
      assert holders == {h};
    }
  }

  /** Cancelling the waiter of a spawned or running operation changes neither its permit nor anybody's turn. */
  lemma CancelKeepsThePermit(ws: seq<World>, acts: seq<Action>, i: nat, op: nat)
    requires IsRun(ws, acts) && i < |acts| && acts[i] == Cancel(op)
    requires ws[i].phase[op].Spawned? || ws[i].phase[op].Running?
    ensures ws[i + 1] == ws[i].(awaited := ws[i].awaited - {op})
    ensures Holds(ws[i + 1].phase[op]) 
    ensures forall q :: Holder(ws[i], q) ==> q == op
  {
    RunKeepsInv(ws, acts, i);
  }

  /** Who still has to take the permit is awaited, and who is awaited has not come to an end. */
  ghost predicate AwaitedInv(w: World) {
    && (forall op :: op in w.phase && (w.phase[op].Queued? || w.phase[op].Assigned?) ==> op in w.awaited)
    && (forall op :: op in w.awaited ==> op in w.phase && !w.phase[op].Done? && !w.phase[op].Cancelled?)
  }

  lemma StepAwaited(w: World, a: Action)
    requires Inv(w) && AwaitedInv(w) && Enabled(w, a)
    ensures AwaitedInv(Apply(w, a))
  {
    hide PermitInv, OrderInv;
    if w.queue != [] { assert w.queue[0] in w.queue; }
  }

  lemma {:induction false} RunAwaited(ws: seq<World>, acts: seq<Action>, i: nat)
    requires IsRun(ws, acts) && i < |ws|
    ensures AwaitedInv(ws[i])
  {
    hide Inv;
    if i > 0 {
      RunAwaited(ws, acts, i - 1);
      RunKeepsInv(ws, acts, i - 1);
      StepAwaited(ws[i - 1], acts[i - 1]);
    }
  }

  /** Whoever arrives is awaited, and can give up at any moment until the permit has moved into the operation. */
  lemma WaitersCanGiveUp(ws: seq<World>, acts: seq<Action>, i: nat, op: nat)
    requires IsRun(ws, acts) && i < |ws|
    ensures op in ws[i].phase && (ws[i].phase[op].Queued? || ws[i].phase[op].Assigned?) ==>
              Enabled(ws[i], Cancel(op)) && Apply(ws[i], Cancel(op)).phase[op].Cancelled?
    ensures i < |acts| && acts[i].Arrive? ==> Enabled(ws[i + 1], Cancel(ws[i].next))
  {
    RunAwaited(ws, acts, i);
    RunKeepsInv(ws, acts, i);
    var w := ws[i];
    if w.queue != [] { assert w.queue[0] in w.queue && w.phase[w.queue[0]].Queued?; }
  }

  /** Operations start in arrival order, and nobody is overtaken by a later start unless they gave up. */
  lemma StartsInArrivalOrder(ws: seq<World>, acts: seq<Action>, i: nat)
    requires IsRun(ws, acts) && i < |ws|
    ensures Increasing(ws[i].starts)
    ensures forall a: nat, b :: b in ws[i].starts && a < b ==>
            a in ws[i].starts || (a in ws[i].phase && ws[i].phase[a].Cancelled?)
  {
    RunKeepsInv(ws, acts, i);
    var w := ws[i];
    forall a: nat, b | b in w.starts && a < b ensures a in w.starts || (a in w.phase && w.phase[a].Cancelled?) {
      assert a in w.phase;
    }
  }

  /** Arrived, and neither started nor given up. */
  ghost predicate Waiting(w: World, op: nat) { op in w.phase && !Started(w.phase[op]) && !w.phase[op].Cancelled? }

  /** Only the queue waits while somebody runs. */
  lemma RunningLeavesQueue(w: World, op: nat, q: nat)
    requires Inv(w) && op in w.phase && w.phase[op].Running?
    ensures Waiting(w, q) <==> q in w.queue
  {
    hide OrderInv;
    if Waiting(w, q) { assert Holds(w.phase[op]); }
  }

  /**
   In every run, after an operation finishes, whatever its result, the permit is free and nobody waits, or it is held by
   the operation that has waited longest: the least-numbered one that has neither started nor been cancelled.
   */
  lemma PermitReturns(ws: seq<World>, acts: seq<Action>, i: nat, op: nat, result: Result)
    requires IsRun(ws, acts) && i < |acts| && acts[i] == Finish(op, result)
    ensures var w := ws[i + 1];
            || (w.permits == 1 && forall q: nat :: !Waiting(w, q))
            || exists h: nat :: Holder(w, h) && Waiting(w, h) && forall q: nat :: Waiting(w, q) ==> h <= q
  {
    RunKeepsInv(ws, acts, i);
    var v, w := ws[i], ws[i + 1];
    assert Enabled(v, acts[i]) && w == Apply(v, Finish(op, result));
    forall q: nat ensures Waiting(w, q) <==> q in v.queue {
      RunningLeavesQueue(v, op, q);
      if v.queue != [] { assert v.queue[0] in v.queue; }
    }
    if v.queue != [] {
      var h := v.queue[0];
      assert h in v.queue && Holder(w, h) && Waiting(w, h);
      forall q: nat | Waiting(w, q) ensures h <= q {
        var j :| 0 <= j < |v.queue| && v.queue[j] == q;
      }
    }
  }

  // ---------------------------------------------------------------- progress

  /** `v` is reached from `w` without arrivals and without giving anything up. */
  ghost predicate Serves(w: World, v: World, acts: seq<Action>)
    decreases |acts|
  {
    if acts == [] then v == w
    else (acts[0].Wake? || acts[0].Begin? || acts[0].Finish?) && Enabled(w, acts[0])
          && Serves(Apply(w, acts[0]), v, acts[1..])
  }

  lemma ServesOne(w: World, v: World, a: Action)
    requires (a.Wake? || a.Begin? || a.Finish?) && Enabled(w, a) && v == Apply(w, a)
    ensures Serves(w, v, [a])
  {
    assert [a][1..] == [] && Serves(v, v, []);
  }

  lemma {:induction false} ServesTrans(w: World, v: World, u: World, first: seq<Action>, second: seq<Action>)
    requires Serves(w, v, first) && Serves(v, u, second)
    ensures Serves(w, u, first + second)
    decreases |first|
  {
    if first == [] {
      assert first + second == second;
    } else {
      ServesTrans(Apply(w, first[0]), v, u, first[1..], second);
      assert (first + second)[1..] == first[1..] + second && (first + second)[0] == first[0];
    }
  }

  /** An operation that was handed the permit can be woken, run and finished. */
  lemma ServeAssigned(w: World, op: nat) returns (v: World)
    requires Inv(w) && op in w.phase && w.phase[op].Assigned?
    ensures Inv(v) && Serves(w, v, [Wake(op), Begin(op), Finish(op, Returned)])
    ensures v.starts == w.starts + [op]
    ensures w.queue == [] ==> v.queue == []
    ensures w.queue != [] ==> v.queue == w.queue[1..] && w.queue[0] in v.phase && v.phase[w.queue[0]].Assigned?
  {
    hide Inv;
    StepInv(w, Wake(op));
    var w1 := Apply(w, Wake(op));
    StepInv(w1, Begin(op));
    var w2 := Apply(w1, Begin(op));
    StepInv(w2, Finish(op, Returned));
    v := Apply(w2, Finish(op, Returned));
    ServesOne(w2, v, Finish(op, Returned));
    ServesTrans(w1, w2, v, [Begin(op)], [Finish(op, Returned)]) by { ServesOne(w1, w2, Begin(op)); }
    ServesTrans(w, w1, v, [Wake(op)], [Begin(op), Finish(op, Returned)]) by {
      ServesOne(w, w1, Wake(op));
      assert [Begin(op)] + [Finish(op, Returned)] == [Begin(op), Finish(op, Returned)];
    }
    assert [Wake(op)] + [Begin(op), Finish(op, Returned)] == [Wake(op), Begin(op), Finish(op, Returned)];
    assert w.queue != [] ==> w.queue[0] in v.phase;
  }

  /** From any reachable world, running what holds and what waits starts every waiting operation, in queue order. */
  lemma {:induction false} DrainAssigned(w: World, op: nat) returns (v: World, acts: seq<Action>)
    requires Inv(w) && op in w.phase && w.phase[op].Assigned?
    ensures Serves(w, v, acts) && v.queue == [] && v.starts == w.starts + [op] + w.queue
    decreases |w.queue|
  {
    var w1 := ServeAssigned(w, op);
    var first := [Wake(op), Begin(op), Finish(op, Returned)];
    if w.queue == [] {
      v, acts := w1, first;
    } else {
      var second;
      v, second := DrainAssigned(w1, w.queue[0]);
      ServesTrans(w, w1, v, first, second);
      acts := first + second;
      assert w.starts + [op] + [w.queue[0]] + w.queue[1..] == w.starts + [op] + w.queue;
    }
  }

  /**
   No run deadlocks the writers: whatever holds the permit can be completed, and then every queued operation in turn.
   */
  lemma EveryWaiterCanStart(ws: seq<World>, acts: seq<Action>, i: nat) returns (v: World, more: seq<Action>)
    requires IsRun(ws, acts) && i < |ws| && ws[i].queue != []
    ensures Serves(ws[i], v, more) && v.queue == []
    ensures exists served :: v.starts == ws[i].starts + served + ws[i].queue && |served| <= 1
  {
    hide IsRun, QueueInv, OrderInv, Serves;
    RunKeepsInv(ws, acts, i);
    var w := ws[i];
    var h :| h in w.phase && Holds(w.phase[h]);
    if w.phase[h].Assigned? {
      v, more := DrainAssigned(w, h);
      assert v.starts == ws[i].starts + [h] + ws[i].queue;
    } else {
      var w1, first, served := FinishHolder(w, h);
      var second;
      v, second := DrainAssigned(w1, w.queue[0]);
      ServesTrans(w, w1, v, first, second);
      more := first + second;
      assert w1.starts + [w.queue[0]] + w.queue[1..] == w.starts + served + w.queue;
    }
  }

  lemma FinishHolder(w: World, h: nat) returns (v: World, acts: seq<Action>, served: seq<nat>)
    requires Inv(w) && h in w.phase && (w.phase[h].Spawned? || w.phase[h].Running?) && w.queue != []
    ensures Inv(v) && Serves(w, v, acts) && v.starts == w.starts + served && |served| <= 1
    ensures v.queue == w.queue[1..] && w.queue[0] in v.phase && v.phase[w.queue[0]].Assigned?
  {
    hide Inv;
    if w.phase[h].Spawned? {
      StepInv(w, Begin(h));
      var w1 := Apply(w, Begin(h));
      StepInv(w1, Finish(h, Returned));
      v, acts, served := Apply(w1, Finish(h, Returned)), [Begin(h), Finish(h, Returned)], [h];
      ServesOne(w, w1, Begin(h));
      ServesOne(w1, v, Finish(h, Returned));
      ServesTrans(w, w1, v, [Begin(h)], [Finish(h, Returned)]);
      assert [Begin(h)] + [Finish(h, Returned)] == acts;
    } else {
      StepInv(w, Finish(h, Returned));
      v, acts, served := Apply(w, Finish(h, Returned)), [Finish(h, Returned)], [];
      ServesOne(w, v, Finish(h, Returned));
    }
  }
}
