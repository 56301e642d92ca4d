/**
 The retry schedule of one watcher: the `backoff` variable of `schedule_instance`, doubled with saturation after every
 collection that admitted no report and reset by one that did, against a closed form of the failure streak.
 */
module RetryBackoff {
  import opened Prelude

  type U64 = n: nat | n <= U64_MAX

  datatype Schedule = Schedule(interval: U64, initial: U64, maximum: U64)

  /** What the configuration loader asks of the backoff. */
  predicate Admitted(s: Schedule) { s.initial <= s.maximum }

  function SaturatingDouble(n: U64): U64 { if 2 * n <= U64_MAX then 2 * n else U64_MAX }

  function Cap(s: Schedule): U64 { Max(s.maximum, 1) }

  function Pow2(k: nat): (p: nat)
    ensures p >= 1
  {
    if k == 0 then 1 else 2 * Pow2(k - 1)
  }

  /** The value of `backoff` after k consecutive failures, without saturation and without iteration. */
  function Backoff(s: Schedule, k: nat): nat {
    if k == 0 then s.initial else Min(s.initial * Pow2(k), Cap(s))
  }

  /** The delay slept after the k-th consecutive failure (k >= 1). */
  function Delay(s: Schedule, k: nat): nat
    requires k >= 1
  {
    Max(Backoff(s, k - 1), 1)
  }

  /** Length of the failure streak that ends a trace of outcomes (`true` is an admitted report). */
  function Streak(outcomes: seq<bool>): nat {
    if outcomes == [] || outcomes[|outcomes| - 1] then 0 else 1 + Streak(outcomes[..|outcomes| - 1])
  }

  lemma CapAfterDoubling(x: nat, cap: nat)
    ensures Min(2 * Min(x, cap), cap) == Min(2 * x, cap)
  {}

  /** One doubling step of the loop is one step of the closed form; saturation never shows. */
  lemma DoublingStep(s: Schedule, k: nat)
    requires Backoff(s, k) <= U64_MAX
    ensures Min(SaturatingDouble(Backoff(s, k)), Cap(s)) == Backoff(s, k + 1)
  {
    var x := s.initial * Pow2(k);
    assert s.initial * Pow2(k + 1) == 2 * x by {
      assert Pow2(k + 1) == 2 * Pow2(k);
      assert s.initial * (2 * Pow2(k)) == 2 * (s.initial * Pow2(k));
    }
    CapAfterDoubling(x, Cap(s));
    if k == 0 {
      assert x == s.initial;
    }
  }

  /** The delay after the i-th collection of a trace. */
  function DelayAt(s: Schedule, outcomes: seq<bool>, i: nat): nat
    requires i < |outcomes|
  {
    if outcomes[i] then s.interval else Delay(s, 1 + Streak(outcomes[..i]))
  }

  /** The scheduling loop: the delays it sleeps for a trace of collection outcomes. */
  method Delays(s: Schedule, outcomes: seq<bool>) returns (delays: seq<nat>)
    ensures |delays| == |outcomes|
    ensures forall i :: 0 <= i < |outcomes| ==> delays[i] == DelayAt(s, outcomes, i)
  {
    hide Pow2, SaturatingDouble;
    delays := [];
    var backoff: U64 := s.initial;
    for i := 0 to |outcomes|
      invariant |delays| == i && backoff == Backoff(s, Streak(outcomes[..i]))
      invariant forall j :: 0 <= j < i ==> delays[j] == DelayAt(s, outcomes, j)
    {
      assert outcomes[..i + 1][..i] == outcomes[..i] && outcomes[..i + 1][i] == outcomes[i];
      var delay;
      if outcomes[i] {
        backoff := s.initial;
        delay := s.interval;
      } else {
        delay := Max(backoff, 1);
        DoublingStep(s, Streak(outcomes[..i]));
        backoff := Min(SaturatingDouble(backoff), Max(s.maximum, 1));
      }
      delays := delays + [delay];
    }
  }

  lemma {:induction false} Pow2Grows(j: nat, k: nat)
    requires j <= k
    ensures Pow2(j) <= Pow2(k)
  {
    if j < k { Pow2Grows(j, k - 1); }
  }

  lemma Scale(x: nat, a: nat, b: nat)
    requires a <= b
    ensures x * a <= x * b
  {}

  /** When the first backoff is within the cap, delays of a streak never shrink and never pass the cap. */
  lemma StreakIsMonotone(s: Schedule, j: nat, k: nat)
    requires 1 <= j <= k && s.initial <= Cap(s)
    ensures Delay(s, j) <= Delay(s, k) <= Cap(s)
  {
    Pow2Grows(j - 1, k - 1);
    Scale(s.initial, Pow2(j - 1), Pow2(k - 1));
    Scale(s.initial, 1, Pow2(k - 1));
    assert s.initial * Pow2(0) == s.initial;
  }

  ghost predicate AllFail(outcomes: seq<bool>, i: nat, j: nat)
    requires i <= j < |outcomes|
  {
    forall t :: i <= t <= j ==> !outcomes[t]
  }

  lemma {:induction false} StreakGrows(outcomes: seq<bool>, i: nat, j: nat)
    requires i <= j < |outcomes| && AllFail(outcomes, i, j)
    ensures Streak(outcomes[..j]) == Streak(outcomes[..i]) + (j - i)
  {
    if i < j {
      StreakGrows(outcomes, i, j - 1);
      assert outcomes[..j][..j - 1] == outcomes[..j - 1] && outcomes[..j][j - 1] == outcomes[j - 1];
    }
  }

  /**
   For every admitted schedule and every trace: within a failure streak delays never shrink and never pass the cap.
   */
  lemma AdmittedStreaksNeverShrink(s: Schedule, outcomes: seq<bool>, i: nat, j: nat)
    requires Admitted(s) && i <= j < |outcomes| && AllFail(outcomes, i, j)
    ensures DelayAt(s, outcomes, i) <= DelayAt(s, outcomes, j) <= Max(s.maximum, 1)
  {
    hide Delay, Streak;
    StreakGrows(outcomes, i, j);
    StreakIsMonotone(s, 1 + Streak(outcomes[..i]), 1 + Streak(outcomes[..j]));
  }

  /** The loop itself does not rely on the guard's full strength: streaks are ordered exactly up to the cap. */
  lemma OrderedIffWithinCap(s: Schedule)
    ensures (forall j, k :: 1 <= j <= k ==> Delay(s, j) <= Delay(s, k)) <==> s.initial <= Cap(s)
  {
    if s.initial <= Cap(s) {
      forall j, k | 1 <= j <= k ensures Delay(s, j) <= Delay(s, k) { StreakIsMonotone(s, j, k); }
    } else {
      assert Pow2(1) == 2 * Pow2(0);
      assert Delay(s, 1) == s.initial && Delay(s, 2) == Cap(s);
    }
  }
}
