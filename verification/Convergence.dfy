/** Enforcement and repair acting on the same containers (policy.go, reconcile.go): runs of passes
    that do not fail, in any order, with an advancing clock and no user action. Counters and
    addresses may change between passes. */
module Convergence {
  import opened Prelude
  import opened Text
  import opened Incus
  import opened Store
  import opened AppState
  import opened Reconcile
  import opened Repair
  import opened Policy
  import Runs

  datatype Step = Enforce(now: int) | RepairAll | Wait

  /** Time passes: neither the table, nor which instances there are, nor whether they run changes. */
  ghost predicate Waited(s: Snap, e: Snap) {
    e.rows == s.rows && e.insts.Keys == s.insts.Keys && forall n | n in s.insts ::
      e.insts[n].status == s.insts[n].status
  }

  ghost predicate Next(s: Snap, step: Step, e: Snap) {
    match step
    case Enforce(now) => Enforced(s, e, now)
    case RepairAll => Repaired(s, e)
    case Wait => Waited(s, e)
  }

  predicate ClockAdvances(steps: seq<Step>) {
    forall j, k | 0 <= j < k < |steps| && steps[j].Enforce? && steps[k].Enforce? :: steps[j].now <= steps[k].now
  }

  ghost predicate Run(states: seq<Snap>, steps: seq<Step>) {
    && |states| == |steps| + 1 && ClockAdvances(steps) && Restorable(states[0].rows)
    && forall k | 0 <= k < |steps| :: Next(states[k], steps[k], states[k + 1])
  }

  method RunStep(a: App, step: Step)
    requires Restorable(a.store.rows)
    modifies a.client`insts, a.client`faults, a.store`rows, a.store`faults, a.store`audit, a.store`auditFaults
    ensures Later(old(a.Now()), a.Now()) && Restorable(a.store.rows)
    ensures FaultFree(old(a.Now()), a.Now()) ==> Next(old(a.Now()), step, a.Now())
  {
    hide PortsUnique, Restorable, ValidLog, Repaired, PassResult, Enforced;
    ghost var s := a.Now();
    Runs.KeyedTable(s.rows);
    match step {
      case Enforce(now) =>
        EnforcePass(a, now);
        Runs.PassLater(s, a.Now(), now);
        Runs.PassKeeps(s, a.Now(), now);
        PassEnforces(s, a.Now(), now);
      case RepairAll =>
        var ok, outcomes := RepairPass(a, "system");
        Runs.RepairKeeps(s, a.Now());
      case Wait =>
        var counters: map<string, map<string, Counters>> := *;
        Runs.Traffic(a.client, counters);
    }
  }

  lemma PassEnforces(s: Snap, e: Snap, now: int)
    requires PassResult(s, e, now) && Restorable(s.rows)
    ensures FaultFree(s, e) ==> Enforced(s, e, now)
  {
    hide Restorable, Enforced;
  }

  /** The passes themselves, in any order, make such a run when nothing fails. */
  method RunPasses(a: App, steps: seq<Step>) returns (ghost states: seq<Snap>)
    requires Restorable(a.store.rows) && ClockAdvances(steps)
    modifies a.client`insts, a.client`faults, a.store`rows, a.store`faults, a.store`audit, a.store`auditFaults
    ensures |states| == |steps| + 1 && states[0] == old(a.Now()) && states[|steps|] == a.Now()
    ensures FaultFree(old(a.Now()), a.Now()) ==> Run(states, steps)
  {
    hide Next, Restorable, ValidLog;
    states := [a.Now()];
    for i := 0 to |steps|
      invariant |states| == i + 1 && states[0] == old(a.Now()) && states[i] == a.Now()
      invariant Later(states[0], a.Now()) && Restorable(a.store.rows)
      invariant FaultFree(states[0], a.Now()) ==> forall k | 0 <= k < i :: Next(states[k], steps[k], states[k + 1])
    {
      RunStep(a, steps[i]);
      states := states + [a.Now()];
    }
  }

  ghost predicate Managed(s: Snap, n: string) {
    n in s.rows && n in s.insts
  }

  /** Stopped, and meant to be. */
  ghost predicate Settled(s: Snap, n: string) {
    Managed(s, n) && s.rows[n].desiredState == "stopped" && !Running(s.insts[n])
  }

  /** Runs exactly if it is meant to. */
  ghost predicate Agrees(s: Snap, n: string) {
    Managed(s, n) && (s.rows[n].desiredState == "running" <==> s.insts[n].status == "Running")
  }

  /** This step is a policy stop of the container. */
  ghost predicate StopsAt(s: Snap, step: Step, n: string) {
    step.Enforce? && n in DueNames(s, step.now)
  }

  /** In the fields: an enforcement step is a policy stop of a container exactly if it finds it running
      and leaves it stopped. */
  lemma StopsAtMeans(s: Snap, step: Step, e: Snap, n: string)
    requires Next(s, step, e) && Managed(s, n)
    ensures StopsAt(s, step, n) <==>
            step.Enforce? && s.insts[n].status == "Running" && n in e.insts && e.insts[n].status == "Stopped"
  {
    if step.Enforce? { assert n in DueNames(s, step.now) <==> Due(s.rows, s.insts, step.now, n); }
  }

  /** What every step keeps about every container. */
  lemma StepFacts(s: Snap, step: Step, e: Snap, n: string)
    requires Next(s, step, e) && Managed(s, n) && ValidState(s.rows[n].desiredState)
    ensures Managed(e, n) && ValidState(e.rows[n].desiredState) && e.rows[n].expiresAt == s.rows[n].expiresAt
    ensures Settled(s, n) ==> Settled(e, n) && !StopsAt(s, step, n)
    ensures Agrees(s, n) ==> Agrees(e, n)
    ensures StopsAt(s, step, n) ==> Settled(e, n)
    ensures step.RepairAll? ==> Agrees(e, n)
    ensures e.rows[n].desiredState == "running" ==> s.rows[n].desiredState == "running"
    ensures step.Enforce? && Agrees(s, n) && Expired(s.rows[n], step.now) ==> Settled(e, n)
  {
    if step.Enforce? { assert n in DueNames(s, step.now) <==> Due(s.rows, s.insts, step.now, n); }
  }

  lemma DueIsManaged(s: Snap, step: Step, n: string)
    requires StopsAt(s, step, n)
    ensures Managed(s, n)
  {
  }

  lemma ManagedRow(s: Snap, n: string)
    requires Managed(s, n)
    ensures n in s.rows && n in s.insts
  {
  }

  lemma {:induction false} RunFacts(states: seq<Snap>, steps: seq<Step>, j: nat, k: nat, n: string)
    requires Run(states, steps) && j <= k < |states| && Managed(states[0], n)
    ensures Managed(states[j], n) && Managed(states[k], n) && ValidState(states[k].rows[n].desiredState)
    ensures states[k].rows[n].expiresAt == states[j].rows[n].expiresAt
    ensures Settled(states[j], n) ==> Settled(states[k], n)
    ensures Agrees(states[j], n) ==> Agrees(states[k], n)
    decreases k
  {
    hide Next, Managed, Settled, Agrees, StopsAt, ClockAdvances, ValidName, ValidCpu, Blank;
    ManagedRow(states[0], n);
    if k > 0 {
      RunFacts(states, steps, if j == k then k - 1 else j, k - 1, n);
      StepFacts(states[k - 1], steps[k - 1], states[k - 1 + 1], n);
    }
  }

  /** In a whole run, an enforcement step finds a managed container running and leaves it stopped at
      most once. */
  lemma StoppedAtMostOnce(states: seq<Snap>, steps: seq<Step>, n: string, j: nat, k: nat)
    requires Run(states, steps) && j < |steps| && k < |steps| && steps[j].Enforce? && steps[k].Enforce?
    requires n in states[0].rows && n in states[0].insts
    requires n in states[j].insts && n in states[j + 1].insts && n in states[k].insts && n in states[k + 1].insts
    requires states[j].insts[n].status == states[k].insts[n].status == "Running"
    requires states[j + 1].insts[n].status == states[k + 1].insts[n].status == "Stopped"
    ensures j == k
  {
    hide Next, Restorable, ClockAdvances, StopsAt;
    assert Next(states[j], steps[j], states[j + 1]) && Next(states[k], steps[k], states[k + 1]);
    ManagedThroughout(states, steps, j, n);
    ManagedThroughout(states, steps, k, n);
    StopsAtMeans(states[j], steps[j], states[j + 1], n);
    StopsAtMeans(states[k], steps[k], states[k + 1], n);
    if j < k { StoppedOnceOnly(states, steps, n, j, k); }
    if k < j { StoppedOnceOnly(states, steps, n, k, j); }
  }

  lemma {:induction false} ManagedThroughout(states: seq<Snap>, steps: seq<Step>, k: nat, n: string)
    requires Run(states, steps) && k < |states|
    ensures Managed(states[k], n) <==> Managed(states[0], n)
  {
    if k > 0 {
      ManagedThroughout(states, steps, k - 1, n);
      assert Next(states[k - 1], steps[k - 1], states[k - 1 + 1]);
    }
  }

  lemma StoppedOnceOnly(states: seq<Snap>, steps: seq<Step>, n: string, j: nat, k: nat)
    requires Run(states, steps) && j < k < |steps|
    requires StopsAt(states[j], steps[j], n)
    ensures !StopsAt(states[k], steps[k], n)
  {
    hide Next, Restorable, ClockAdvances;
    assert Managed(states[j], n) by { DueIsManaged(states[j], steps[j], n); }
    ManagedThroughout(states, steps, j, n);
    RunFacts(states, steps, j, j, n);
    StepFacts(states[j], steps[j], states[j + 1], n);
    RunFacts(states, steps, j + 1, k, n);
    StepFacts(states[k], steps[k], states[k + 1], n);
  }

  /** After a repair pass and a later enforcement pass, every container that had expired by then is
      stopped, is meant to be stopped, and stays so. */
  lemma ExpiredStayStopped(states: seq<Snap>, steps: seq<Step>, n: string, j: nat, k: nat, later: nat)
    requires Run(states, steps) && j < k < later < |states| && steps[j].RepairAll? && steps[k].Enforce?
    requires Managed(states[0], n) && Expired(states[0].rows[n], steps[k].now)
    ensures Settled(states[later], n)
    ensures n in states[later].rows && states[later].rows[n].desiredState == "stopped"
    ensures n in states[later].insts && states[later].insts[n].status != "Running"
  {
    hide Next, Restorable, ClockAdvances;
    RunFacts(states, steps, 0, j, n);
    StepFacts(states[j], steps[j], states[j + 1], n);
    RunFacts(states, steps, j + 1, k, n);
    RunFacts(states, steps, 0, k, n);
    StepFacts(states[k], steps[k], states[k + 1], n);
    RunFacts(states, steps, k + 1, later, n);
  }

  /** The measure: containers expired at a given time and still meant to run. */
  ghost function StillWanted(s: Snap, now: int): set<string> {
    set n | n in s.rows && n in s.insts && Expired(s.rows[n], now) && s.rows[n].desiredState == "running"
  }

  /** No step makes the measure grow, a policy stop of an expired container that was meant to run
      makes it smaller, and after a repair and a later enforcement it is zero for good. */
  lemma MeasureShrinks(states: seq<Snap>, steps: seq<Step>, k: nat, now: int)
    requires Run(states, steps) && k < |steps|
    ensures StillWanted(states[k + 1], now) <= StillWanted(states[k], now)
    ensures |StillWanted(states[k + 1], now)| <= |StillWanted(states[k], now)|
    ensures forall n | n in StillWanted(states[k], now) && StopsAt(states[k], steps[k], n) ::
              |StillWanted(states[k + 1], now)| < |StillWanted(states[k], now)|
  {
    hide Next, Restorable, ClockAdvances, DueNames;
    var a, b := StillWanted(states[k + 1], now), StillWanted(states[k], now);
    forall n | n in a ensures n in b {
      ManagedThroughout(states, steps, k + 1, n);
      RunFacts(states, steps, k, k, n);
      StepFacts(states[k], steps[k], states[k + 1], n);
    }
    SubsetSize(a, b);
    forall n | n in b && StopsAt(states[k], steps[k], n) ensures |a| < |b| {
      ManagedThroughout(states, steps, k, n);
      RunFacts(states, steps, k, k, n);
      StepFacts(states[k], steps[k], states[k + 1], n);
      SubsetSize(a, b - {n});
    }
  }

  lemma MeasureReachesZero(states: seq<Snap>, steps: seq<Step>, j: nat, k: nat, later: nat)
    requires Run(states, steps) && j < k < later < |states| && steps[j].RepairAll? && steps[k].Enforce?
    ensures StillWanted(states[later], steps[k].now) == {}
  {
    forall n | n in StillWanted(states[later], steps[k].now) ensures false {
      ManagedThroughout(states, steps, later, n);
      RunFacts(states, steps, 0, later, n);
      ExpiredStayStopped(states, steps, n, j, k, later);
    }
  }
}
