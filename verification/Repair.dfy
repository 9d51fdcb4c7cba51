/** Bringing the runtime back to the desired state (main.go repairDrift, reconcile.go
    autoRepairPass). */
module Repair {
  import opened Prelude
  import opened Text
  import opened Incus
  import opened Store
  import opened AppState
  import opened Reconcile

  datatype Outcome = Outcome(name: string, action: Lifecycle, ok: bool)

  function ActionFor(desired: string): Lifecycle {
    if desired == "running" then Start else Stop
  }

  /** The repair of this container is in the audit log, with its outcome. */
  ghost predicate OutcomeLogged(s: Snap, e: Snap, o: Outcome) {
    Logged(s, e, if o.action.Start? then "reconcile.start" else "reconcile.stop", o.name,
           if o.ok then "success" else "failure")
  }

  /** The outcomes without their event between s and e. */
  ghost function Unwritten(s: Snap, e: Snap, outcomes: seq<Outcome>): set<Outcome> {
    set o | o in outcomes &&
            !Reported(e.log, |s.log|, if o.action.Start? then "reconcile.start" else "reconcile.stop", o.name,
                      if o.ok then "success" else "failure")
  }

  /** No more outcomes lack their event than audit writes failed. */
  ghost predicate OutcomesLogged(s: Snap, e: Snap, outcomes: seq<Outcome>) {
    |Unwritten(s, e, outcomes)| <= e.auditFaults - s.auditFaults
  }

  lemma OutcomesLoggedStep(s: Snap, mid: Snap, e: Snap, outcomes: seq<Outcome>, o: Outcome)
    requires Later(s, mid) && Later(mid, e) && OutcomesLogged(s, mid, outcomes) && OutcomeLogged(mid, e, o)
    ensures OutcomesLogged(s, e, outcomes + [o])
  {
    hide Reported, ValidLog;
    var a, b := Unwritten(s, mid, outcomes), Unwritten(mid, e, [o]);
    forall x | x in Unwritten(s, e, outcomes + [o]) ensures x in a + b {
      var action, result := if x.action.Start? then "reconcile.start" else "reconcile.stop",
        if x.ok then "success" else "failure";
      if x in outcomes && Reported(mid.log, |s.log|, action, x.name, result) {
        ReportedKept(s, s, mid, e, action, x.name, result);
      }
      if x == o && Reported(e.log, |mid.log|, action, x.name, result) {
        ReportedKept(s, mid, e, e, action, x.name, result);
      }
    }
    SubsetSize(Unwritten(s, e, outcomes + [o]), a + b);
    UnionSize(a, b);
    if b != {} { SubsetSize(b, {o}); }
  }

  /** Only the update time of a row may differ, and it never becomes empty. */
  predicate SameButTouched(before: Row, now: Row) {
    now == before.(updatedAt := now.updatedAt) && (now == before || now.updatedAt.Instant?)
  }

  /** Starting what does not run, or stopping what does, is never refused. */
  method RepairCommand(client: Client, d: Drift) returns (ok: bool)
    requires d.name in client.insts && (Running(client.insts[d.name]) <==> d.desiredState != "running")
    modifies client`insts, client`faults
    ensures client.faults >= old(client.faults)
    ensures client.insts.Keys == old(client.insts.Keys)
    ensures forall n | n in client.insts :: SameButStatus(old(client.insts)[n], client.insts[n]) &&
                                            (n != d.name ==> client.insts[n] == old(client.insts)[n])
    ensures ok ==> ValidName(d.name) && (Running(client.insts[d.name]) <==> d.desiredState == "running")
    ensures client.faults == old(client.faults) && ValidName(d.name) ==> ok
    ensures PortsUnique(old(client.insts)) ==> PortsUnique(client.insts)
  {
    hide PortsUnique, ValidName;
    ok := Act(client, ActionFor(d.desiredState), d.name);
  }

  lemma DriftingSides(rows: map<string, Row>, insts: map<string, Instance>, n: string)
    requires Drifted(rows, insts, n)
    ensures n in rows && n in insts && (Running(insts[n]) <==> rows[n].desiredState != "running")
  {
  }

  /** The runtime's part of a repair, then the table's. */
  method RepairState(a: App, d: Drift) returns (ok: bool)
    requires Drifted(a.store.rows, a.client.insts, d.name) && d.desiredState == a.store.rows[d.name].desiredState
    modifies a.client`insts, a.client`faults, a.store`rows, a.store`faults
    ensures Later(old(a.Now()), a.Now())
    ensures OnlyTouches(old(a.Now()), a.Now(), {d.name})
    ensures ok ==> !Drifted(a.store.rows, a.client.insts, d.name)
    ensures !ok ==> a.store.rows == old(a.store.rows)
    ensures FaultFree(old(a.Now()), a.Now()) && ValidName(d.name) && ValidState(d.desiredState) ==> ok
    ensures PortsUnique(old(a.client.insts)) ==> PortsUnique(a.client.insts)
  {
    hide PortsUnique, ValidName, ValidLog, OnlyTouches, SameButStatus, SameButTouched, Running, Blank, Drifted;
    ghost var s := a.Now();
    DriftingSides(s.rows, s.insts, d.name);
    ok := RepairCommand(a.client, d);
    if ok {
      NameNotBlank(d.name);
      var stored := a.store.SetDesiredState(d.name, d.desiredState);
      ok := stored != Failed;
    }
    RepairedOne(s, a.Now(), d, ok);
  }

  method RepairOne(a: App, d: Drift, actor: string) returns (o: Outcome)
    requires Drifted(a.store.rows, a.client.insts, d.name) && d.desiredState == a.store.rows[d.name].desiredState
    modifies a.client`insts, a.client`faults, a.store`rows, a.store`faults, a.store`audit, a.store`auditFaults
    ensures Later(old(a.Now()), a.Now())
    ensures o.name == d.name && o.action == ActionFor(d.desiredState)
    ensures OnlyTouches(old(a.Now()), a.Now(), {d.name})
    ensures o.ok ==> !Drifted(a.store.rows, a.client.insts, d.name)
    ensures !o.ok ==> a.store.rows == old(a.store.rows)
    ensures FaultFree(old(a.Now()), a.Now()) && ValidName(d.name) && ValidState(d.desiredState) ==> o.ok
    ensures OutcomeLogged(old(a.Now()), a.Now(), o)
    ensures if a.store.audit == old(a.store.audit) then a.store.auditFaults == old(a.store.auditFaults) + 1
            else |a.store.audit| == |old(a.store.audit)| + 1 && old(a.store.audit) <= a.store.audit &&
                 var e := a.store.audit[|old(a.store.audit)|];
                 e == AuditEvent(e.id, actor,
                                 if d.desiredState == "running" then "reconcile.start" else "reconcile.stop",
                                 "container", d.name, if o.ok then "success" else "failure")
    ensures PortsUnique(old(a.client.insts)) ==> PortsUnique(a.client.insts)
  {
    hide PortsUnique, ValidName, ValidLog, Logged, OnlyTouches, Reported, Drifted;
    ghost var s := a.Now();
    var action := ActionFor(d.desiredState);
    var ok := RepairState(a, d);
    ghost var mid := a.Now();
    Record(a, actor, if action.Start? then "reconcile.start" else "reconcile.stop", d.name,
           if ok then "success" else "failure");
    LoggedKept(s, mid, a.Now(), a.Now(), if action.Start? then "reconcile.start" else "reconcile.stop", d.name,
               if ok then "success" else "failure");
    AuditTouchesNothing(s, mid, a.Now(), {d.name});
    o := Outcome(d.name, action, ok);
  }

  lemma AuditTouchesNothing(s: Snap, mid: Snap, e: Snap, names: set<string>)
    requires OnlyTouches(s, mid, names) && e.insts == mid.insts && e.rows == mid.rows
    ensures OnlyTouches(s, e, names)
  {
    hide SameButStatus, SameButTouched;
  }

  lemma RepairedOne(s: Snap, e: Snap, d: Drift, ok: bool)
    requires Drifted(s.rows, s.insts, d.name) && d.desiredState == s.rows[d.name].desiredState
    requires e.insts.Keys == s.insts.Keys
    requires forall n | n in e.insts ::
               SameButStatus(s.insts[n], e.insts[n]) && (n != d.name ==> e.insts[n] == s.insts[n])
    requires e.rows == s.rows ||
             (d.name in e.rows && e.rows[d.name].updatedAt.Instant? &&
              e.rows == s.rows[d.name := s.rows[d.name].(desiredState := d.desiredState,
                                                         updatedAt := e.rows[d.name].updatedAt)])
    requires ok ==> (Running(e.insts[d.name]) <==> d.desiredState == "running")
    ensures OnlyTouches(s, e, {d.name})
    ensures ok ==> !Drifted(e.rows, e.insts, d.name)
  {
    hide SameButStatus;
  }

  /** Outside these names nothing changed; inside them, only status, address and update time. */
  ghost predicate OnlyTouches(s: Snap, e: Snap, names: set<string>) {
    && e.insts.Keys == s.insts.Keys && e.rows.Keys == s.rows.Keys
    && (forall n | n in s.insts :: SameButStatus(s.insts[n], e.insts[n]) && (n !in names ==> e.insts[n] == s.insts[n]))
    && (forall n | n in s.rows :: SameButTouched(s.rows[n], e.rows[n]) && (n !in names ==> e.rows[n] == s.rows[n]))
  }

  lemma TouchOne(s: Snap, mid: Snap, e: Snap, names: set<string>, n: string)
    requires OnlyTouches(s, mid, names) && OnlyTouches(mid, e, {n})
    ensures OnlyTouches(s, e, names + {n})
  {
  }

  /** The first i drifting containers have been tried. */
  ghost predicate Progress(s: Snap, e: Snap, drift: seq<Drift>, outcomes: seq<Outcome>, i: nat)
    requires i <= |drift|
  {
    && Later(s, e) && |outcomes| == i && OutcomesLogged(s, e, outcomes)
    && OnlyTouches(s, e, set j | 0 <= j < i :: drift[j].name)
    && (forall j | 0 <= j < i ::
          outcomes[j].name == drift[j].name && outcomes[j].action == ActionFor(drift[j].desiredState) &&
          (outcomes[j].ok ==> !Drifted(e.rows, e.insts, drift[j].name)) &&
          (FaultFree(s, e) && ValidName(drift[j].name) && ValidState(drift[j].desiredState) ==> outcomes[j].ok))
  }

  lemma ProgressStep(s: Snap, mid: Snap, e: Snap, drift: seq<Drift>, outcomes: seq<Outcome>, i: nat, o: Outcome)
    requires i < |drift| && Progress(s, mid, drift, outcomes, i) && Later(mid, e)
    requires forall j | 0 <= j < i :: drift[j].name != drift[i].name
    requires var n := drift[i].name;
             OnlyTouches(mid, e, {n}) && o.name == n && o.action == ActionFor(drift[i].desiredState) &&
             OutcomeLogged(mid, e, o) &&
             (o.ok ==> !Drifted(e.rows, e.insts, n)) &&
             (FaultFree(mid, e) && ValidName(n) && ValidState(drift[i].desiredState) ==> o.ok)
    ensures Progress(s, e, drift, outcomes + [o], i + 1)
  {
    hide OutcomeLogged, OutcomesLogged, OnlyTouches, Drifted, ValidName, ValidLog;
    OutcomesLoggedStep(s, mid, e, outcomes, o);
    var names := set j | 0 <= j < i :: drift[j].name;
    TouchOne(s, mid, e, names, drift[i].name);
    assert (set j | 0 <= j < i + 1 :: drift[j].name) == names + {drift[i].name};
    var outcomes' := outcomes + [o];
    forall j | 0 <= j < i + 1
      ensures outcomes'[j].ok ==> !Drifted(e.rows, e.insts, drift[j].name)
    {
      if j < i && outcomes[j].ok { StaysRepaired(mid, e, drift[i].name, drift[j].name); }
    }
  }

  lemma StaysRepaired(mid: Snap, e: Snap, n: string, m: string)
    requires OnlyTouches(mid, e, {n}) && m != n && !Drifted(mid.rows, mid.insts, m)
    ensures !Drifted(e.rows, e.insts, m)
  {
    hide SameButStatus, SameButTouched;
    assert m in mid.rows ==> e.rows[m] == mid.rows[m];
    assert m in mid.insts ==> e.insts[m] == mid.insts[m];
  }

  lemma NothingRepaired(s: Snap, drift: seq<Drift>)
    ensures Progress(s, s, drift, [], 0)
  {
    assert Unwritten(s, s, []) == {};
  }

  /** The next drifting container is untouched so far. */
  lemma StillToRepair(s: Snap, mid: Snap, drift: seq<Drift>, outcomes: seq<Outcome>, i: nat)
    requires ReportsDrift(s.rows, s.insts, drift) && i < |drift| && Progress(s, mid, drift, outcomes, i)
    ensures forall j | 0 <= j < i :: drift[j].name != drift[i].name
    ensures Drifted(mid.rows, mid.insts, drift[i].name) && drift[i].desiredState == mid.rows[drift[i].name].desiredState
  {
    hide SameButStatus, SameButTouched, OutcomeLogged, OutcomesLogged, StrLess;
    forall j | 0 <= j < i ensures drift[j].name != drift[i].name { StrLessIrreflexive(drift[i].name); }
    assert drift[i] in drift && ReportedDrift(s.rows, s.insts, drift[i]);
    var n := drift[i].name;
    assert mid.rows[n] == s.rows[n] && mid.insts[n] == s.insts[n];
  }

  /** Starts or stops every drifting container. Whatever still disagrees afterwards was reported as
      a failure; unmanaged, missing and agreeing containers are untouched. */
  method RepairDrift(a: App, drift: seq<Drift>, actor: string) returns (outcomes: seq<Outcome>)
    requires ReportsDrift(a.store.rows, a.client.insts, drift)
    modifies a.client`insts, a.client`faults, a.store`rows, a.store`faults, a.store`audit, a.store`auditFaults
    ensures Progress(old(a.Now()), a.Now(), drift, outcomes, |drift|)
    ensures PortsUnique(old(a.client.insts)) ==> PortsUnique(a.client.insts)
  {
    hide OutcomeLogged, OnlyTouches, ValidName, ValidLog, PortsUnique, Progress;
    ghost var s := a.Now();
    outcomes := [];
    NothingRepaired(s, drift);
    for i := 0 to |drift|
      invariant Progress(s, a.Now(), drift, outcomes, i)
      invariant PortsUnique(s.insts) ==> PortsUnique(a.client.insts)
    {
      ghost var mid := a.Now();
      var d := drift[i];
      StillToRepair(s, mid, drift, outcomes, i);
      var o := RepairOne(a, d, actor);
      ProgressStep(s, mid, a.Now(), drift, outcomes, i, o);
      outcomes := outcomes + [o];
    }
  }

  /** A second report after a repair drifts only where the repair reported a failure. */
  lemma SecondReport(s: Snap, e: Snap, drift: seq<Drift>, outcomes: seq<Outcome>, again: seq<Drift>)
    requires ReportsDrift(s.rows, s.insts, drift) && Progress(s, e, drift, outcomes, |drift|)
    requires ReportsDrift(e.rows, e.insts, again)
    ensures forall x | x in again :: exists j :: 0 <= j < |outcomes| && outcomes[j].name == x.name && !outcomes[j].ok
  {
    forall x | x in again ensures exists j :: 0 <= j < |outcomes| && outcomes[j].name == x.name && !outcomes[j].ok {
      assert ReportedDrift(e.rows, e.insts, x);
      StillDrifting(s, e, drift, outcomes, x.name);
    }
  }

  /** One repair pass without failures: exactly the drifting containers are brought to their
      desired state. */
  ghost predicate Repaired(s: Snap, e: Snap) {
    && e.insts.Keys == s.insts.Keys && e.rows.Keys == s.rows.Keys
    && (forall n | n in s.insts ::
          SameButStatus(s.insts[n], e.insts[n]) && (!Drifted(s.rows, s.insts, n) ==> e.insts[n] == s.insts[n]))
    && (forall n | n in s.rows :: SameButTouched(s.rows[n], e.rows[n]))
    && (forall n | n in s.rows :: !Drifted(e.rows, e.insts, n))
  }

  /** `autoRepairPass`, and the repair endpoint with another actor. */
  method RepairPass(a: App, actor: string) returns (ok: bool, outcomes: seq<Outcome>)
    requires Keyed(a.store.rows)
    modifies a.client`insts, a.client`faults, a.store`rows, a.store`faults, a.store`audit, a.store`auditFaults
    ensures Later(old(a.Now()), a.Now())
    ensures a.client.insts.Keys == old(a.client.insts.Keys) && a.store.rows.Keys == old(a.store.rows.Keys)
    ensures forall n | n in a.client.insts :: SameButStatus(old(a.client.insts)[n], a.client.insts[n])
    ensures forall n | n in a.client.insts && !Drifted(old(a.store.rows), old(a.client.insts), n) ::
              a.client.insts[n] == old(a.client.insts)[n]
    ensures forall n | n in a.store.rows :: SameButTouched(old(a.store.rows)[n], a.store.rows[n])
    ensures ok ==> forall n | Drifted(a.store.rows, a.client.insts, n) ::
                     exists j :: 0 <= j < |outcomes| && outcomes[j].name == n && !outcomes[j].ok
    ensures FaultFree(old(a.Now()), a.Now()) && Restorable(old(a.store.rows)) ==> Repaired(old(a.Now()), a.Now())
    // In the fields: what agrees is left alone, and without failures everything then agrees.
    ensures forall n | n in old(a.store.rows) && n in old(a.client.insts) &&
              (old(a.store.rows)[n].desiredState == "running" <==> old(a.client.insts)[n].status == "Running") ::
              a.client.insts[n] == old(a.client.insts)[n]
    ensures forall n | n in a.store.rows :: a.store.rows[n].desiredState == old(a.store.rows)[n].desiredState
    ensures FaultFree(old(a.Now()), a.Now()) && Restorable(old(a.store.rows)) ==>
              forall n | n in a.store.rows && n in a.client.insts ::
                a.store.rows[n].desiredState == "running" <==> a.client.insts[n].status == "Running"
    ensures PortsUnique(old(a.client.insts)) ==> PortsUnique(a.client.insts)
  {
    ghost var s := a.Now();
    outcomes := [];
    var report, listing;
    ghost var readable;
    ok, report, listing, readable := BuildReport(a);
    if !ok { return; }
    ghost var mid := a.Now();
    outcomes := RepairDrift(a, report.drift, actor);
    PassFacts(mid, a.Now(), report.drift, outcomes);
  }

  lemma PassFacts(s: Snap, e: Snap, drift: seq<Drift>, outcomes: seq<Outcome>)
    requires ReportsDrift(s.rows, s.insts, drift) && Progress(s, e, drift, outcomes, |drift|)
    ensures forall n | n in s.insts && !Drifted(s.rows, s.insts, n) :: e.insts[n] == s.insts[n]
    ensures forall n | Drifted(e.rows, e.insts, n) ::
              exists j :: 0 <= j < |outcomes| && outcomes[j].name == n && !outcomes[j].ok
    ensures FaultFree(s, e) && Restorable(s.rows) ==> Repaired(s, e)
  {
    forall n | n in s.insts && !Drifted(s.rows, s.insts, n) ensures e.insts[n] == s.insts[n] {
      forall j | 0 <= j < |drift| ensures drift[j].name != n {
        assert ReportedDrift(s.rows, s.insts, drift[j]) by { assert drift[j] in drift; }
      }
    }
    forall n | Drifted(e.rows, e.insts, n)
      ensures exists j :: 0 <= j < |outcomes| && outcomes[j].name == n && !outcomes[j].ok
    {
      StillDrifting(s, e, drift, outcomes, n);
    }
    if FaultFree(s, e) && Restorable(s.rows) {
      forall j | 0 <= j < |drift| ensures outcomes[j].ok {
        assert drift[j] in drift && ReportedDrift(s.rows, s.insts, drift[j]);
      }
    }
  }

  lemma StillDrifting(s: Snap, e: Snap, drift: seq<Drift>, outcomes: seq<Outcome>, n: string)
    requires ReportsDrift(s.rows, s.insts, drift) && Progress(s, e, drift, outcomes, |drift|)
    requires Drifted(e.rows, e.insts, n)
    ensures exists j :: 0 <= j < |outcomes| && outcomes[j].name == n && !outcomes[j].ok
  {
    assert Drifted(s.rows, s.insts, n) ==> Drift(n, s.rows[n].desiredState, s.insts[n].status) in drift;
    assert (forall j | 0 <= j < |drift| :: drift[j].name != n) ==> !Drifted(s.rows, s.insts, n);
    var j :| 0 <= j < |drift| && drift[j].name == n;
    assert !outcomes[j].ok;
  }
}
