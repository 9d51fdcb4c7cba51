/** The state behind Natbox's handlers (the `app` struct of main.go) and the audit helpers. Every
    operation of the modules that take an `App` runs with `mutationMu` held. */
module AppState {
  import opened Prelude
  import opened Text
  import opened Incus
  import opened Store

  /** `validateRange`. */
  predicate InRange(minimum: int, maximum: int, lower: int, upper: int) {
    lower <= minimum <= maximum <= upper
  }

  class App {
    const client: Client
    const store: Store
    const portMin: int
    const portMax: int
    const sshPortStart: int
    const sshPortEnd: int

    /** main refuses to start outside these ranges. */
    constructor (client: Client, store: Store, portMin: int, portMax: int, sshPortStart: int, sshPortEnd: int)
      requires InRange(portMin, portMax, 1, 65535) && InRange(sshPortStart, sshPortEnd, portMin, portMax)
      ensures Configured() && this.client == client && this.store == store
    {
      this.client, this.store := client, store;
      this.portMin, this.portMax, this.sshPortStart, this.sshPortEnd := portMin, portMax, sshPortStart, sshPortEnd;
    }

    predicate Configured() {
      InRange(portMin, portMax, 1, 65535) && InRange(sshPortStart, sshPortEnd, portMin, portMax)
    }

    /** Everything the operations work on, at this moment. */
    ghost function Now(): Snap
      reads client, store
    {
      Snap(client.insts, store.rows, store.audit, client.faults, client.deleteFaults, store.faults, store.auditFaults)
    }
  }

  datatype Snap = Snap(
    insts: map<string, Instance>, rows: map<string, Row>, log: seq<AuditEvent>,
    faults: nat, deletes: nat, storeFaults: nat, auditFaults: nat)

  /** e comes after s: failure counts and the audit log only grow. */
  ghost predicate Later(s: Snap, e: Snap) {
    && e.faults >= s.faults && e.deletes >= s.deletes && (e.faults == s.faults ==> e.deletes == s.deletes)
    && e.storeFaults >= s.storeFaults && e.auditFaults >= s.auditFaults
    && s.log <= e.log && (ValidLog(s.log) ==> ValidLog(e.log))
  }

  /** Between s and e no command and no statement on the container table failed for an unknown
      reason; failures to write an audit event do not matter. */
  ghost predicate FaultFree(s: Snap, e: Snap) {
    e.faults == s.faults && e.storeFaults == s.storeFaults
  }

  /** An event of this kind was written at or after position from. */
  ghost predicate Reported(log: seq<AuditEvent>, from: nat, action: string, name: string, result: string) {
    exists k :: from <= k < |log| && log[k].action == action && log[k].targetId == name && log[k].result == result
  }

  /** Between s and e an event of this kind was written, or an event could not be written. */
  ghost predicate Logged(s: Snap, e: Snap, action: string, name: string, result: string) {
    Reported(e.log, |s.log|, action, name, result) || e.auditFaults > s.auditFaults
  }

  /** An event stays written over a longer stretch of time. */
  lemma ReportedKept(s: Snap, mid: Snap, late: Snap, e: Snap, action: string, name: string, result: string)
    requires Later(s, mid) && Later(mid, late) && Later(late, e) && Reported(late.log, |mid.log|, action, name, result)
    ensures Reported(e.log, |s.log|, action, name, result)
  {
    hide ValidLog;
    var k :| |mid.log| <= k < |late.log| && late.log[k].action == action && late.log[k].targetId == name &&
             late.log[k].result == result;
    assert e.log[k] == late.log[k];
  }

  lemma LoggedKept(s: Snap, mid: Snap, late: Snap, e: Snap, action: string, name: string, result: string)
    requires Later(s, mid) && Later(mid, late) && Later(late, e) && Logged(mid, late, action, name, result)
    ensures Logged(s, e, action, name, result)
  {
    hide ValidLog, Reported;
    if Reported(late.log, |mid.log|, action, name, result) { ReportedKept(s, mid, late, e, action, name, result); }
  }

  /** The names without an event of this kind between s and e. */
  ghost function Unlogged(s: Snap, e: Snap, action: string, names: set<string>, result: string): set<string> {
    set n | n in names && !Reported(e.log, |s.log|, action, n, result)
  }

  /** Of these names, no more lack their event than audit writes failed. */
  ghost predicate AllLogged(s: Snap, e: Snap, action: string, names: set<string>, result: string) {
    |Unlogged(s, e, action, names, result)| <= e.auditFaults - s.auditFaults
  }

  /** What two stretches of time log, the whole logs. */
  lemma AllLoggedJoin(s: Snap, mid: Snap, e: Snap, action: string, before: set<string>, after: set<string>,
                      result: string)
    requires Later(s, mid) && Later(mid, e)
    requires AllLogged(s, mid, action, before, result) && AllLogged(mid, e, action, after, result)
    ensures AllLogged(s, e, action, before + after, result)
  {
    hide ValidLog, Reported;
    var a, b := Unlogged(s, mid, action, before, result), Unlogged(mid, e, action, after, result);
    forall n | n in Unlogged(s, e, action, before + after, result) ensures n in a + b {
      if n in before && Reported(mid.log, |s.log|, action, n, result) { ReportedKept(s, s, mid, e, action, n, result); }
      if n in after && Reported(e.log, |mid.log|, action, n, result) { ReportedKept(s, mid, e, e, action, n, result); }
    }
    UnionSize(a, b);
    SubsetSize(Unlogged(s, e, action, before + after, result), a + b);
  }

  lemma NoneToLog(s: Snap, e: Snap, action: string, result: string)
    requires Later(s, e)
    ensures AllLogged(s, e, action, {}, result)
  {
    assert Unlogged(s, e, action, {}, result) == {};
  }

  lemma AllLoggedKept(s: Snap, mid: Snap, late: Snap, e: Snap, action: string, names: set<string>, result: string)
    requires Later(s, mid) && Later(mid, late) && Later(late, e) && AllLogged(mid, late, action, names, result)
    ensures AllLogged(s, e, action, names, result)
  {
    hide ValidLog, AllLogged;
    NoneToLog(s, mid, action, result);
    NoneToLog(late, e, action, result);
    AllLoggedJoin(s, mid, late, action, {}, names, result);
    AllLoggedJoin(s, late, e, action, {} + names, {}, result);
    assert {} + names + {} == names;
  }

  lemma FewerLogged(s: Snap, e: Snap, action: string, names: set<string>, fewer: set<string>, result: string)
    requires AllLogged(s, e, action, names, result) && fewer <= names
    ensures AllLogged(s, e, action, fewer, result)
  {
    SubsetSize(Unlogged(s, e, action, fewer, result), Unlogged(s, e, action, names, result));
  }

  lemma OneLogged(s: Snap, e: Snap, action: string, name: string, result: string)
    requires Later(s, e) && Logged(s, e, action, name, result)
    ensures AllLogged(s, e, action, {name}, result)
  {
    hide ValidLog, Reported;
    if Reported(e.log, |s.log|, action, name, result) {
      assert Unlogged(s, e, action, {name}, result) == {};
    } else {
      SubsetSize(Unlogged(s, e, action, {name}, result), {name});
    }
  }

  /** `recordAudit` and `recordSystemAudit`: a failing write is only logged. */
  method Record(a: App, actor: string, action: string, name: string, result: string)
    modifies a.store`audit, a.store`auditFaults
    ensures Later(old(a.Now()), a.Now())
    ensures Logged(old(a.Now()), a.Now(), action, name, result)
    ensures if a.store.audit == old(a.store.audit) then a.store.auditFaults == old(a.store.auditFaults) + 1
            else a.store.auditFaults == old(a.store.auditFaults) &&
                 |a.store.audit| == |old(a.store.audit)| + 1 && old(a.store.audit) <= a.store.audit &&
                 var e := a.store.audit[|old(a.store.audit)|];
                 e == AuditEvent(e.id, actor, action, "container", name, result)
  {
    var ok := a.store.Audit(actor, action, "container", name, result);
    if ok {
      assert a.store.audit[|old(a.store.audit)|].action == action;
    }
  }

  /** Only the status and the address of an instance may differ. */
  predicate SameButStatus(before: Instance, now: Instance) {
    now == before.(status := now.status, ipv4 := now.ipv4)
  }

  /** Starting and restarting wait for an address; stopping does not. Used by the lifecycle handler,
      bulkAction and repairDrift. Without failures, only an instance the runtime may refuse to act
      on is left as it was. */
  method Act(client: Client, op: Lifecycle, name: string) returns (ok: bool)
    modifies client`insts, client`faults
    ensures client.faults >= old(client.faults)
    ensures client.insts.Keys == old(client.insts.Keys)
    ensures forall n | n in client.insts :: SameButStatus(old(client.insts)[n], client.insts[n]) &&
                                            (n != name ==> client.insts[n] == old(client.insts)[n])
    ensures ok ==> ValidName(name) && name in client.insts && (Running(client.insts[name]) <==> !op.Stop?)
    ensures !ok && client.faults == old(client.faults) ==>
              client.insts == old(client.insts) &&
              (!ValidName(name) || name !in client.insts || MayRefuse(op, client.insts[name]))
    ensures PortsUnique(old(client.insts)) ==> PortsUnique(client.insts)
  {
    hide PortsUnique;
    ok := client.Lifecycle(op, name);
    if ok && !op.Stop? { ok := client.WaitIPv4(name); }
  }

  /** The map from name to instance that the passes build from a listing. */
  method IndexListing(listing: seq<Listed>, ghost insts: map<string, Instance>) returns (byName: map<string, Instance>)
    requires IsListing(insts, listing)
    ensures byName == insts
  {
    byName := map[];
    for i := 0 to |listing|
      invariant forall n :: n in byName <==> exists j :: 0 <= j < i && listing[j].name == n
      invariant forall n | n in byName :: n in insts && byName[n] == insts[n]
    {
      byName := byName[listing[i].name := listing[i].inst];
    }
    assert byName.Keys == insts.Keys;
  }
}
