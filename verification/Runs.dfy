/** Runs of the whole application: any sequence of operations, each with any outcome and any
    failures, every one holding `mutationMu`. */
module Runs {
  import opened Prelude
  import opened Text
  import opened Endpoints
  import opened Incus
  import opened Store
  import opened AppState
  import opened Ports
  import opened Requests
  import opened Saga
  import opened Bulk
  import opened Reconcile
  import opened Repair
  import opened Policy
  import opened Actions

  datatype Op =
    | CreateOp(req: CreateRequest, view: Option<HostView>)
    | BulkOp(batch: BulkRequest, view: Option<HostView>)
    | ActOp(action: Action, name: string)
    | BulkActOp(action: Action, names: seq<string>)
    | PolicyOp(name: string, quota: int, expiry: string)
    | EnforceOp(now: int)
    | RepairOp(actor: string)
    | AllocateOp(name: string)
    | AddPortOp(name: string, protocol: string, listenPort: int, targetPort: int)
    | RemovePortOp(name: string, protocol: string, listenPort: int)
    | RestoreOp(backup: Backup)
    | TrafficOp(counters: map<string, map<string, Counters>>)

  /** Every row has an instance, which runs exactly if the row wants it to. */
  ghost predicate Backed(s: Snap) {
    forall n | n in s.rows :: n in s.insts && !Drifted(s.rows, s.insts, n)
  }

  /** What every operation keeps. A restore may bring in rows nothing backs. */
  ghost predicate Kept(s: Snap, e: Snap, restores: bool) {
    && Later(s, e) && Restorable(e.rows)
    && (PortsUnique(s.insts) ==> PortsUnique(e.insts))
    && (!restores && FaultFree(s, e) && Backed(s) ==> Backed(e))
  }

  lemma KeptTwice(s: Snap, mid: Snap, e: Snap, first: bool, second: bool)
    requires Kept(s, mid, first) && Kept(mid, e, second)
    ensures Kept(s, e, first || second)
  {
    hide PortsUnique, Restorable, Backed, ValidLog;
  }

  // ---------------------------------------------------------------- what each result means

  lemma PersistedKeeps(s: Snap, e: Snap, req: CreateRequest)
    requires Restorable(s.rows) && ValidRequest(req) && ValidName(req.name)
    requires OnlyAdded(s.insts, e.insts, req.name) && Running(e.insts[req.name]) && Persisted(s.rows, req, e.rows)
    ensures Restorable(e.rows) && (Backed(s) ==> Backed(e))
  {
    hide ValidRequest, ValidName, Accepted, Persisted;
    PersistedShape(s.rows, req, e.rows);
  }

  lemma MadeRowAccepted(before: map<string, Row>, row: Row, r: BulkRequest, n: string)
    requires Restorable(before) && ValidRequest(ItemRequest(r, "nat01")) && ValidName(n) && RowMade(before, row, r, n)
    ensures row.name == n && Accepted(row) && row.createdAt != Unset && row.updatedAt != Unset &&
            row.desiredState == "running"
  {
    hide ValidName, ValidCpu;
    NameNotBlank(n);
    RequestSpecRow(ItemRequest(r, n));
  }

  /** Rows written by a batch, whether or not it was rolled back, are rows a backup can restore. */
  lemma MadeRowsKeep(before: map<string, Row>, now: map<string, Row>, r: BulkRequest, names: seq<string>, k: nat)
    requires Restorable(before) && ValidRequest(ItemRequest(r, "nat01")) && GoodNames(names) && k <= |names|
    requires RowProgress(before, now, r, names, k)
    ensures Restorable(now)
    ensures forall n | n in names[..k] :: n in now && now[n].desiredState == "running"
  {
    hide ValidRequest, ValidName, Accepted, RowMade;
    forall n | n in names[..k]
      ensures n in now && now[n].name == n && Accepted(now[n]) && now[n].createdAt != Unset &&
              now[n].updatedAt != Unset &&
              now[n].desiredState == "running"
    {
      assert n in names;
      MadeRowAccepted(before, now[n], r, n);
    }
  }

  lemma BatchKeepsBacked(s: Snap, e: Snap, r: BulkRequest, names: seq<string>)
    requires Backed(s) && InstProgress(s.insts, e.insts, names, |names|) &&
             RowProgress(s.rows, e.rows, r, names, |names|)
    requires forall n | n in names[..|names|] :: n in e.rows && e.rows[n].desiredState == "running"
    ensures Backed(e)
  {
    hide RowMade, Running;
    forall n | n in e.rows ensures n in e.insts && !Drifted(e.rows, e.insts, n) {
      if n !in names[..|names|] { assert n in s.rows && e.insts[n] == s.insts[n] && e.rows[n] == s.rows[n]; }
    }
  }

  lemma ActionKeeps(s: Snap, e: Snap, action: Action, name: string, ok: bool)
    requires ActionDone(s, e, action, name, ok) && Restorable(s.rows)
    ensures Restorable(e.rows) && (FaultFree(s, e) && Backed(s) ==> Backed(e))
  {
    hide ValidName, ValidLog, ValidCpu, Blank;
    forall n | n != name ensures n in e.insts <==> n in s.insts {
      assert n in e.insts - {name} <==> n in s.insts - {name};
    }
    forall n | n in e.insts && n != name ensures e.insts[n] == s.insts[n] {
      assert (e.insts - {name})[n] == (s.insts - {name})[n];
    }
    forall n | n != name ensures n in e.rows <==> n in s.rows { assert n in e.rows - {name} <==> n in s.rows - {name}; }
    forall n | n in e.rows && n != name ensures e.rows[n] == s.rows[n] {
      assert (e.rows - {name})[n] == (s.rows - {name})[n];
    }
  }

  lemma {:induction false} ChainKeeps(states: seq<Snap>, action: Action, results: seq<ActionResult>, k: nat)
    requires Chain(states, action, results) && Restorable(states[0].rows) && k < |states|
    ensures Later(states[0], states[k]) && Restorable(states[k].rows)
    ensures FaultFree(states[0], states[k]) && Backed(states[0]) ==> Backed(states[k])
  {
    hide Restorable, Backed, DoneTo, Removed, ValidLog;
    if k > 0 {
      ChainKeeps(states, action, results, k - 1);
      assert ActionDone(states[k - 1], states[k - 1 + 1], action, results[k - 1].name, results[k - 1].ok);
      ActionKeeps(states[k - 1], states[k], action, results[k - 1].name, results[k - 1].ok);
    }
  }

  lemma PolicyKeeps(s: Snap, e: Snap, name: string, quota: int, text: string)
    requires Restorable(s.rows) && e.insts == s.insts && name in s.rows && name in e.rows && name in s.insts
    requires e.rows == s.rows[name := e.rows[name]] &&
             PolicySet(s.rows[name], s.insts[name], quota, text, e.rows[name])
    ensures Restorable(e.rows) && (Backed(s) ==> Backed(e))
  {
    hide ValidName, ValidCpu, Blank, FormatExpiry;
  }

  lemma StopKeeps(s: Snap, e: Snap, n: string)
    requires n in s.rows && n in e.rows && StoppedRow(s.rows[n], e.rows[n]) && Accepted(s.rows[n])
    ensures Accepted(e.rows[n]) && e.rows[n].name == s.rows[n].name && e.rows[n].createdAt == s.rows[n].createdAt &&
            e.rows[n].updatedAt != Unset
  {
    hide ValidName, ValidCpu, Blank;
  }

  lemma PassKeeps(s: Snap, e: Snap, now: int)
    requires PassResult(s, e, now) && Restorable(s.rows)
    ensures Restorable(e.rows) && (FaultFree(s, e) && Backed(s) ==> Backed(e))
  {
    hide Accepted, DueNames, Logged, ValidLog, StoppedRow, AfterLifecycle;
    forall n | n in e.rows
      ensures e.rows[n].name == n && Accepted(e.rows[n]) && e.rows[n].createdAt != Unset && e.rows[n].updatedAt != Unset
    {
      if n in e.insts && !Skipped(s, e) { assert EnforcedOne(s, e, DueNames(s, now), now, n); }
      if e.rows[n] != s.rows[n] { StopKeeps(s, e, n); }
    }
    if FaultFree(s, e) && Backed(s) { EnforcedKeepsBacked(s, e, now); }
  }

  lemma EnforcedKeepsBacked(s: Snap, e: Snap, now: int)
    requires Enforced(s, e, now) && Restorable(s.rows) && Backed(s)
    ensures Backed(e)
  {
    hide Accepted, DueNames, Logged, StoppedRow, AfterLifecycle, PolicyStopped, Restorable, Drifted;
    forall n | n in e.rows ensures n in e.insts && !Drifted(e.rows, e.insts, n) {
      if n in DueNames(s, now) {
        StoppedNoDrift(s, e, n);
      } else {
        NoDriftKept(s, e, n);
      }
    }
  }

  lemma NoDriftKept(s: Snap, e: Snap, n: string)
    requires n in s.rows && n in e.rows && n in s.insts && n in e.insts && e.rows[n] == s.rows[n] &&
             e.insts[n] == s.insts[n]
    ensures Drifted(e.rows, e.insts, n) <==> Drifted(s.rows, s.insts, n)
  {
  }

  lemma StoppedNoDrift(s: Snap, e: Snap, n: string)
    requires n in s.rows && n in e.rows && n in s.insts && n in e.insts && PolicyStopped(s, e, n)
    ensures !Drifted(e.rows, e.insts, n)
  {
  }

  lemma RepairKeeps(s: Snap, e: Snap)
    requires Restorable(s.rows) && e.rows.Keys == s.rows.Keys &&
             forall n | n in e.rows :: SameButTouched(s.rows[n], e.rows[n])
    requires e.insts.Keys == s.insts.Keys && (FaultFree(s, e) ==> Repaired(s, e))
    ensures Restorable(e.rows) && (FaultFree(s, e) && Backed(s) ==> Backed(e))
  {
    hide ValidName, ValidCpu, Blank, SameButStatus;
  }

  /** Changes to other attributes of the instances do not matter. */
  lemma SameStatusKeeps(s: Snap, e: Snap)
    requires e.rows == s.rows && forall n | n in s.insts :: n in e.insts && e.insts[n].status == s.insts[n].status
    ensures Backed(s) ==> Backed(e)
  {
  }

  // ---------------------------------------------------------------- the operations

  /** Traffic, or a counter reset, on any of the instances. */
  method Traffic(client: Client, counters: map<string, map<string, Counters>>)
    modifies client`insts
    ensures client.insts.Keys == old(client.insts.Keys)
    ensures forall n | n in client.insts ::
              client.insts[n] == old(client.insts)[n].(
                networks := if n in counters then counters[n] else old(client.insts)[n].networks)
    ensures PortsUnique(old(client.insts)) ==> PortsUnique(client.insts)
  {
    client.insts := map n | n in client.insts ::
      client.insts[n].(networks := if n in counters then counters[n] else client.insts[n].networks);
    PortsKept(old(client.insts), client.insts);
  }

  /** The handler that adds a port: only ports of the configured range reach the client. */
  method AddPort(a: App, name: string, protocol: string, listenPort: int, targetPort: int) returns (ok: bool)
    modifies a.client`insts, a.client`faults, a.store`audit, a.store`auditFaults
    ensures Later(old(a.Now()), a.Now())
    ensures ok ==> a.portMin <= listenPort <= a.portMax &&
                   CanAdd(old(a.client.insts), name, protocol, listenPort, targetPort) &&
                   a.client.insts == WithForward(old(a.client.insts), name, protocol, listenPort,
                                                 old(a.client.insts)[name].ipv4, targetPort)
    ensures !ok ==> a.client.insts == old(a.client.insts)
    ensures a.client.faults == old(a.client.faults) ==>
              (ok <==> a.portMin <= listenPort <= a.portMax &&
                       CanAdd(old(a.client.insts), name, protocol, listenPort, targetPort))
    ensures a.portMin <= listenPort <= a.portMax ==>
              Logged(old(a.Now()), a.Now(), "port.add", name, if ok then "success" else "failure")
    ensures a.portMin <= listenPort <= a.portMax ==>
              if a.store.audit == old(a.store.audit) then a.store.auditFaults == old(a.store.auditFaults) + 1
              else a.store.auditFaults == old(a.store.auditFaults) &&
                   |a.store.audit| == |old(a.store.audit)| + 1 && old(a.store.audit) <= a.store.audit &&
                   var e := a.store.audit[|old(a.store.audit)|];
                   e == AuditEvent(e.id, "local", "port.add", "container", name, if ok then "success" else "failure")
    ensures PortsUnique(old(a.client.insts)) ==> PortsUnique(a.client.insts)
  {
    hide PortsUnique, CanAdd, Logged, ValidLog;
    if listenPort < a.portMin || listenPort > a.portMax { return false; }
    ghost var s := a.Now();
    ok := a.client.AddPortForward(name, protocol, listenPort, targetPort);
    ghost var mid := a.Now();
    Record(a, "local", "port.add", name, if ok then "success" else "failure");
    LoggedKept(s, mid, a.Now(), a.Now(), "port.add", name, if ok then "success" else "failure");
  }

  /** The handler that removes a port, inside the configured range or not. */
  method RemovePort(a: App, name: string, protocol: string, listenPort: int) returns (ok: bool)
    modifies a.client`insts, a.client`faults, a.store`audit, a.store`auditFaults
    ensures Later(old(a.Now()), a.Now())
    ensures ok ==> ValidProtocol(protocol) && ValidPort(listenPort) &&
                   name in old(a.client.insts) &&
                   DeviceName(protocol, listenPort) in old(a.client.insts)[name].devices &&
                   a.client.insts == old(a.client.insts)[name := old(a.client.insts)[name].(
                     devices := old(a.client.insts)[name].devices - {DeviceName(protocol, listenPort)})]
    ensures !ok ==> a.client.insts == old(a.client.insts)
    ensures Logged(old(a.Now()), a.Now(), "port.remove", name, if ok then "success" else "failure")
    ensures if a.store.audit == old(a.store.audit) then a.store.auditFaults == old(a.store.auditFaults) + 1
            else a.store.auditFaults == old(a.store.auditFaults) &&
                 |a.store.audit| == |old(a.store.audit)| + 1 && old(a.store.audit) <= a.store.audit &&
                 var e := a.store.audit[|old(a.store.audit)|];
                 e == AuditEvent(e.id, "local", "port.remove", "container", name, if ok then "success" else "failure")
    ensures PortsUnique(old(a.client.insts)) ==> PortsUnique(a.client.insts)
  {
    hide PortsUnique, Logged, ValidLog, ValidName;
    ghost var s := a.Now();
    ok := a.client.RemovePortForward(name, protocol, listenPort);
    ghost var mid := a.Now();
    Record(a, "local", "port.remove", name, if ok then "success" else "failure");
    LoggedKept(s, mid, a.Now(), a.Now(), "port.remove", name, if ok then "success" else "failure");
  }

  /** The handler that allocates an SSH port. */
  method AllocatePort(a: App, name: string) returns (r: Allocation)
    requires a.Configured()
    modifies a.client`insts, a.client`faults, a.store`audit, a.store`auditFaults
    ensures Later(old(a.Now()), a.Now())
    ensures forall n | n in old(a.client.insts) ::
              n in a.client.insts && a.client.insts[n].status == old(a.client.insts)[n].status
    ensures a.client.faults == old(a.client.faults) ==> (r.Allocated? <==> CanAllocate(a, old(a.client.insts), name))
    ensures Logged(old(a.Now()), a.Now(), "port.allocate_ssh", name, if r.Allocated? then "success" else "failure")
    ensures if a.store.audit == old(a.store.audit) then a.store.auditFaults == old(a.store.auditFaults) + 1
            else a.store.auditFaults == old(a.store.auditFaults) &&
                 |a.store.audit| == |old(a.store.audit)| + 1 && old(a.store.audit) <= a.store.audit &&
                 var e := a.store.audit[|old(a.store.audit)|];
                 e == AuditEvent(e.id, "local", "port.allocate_ssh", "container", name,
                                 if r.Allocated? then "success" else "failure")
    ensures PortsUnique(old(a.client.insts)) ==> PortsUnique(a.client.insts)
  {
    hide PortsUnique, Logged, ValidLog, CanAllocate, SshForwardOf, HasSsh;
    ghost var s := a.Now();
    r := AllocateSSH(a, name);
    ghost var mid := a.Now();
    Record(a, "local", "port.allocate_ssh", name, if r.Allocated? then "success" else "failure");
    LoggedKept(s, mid, a.Now(), a.Now(), "port.allocate_ssh", name, if r.Allocated? then "success" else "failure");
  }

  method RunCreate(a: App, req: CreateRequest, view: Option<HostView>)
    requires Restorable(a.store.rows)
    modifies a.client`insts, a.client`faults, a.client`deleteFaults, a.store
    ensures Kept(old(a.Now()), a.Now(), false)
  {
    hide PortsUnique, Restorable, Backed, ValidRequest, ValidName, CapacityAllows, Persisted, ValidLog;
    ghost var s := a.Now();
    var ok := CreateContainer(a, req, view);
    if ok { PersistedKeeps(s, a.Now(), WithImage(req)); } else { SameInsts(s, a.Now()); }
  }

  lemma SameInsts(s: Snap, e: Snap)
    requires Restorable(s.rows) && e.rows == s.rows
    ensures Restorable(e.rows) && (e.insts == s.insts && Backed(s) ==> Backed(e))
  {
  }

  /** A batch, whatever became of it. */
  lemma BulkKeeps(s: Snap, e: Snap, r: BulkRequest, names: seq<string>, result: BulkResult)
    requires Restorable(s.rows) && Later(s, e) && (PortsUnique(s.insts) ==> PortsUnique(e.insts))
    requires result.Rejected? ==> e.insts == s.insts && e.rows == s.rows
    requires !result.Rejected? ==> ValidRequest(ItemRequest(r, "nat01")) && NamesOf(r, names)
    requires result.RolledBack? ==>
               |result.created| < |names| &&
               RowProgress(s.rows, e.rows, r, names, |result.created| + if result.stage.AtSSH? then 1 else 0) &&
               (FaultFree(s, e) ==> e.insts == s.insts && e.rows == s.rows)
    requires result.Completed? ==>
               InstProgress(s.insts, e.insts, names, |names|) && RowProgress(s.rows, e.rows, r, names, |names|)
    ensures Kept(s, e, false)
  {
    hide PortsUnique, Restorable, Backed, ValidRequest, ValidName, RowProgress, InstProgress, ValidLog, NamesOf;
    if !result.Rejected? { NamesAreGood(r, names); }
    match result {
      case Rejected => SameInsts(s, e);
      case RolledBack(created, _, stage) =>
        MadeRowsKeep(s.rows, e.rows, r, names, |created| + if stage.AtSSH? then 1 else 0);
        if FaultFree(s, e) { SameInsts(s, e); }
      case Completed(_) =>
        MadeRowsKeep(s.rows, e.rows, r, names, |names|);
        if Backed(s) { BatchKeepsBacked(s, e, r, names); }
    }
  }

  method RunBulk(a: App, batch: BulkRequest, view: Option<HostView>)
    requires Restorable(a.store.rows) && a.Configured()
    modifies a.client`insts, a.client`faults, a.client`deleteFaults, a.store
    ensures Kept(old(a.Now()), a.Now(), false)
  {
    hide PortsUnique, Restorable, Backed, ValidRequest, ValidName, ValidLog, SshPorts, RowProgress, InstProgress,
      NamesOf, Kept, Compensated, FailureLogged, KeyUsable, CreationsLogged, AllDigits, DigitsValue, ItemRequest;
    ghost var s := a.Now();
    ghost var names;
    var result;
    result, names := BulkCreate(a, batch, view);
    if result.RolledBack? { CompensatedShape(s, a.Now(), batch, names, |result.created|, result.stage); }
    BulkKeeps(s, a.Now(), batch, names, result);
  }

  method RunAct(a: App, action: Action, name: string)
    requires Restorable(a.store.rows)
    modifies a.client`insts, a.client`faults, a.client`deleteFaults, a.store
    ensures Kept(old(a.Now()), a.Now(), false)
  {
    hide PortsUnique, Restorable, Backed, ValidLog, ActionDone, Logged;
    ghost var s := a.Now();
    var ok := Perform(a, action, name, false);
    ActionKeeps(s, a.Now(), action, name, ok);
    ActedLater(s, a.Now(), action, name, ok);
  }

  method RunBulkAct(a: App, action: Action, names: seq<string>)
    requires Restorable(a.store.rows)
    modifies a.client`insts, a.client`faults, a.client`deleteFaults, a.store
    ensures Kept(old(a.Now()), a.Now(), false)
  {
    hide PortsUnique, Restorable, Backed, ValidLog, ActionDone, Logged;
    ghost var s := a.Now();
    ghost var states;
    var r;
    r, states := BulkAction(a, names, action);
    if r.Some? { ChainKeeps(states, action, r.value, |states| - 1); }
  }

  method RunOp(a: App, op: Op)
    requires Restorable(a.store.rows) && a.Configured()
    modifies a.client`insts, a.client`faults, a.client`deleteFaults, a.store
    ensures Kept(old(a.Now()), a.Now(), op.RestoreOp?)
  {
    hide PortsUnique, Restorable, Backed, ValidLog, Repaired, PassResult, CanAdd, CanAllocate, ActionDone, PolicySet,
      SameButTouched, SameButStatus, Due, Restorables, Installed, Logged, Drifted, ValidName;
    ghost var s := a.Now();
    assert Keyed(s.rows) by { KeyedTable(s.rows); }
    match op {
      case CreateOp(req, view) => RunCreate(a, req, view);
      case BulkOp(batch, view) => RunBulk(a, batch, view);
      case ActOp(action, name) => RunAct(a, action, name);
      case BulkActOp(action, names) => RunBulkAct(a, action, names);
      case PolicyOp(name, quota, expiry) =>
        var ok := UpdatePolicy(a, name, quota, expiry);
        if a.store.rows == s.rows { SameInsts(s, a.Now()); } else { PolicyKeeps(s, a.Now(), name, quota, expiry); }
      case EnforceOp(now) =>
        EnforcePass(a, now);
        PassKeeps(s, a.Now(), now);
        PassLater(s, a.Now(), now);
      case RepairOp(actor) =>
        var ok, outcomes := RepairPass(a, actor);
        RepairKeeps(s, a.Now());
      case AllocateOp(name) =>
        var r := AllocatePort(a, name);
        SameStatusKeeps(s, a.Now());
      case AddPortOp(name, protocol, listenPort, targetPort) =>
        var ok := AddPort(a, name, protocol, listenPort, targetPort);
        SameStatusKeeps(s, a.Now());
      case RemovePortOp(name, protocol, listenPort) =>
        var ok := RemovePort(a, name, protocol, listenPort);
        SameStatusKeeps(s, a.Now());
      case RestoreOp(backup) =>
        var ok := a.store.Restore(backup);
        if ok { RestoredRows(backup, a.store.rows); }
      case TrafficOp(counters) =>
        Traffic(a.client, counters);
        SameStatusKeeps(s, a.Now());
    }
  }

  lemma KeyedTable(rows: map<string, Row>)
    requires Restorable(rows)
    ensures Keyed(rows)
  {
  }

  lemma ActedLater(s: Snap, e: Snap, action: Action, name: string, ok: bool)
    requires ActionDone(s, e, action, name, ok)
    ensures Later(s, e)
  {
  }

  lemma PassLater(s: Snap, e: Snap, now: int)
    requires PassResult(s, e, now)
    ensures Later(s, e)
  {
  }

  lemma RestoredRows(b: Backup, rows: map<string, Row>)
    requires Restorables(b) && Installed(b.containers, rows)
    ensures Restorable(rows)
  {
    InstalledRestorable(b.containers, rows);
  }

  ghost predicate Restores(ops: seq<Op>) {
    exists k :: 0 <= k < |ops| && ops[k].RestoreOp?
  }

  /** Every reachable state. From a table whose rows a backup can restore, any run, whatever fails,
      ends in such a table, with valid audit ids, and keeps unique public ports unique. If no
      command and no statement failed and no backup was restored, every row stays backed by an
      instance that runs exactly if the row wants it to, rejected batches and traffic included. */
  method RunAll(a: App, ops: seq<Op>)
    requires Restorable(a.store.rows) && a.Configured()
    modifies a.client`insts, a.client`faults, a.client`deleteFaults, a.store
    ensures Restorable(a.store.rows)
    ensures ValidLog(old(a.store.audit)) ==> ValidLog(a.store.audit)
    ensures PortsUnique(old(a.client.insts)) ==> PortsUnique(a.client.insts)
    ensures !Restores(ops) && FaultFree(old(a.Now()), a.Now()) &&
            (forall n | n in old(a.store.rows) ::
               n in old(a.client.insts) &&
               (old(a.store.rows)[n].desiredState == "running" <==> old(a.client.insts)[n].status == "Running")) ==>
              forall n | n in a.store.rows ::
                n in a.client.insts &&
                (a.store.rows[n].desiredState == "running" <==> a.client.insts[n].status == "Running")
  {
    hide PortsUnique, Restorable, Backed, ValidLog;
    ghost var s := a.Now();
    BackedMeans(s);
    for i := 0 to |ops|
      invariant Kept(s, a.Now(), Restores(ops[..i]))
    {
      ghost var mid := a.Now();
      RunOp(a, ops[i]);
      KeptTwice(s, mid, a.Now(), Restores(ops[..i]), ops[i].RestoreOp?);
      RestoresStep(ops, i);
    }
    assert ops[..|ops|] == ops;
    BackedMeans(a.Now());
  }

  lemma BackedMeans(s: Snap)
    ensures Backed(s) <==> forall n | n in s.rows ::
              n in s.insts && (s.rows[n].desiredState == "running" <==> s.insts[n].status == "Running")
  {
  }

  lemma RestoresStep(ops: seq<Op>, i: nat)
    requires i < |ops|
    ensures Restores(ops[..i + 1]) <==> Restores(ops[..i]) || ops[i].RestoreOp?
  {
    var before, now := ops[..i], ops[..i + 1];
    assert now[i] == ops[i] && forall k | 0 <= k < i :: now[k] == before[k];
    if Restores(before) {
      var k :| 0 <= k < |before| && before[k].RestoreOp?;
      assert now[k].RestoreOp?;
    }
  }

  /** A fresh installation satisfies everything the runs keep. */
  lemma EmptyStart(s: Snap)
    requires s.insts == map[] && s.rows == map[] && s.log == []
    ensures Restorable(s.rows) && ValidLog(s.log) && PortsUnique(s.insts) && Backed(s)
  {
  }

  /** Exporting any reachable table and restoring the export is accepted and changes nothing, to
      the last timestamp. */
  method ExportThenRestore(a: App) returns (ok: bool)
    requires Restorable(a.store.rows)
    modifies a.store`rows, a.store`faults
    ensures a.store.rows == old(a.store.rows)
    ensures a.store.faults == old(a.store.faults) ==> ok
  {
    var exported, backup := a.store.Export();
    if !exported { return false; }
    ghost var before := a.store.rows;
    ok := a.store.Restore(backup);
    assert backup == Backup(1, backup.containers);
    RestoreOfExport(before, backup.containers, a.store.rows);
  }

  /** The rows a failed batch leaves are exactly those of the names it had persisted. The next
      report has each of them as missing from the runtime if and only if its deletion worked. */
  lemma LeftoversAreReported(s: Snap, e: Snap, r: BulkRequest, names: seq<string>, k: nat, stage: Stage,
                             missing: seq<Row>, n: string)
    requires Keyed(s.rows) && k < |names| && Compensated(s, e, r, names, k, stage) &&
             (forall m | m in names :: m !in s.insts)
    requires ReportsMissing(e.rows, e.insts, missing)
    ensures n in e.rows && n !in s.rows <==> n !in s.rows && n in names[..if stage.AtSSH? then k + 1 else k]
    ensures n in names[..if stage.AtSSH? then k + 1 else k] ==> n in e.rows && (e.rows[n] in missing <==> n !in e.insts)
    ensures e.deletes == s.deletes && n in names[..if stage.AtSSH? then k + 1 else k] ==>
              n !in e.insts && e.rows[n] in missing
  {
    hide AllLogged;
    var written := names[..if stage.AtSSH? then k + 1 else k];
    UndoneIffDeleted(s, e, r, names, k, stage);
    if n in written { assert n in names; }
  }
}
