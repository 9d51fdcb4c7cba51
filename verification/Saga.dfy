/** Creating one container and creating a batch, with compensation (main.go: createOne,
    cleanupContainer, rollbackBulk, persistManaged, bulkCreate and the create handler). */
module Saga {
  import opened Prelude
  import opened Text
  import opened Endpoints
  import opened Incus
  import opened Store
  import opened AppState
  import opened Ports
  import opened Requests

  predicate KeyUsable(key: Key) {
    key.NoKey? || key.valid
  }

  /** A created container: running, reachable, without devices. */
  predicate Ready(inst: Instance) {
    Running(inst) && inst.ipv4 != "" && ':' !in inst.ipv4 && inst.devices == map[]
  }

  /** now is before plus one instance of this name. */
  ghost predicate OnlyAdded(before: map<string, Instance>, now: map<string, Instance>, name: string) {
    name !in before && name in now && now == before[name := now[name]]
  }

  /** Since s, a failed deletion of this name was reported, or an event could not be written. */
  ghost predicate CleanupReported(s: Snap, e: Snap, name: string) {
    Logged(s, e, "container.cleanup", name, "failure")
  }

  lemma ReportKept(s: Snap, mid: Snap, late: Snap, e: Snap, name: string)
    requires Later(s, mid) && Later(mid, late) && Later(late, e) && CleanupReported(mid, late, name)
    ensures CleanupReported(s, e, name)
  {
    LoggedKept(s, mid, late, e, "container.cleanup", name, "failure");
  }

  method CleanupContainer(a: App, name: string)
    modifies a.client`insts, a.client`faults, a.client`deleteFaults, a.store`audit, a.store`auditFaults
    ensures Later(old(a.Now()), a.Now())
    ensures a.client.insts == old(a.client.insts) - {name} || a.client.insts == old(a.client.insts)
    ensures name in a.client.insts ==> CleanupReported(old(a.Now()), a.Now(), name)
    ensures name in a.client.insts ==>
              if a.store.audit == old(a.store.audit) then a.store.auditFaults == old(a.store.auditFaults) + 1
              else |a.store.audit| == |old(a.store.audit)| + 1 && old(a.store.audit) <= a.store.audit &&
                   var e := a.store.audit[|old(a.store.audit)|];
                   e == AuditEvent(e.id, "system", "container.cleanup", "container", name, "failure")
    ensures ValidName(name) && name in old(a.client.insts) ==>
              a.client.deleteFaults == old(a.client.deleteFaults) + if name in a.client.insts then 1 else 0
    ensures PortsUnique(old(a.client.insts)) ==> PortsUnique(a.client.insts)
  {
    var ok := a.client.Delete(name);
    if !ok {
      Record(a, "system", "container.cleanup", name, "failure");
      return;
    }
    Record(a, "system", "container.cleanup", name, "success");
  }

  /** The rest of `createOne` once the instance is started: a failing step cleans it up. */
  method MakeReady(a: App, req: CreateRequest) returns (ok: bool)
    requires ValidName(req.name) && req.name in a.client.insts &&
             a.client.insts[req.name] == AfterLifecycle(Start, FRESH)
    modifies a.client`insts, a.client`faults, a.client`deleteFaults, a.store`audit, a.store`auditFaults
    ensures Later(old(a.Now()), a.Now())
    ensures a.client.insts - {req.name} == old(a.client.insts) - {req.name}
    ensures ok ==> req.name in a.client.insts && Ready(a.client.insts[req.name]) && KeyUsable(req.publicKey)
    ensures !ok && req.name in a.client.insts ==>
              CleanupReported(old(a.Now()), a.Now(), req.name) && Running(a.client.insts[req.name])
    ensures a.client.deleteFaults == old(a.client.deleteFaults) + if ok || req.name !in a.client.insts then 0 else 1
    ensures a.client.faults == old(a.client.faults) ==>
              (ok <==> KeyUsable(req.publicKey)) && (!ok ==> req.name !in a.client.insts)
    ensures PortsUnique(old(a.client.insts)) ==> PortsUnique(a.client.insts)
  {
    hide PortsUnique, ValidName, ValidLog, CleanupReported;
    ghost var start := a.Now();
    ok := a.client.WaitIPv4(req.name);
    if !ok {
      ghost var mid := a.Now();
      CleanupContainer(a, req.name);
      if req.name in a.client.insts { ReportKept(start, mid, a.Now(), a.Now(), req.name); }
      return;
    }
    if req.publicKey.Key? {
      ok := a.client.ConfigureSSH(req.name, req.publicKey.valid);
      if !ok {
        ghost var mid := a.Now();
        CleanupContainer(a, req.name);
        if req.name in a.client.insts { ReportKept(start, mid, a.Now(), a.Now(), req.name); }
      }
    }
  }

  lemma OneMore(before: map<string, Instance>, mid: map<string, Instance>, now: map<string, Instance>, name: string)
    requires name !in before && mid - {name} == before && now - {name} == mid - {name}
    ensures now == before || OnlyAdded(before, now, name)
    ensures name in now <==> OnlyAdded(before, now, name)
  {
    if name in now {
      assert now == (now - {name})[name := now[name]];
    } else {
      assert now == now - {name};
    }
  }

  /** started: `Create` succeeded. Before that, what a failed deletion leaves was never started, and
      nothing reports it; after that it runs, and is reported. */
  method CreateOne(a: App, req: CreateRequest) returns (ok: bool, started: bool)
    modifies a.client`insts, a.client`faults, a.client`deleteFaults, a.store`audit, a.store`auditFaults
    ensures Later(old(a.Now()), a.Now())
    ensures ok ==> started && ValidRequest(req) && ValidName(req.name) && KeyUsable(req.publicKey) &&
                   OnlyAdded(old(a.client.insts), a.client.insts, req.name) && Ready(a.client.insts[req.name])
    ensures !ok ==> a.client.insts == old(a.client.insts) || OnlyAdded(old(a.client.insts), a.client.insts, req.name)
    ensures a.client.deleteFaults ==
            old(a.client.deleteFaults) + if ok || a.client.insts == old(a.client.insts) then 0 else 1
    ensures !ok && a.client.insts != old(a.client.insts) ==>
              if started then Running(a.client.insts[req.name]) && CleanupReported(old(a.Now()), a.Now(), req.name)
              else a.client.insts[req.name] == FRESH
    ensures a.client.faults == old(a.client.faults) ==>
              (started <==> ValidRequest(req) && ValidName(req.name) && req.name !in old(a.client.insts)) &&
              (ok <==> started && KeyUsable(req.publicKey))
    ensures PortsUnique(old(a.client.insts)) ==> PortsUnique(a.client.insts)
  {
    hide PortsUnique, ValidName, Blank, ValidLog, CleanupReported, ValidCpu, ValidSpec, ValidRequest, Ready, KeyUsable;
    ghost var start := a.Now();
    if !ValidRequest(req) { return false, false; }
    RequestSpecRow(req);
    started := a.client.Create(SpecOf(req));
    if !started { return false, false; }
    ghost var mid := a.Now();
    assert mid.insts - {req.name} == start.insts;
    ok := MakeReady(a, req);
    OneMore(start.insts, mid.insts, a.client.insts, req.name);
    if !ok && req.name in a.client.insts { ReportKept(start, mid, a.Now(), a.Now(), req.name); }
  }

  /** The row a create request leaves: its own columns, and the policy of an earlier row of the
      same name. */
  ghost predicate Persisted(before: map<string, Row>, r: CreateRequest, now: map<string, Row>) {
    exists t: Stamp :: t.Instant? && now == Upserted(before, RowOf(r).(createdAt := t, updatedAt := t))
  }

  lemma PersistedShape(before: map<string, Row>, r: CreateRequest, now: map<string, Row>)
    requires Persisted(before, r, now)
    ensures now.Keys == before.Keys + {r.name}
    ensures forall n | n in before && n != r.name :: now[n] == before[n]
    ensures now[r.name].desiredState == "running"
    ensures Keyed(before) ==> Keyed(now)
    ensures Restorable(before) && ValidRequest(r) && ValidName(r.name) ==> Restorable(now)
  {
    if ValidRequest(r) { RequestSpecRow(r); }
  }

  /** The columns of the request; the policy and the creation time of an earlier row, or none. */
  lemma PersistedColumns(before: map<string, Row>, r: CreateRequest, now: map<string, Row>)
    requires Persisted(before, r, now)
    ensures r.name in now && now == before[r.name := now[r.name]] &&
            var row := now[r.name];
            row.image == r.image && row.memoryLimitMb == r.memoryLimitMb && row.diskLimitGb == r.diskLimitGb &&
              row.cpuLimit == r.cpuLimit && row.desiredState == "running" && row.updatedAt.Instant?
    ensures r.name in before ==>
              var row, kept := now[r.name], before[r.name];
              row.quotaBytes == kept.quotaBytes && row.quotaRxBaseline == kept.quotaRxBaseline &&
              row.quotaTxBaseline == kept.quotaTxBaseline && row.quotaResetAt == kept.quotaResetAt &&
              row.expiresAt == kept.expiresAt && row.createdAt == kept.createdAt
    ensures r.name !in before ==>
              var row := now[r.name];
              row.name == r.name && row.quotaBytes == row.quotaRxBaseline == row.quotaTxBaseline == 0 &&
              row.quotaResetAt == Unset && row.expiresAt == Unset && row.createdAt == row.updatedAt
  {
  }

  /** The columns of the request; the policy and the creation time of an earlier row, or none. */
  method PersistManaged(a: App, req: CreateRequest) returns (ok: bool)
    modifies a.store`rows, a.store`faults
    ensures Later(old(a.Now()), a.Now())
    ensures ok ==> Persisted(old(a.store.rows), req, a.store.rows)
    ensures ok ==>
              req.name in a.store.rows && a.store.rows == old(a.store.rows)[req.name := a.store.rows[req.name]] &&
              var row := a.store.rows[req.name];
              row.image == req.image && row.memoryLimitMb == req.memoryLimitMb && row.diskLimitGb == req.diskLimitGb &&
              row.cpuLimit == req.cpuLimit && row.desiredState == "running" && row.updatedAt.Instant?
    ensures ok && req.name in old(a.store.rows) ==>
              var row, before := a.store.rows[req.name], old(a.store.rows)[req.name];
              row.quotaBytes == before.quotaBytes && row.quotaRxBaseline == before.quotaRxBaseline &&
              row.quotaTxBaseline == before.quotaTxBaseline && row.quotaResetAt == before.quotaResetAt &&
              row.expiresAt == before.expiresAt && row.createdAt == before.createdAt
    ensures ok && req.name !in old(a.store.rows) ==>
              var row := a.store.rows[req.name];
              row.name == req.name && row.quotaBytes == row.quotaRxBaseline == row.quotaTxBaseline == 0 &&
              row.quotaResetAt == Unset && row.expiresAt == Unset && row.createdAt == row.updatedAt
    ensures !ok ==> a.store.rows == old(a.store.rows)
    ensures a.store.faults == old(a.store.faults) ==> (ok <==> !Blank(req.name))
  {
    ok := a.store.UpsertContainer(RowOf(req));
  }

  // ---------------------------------------------------------------- create and persist

  /** Where making a container failed: up to and inside `Create`, in the wait or the key setup after it,
      at its row, at its SSH port. */
  datatype Stage = AtCreate | AtReady | AtPersist | AtSSH(reason: Allocation)

  /** What a failure may leave: an instance that was never started, or one whose failed deletion
      is reported. */
  ghost predicate LeftBy(s: Snap, e: Snap, name: string, stage: Stage) {
    name in e.insts && if stage.AtCreate? then e.insts[name] == FRESH else CleanupReported(s, e, name)
  }

  /** Create, then persist: the common part of the create handler and of a batch. A failing step cleans
      this name up. */
  method CreateManaged(a: App, req: CreateRequest) returns (failed: Option<Stage>)
    modifies a.client`insts, a.client`faults, a.client`deleteFaults, a.store
    ensures Later(old(a.Now()), a.Now())
    ensures failed.None? ==>
              ValidRequest(req) && ValidName(req.name) && KeyUsable(req.publicKey) &&
              OnlyAdded(old(a.client.insts), a.client.insts, req.name) && Ready(a.client.insts[req.name]) &&
              Persisted(old(a.store.rows), req, a.store.rows)
    ensures failed.Some? ==>
              !failed.value.AtSSH? && a.store.rows == old(a.store.rows) &&
              (a.client.insts == old(a.client.insts) || OnlyAdded(old(a.client.insts), a.client.insts, req.name))
    ensures a.client.deleteFaults ==
            old(a.client.deleteFaults) + if failed.None? || a.client.insts == old(a.client.insts) then 0 else 1
    ensures failed.Some? && a.client.insts != old(a.client.insts) ==>
              LeftBy(old(a.Now()), a.Now(), req.name, failed.value)
    ensures FaultFree(old(a.Now()), a.Now()) ==>
              if ValidRequest(req) && ValidName(req.name) && req.name !in old(a.client.insts)
              then failed == if KeyUsable(req.publicKey) then None else Some(AtReady)
              else failed == Some(AtCreate)
    ensures PortsUnique(old(a.client.insts)) ==> PortsUnique(a.client.insts)
  {
    hide PortsUnique, Logged, CleanupReported, ValidLog, Persisted, ValidRequest, ValidName, Ready, KeyUsable;
    ghost var start := a.Now();
    var created, started := CreateOne(a, req);
    if !created { return Some(if started then AtReady else AtCreate); }
    NameNotBlank(req.name);
    assert a.client.insts - {req.name} == start.insts;
    var persisted := PersistManaged(a, req);
    if !persisted {
      ghost var mid := a.Now();
      CleanupContainer(a, req.name);
      if req.name in a.client.insts { ReportKept(start, mid, a.Now(), a.Now(), req.name); }
      return Some(AtPersist);
    }
    return None;
  }

  // ---------------------------------------------------------------- single create

  lemma ImageGiven(r: CreateRequest)
    ensures ValidName(r.name) ==>
              (ValidRequest(WithImage(r)) <==>
               (r.image == "" || !Blank(r.image)) && 16 <= r.memoryLimitMb <= 8192 && 1 <= r.diskLimitGb <= 100 &&
               ValidCpu(r.cpuLimit))
    ensures KeyUsable(r.publicKey) <==> r.publicKey.NoKey? || r.publicKey.valid
  {
    hide ValidCpu;
    if ValidName(r.name) { NameNotBlank(r.name); }
    assert 'i' in "images:alpine/3.24" by { assert "images:alpine/3.24"[0] == 'i'; }
  }

  /** The create handler. view: the host's capacity, when it could be read. */
  method CreateContainer(a: App, request: CreateRequest, view: Option<HostView>) returns (ok: bool)
    modifies a.client`insts, a.client`faults, a.client`deleteFaults, a.store
    ensures Later(old(a.Now()), a.Now())
    ensures ok ==> view.Some? && CapacityAllows(view.value, request.memoryLimitMb, request.diskLimitGb, 1) &&
                   ValidRequest(WithImage(request)) && ValidName(request.name) &&
                   OnlyAdded(old(a.client.insts), a.client.insts, request.name) &&
                   Ready(a.client.insts[request.name]) &&
                   Persisted(old(a.store.rows), WithImage(request), a.store.rows)
    // The row: the columns of the request; the policy and the creation time of an earlier row, or
    // none.
    ensures ok ==>
              request.name in a.store.rows &&
              a.store.rows == old(a.store.rows)[request.name := a.store.rows[request.name]] &&
              var row := a.store.rows[request.name];
              row.image == (if request.image == "" then "images:alpine/3.24" else request.image) &&
              row.memoryLimitMb == request.memoryLimitMb && row.diskLimitGb == request.diskLimitGb &&
              row.cpuLimit == request.cpuLimit && row.desiredState == "running" && row.updatedAt.Instant?
    ensures ok && request.name in old(a.store.rows) ==>
              var row, before := a.store.rows[request.name], old(a.store.rows)[request.name];
              row.quotaBytes == before.quotaBytes && row.quotaRxBaseline == before.quotaRxBaseline &&
              row.quotaTxBaseline == before.quotaTxBaseline && row.quotaResetAt == before.quotaResetAt &&
              row.expiresAt == before.expiresAt && row.createdAt == before.createdAt
    ensures ok && request.name !in old(a.store.rows) ==>
              var row := a.store.rows[request.name];
              row.name == request.name && row.quotaBytes == row.quotaRxBaseline == row.quotaTxBaseline == 0 &&
              row.quotaResetAt == Unset && row.expiresAt == Unset && row.createdAt == row.updatedAt
    ensures !ok ==> a.store.rows == old(a.store.rows) &&
                    (a.client.insts == old(a.client.insts) ||
                     OnlyAdded(old(a.client.insts), a.client.insts, request.name)) &&
                    (a.client.deleteFaults == old(a.client.deleteFaults) <==> a.client.insts == old(a.client.insts))
    ensures !ok && a.client.insts != old(a.client.insts) ==>
              a.client.insts[request.name] == FRESH || CleanupReported(old(a.Now()), a.Now(), request.name)
    ensures ok || FaultFree(old(a.Now()), a.Now()) ==>
              (ok <==> view.Some? && CapacityAllows(view.value, request.memoryLimitMb, request.diskLimitGb, 1) &&
                       ValidName(request.name) && (request.image == "" || !Blank(request.image)) &&
                       16 <= request.memoryLimitMb <= 8192 && 1 <= request.diskLimitGb <= 100 &&
                       ValidCpu(request.cpuLimit) && (request.publicKey.NoKey? || request.publicKey.valid) &&
                       request.name !in old(a.client.insts))
    // The last event of a request that passed the capacity check is its own.
    ensures view.Some? && CapacityAllows(view.value, request.memoryLimitMb, request.diskLimitGb, 1) &&
            a.store.auditFaults == old(a.store.auditFaults) ==>
              |a.store.audit| > |old(a.store.audit)| &&
              var e := a.store.audit[|a.store.audit| - 1];
              e == AuditEvent(e.id, "local", "container.create", "container", request.name,
                              if ok then "success" else "failure")
    ensures view.Some? && CapacityAllows(view.value, request.memoryLimitMb, request.diskLimitGb, 1) ==>
              Logged(old(a.Now()), a.Now(), "container.create", request.name, if ok then "success" else "failure")
    ensures PortsUnique(old(a.client.insts)) ==> PortsUnique(a.client.insts)
  {
    hide PortsUnique, ValidLog, Logged, CleanupReported, Persisted, ValidRequest, ValidName, CapacityAllows, KeyUsable,
      Ready, ValidCpu, Blank;
    ghost var start := a.Now();
    var req := WithImage(request);
    if view.None? || !CapacityAllows(view.value, req.memoryLimitMb, req.diskLimitGb, 1) { return false; }
    ImageGiven(request);
    var failed := CreateManaged(a, req);
    ok := failed.None?;
    if ok { PersistedColumns(start.rows, req, a.store.rows); }
    ghost var mid := a.Now();
    Record(a, "local", "container.create", req.name, if ok then "success" else "failure");
    LoggedKept(start, mid, a.Now(), a.Now(), "container.create", req.name, if ok then "success" else "failure");
    if !ok && mid.insts != start.insts && mid.insts[req.name] != FRESH {
      ReportKept(start, start, mid, a.Now(), req.name);
    }
  }

  // ---------------------------------------------------------------- one item of a batch

  datatype Item = ItemDone(ssh: Option<PortForward>) | ItemFailed(stage: Stage)

  /** The container's one device: from this port, on every address of the host, to its own port 22. */
  predicate SshDevice(inst: Instance, port: int) {
    port >= 0 &&
    inst.devices == map["proxy-tcp-" + Itoa(port) :=
      Device("proxy", "tcp:0.0.0.0:" + Itoa(port), "tcp:" + inst.ipv4 + ":22")]
  }

  lemma FirstDevice(inst: Instance, port: nat)
    requires inst.devices == map[]
    ensures SshDevice(AddedTo(inst, "tcp", port, inst.ipv4, 22), port)
  {
    assert Itoa(22) == "22" by { assert Itoa(2) == "2"; }
    var n, listen, connect := Itoa(port), FormatEndpoint("tcp", "0.0.0.0", port), FormatEndpoint("tcp", inst.ipv4, 22);
    assert DeviceName("tcp", port) == "proxy-tcp-" + n by { assert "proxy-" + "tcp" + "-" == "proxy-tcp-"; }
    assert listen == "tcp:0.0.0.0:" + n by { assert "tcp" + ":" + "0.0.0.0" + ":" == "tcp:0.0.0.0:"; }
    assert connect == "tcp:" + inst.ipv4 + ":22" by {
      assert "tcp" + ":" == "tcp:" && ":" + "22" == ":22";
      assert connect == "tcp" + ":" + inst.ipv4 + (":" + "22");
    }
  }

  /** The SSH step of a batch, on a container just created; a failure cleans it up. */
  method AllocateForNew(a: App, name: string) returns (r: Allocation)
    requires a.Configured() && ValidName(name) && name in a.client.insts && Ready(a.client.insts[name])
    modifies a.client`insts, a.client`faults, a.client`deleteFaults, a.store`audit, a.store`auditFaults
    ensures Later(old(a.Now()), a.Now())
    ensures r.Allocated? ==>
              name in a.client.insts && a.client.insts == old(a.client.insts)[name := a.client.insts[name]] &&
              Running(a.client.insts[name]) && FreeSsh(a, old(a.client.insts)) != [] &&
              r.forward == PortForward(name, "tcp", FreeSsh(a, old(a.client.insts))[0], 22) &&
              FreeSsh(a, a.client.insts) == FreeSsh(a, old(a.client.insts))[1..] &&
              SshDevice(a.client.insts[name], r.forward.listenPort)
    ensures !r.Allocated? ==> a.client.insts == old(a.client.insts) - {name} || a.client.insts == old(a.client.insts)
    ensures !r.Allocated? && name in a.client.insts ==> CleanupReported(old(a.Now()), a.Now(), name)
    ensures a.client.deleteFaults ==
            old(a.client.deleteFaults) + if r.Allocated? || name !in a.client.insts then 0 else 1
    ensures r.NoFreePort? ==> FreeSsh(a, old(a.client.insts)) == []
    ensures !r.Allocated? ==> Logged(old(a.Now()), a.Now(), "port.allocate_ssh", name, "failure")
    ensures a.client.faults == old(a.client.faults) ==>
              (r.Allocated? <==> AllNamesValid(old(a.client.insts)) && FreeSsh(a, old(a.client.insts)) != [])
    ensures PortsUnique(old(a.client.insts)) ==> PortsUnique(a.client.insts)
  {
    hide PortsUnique, Logged, CleanupReported, ValidLog, ValidName;
    ghost var insts, start := a.client.insts, a.Now();
    if FreeSsh(a, insts) != [] { FirstFree(UsedTcp(insts), a.sshPortStart, a.sshPortEnd); }
    assert !HasSsh(name, insts[name]);
    r := AllocateSSH(a, name);
    if r.Allocated? {
      AllocateTakesFirst(a, insts, name, insts[name].ipv4);
      FirstDevice(insts[name], r.forward.listenPort);
      return;
    }
    ghost var tried := a.Now();
    Record(a, "local", "port.allocate_ssh", name, "failure");
    ghost var mid := a.Now();
    CleanupContainer(a, name);
    LoggedKept(start, tried, mid, a.Now(), "port.allocate_ssh", name, "failure");
    if name in a.client.insts { ReportKept(start, mid, a.Now(), a.Now(), name); }
  }

  /** The first two steps of an item: create and persist. A failing step cleans this name up. */
  method CreateAndPersist(a: App, req: CreateRequest) returns (r: Item)
    requires ValidRequest(req) && ValidName(req.name) && req.name !in a.client.insts
    modifies a.client`insts, a.client`faults, a.client`deleteFaults, a.store
    ensures Later(old(a.Now()), a.Now())
    ensures r in {ItemDone(None), ItemFailed(AtCreate), ItemFailed(AtReady), ItemFailed(AtPersist)}
    ensures r.ItemDone? ==>
              KeyUsable(req.publicKey) &&
              OnlyAdded(old(a.client.insts), a.client.insts, req.name) && Ready(a.client.insts[req.name]) &&
              Persisted(old(a.store.rows), req, a.store.rows)
    ensures r.ItemFailed? ==>
              a.store.rows == old(a.store.rows) &&
              (a.client.insts == old(a.client.insts) || OnlyAdded(old(a.client.insts), a.client.insts, req.name))
    ensures a.client.deleteFaults ==
            old(a.client.deleteFaults) + if r.ItemDone? || a.client.insts == old(a.client.insts) then 0 else 1
    ensures r.ItemFailed? && a.client.insts != old(a.client.insts) ==> LeftBy(old(a.Now()), a.Now(), req.name, r.stage)
    ensures r.ItemDone? ==> Logged(old(a.Now()), a.Now(), "container.create", req.name, "success")
    ensures r in {ItemFailed(AtCreate), ItemFailed(AtReady)} ==>
              Logged(old(a.Now()), a.Now(), "container.create", req.name, "failure")
    ensures FaultFree(old(a.Now()), a.Now()) ==>
              r == if KeyUsable(req.publicKey) then ItemDone(None) else ItemFailed(AtReady)
    ensures PortsUnique(old(a.client.insts)) ==> PortsUnique(a.client.insts)
  {
    hide PortsUnique, Logged, CleanupReported, ValidLog, Persisted, ValidRequest, ValidName, Ready, KeyUsable;
    ghost var start := a.Now();
    var failed := CreateManaged(a, req);
    if failed == Some(AtPersist) { return ItemFailed(AtPersist); }
    ghost var late := a.Now();
    Record(a, "local", "container.create", req.name, if failed.None? then "success" else "failure");
    LoggedKept(start, late, a.Now(), a.Now(), "container.create", req.name,
               if failed.None? then "success" else "failure");
    if failed.None? { return ItemDone(None); }
    if failed.value.AtReady? && late.insts != start.insts { ReportKept(start, start, late, a.Now(), req.name); }
    return ItemFailed(failed.value);
  }

  /** The event of a failed item. */
  ghost predicate FailureLogged(s: Snap, e: Snap, name: string, stage: Stage) {
    Logged(s, e, if stage.AtSSH? then "port.allocate_ssh" else "container.create", name, "failure")
  }

  /** One name of a batch: create, persist, allocate. A failing step cleans this name up. */
  method BulkItem(a: App, req: CreateRequest, allocateSSH: bool) returns (r: Item)
    requires a.Configured() && ValidRequest(req) && ValidName(req.name) && req.name !in a.client.insts
    modifies a.client`insts, a.client`faults, a.client`deleteFaults, a.store
    ensures Later(old(a.Now()), a.Now())
    ensures r.ItemDone? ==>
              KeyUsable(req.publicKey) &&
              OnlyAdded(old(a.client.insts), a.client.insts, req.name) && Running(a.client.insts[req.name]) &&
              Persisted(old(a.store.rows), req, a.store.rows) && r.ssh.Some? == allocateSSH &&
              (allocateSSH ==>
                FreeSsh(a, old(a.client.insts)) != [] &&
                r.ssh.value == PortForward(req.name, "tcp", FreeSsh(a, old(a.client.insts))[0], 22) &&
                FreeSsh(a, a.client.insts) == FreeSsh(a, old(a.client.insts))[1..]) &&
              (if allocateSSH then SshDevice(a.client.insts[req.name], r.ssh.value.listenPort)
               else a.client.insts[req.name].devices == map[])
    ensures r.ItemFailed? ==>
              (a.client.insts == old(a.client.insts) || OnlyAdded(old(a.client.insts), a.client.insts, req.name)) &&
              (if r.stage.AtSSH? then Persisted(old(a.store.rows), req, a.store.rows)
               else a.store.rows == old(a.store.rows)) &&
              (r.stage.AtSSH? ==> allocateSSH &&
                                  (FreeSsh(a, old(a.client.insts)) != [] ==> r.stage.reason != NoFreePort))
    ensures a.client.deleteFaults ==
            old(a.client.deleteFaults) + if r.ItemDone? || a.client.insts == old(a.client.insts) then 0 else 1
    ensures r.ItemFailed? && a.client.insts != old(a.client.insts) ==> LeftBy(old(a.Now()), a.Now(), req.name, r.stage)
    ensures (r.ItemDone? || r.stage.AtSSH?) ==> Logged(old(a.Now()), a.Now(), "container.create", req.name, "success")
    ensures r.ItemFailed? && !r.stage.AtPersist? ==> FailureLogged(old(a.Now()), a.Now(), req.name, r.stage)
    ensures FaultFree(old(a.Now()), a.Now()) &&
            (allocateSSH ==> FreeSsh(a, old(a.client.insts)) != [] && AllNamesValid(old(a.client.insts))) ==>
              if KeyUsable(req.publicKey) then r.ItemDone? else r == ItemFailed(AtReady)
    ensures PortsUnique(old(a.client.insts)) ==> PortsUnique(a.client.insts)
  {
    hide PortsUnique, Logged, CleanupReported, ValidLog, Persisted, ValidRequest, ValidName;
    ghost var start := a.Now();
    r := CreateAndPersist(a, req);
    if r.ItemFailed? || !allocateSSH { return; }
    ghost var mid := a.Now();
    assert mid.insts - {req.name} == start.insts;
    BareInstance(start.insts, req.name, mid.insts[req.name]);
    var ssh := AllocateForNew(a, req.name);
    LoggedKept(start, start, mid, a.Now(), "container.create", req.name, "success");
    if ssh.Allocated? { return ItemDone(Some(ssh.forward)); }
    LoggedKept(start, mid, a.Now(), a.Now(), "port.allocate_ssh", req.name, "failure");
    if req.name in a.client.insts { ReportKept(start, mid, a.Now(), a.Now(), req.name); }
    return ItemFailed(AtSSH(ssh));
  }

  // ---------------------------------------------------------------- rollback

  ghost predicate Submap(a: map<string, Instance>, b: map<string, Instance>) {
    forall n | n in a :: n in b && a[n] == b[n]
  }

  /** Those of these names that have an instance. */
  ghost function Left(insts: map<string, Instance>, names: seq<string>): set<string> {
    set n | n in names && n in insts
  }

  /** What is left of these names after deleting them one by one since s. */
  ghost predicate Deleted(s: Snap, e: Snap, names: seq<string>) {
    && Submap(e.insts, s.insts)
    && (forall n | n in s.insts :: n in e.insts || n in names)
    && AllLogged(s, e, "container.cleanup", Left(e.insts, names), "failure")
    && (NoDuplicates(names) && (forall n | n in names :: n in s.insts) ==>
          |Left(e.insts, names)| == e.deletes - s.deletes)
  }

  /** Deletes what the batch created so far. Rows are left in the table. */
  method RollbackBulk(a: App, created: seq<string>)
    requires forall n | n in created :: ValidName(n)
    modifies a.client`insts, a.client`faults, a.client`deleteFaults, a.store`audit, a.store`auditFaults
    ensures Later(old(a.Now()), a.Now())
    ensures Deleted(old(a.Now()), a.Now(), created)
    ensures PortsUnique(old(a.client.insts)) ==> PortsUnique(a.client.insts)
  {
    hide Deleted, PortsUnique, ValidLog, CleanupReported;
    ghost var start := a.Now();
    NothingDeleted(start);
    for i := 0 to |created|
      invariant Later(start, a.Now())
      invariant Deleted(start, a.Now(), created[..i])
      invariant PortsUnique(start.insts) ==> PortsUnique(a.client.insts)
    {
      ghost var mid := a.Now();
      CleanupContainer(a, created[i]);
      DeletedStep(start, mid, a.Now(), created, i);
    }
    assert created[..|created|] == created;
  }

  lemma NothingDeleted(s: Snap)
    ensures Deleted(s, s, [])
  {
    assert Left(s.insts, []) == {};
    NoneToLog(s, s, "container.cleanup", "failure");
  }

  lemma DeletedStep(s: Snap, mid: Snap, e: Snap, names: seq<string>, i: nat)
    requires i < |names| && Later(s, mid) && Later(mid, e) && Deleted(s, mid, names[..i])
    requires e.insts == mid.insts - {names[i]} || e.insts == mid.insts
    requires names[i] in e.insts ==> CleanupReported(mid, e, names[i])
    requires names[i] in mid.insts ==> e.deletes == mid.deletes + if names[i] in e.insts then 1 else 0
    ensures Deleted(s, e, names[..i + 1])
  {
    hide AllLogged, Logged, ValidLog;
    var before, n := names[..i], names[i];
    assert names[..i + 1] == before + [n];
    var last := if n in e.insts then {n} else {};
    if n in e.insts {
      OneLogged(mid, e, "container.cleanup", n, "failure");
    } else {
      NoneToLog(mid, e, "container.cleanup", "failure");
    }
    AllLoggedJoin(s, mid, e, "container.cleanup", Left(mid.insts, before), last, "failure");
    FewerLogged(s, e, "container.cleanup", Left(mid.insts, before) + last, Left(e.insts, before + [n]), "failure");
    if NoDuplicates(before + [n]) && (forall m | m in before + [n] :: m in s.insts) {
      DeletedCount(s, mid, e, before, n);
    }
  }

  /** Every deletion that failed left its instance, and no other did. */
  lemma DeletedCount(s: Snap, mid: Snap, e: Snap, before: seq<string>, n: string)
    requires NoDuplicates(before + [n]) && (forall m | m in before + [n] :: m in s.insts)
    requires Deleted(s, mid, before) && (e.insts == mid.insts - {n} || e.insts == mid.insts)
    requires n in mid.insts ==> e.deletes == mid.deletes + if n in e.insts then 1 else 0
    ensures |Left(e.insts, before + [n])| == e.deletes - s.deletes
  {
    hide AllLogged;
    var all := before + [n];
    forall j, k | 0 <= j < k < |before| ensures before[j] != before[k] { assert all[j] != all[k]; }
    forall j | 0 <= j < |before| ensures before[j] != n { assert all[j] != all[|before|]; }
    assert n in all && n in s.insts && n !in before;
    forall m | m in before ensures m in s.insts { assert m in all; }
    assert Left(e.insts, all) == Left(mid.insts, before) + if n in e.insts then {n} else {};
  }
}
