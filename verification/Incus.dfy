/** The container runtime and Natbox's client for it (internal/incus/client.go).

    The methods named `Run...` are the commands of the runtime itself. Their contracts are all the
    model assumes of it: a command that fails leaves the instances alone, `init` refuses a taken
    name and makes an instance without devices, `device add` refuses a taken device name, start,
    stop and restart set the status. Besides the reasons a reader can see in `insts`, any command
    may fail for an unknown reason (a timeout, a daemon error); `faults` counts those failures and
    `deleteFaults` the deletions among them, so "no runtime failure" reads
    `faults == old(faults)`. */
module Incus {
  import opened Prelude
  import opened Text
  import opened Endpoints

  datatype Counters = Counters(received: int, sent: int)

  datatype Instance = Instance(
    status: string, ipv4: string, devices: map<string, Device>, networks: map<string, Counters>)

  /** One row of `List`. */
  datatype Listed = Listed(name: string, inst: Instance)

  datatype Lifecycle = Start | Stop | Restart

  datatype Spec = Spec(name: string, image: string, cpuAllowance: string, memoryBytes: int, rootDiskBytes: int)

  const FRESH := Instance("Stopped", "", map[], map[])

  const MIB: int := 1024 * 1024
  const GIB: int := 1024 * 1024 * 1024

  predicate ValidSpec(s: Spec) {
    && ValidName(s.name) && !Blank(s.image)
    && 16 * MIB <= s.memoryBytes <= 8 * GIB
    && 128 * MIB <= s.rootDiskBytes <= 100 * GIB
    && ValidCpu(s.cpuAllowance)
  }

  predicate Running(inst: Instance) {
    inst.status == "Running"
  }

  function AfterLifecycle(op: Lifecycle, inst: Instance): Instance {
    match op
    case Start => inst.(status := "Running")
    case Stop => inst.(status := "Stopped", ipv4 := "")
    case Restart => inst.(status := "Running", ipv4 := "")
  }

  /** The runtime may refuse to start what runs, and to stop or restart what does not. */
  predicate MayRefuse(op: Lifecycle, inst: Instance) {
    op.Start? <==> Running(inst)
  }

  // ---------------------------------------------------------------- ports over all instances

  ghost predicate Holds(inst: Instance, protocol: string, port: int) {
    exists d :: d in inst.devices && ListensOn(inst.devices[d], protocol, port)
  }

  ghost predicate FreeEverywhere(insts: map<string, Instance>, protocol: string, port: int) {
    forall n | n in insts :: !Holds(insts[n], protocol, port)
  }

  /** No two containers hold one visible (protocol, listen port). */
  ghost predicate PortsUnique(insts: map<string, Instance>) {
    forall m, n, protocol, port | m in insts && n in insts && Holds(insts[m], protocol, port) &&
    Holds(insts[n], protocol, port) ::
      m == n
  }

  predicate AllNamesValid(insts: map<string, Instance>) {
    forall n | n in insts :: ValidName(n)
  }

  ghost predicate CanAdd(insts: map<string, Instance>, name: string, protocol: string, listenPort: int,
                         targetPort: int) {
    && ValidName(name) && ValidProtocol(protocol) && ValidPort(listenPort) && ValidPort(targetPort)
    && name in insts && AllNamesValid(insts)
    && FreeEverywhere(insts, protocol, listenPort)
    && insts[name].ipv4 != ""
    && DeviceName(protocol, listenPort) !in insts[name].devices
  }

  function AddedTo(inst: Instance, protocol: string, listenPort: nat, address: string, targetPort: nat): Instance {
    inst.(devices := inst.devices[
      DeviceName(protocol, listenPort) := ProxyDevice(protocol, listenPort, address, targetPort)])
  }

  function WithForward(insts: map<string, Instance>, name: string, protocol: string, listenPort: nat,
                       address: string, targetPort: nat): map<string, Instance>
    requires name in insts
  {
    insts[name := AddedTo(insts[name], protocol, listenPort, address, targetPort)]
  }

  lemma FreeMeans(insts: map<string, Instance>, protocol: string, port: int)
    ensures FreeEverywhere(insts, protocol, port) <==>
            forall n, d | n in insts && d in insts[n].devices :: !ListensOn(insts[n].devices[d], protocol, port)
  {
    hide ListensOn;
    if FreeEverywhere(insts, protocol, port) {
      forall n, d | n in insts && d in insts[n].devices ensures !ListensOn(insts[n].devices[d], protocol, port) {
        assert !Holds(insts[n], protocol, port);
      }
    }
  }

  lemma AddedMeans(inst: Instance, protocol: string, listenPort: nat, address: string, targetPort: nat)
    ensures AddedTo(inst, protocol, listenPort, address, targetPort) ==
            inst.(devices := inst.devices[
              DeviceName(protocol, listenPort) := ProxyDevice(protocol, listenPort, address, targetPort)])
  {
  }

  lemma NewDevice(inst: Instance, protocol: string, listenPort: nat, address: string, targetPort: nat)
    requires ValidProtocol(protocol) && DeviceName(protocol, listenPort) !in inst.devices
    ensures var device := "proxy-" + protocol + "-" + Itoa(listenPort);
            device !in inst.devices && device in AddedTo(inst, protocol, listenPort, address, targetPort).devices &&
            var d := AddedTo(inst, protocol, listenPort, address, targetPort).devices[device];
            d.kind == "proxy" && d.connect == protocol + ":" + address + ":" + Itoa(targetPort) &&
            Split(d.listen, ':') == [protocol, "0.0.0.0", Itoa(listenPort)] &&
            (':' !in address ==> Split(d.connect, ':') == [protocol, address, Itoa(targetPort)])
  {
    hide Split, Itoa;
    ProxyDeviceParts(protocol, listenPort, "", targetPort);
    if ':' !in address { ProxyDeviceParts(protocol, listenPort, address, targetPort); }
  }

  /** A new proxy device listens on its own port and nowhere else. */
  lemma AddedHolds(inst: Instance, protocol: string, listenPort: nat, address: string, targetPort: nat, p: string,
                   n: int)
    requires ValidProtocol(protocol) && ValidPort(listenPort) && ValidPort(targetPort)
    requires DeviceName(protocol, listenPort) !in inst.devices
    ensures Holds(AddedTo(inst, protocol, listenPort, address, targetPort), p, n) <==>
            Holds(inst, p, n) || (':' !in address && p == protocol && n == listenPort)
  {
    var k, dev := DeviceName(protocol, listenPort), ProxyDevice(protocol, listenPort, address, targetPort);
    var inst' := AddedTo(inst, protocol, listenPort, address, targetPort);
    ProxyDeviceVisible("", protocol, listenPort, address, targetPort);
    assert inst'.devices[k] == dev;
    assert forall d | d in inst.devices :: inst'.devices[d] == inst.devices[d];
    assert ListensOn(dev, p, n) <==> ':' !in address && p == protocol && n == listenPort;
    if Holds(inst, p, n) {
      var d :| d in inst.devices && ListensOn(inst.devices[d], p, n);
      assert ListensOn(inst'.devices[d], p, n);
    }
    if ListensOn(dev, p, n) { assert ListensOn(inst'.devices[k], p, n); }
  }

  /** Adding a port nobody holds keeps the ports unique. */
  lemma AddKeepsUnique(insts: map<string, Instance>, name: string, protocol: string, listenPort: nat,
                       address: string, targetPort: nat)
    requires ValidProtocol(protocol) && ValidPort(listenPort) && ValidPort(targetPort)
    requires name in insts && DeviceName(protocol, listenPort) !in insts[name].devices
    requires forall n | n in insts && n != name :: !Holds(insts[n], protocol, listenPort)
    requires PortsUnique(insts)
    ensures PortsUnique(WithForward(insts, name, protocol, listenPort, address, targetPort))
  {
    var insts' := WithForward(insts, name, protocol, listenPort, address, targetPort);
    forall m, n, p, q | m in insts' && n in insts' && Holds(insts'[m], p, q) && Holds(insts'[n], p, q) ensures m == n {
      AddedHolds(insts[name], protocol, listenPort, address, targetPort, p, q);
    }
  }

  /** The same instances with the same devices; status, address and counters may differ. */
  ghost predicate SameDevices(a: map<string, Instance>, b: map<string, Instance>) {
    a.Keys == b.Keys && forall n | n in a :: a[n].devices == b[n].devices
  }

  lemma SameDevicesSameHolds(a: map<string, Instance>, b: map<string, Instance>)
    requires SameDevices(a, b)
    ensures forall n, p, q | n in a :: Holds(a[n], p, q) <==> Holds(b[n], p, q)
  {
    forall n, p, q | n in a ensures Holds(a[n], p, q) <==> Holds(b[n], p, q) {
      if Holds(a[n], p, q) {
        var d :| d in a[n].devices && ListensOn(a[n].devices[d], p, q);
        assert ListensOn(b[n].devices[d], p, q);
      }
      if Holds(b[n], p, q) {
        var d :| d in b[n].devices && ListensOn(b[n].devices[d], p, q);
        assert ListensOn(a[n].devices[d], p, q);
      }
    }
  }

  lemma RemovedHolds(inst: Instance, device: string, p: string, q: int)
    requires Holds(inst.(devices := inst.devices - {device}), p, q)
    ensures Holds(inst, p, q)
  {
    var inst' := inst.(devices := inst.devices - {device});
    var d :| d in inst'.devices && ListensOn(inst'.devices[d], p, q);
    assert ListensOn(inst.devices[d], p, q);
  }

  /** Anything but adding a device keeps the ports unique: other attributes may change, an instance
      without devices may appear, and instances and devices may go. */
  lemma PortsKept(a: map<string, Instance>, b: map<string, Instance>)
    requires forall n | n in b && b[n].devices != map[] ::
               n in a && forall d | d in b[n].devices :: d in a[n].devices && b[n].devices[d] == a[n].devices[d]
    ensures PortsUnique(a) ==> PortsUnique(b)
  {
    if PortsUnique(a) {
      forall m, n, p, q | m in b && n in b && Holds(b[m], p, q) && Holds(b[n], p, q) ensures m == n {
        var d :| d in b[m].devices && ListensOn(b[m].devices[d], p, q);
        var e :| e in b[n].devices && ListensOn(b[n].devices[e], p, q);
        assert ListensOn(a[m].devices[d], p, q) && ListensOn(a[n].devices[e], p, q);
        assert Holds(a[m], p, q) && Holds(a[n], p, q);
      }
    }
  }

  // ---------------------------------------------------------------- traffic counters

  ghost function Total(networks: map<string, Counters>, names: set<string>, count: Counters -> int): int
    requires names <= networks.Keys
    decreases |names|
  {
    if names == {} then 0
    else var n :| n in names; count(networks[n]) + Total(networks, names - {n}, count)
  }

  /** The sum does not depend on the order the interfaces are visited in. */
  lemma {:induction false} TotalStep(networks: map<string, Counters>, names: set<string>, count: Counters -> int,
                                     n: string)
    requires names <= networks.Keys && n in names
    ensures Total(networks, names, count) == count(networks[n]) + Total(networks, names - {n}, count)
    decreases |names|
  {
    var k :| k in names && Total(networks, names, count) == count(networks[k]) + Total(networks, names - {k}, count);
    if k != n {
      TotalStep(networks, names - {k}, count, n);
      TotalStep(networks, names - {n}, count, k);
      assert names - {k} - {n} == names - {n} - {k};
    }
  }

  function Received(c: Counters): int {
    c.received
  }

  function Sent(c: Counters): int {
    c.sent
  }

  /** Bytes received and sent over every interface but the loopback. */
  ghost function RxBytes(inst: Instance): int {
    Total(inst.networks, inst.networks.Keys - {"lo"}, Received)
  }

  ghost function TxBytes(inst: Instance): int {
    Total(inst.networks, inst.networks.Keys - {"lo"}, Sent)
  }

  /** Each interface but the loopback adds its own two counters. */
  lemma OneInterface(inst: Instance, n: string, c: Counters)
    requires n !in inst.networks
    ensures var inst' := inst.(networks := inst.networks[n := c]);
            RxBytes(inst') == RxBytes(inst) + (if n == "lo" then 0 else c.received) &&
            TxBytes(inst') == TxBytes(inst) + (if n == "lo" then 0 else c.sent)
    ensures inst.networks == map[] ==> RxBytes(inst) == 0 && TxBytes(inst) == 0
  {
    var before, now := inst.networks, inst.networks[n := c];
    var names := before.Keys - {"lo"};
    TotalSame(before, now, names, Received);
    TotalSame(before, now, names, Sent);
    if n == "lo" {
      assert now.Keys - {"lo"} == names;
    } else {
      assert now.Keys - {"lo"} - {n} == names;
      TotalStep(now, now.Keys - {"lo"}, Received, n);
      TotalStep(now, now.Keys - {"lo"}, Sent, n);
    }
  }

  lemma {:induction false} TotalSame(a: map<string, Counters>, b: map<string, Counters>, names: set<string>,
                                     count: Counters -> int)
    requires names <= a.Keys && names <= b.Keys && forall n | n in names :: a[n] == b[n]
    ensures Total(a, names, count) == Total(b, names, count)
    decreases |names|
  {
    if names != {} {
      var n :| n in names;
      TotalStep(a, names, count, n);
      TotalStep(b, names, count, n);
      TotalSame(a, b, names - {n}, count);
    }
  }

  /** The interfaces already visited, summed as `int64`. */
  ghost function Summed(networks: map<string, Counters>, rest: set<string>, count: Counters -> int): int
    requires rest <= networks.Keys
  {
    Wrap64(Total(networks, networks.Keys - {"lo"}, count) - Total(networks, rest - {"lo"}, count))
  }

  lemma SummedStep(networks: map<string, Counters>, rest: set<string>, count: Counters -> int, n: string)
    requires rest <= networks.Keys && n in rest
    ensures Summed(networks, rest - {n}, count) ==
            if n == "lo" then Summed(networks, rest, count)
            else Wrap64(Summed(networks, rest, count) + count(networks[n]))
  {
    if n == "lo" {
      assert rest - {n} - {"lo"} == rest - {"lo"};
    } else {
      assert rest - {n} - {"lo"} == rest - {"lo"} - {n};
      TotalStep(networks, rest - {"lo"}, count, n);
      WrapAdd(Total(networks, networks.Keys - {"lo"}, count) - Total(networks, rest - {"lo"}, count),
              count(networks[n]));
    }
  }

  method SumCounters(networks: map<string, Counters>) returns (rx: int, tx: int)
    ensures rx == Wrap64(Total(networks, networks.Keys - {"lo"}, Received))
    ensures tx == Wrap64(Total(networks, networks.Keys - {"lo"}, Sent))
  {
    rx, tx := 0, 0;
    var rest := networks.Keys;
    while rest != {}
      invariant rest <= networks.Keys
      invariant rx == Summed(networks, rest, Received) && tx == Summed(networks, rest, Sent)
      decreases |rest|
    {
      var n :| n in rest;
      SummedStep(networks, rest, Received, n);
      SummedStep(networks, rest, Sent, n);
      if n != "lo" {
        rx, tx := Wrap64(rx + networks[n].received), Wrap64(tx + networks[n].sent);
      }
      rest := rest - {n};
    }
    assert rest - {"lo"} == {};
  }

  // ---------------------------------------------------------------- client

  ghost predicate IsListing(insts: map<string, Instance>, rows: seq<Listed>) {
    && (forall i | 0 <= i < |rows| :: rows[i].name in insts && rows[i].inst == insts[rows[i].name])
    && (forall i, j | 0 <= i < j < |rows| :: rows[i].name != rows[j].name)
    && (forall n | n in insts :: exists i :: 0 <= i < |rows| && rows[i].name == n)
  }

  class Client {
    var insts: map<string, Instance>
    ghost var faults: nat
    ghost var deleteFaults: nat

    constructor ()
      ensures insts == map[] && faults == 0 && deleteFaults == 0
    {
      insts, faults, deleteFaults := map[], 0, 0;
    }

    // -------------------------------------------------------------- runtime commands

    method Fault() returns (failed: bool)
      modifies `faults
      ensures faults == old(faults) + if failed then 1 else 0
    {
      failed := *;
      if failed { faults := faults + 1; }
    }

    method RunInit(name: string) returns (ok: bool)
      modifies `insts, `faults
      ensures insts == if ok then old(insts)[name := FRESH] else old(insts)
      ensures ok ==> name !in old(insts)
      ensures faults >= old(faults)
      ensures faults == old(faults) ==> (ok <==> name !in old(insts))
      ensures PortsUnique(old(insts)) ==> PortsUnique(insts)
    {
      var failed := Fault();
      ok := !failed && name !in insts;
      if ok { insts := insts[name := FRESH]; }
      PortsKept(old(insts), insts);
    }

    method RunLifecycle(op: Lifecycle, name: string) returns (ok: bool)
      modifies `insts, `faults
      ensures ok ==> name in old(insts) && insts == old(insts)[name := AfterLifecycle(op, old(insts)[name])]
      ensures !ok ==> insts == old(insts)
      ensures faults >= old(faults)
      ensures faults == old(faults) && !ok ==> name !in old(insts) || MayRefuse(op, old(insts)[name])
      ensures PortsUnique(old(insts)) ==> PortsUnique(insts)
    {
      var failed := Fault();
      if failed || name !in insts { return false; }
      if MayRefuse(op, insts[name]) {
        var refused: bool := *;
        if refused { return false; }
      }
      insts := insts[name := AfterLifecycle(op, insts[name])];
      PortsKept(old(insts), insts);
      return true;
    }

    method RunDelete(name: string) returns (ok: bool)
      modifies `insts, `faults, `deleteFaults
      ensures insts == if ok then old(insts) - {name} else old(insts)
      ensures ok ==> name in old(insts)
      ensures faults >= old(faults) && deleteFaults >= old(deleteFaults)
      ensures faults == old(faults) ==> deleteFaults == old(deleteFaults)
      ensures deleteFaults == old(deleteFaults) ==> (ok <==> name in old(insts))
      ensures deleteFaults <= old(deleteFaults) + if ok then 0 else 1
      ensures PortsUnique(old(insts)) ==> PortsUnique(insts)
    {
      var failed := Fault();
      if failed { deleteFaults := deleteFaults + 1; }
      ok := !failed && name in insts;
      if ok { insts := insts - {name}; }
      PortsKept(old(insts), insts);
    }

    method RunDeviceAdd(name: string, device: string, d: Device) returns (ok: bool)
      modifies `insts, `faults
      ensures ok ==> name in old(insts) && device !in old(insts)[name].devices &&
                     insts == old(insts)[name := old(insts)[name].(devices := old(insts)[name].devices[device := d])]
      ensures !ok ==> insts == old(insts)
      ensures faults >= old(faults)
      ensures faults == old(faults) ==> (ok <==> name in old(insts) && device !in old(insts)[name].devices)
    {
      var failed := Fault();
      ok := !failed && name in insts && device !in insts[name].devices;
      if ok { insts := insts[name := insts[name].(devices := insts[name].devices[device := d])]; }
    }

    method RunDeviceRemove(name: string, device: string) returns (ok: bool)
      modifies `insts, `faults
      ensures ok ==> name in old(insts) && device in old(insts)[name].devices &&
                     insts == old(insts)[name := old(insts)[name].(devices := old(insts)[name].devices - {device})]
      ensures !ok ==> insts == old(insts)
      ensures faults >= old(faults)
      ensures faults == old(faults) ==> (ok <==> name in old(insts) && device in old(insts)[name].devices)
      ensures PortsUnique(old(insts)) ==> PortsUnique(insts)
    {
      var failed := Fault();
      ok := !failed && name in insts && device in insts[name].devices;
      if ok { insts := insts[name := insts[name].(devices := insts[name].devices - {device})]; }
      PortsKept(old(insts), insts);
    }

    /** `config device override` and `config set`: nothing the model keeps changes. */
    method RunConfig(name: string) returns (ok: bool)
      modifies `faults
      ensures faults >= old(faults)
      ensures faults == old(faults) ==> (ok <==> name in insts)
    {
      var failed := Fault();
      ok := !failed && name in insts;
    }

    /** `list`: every instance once, in an order the runtime chooses. */
    method List() returns (ok: bool, rows: seq<Listed>)
      modifies `faults
      ensures faults >= old(faults)
      ensures faults == old(faults) ==> ok
      ensures ok ==> IsListing(insts, rows)
    {
      var failed := Fault();
      rows := [];
      if failed { return false, rows; }
      var rest := insts.Keys;
      while rest != {}
        invariant rest <= insts.Keys
        invariant forall i | 0 <= i < |rows| ::
                    rows[i].name in insts && rows[i].name !in rest && rows[i].inst == insts[rows[i].name]
        invariant forall i, j | 0 <= i < j < |rows| :: rows[i].name != rows[j].name
        invariant forall n | n in insts && n !in rest :: exists i :: 0 <= i < |rows| && rows[i].name == n
        decreases |rest|
      {
        var n :| n in rest;
        ghost var before := rows;
        rows, rest := rows + [Listed(n, insts[n])], rest - {n};
        assert rows[|before|].name == n;
        forall m | m in insts && m !in rest ensures exists i :: 0 <= i < |rows| && rows[i].name == m {
          if m != n {
            var i :| 0 <= i < |before| && before[i].name == m;
            assert rows[i].name == m;
          }
        }
      }
      ok := true;
    }

    // -------------------------------------------------------------- client operations

    method Lifecycle(op: Lifecycle, name: string) returns (ok: bool)
      modifies `insts, `faults
      ensures ok ==> ValidName(name)
      ensures ok ==> name in old(insts) && insts == old(insts)[name := AfterLifecycle(op, old(insts)[name])]
      // A stop and a restart lose the address; devices and counters stay.
      ensures ok ==>
                insts[name] == old(insts)[name].(
                  status := if op.Stop? then "Stopped" else "Running",
                  ipv4 := if op.Start? then old(insts)[name].ipv4 else "")
      ensures !ok ==> insts == old(insts)
      ensures faults >= old(faults)
      ensures faults == old(faults) && !ok ==>
                !ValidName(name) || name !in old(insts) || MayRefuse(op, old(insts)[name])
      ensures PortsUnique(old(insts)) ==> PortsUnique(insts)
    {
      if !ValidName(name) { return false; }
      ok := RunLifecycle(op, name);
    }

    /** Polls until the instance shows an IPv4 address; the bridge gives one to a running instance. */
    method WaitIPv4(name: string) returns (ok: bool)
      modifies `insts, `faults
      ensures ok ==> ValidName(name) && name in old(insts) && name in insts && insts[name].ipv4 != "" &&
                     insts == old(insts)[name := old(insts)[name].(ipv4 := insts[name].ipv4)] &&
                     (old(insts)[name].ipv4 == "" ==> ':' !in insts[name].ipv4)
      ensures !ok ==> insts == old(insts)
      ensures faults >= old(faults)
      ensures faults == old(faults) ==>
                (ok <==> ValidName(name) && name in old(insts) &&
                         (old(insts)[name].ipv4 != "" || Running(old(insts)[name])))
      ensures PortsUnique(old(insts)) ==> PortsUnique(insts)
    {
      var failed := Fault();
      if failed || !ValidName(name) || name !in insts { return false; }
      if insts[name].ipv4 == "" {
        if !Running(insts[name]) { return false; }
        assert "10.0.0.2" != "" && ':' !in "10.0.0.2";
        var address: string :| address != "" && ':' !in address;
        insts := insts[name := insts[name].(ipv4 := address)];
      }
      PortsKept(old(insts), insts);
      return true;
    }

    method Delete(name: string) returns (ok: bool)
      modifies `insts, `faults, `deleteFaults
      ensures insts == if ok then old(insts) - {name} else old(insts)
      ensures ok ==> name in old(insts)
      ensures faults >= old(faults) && deleteFaults >= old(deleteFaults)
      ensures faults == old(faults) ==> deleteFaults == old(deleteFaults)
      ensures deleteFaults == old(deleteFaults) ==> (ok <==> ValidName(name) && name in old(insts))
      ensures deleteFaults <= old(deleteFaults) + if ok then 0 else 1
      ensures PortsUnique(old(insts)) ==> PortsUnique(insts)
    {
      if !ValidName(name) { return false; }
      ok := RunDelete(name);
    }

    /** keyValid: the public key passes `validatePublicKey`. */
    method ConfigureSSH(name: string, keyValid: bool) returns (ok: bool)
      modifies `faults
      ensures faults >= old(faults)
      ensures ok ==> keyValid
      ensures faults == old(faults) ==> (ok <==> ValidName(name) && keyValid && name in insts && Running(insts[name]))
    {
      if !ValidName(name) || !keyValid { return false; }
      var failed := Fault();
      ok := !failed && name in insts && Running(insts[name]);
    }

    method Stats(name: string) returns (ok: bool, rx: int, tx: int)
      modifies `faults
      ensures faults >= old(faults)
      ensures faults == old(faults) ==> (ok <==> ValidName(name) && name in insts)
      ensures ok ==> name in insts && rx == Wrap64(RxBytes(insts[name])) && tx == Wrap64(TxBytes(insts[name]))
    {
      rx, tx := 0, 0;
      if !ValidName(name) { return false, 0, 0; }
      var failed := Fault();
      if failed || name !in insts { return false, 0, 0; }
      rx, tx := SumCounters(insts[name].networks);
      ok := true;
    }

    method ListPortForwards(name: string) returns (ok: bool, forwards: seq<PortForward>)
      modifies `faults
      ensures faults >= old(faults)
      ensures faults == old(faults) ==> (ok <==> ValidName(name) && name in insts)
      ensures ok ==> ValidName(name) && name in insts && ListsForwards(name, insts[name].devices, forwards)
    {
      forwards := [];
      if !ValidName(name) { return false, forwards; }
      var failed := Fault();
      if failed || name !in insts { return false, forwards; }
      forwards := PortForwardsFromDevices(name, insts[name].devices);
      ok := true;
    }

    /** Whether some listed forward of the instance has this protocol and listen port. */
    method Listens(name: string, protocol: string, port: int) returns (ok: bool, found: bool)
      modifies `faults
      ensures faults >= old(faults)
      ensures faults == old(faults) ==> (ok <==> ValidName(name) && name in insts)
      ensures ok ==> ValidName(name) && name in insts && (found <==> Holds(insts[name], protocol, port))
    {
      var forwards;
      found := false;
      ok, forwards := ListPortForwards(name);
      if !ok { return; }
      for i := 0 to |forwards|
        invariant !found ==> forall j | 0 <= j < i ::
                    !(forwards[j].protocol == protocol && forwards[j].listenPort == port)
        invariant found ==> exists f :: f in forwards && f.protocol == protocol && f.listenPort == port
      {
        if forwards[i].protocol == protocol && forwards[i].listenPort == port {
          assert forwards[i] in forwards;
          found := true;
        }
      }
      ListedIffListening(name, insts[name].devices, forwards, protocol, port);
    }

    method AddPortForward(name: string, protocol: string, listenPort: int, targetPort: int) returns (ok: bool)
      modifies `insts, `faults
      ensures ok ==> CanAdd(old(insts), name, protocol, listenPort, targetPort) &&
                     insts == WithForward(old(insts), name, protocol, listenPort, old(insts)[name].ipv4, targetPort)
      // The new device listens on every address of the host and connects to the container's own.
      ensures ok ==>
                (protocol == "tcp" || protocol == "udp") && 1 <= listenPort <= 65535 && 1 <= targetPort <= 65535 &&
                var device, address := "proxy-" + protocol + "-" + Itoa(listenPort), old(insts)[name].ipv4;
                device !in old(insts)[name].devices && device in insts[name].devices &&
                var d := insts[name].devices[device];
                d.kind == "proxy" && d.connect == protocol + ":" + address + ":" + Itoa(targetPort) &&
                Split(d.listen, ':') == [protocol, "0.0.0.0", Itoa(listenPort)] &&
                (':' !in address ==> Split(d.connect, ':') == [protocol, address, Itoa(targetPort)])
      ensures ok ==> forall n, d | n in old(insts) && d in old(insts)[n].devices ::
                !ListensOn(old(insts)[n].devices[d], protocol, listenPort)
      ensures !ok ==> insts == old(insts)
      ensures faults >= old(faults)
      ensures faults == old(faults) ==> (ok <==> CanAdd(old(insts), name, protocol, listenPort, targetPort))
      ensures PortsUnique(old(insts)) ==> PortsUnique(insts)
    {
      hide PortsUnique, Holds, AddedTo, ListensOn, Split, ListsForwards;
      if !ValidName(name) || !ValidProtocol(protocol) || !ValidPort(listenPort) || !ValidPort(targetPort) {
        return false;
      }
      var read, taken := Listens(name, protocol, listenPort);
      if !read || taken { return false; }
      var listed, rows := List();
      if !listed { return false; }
      var targetAddress := "";
      for i := 0 to |rows|
        invariant insts == old(insts) && faults >= old(faults)
        invariant forall j | 0 <= j < i :: ValidName(rows[j].name) && !Holds(insts[rows[j].name], protocol, listenPort)
      {
        if rows[i].name != name {
          var readOther, takenOther := Listens(rows[i].name, protocol, listenPort);
          if !readOther || takenOther { return false; }
        }
      }
      for i := 0 to |rows|
        invariant forall j | 0 <= j < i :: rows[j].name != name
      {
        if rows[i].name == name {
          targetAddress := rows[i].inst.ipv4;
          break;
        }
      }
      assert targetAddress == insts[name].ipv4;
      if targetAddress == "" { return false; }
      FreeMeans(insts, protocol, listenPort);
      ok := RunDeviceAdd(name, DeviceName(protocol, listenPort),
                         ProxyDevice(protocol, listenPort, targetAddress, targetPort));
      assert ok ==> insts == WithForward(old(insts), name, protocol, listenPort, targetAddress, targetPort) by {
        AddedMeans(old(insts)[name], protocol, listenPort, targetAddress, targetPort);
      }
      if ok { NewDevice(old(insts)[name], protocol, listenPort, targetAddress, targetPort); }
      if ok && PortsUnique(old(insts)) {
        AddKeepsUnique(old(insts), name, protocol, listenPort, targetAddress, targetPort);
      }
    }

    method RemovePortForward(name: string, protocol: string, listenPort: int) returns (ok: bool)
      modifies `insts, `faults
      ensures ok ==> ValidName(name) && ValidProtocol(protocol) && ValidPort(listenPort) &&
                     name in old(insts) && DeviceName(protocol, listenPort) in old(insts)[name].devices &&
                     insts == old(insts)[name := old(insts)[name].(
                       devices := old(insts)[name].devices - {DeviceName(protocol, listenPort)})]
      ensures !ok ==> insts == old(insts)
      ensures faults >= old(faults)
      ensures faults == old(faults) ==>
                (ok <==> ValidName(name) && ValidProtocol(protocol) && ValidPort(listenPort) &&
                         name in old(insts) && DeviceName(protocol, listenPort) in old(insts)[name].devices)
      ensures PortsUnique(old(insts)) ==> PortsUnique(insts)
    {
      if !ValidProtocol(protocol) || !ValidPort(listenPort) || !ValidName(name) { return false; }
      ok := RunDeviceRemove(name, DeviceName(protocol, listenPort));
    }

    /** Initialises, sizes and starts an instance. A failing step deletes the new instance again,
        and the outcome of that deletion is not reported. */
    method Create(s: Spec) returns (ok: bool)
      modifies `insts, `faults, `deleteFaults
      ensures ok ==> ValidSpec(s) && s.name !in old(insts) &&
                     insts == old(insts)[s.name := AfterLifecycle(Start, FRESH)]
      ensures ok ==> insts[s.name] == Instance("Running", "", map[], map[])
      ensures ok || faults == old(faults) ==>
                (ok <==> ValidName(s.name) && !Blank(s.image) && ValidCpu(s.cpuAllowance) &&
                         16_777_216 <= s.memoryBytes <= 8_589_934_592 &&
                         134_217_728 <= s.rootDiskBytes <= 107_374_182_400 && s.name !in old(insts))
      ensures !ok ==> insts == old(insts) || (s.name !in old(insts) && insts == old(insts)[s.name := FRESH])
      ensures deleteFaults == old(deleteFaults) + if ok || insts == old(insts) then 0 else 1
      ensures faults >= old(faults)
      ensures faults == old(faults) ==>
                deleteFaults == old(deleteFaults) && (ok <==> ValidSpec(s) && s.name !in old(insts))
      ensures PortsUnique(old(insts)) ==> PortsUnique(insts)
    {
      hide PortsUnique;
      if !ValidSpec(s) { return false; }
      ok := RunInit(s.name);
      if !ok { return; }
      assert insts - {s.name} == old(insts);
      ok := RunConfig(s.name);
      if ok { ok := RunConfig(s.name); }
      if ok { ok := RunLifecycle(Start, s.name); }
      if !ok {
        var deleted := RunDelete(s.name);
      }
    }
  }

  lemma WrapAdd(a: int, b: int)
    ensures Wrap64(Wrap64(a) + b) == Wrap64(a + b)
  {
    var x := Wrap64(a);
    assert (x - a) % TWO_64 == 0;
    var k := (a - x) / TWO_64;
    assert a == x + k * TWO_64;
    assert (a + b + TWO_63) == (x + b + TWO_63) + k * TWO_64;
    ModShift(x + b + TWO_63, k);
  }

  lemma ModShift(y: int, k: int)
    ensures (y + k * TWO_64) % TWO_64 == y % TWO_64
  {
  }
}
