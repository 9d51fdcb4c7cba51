/** Automatic SSH ports: the capacity preflight and the least-free-port search (main.go,
    allocateSSH, checkSSHCapacity, usedPorts). */
module Ports {
  import opened Prelude
  import opened Text
  import opened Sorting
  import opened Endpoints
  import opened Incus
  import opened AppState

  /** Some container holds this public port for this protocol. */
  ghost predicate Held(insts: map<string, Instance>, protocol: string, port: int) {
    exists n :: n in insts && Holds(insts[n], protocol, port)
  }

  ghost function UsedTcp(insts: map<string, Instance>): iset<int> {
    iset p | Held(insts, "tcp", p)
  }

  /** The unused ports of a range, in increasing order. */
  ghost function FreePorts(used: iset<int>, lo: int, hi: int): seq<int>
    decreases hi - lo + 1
  {
    if lo > hi then []
    else if lo in used then FreePorts(used, lo + 1, hi)
    else [lo] + FreePorts(used, lo + 1, hi)
  }

  /** FreePorts lists exactly the unused ports of the range, strictly increasing: the first is the
      least one, and no two are equal. */
  lemma {:induction false} FreePortsExact(used: iset<int>, lo: int, hi: int)
    ensures forall p :: p in FreePorts(used, lo, hi) <==> lo <= p <= hi && p !in used
    ensures forall i, j | 0 <= i < j < |FreePorts(used, lo, hi)| ::
              FreePorts(used, lo, hi)[i] < FreePorts(used, lo, hi)[j]
    decreases hi - lo + 1
  {
    if lo <= hi {
      var rest := FreePorts(used, lo + 1, hi);
      FreePortsExact(used, lo + 1, hi);
      forall j | 0 <= j < |rest| ensures lo < rest[j] { assert rest[j] in rest; }
    }
  }

  lemma FirstFree(used: iset<int>, lo: int, hi: int)
    requires FreePorts(used, lo, hi) != []
    ensures lo <= FreePorts(used, lo, hi)[0] <= hi && FreePorts(used, lo, hi)[0] !in used
  {
    FreePortsExact(used, lo, hi);
    assert FreePorts(used, lo, hi)[0] in FreePorts(used, lo, hi);
  }

  lemma {:induction false} FreePortsOutside(used: iset<int>, lo: int, hi: int, port: int)
    requires port < lo
    ensures FreePorts(used + iset{port}, lo, hi) == FreePorts(used, lo, hi)
    decreases hi - lo + 1
  {
    if lo <= hi { FreePortsOutside(used, lo + 1, hi, port); }
  }

  /** Taking the least free port leaves the others. */
  lemma {:induction false} FreePortsTaken(used: iset<int>, lo: int, hi: int)
    requires FreePorts(used, lo, hi) != []
    ensures FreePorts(used + iset{FreePorts(used, lo, hi)[0]}, lo, hi) == FreePorts(used, lo, hi)[1..]
    decreases hi - lo + 1
  {
    if lo in used {
      FreePortsTaken(used, lo + 1, hi);
    } else {
      FreePortsOutside(used, lo + 1, hi, lo);
    }
  }

  ghost function UsedIn(used: iset<int>, lo: int, hi: int): (s: set<int>)
    ensures forall p :: p in s <==> lo <= p <= hi && p in used
    decreases hi - lo + 1
  {
    if lo > hi then {} else UsedIn(used, lo + 1, hi) + if lo in used then {lo} else {}
  }

  /** The pigeonhole behind the preflight: used and free ports together fill the range. */
  lemma {:induction false} UsedAndFreeFillRange(used: iset<int>, lo: int, hi: int)
    requires lo <= hi + 1
    ensures |UsedIn(used, lo, hi)| + |FreePorts(used, lo, hi)| == hi - lo + 1
    decreases hi - lo + 1
  {
    if lo <= hi { UsedAndFreeFillRange(used, lo + 1, hi); }
  }

  /** The free ports of the configured SSH range. */
  ghost function FreeSsh(a: App, insts: map<string, Instance>): seq<int> {
    FreePorts(UsedTcp(insts), a.sshPortStart, a.sshPortEnd)
  }

  /** The first of them is the least port of the range nobody holds. */
  lemma LeastSshPort(a: App, insts: map<string, Instance>)
    ensures var free := FreeSsh(a, insts);
            if free == [] then forall p | a.sshPortStart <= p <= a.sshPortEnd :: Held(insts, "tcp", p)
            else a.sshPortStart <= free[0] <= a.sshPortEnd && !Held(insts, "tcp", free[0]) &&
                 forall p | a.sshPortStart <= p < free[0] :: Held(insts, "tcp", p)
  {
    hide Held;
    var free := FreeSsh(a, insts);
    FreePortsExact(UsedTcp(insts), a.sshPortStart, a.sshPortEnd);
    forall p | a.sshPortStart <= p <= a.sshPortEnd ensures p in free <==> !Held(insts, "tcp", p) {
      assert p in UsedTcp(insts) <==> Held(insts, "tcp", p);
    }
    if free != [] {
      FirstFree(UsedTcp(insts), a.sshPortStart, a.sshPortEnd);
      forall p | a.sshPortStart <= p < free[0] ensures Held(insts, "tcp", p) {
        assert forall i | 0 <= i < |free| :: free[0] <= free[i];
      }
    }
  }

  lemma HeldAfterAdd(insts: map<string, Instance>, name: string, protocol: string, listenPort: nat, address: string,
                     targetPort: nat, p: string, q: int)
    requires ValidProtocol(protocol) && ValidPort(listenPort) && ValidPort(targetPort) && ':' !in address
    requires name in insts && DeviceName(protocol, listenPort) !in insts[name].devices
    ensures Held(WithForward(insts, name, protocol, listenPort, address, targetPort), p, q) <==>
            Held(insts, p, q) || (p == protocol && q == listenPort)
  {
    hide Holds, DeviceName, ProxyDevice, AddedTo;
    var insts' := WithForward(insts, name, protocol, listenPort, address, targetPort);
    AddedHolds(insts[name], protocol, listenPort, address, targetPort, p, q);
    if Held(insts, p, q) {
      var n :| n in insts && Holds(insts[n], p, q);
      assert Holds(insts'[n], p, q);
    }
    if p == protocol && q == listenPort { assert Holds(insts'[name], p, q); }
    if Held(insts', p, q) {
      var n :| n in insts' && Holds(insts'[n], p, q);
      assert n != name ==> Holds(insts[n], p, q);
    }
  }

  /** Allocating the least free SSH port removes exactly it from the free ports. */
  lemma AllocateTakesFirst(a: App, insts: map<string, Instance>, name: string, address: string)
    requires a.Configured() && FreeSsh(a, insts) != [] && FreeSsh(a, insts)[0] >= 0 && ':' !in address
    requires name in insts && DeviceName("tcp", FreeSsh(a, insts)[0]) !in insts[name].devices
    ensures FreeSsh(a, WithForward(insts, name, "tcp", FreeSsh(a, insts)[0], address, 22)) == FreeSsh(a, insts)[1..]
  {
    FirstFree(UsedTcp(insts), a.sshPortStart, a.sshPortEnd);
    var port := FreeSsh(a, insts)[0];
    var insts' := WithForward(insts, name, "tcp", port, address, 22);
    forall p { HeldAfterAdd(insts, name, "tcp", port, address, 22, "tcp", p); }
    assert UsedTcp(insts') == UsedTcp(insts) + iset{port};
    FreePortsTaken(UsedTcp(insts), a.sshPortStart, a.sshPortEnd);
  }

  /** A container without devices holds no port. */
  lemma BareInstance(insts: map<string, Instance>, name: string, inst: Instance)
    requires name !in insts && inst.devices == map[]
    ensures UsedTcp(insts[name := inst]) == UsedTcp(insts)
  {
    var insts' := insts[name := inst];
    forall p ensures Held(insts', "tcp", p) <==> Held(insts, "tcp", p) {
      if Held(insts, "tcp", p) {
        var n :| n in insts && Holds(insts[n], "tcp", p);
        assert Holds(insts'[n], "tcp", p);
      }
      if Held(insts', "tcp", p) {
        var n :| n in insts' && Holds(insts'[n], "tcp", p);
        assert n in insts && Holds(insts[n], "tcp", p);
      }
    }
  }

  // ---------------------------------------------------------------- SSH forwards

  predicate IsSsh(f: PortForward) {
    f.protocol == "tcp" && f.targetPort == 22
  }

  ghost predicate HasSsh(name: string, inst: Instance) {
    exists d :: d in inst.devices && VisibleForward(name, inst.devices[d]).Some? &&
                IsSsh(VisibleForward(name, inst.devices[d]).value)
  }

  ghost predicate SshForwardOf(name: string, inst: Instance, f: PortForward) {
    IsSsh(f) && exists d :: d in inst.devices && VisibleForward(name, inst.devices[d]) == Some(f)
  }

  /** After an allocation the container has one SSH forward, the allocated one: a repeated call
      can return no other. */
  lemma OnlySshForward(name: string, inst: Instance, port: nat, address: string, f: PortForward)
    requires !HasSsh(name, inst) && ValidPort(port) && ':' !in address && DeviceName("tcp", port) !in inst.devices
    ensures HasSsh(name, AddedTo(inst, "tcp", port, address, 22))
    ensures SshForwardOf(name, AddedTo(inst, "tcp", port, address, 22), f) <==> f == PortForward(name, "tcp", port, 22)
  {
    var inst', k := AddedTo(inst, "tcp", port, address, 22), DeviceName("tcp", port);
    ProxyDeviceVisible(name, "tcp", port, address, 22);
    assert VisibleForward(name, inst'.devices[k]) == Some(PortForward(name, "tcp", port, 22));
    assert forall d | d in inst.devices :: inst'.devices[d] == inst.devices[d];
  }

  datatype Allocation = Allocated(forward: PortForward) | NoFreePort | AllocationFailed

  /** Every protocol and listen port in use. */
  method CollectPorts(client: Client) returns (ok: bool, used: set<(string, int)>)
    modifies client`faults
    ensures client.faults >= old(client.faults)
    ensures client.faults == old(client.faults) ==> (ok <==> AllNamesValid(client.insts))
    ensures ok ==>
              AllNamesValid(client.insts) &&
              forall protocol, p :: (protocol, p) in used <==> Held(client.insts, protocol, p)
  {
    hide ValidName, Holds, ListsForwards;
    used := {};
    var rows;
    ok, rows := client.List();
    if !ok { return; }
    var insts := client.insts;
    for i := 0 to |rows|
      invariant client.faults >= old(client.faults)
      invariant forall j | 0 <= j < i :: ValidName(rows[j].name)
      invariant forall protocol, p :: (protocol, p) in used <==>
                  exists j :: 0 <= j < i && Holds(insts[rows[j].name], protocol, p)
    {
      var read, forwards := client.ListPortForwards(rows[i].name);
      if !read { return false, used; }
      var here := set f | f in forwards :: (f.protocol, f.listenPort);
      forall protocol, p ensures (protocol, p) in here <==> Holds(insts[rows[i].name], protocol, p) {
        HoldsIffListed(rows[i].name, insts[rows[i].name], forwards, protocol, p);
      }
      used := used + here;
    }
    forall protocol, p ensures (protocol, p) in used <==> Held(insts, protocol, p) {
      HeldIffListed(insts, rows, protocol, p);
    }
  }

  lemma HoldsIffListed(name: string, inst: Instance, forwards: seq<PortForward>, protocol: string, p: int)
    requires ListsForwards(name, inst.devices, forwards)
    ensures Holds(inst, protocol, p) <==> (protocol, p) in set f | f in forwards :: (f.protocol, f.listenPort)
  {
    hide ListsForwards;
    ListedIffListening(name, inst.devices, forwards, protocol, p);
    if (protocol, p) in set f | f in forwards :: (f.protocol, f.listenPort) {
      var f :| f in forwards && (f.protocol, f.listenPort) == (protocol, p);
    }
  }

  lemma HeldIffListed(insts: map<string, Instance>, rows: seq<Listed>, protocol: string, p: int)
    requires IsListing(insts, rows)
    ensures Held(insts, protocol, p) <==> exists j :: 0 <= j < |rows| && Holds(insts[rows[j].name], protocol, p)
  {
    hide Holds;
    if Held(insts, protocol, p) {
      var n :| n in insts && Holds(insts[n], protocol, p);
      var j :| 0 <= j < |rows| && rows[j].name == n;
      assert Holds(insts[rows[j].name], protocol, p);
    }
  }

  /** In strictly increasing order, exactly the ports in use for this protocol. */
  ghost predicate ListsPorts(insts: map<string, Instance>, protocol: string, ports: seq<int>) {
    (forall i, j | 0 <= i < j < |ports| :: ports[i] < ports[j]) && forall p :: p in ports <==> Held(insts, protocol, p)
  }

  lemma SomePort(ports: set<int>)
    ensures ports == {} || exists p :: p in ports
  {
    assert (forall p :: p !in ports) ==> ports == {};
  }

  /** `sortedPorts`. */
  method SortedPorts(values: set<int>) returns (result: seq<int>)
    ensures forall i, j | 0 <= i < j < |result| :: result[i] < result[j]
    ensures forall p :: p in result <==> p in values
  {
    result := [];
    var rest := values;
    while rest != {}
      invariant rest <= values && NoDuplicates(result) && forall p :: p in result <==> p in values && p !in rest
      decreases |rest|
    {
      SomePort(rest);
      var p :| p in rest;
      result, rest := result + [p], rest - {p};
    }
    ghost var unsorted := result;
    result := Sort(result, (x: int, y: int) => x <= y);
    assert forall p :: (p in result <==> p in multiset(result)) && (p in unsorted <==> p in multiset(unsorted));
    DistinctCounts(unsorted);
    CountsDistinct(result);
  }

  /** `usedPorts`. */
  method UsedPorts(client: Client) returns (ok: bool, tcp: seq<int>, udp: seq<int>)
    modifies client`faults
    ensures client.faults >= old(client.faults)
    ensures client.faults == old(client.faults) ==> (ok <==> AllNamesValid(client.insts))
    ensures ok ==> ListsPorts(client.insts, "tcp", tcp) && ListsPorts(client.insts, "udp", udp)
  {
    hide Held, ValidName;
    tcp, udp := [], [];
    var used;
    ok, used := CollectPorts(client);
    if !ok { return; }
    tcp := SortedPorts(set x | x in used && x.0 == "tcp" :: x.1);
    udp := SortedPorts(set x | x in used && x.0 == "udp" :: x.1);
    assert forall p :: p in tcp <==> ("tcp", p) in used;
    assert forall p :: p in udp <==> ("udp", p) in used;
  }

  method CheckSSHCapacity(a: App, needed: nat) returns (ok: bool)
    requires a.Configured()
    modifies a.client`faults
    ensures a.client.faults >= old(a.client.faults)
    ensures ok ==> AllNamesValid(a.client.insts) && needed <= |FreeSsh(a, a.client.insts)|
    ensures a.client.faults == old(a.client.faults) ==>
              (ok <==> AllNamesValid(a.client.insts) && needed <= |FreeSsh(a, a.client.insts)|)
  {
    hide Held, ValidName;
    var all;
    ok, all := CollectPorts(a.client);
    if !ok { return; }
    var used := set x | x in all && x.0 == "tcp" && a.sshPortStart <= x.1 <= a.sshPortEnd :: x.1;
    assert forall p :: p in used <==> ("tcp", p) in all && a.sshPortStart <= p <= a.sshPortEnd;
    UsedAndFreeFillRange(UsedTcp(a.client.insts), a.sshPortStart, a.sshPortEnd);
    assert used == UsedIn(UsedTcp(a.client.insts), a.sshPortStart, a.sshPortEnd);
    var available := a.sshPortEnd - a.sshPortStart + 1 - |used|;
    ok := needed <= available;
  }

  method FirstSsh(forwards: seq<PortForward>) returns (found: Option<PortForward>)
    ensures found.Some? ==> found.value in forwards && IsSsh(found.value)
    ensures found.None? ==> forall f | f in forwards :: !IsSsh(f)
  {
    for i := 0 to |forwards|
      invariant forall j | 0 <= j < i :: !IsSsh(forwards[j])
    {
      if IsSsh(forwards[i]) { return Some(forwards[i]); }
    }
    return None;
  }

  method LeastFree(used: set<int>, lo: int, hi: int) returns (port: Option<int>)
    requires lo <= hi + 1
    ensures var free := FreePorts((iset x | x in used), lo, hi); port == if free == [] then None else Some(free[0])
  {
    var p := lo;
    while p <= hi
      invariant lo <= p <= hi + 1
      invariant FreePorts((iset x | x in used), p, hi) == FreePorts((iset x | x in used), lo, hi)
    {
      if p !in used { return Some(p); }
      p := p + 1;
    }
    return None;
  }

  /** The conditions a reader can check before the call. */
  ghost predicate CanAllocate(a: App, insts: map<string, Instance>, name: string) {
    ValidName(name) && name in insts &&
    (HasSsh(name, insts[name]) ||
     (var free := FreeSsh(a, insts);
      AllNamesValid(insts) && free != [] && free[0] >= 0 && insts[name].ipv4 != "" &&
      DeviceName("tcp", free[0]) !in insts[name].devices))
  }

  method AllocateSSH(a: App, name: string) returns (r: Allocation)
    requires a.Configured()
    modifies a.client`insts, a.client`faults
    ensures a.client.faults >= old(a.client.faults)
    ensures !r.Allocated? ==> a.client.insts == old(a.client.insts)
    ensures r.Allocated? ==>
              CanAllocate(a, old(a.client.insts), name) &&
              if HasSsh(name, old(a.client.insts)[name]) then
                a.client.insts == old(a.client.insts) && SshForwardOf(name, old(a.client.insts)[name], r.forward)
              else
                var port := FreeSsh(a, old(a.client.insts))[0];
                r.forward == PortForward(name, "tcp", port, 22) &&
                a.client.insts ==
                WithForward(old(a.client.insts), name, "tcp", port, old(a.client.insts)[name].ipv4, 22)
    ensures r.Allocated? ==>
              r.forward.name == name && r.forward.protocol == "tcp" && r.forward.targetPort == 22 &&
              (a.client.insts != old(a.client.insts) ==>
                 a.sshPortStart <= r.forward.listenPort <= a.sshPortEnd &&
                 !Held(old(a.client.insts), "tcp", r.forward.listenPort) &&
                 forall p | a.sshPortStart <= p < r.forward.listenPort :: Held(old(a.client.insts), "tcp", p))
    ensures r.NoFreePort? ==>
              FreeSsh(a, old(a.client.insts)) == [] &&
              forall p | a.sshPortStart <= p <= a.sshPortEnd :: Held(old(a.client.insts), "tcp", p)
    ensures a.client.faults == old(a.client.faults) ==> (r.Allocated? <==> CanAllocate(a, old(a.client.insts), name))
    ensures PortsUnique(old(a.client.insts)) ==> PortsUnique(a.client.insts)
  {
    var client := a.client;
    var read, forwards := client.ListPortForwards(name);
    if !read { return AllocationFailed; }
    var existing := FirstSsh(forwards);
    HasSshIffListed(name, client.insts[name], forwards);
    if existing.Some? {
      ListedIffVisible(name, client.insts[name].devices, forwards, existing.value);
      return Allocated(existing.value);
    }
    var collected, all := CollectPorts(client);
    if !collected { return AllocationFailed; }
    var used := set x | x in all && x.0 == "tcp" :: x.1;
    assert forall p :: p in used <==> ("tcp", p) in all;
    assert (iset p | p in used) == UsedTcp(client.insts);
    LeastSshPort(a, client.insts);
    var port := LeastFree(used, a.sshPortStart, a.sshPortEnd);
    if port.None? { return NoFreePort; }
    FirstFree(UsedTcp(client.insts), a.sshPortStart, a.sshPortEnd);
    assert FreeEverywhere(client.insts, "tcp", port.value) by {
      forall n | n in client.insts ensures !Holds(client.insts[n], "tcp", port.value) {
        assert !Held(client.insts, "tcp", port.value);
      }
    }
    var added := client.AddPortForward(name, "tcp", port.value, 22);
    if !added { return AllocationFailed; }
    return Allocated(PortForward(name, "tcp", port.value, 22));
  }

  lemma HasSshIffListed(name: string, inst: Instance, forwards: seq<PortForward>)
    requires ListsForwards(name, inst.devices, forwards)
    ensures HasSsh(name, inst) <==> exists f :: f in forwards && IsSsh(f)
  {
    if HasSsh(name, inst) {
      var d :| d in inst.devices && VisibleForward(name, inst.devices[d]).Some? &&
               IsSsh(VisibleForward(name, inst.devices[d]).value);
      var f := VisibleForward(name, inst.devices[d]).value;
      ListedIffVisible(name, inst.devices, forwards, f);
    }
    if f :| f in forwards && IsSsh(f) {
      ListedIffVisible(name, inst.devices, forwards, f);
    }
  }
}
