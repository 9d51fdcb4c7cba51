/** The one-pass scan for public ports held twice (reconcile.go, the usedPorts loop). */
module PortScan {
  import opened Prelude
  import opened Text
  import opened Sorting
  import opened Endpoints
  import opened Incus

  datatype Issue = Issue(kind: string, protocol: string, port: int, container: string, other: string)

  function PortKey(protocol: string, port: int): string
    requires port >= 0
  {
    protocol + "/" + Itoa(port)
  }

  predicate Plain(f: PortForward) {
    ValidProtocol(f.protocol) && ValidPort(f.listenPort)
  }

  lemma PortKeyInjective(f: PortForward, g: PortForward)
    requires Plain(f) && Plain(g)
    ensures PortKey(f.protocol, f.listenPort) == PortKey(g.protocol, g.listenPort) <==> SameKey(f, g)
  {
    if PortKey(f.protocol, f.listenPort) == PortKey(g.protocol, g.listenPort) {
      var s, t := PortKey(f.protocol, f.listenPort), PortKey(g.protocol, g.listenPort);
      assert s[..3] == f.protocol && t[..3] == g.protocol;
      assert s[4..] == Itoa(f.listenPort) && t[4..] == Itoa(g.listenPort);
      ItoaInjective(f.listenPort, g.listenPort);
    }
  }

  predicate SameKey(f: PortForward, g: PortForward) {
    f.protocol == g.protocol && f.listenPort == g.listenPort
  }

  /** The container of the first forward in scan order with the key of f. */
  function FirstHolder(scanned: seq<PortForward>, f: PortForward): Option<string> {
    if scanned == [] then None
    else if SameKey(scanned[0], f) then Some(scanned[0].name)
    else FirstHolder(scanned[1..], f)
  }

  function Duplicate(f: PortForward, other: string): Issue {
    Issue("duplicate_listen_port", f.protocol, f.listenPort, f.name, other)
  }

  /** Every scanned forward whose key was first seen on another container, against that one. */
  function Duplicates(scanned: seq<PortForward>): seq<Issue> {
    if scanned == [] then []
    else
      var before, f := scanned[..|scanned| - 1], scanned[|scanned| - 1];
      var first := FirstHolder(before, f);
      Duplicates(before) + if first.Some? && first.value != f.name then [Duplicate(f, first.value)] else []
  }

  lemma {:induction false} FirstHolderAppend(scanned: seq<PortForward>, g: PortForward, f: PortForward)
    ensures FirstHolder(scanned + [g], f) ==
            if FirstHolder(scanned, f).Some? then FirstHolder(scanned, f)
            else if SameKey(g, f) then Some(g.name) else None
  {
    if scanned != [] {
      assert (scanned + [g])[1..] == scanned[1..] + [g];
      FirstHolderAppend(scanned[1..], g, f);
    } else {
      assert (scanned + [g])[1..] == [];
    }
  }

  lemma {:induction false} FirstHolderIndex(scanned: seq<PortForward>, f: PortForward) returns (i: nat)
    requires exists g :: g in scanned && SameKey(g, f)
    ensures i < |scanned| && SameKey(scanned[i], f) && FirstHolder(scanned, f) == Some(scanned[i].name)
    ensures forall j | 0 <= j < i :: !SameKey(scanned[j], f)
  {
    if SameKey(scanned[0], f) {
      i := 0;
    } else {
      var g :| g in scanned && SameKey(g, f);
      assert g in scanned[1..];
      var k := FirstHolderIndex(scanned[1..], f);
      i := k + 1;
    }
  }

  /** Soundness and completeness against the quadratic definition: f is reported exactly when a
      forward at some position carries its key and its container, and the first forward with that
      key belongs to another container, the one it is reported against. */
  lemma {:induction false} DuplicatesExact(scanned: seq<PortForward>, f: PortForward, other: string)
    ensures Duplicate(f, other) in Duplicates(scanned) <==>
            f.name != other && FirstHolder(scanned, f) == Some(other) &&
            exists g :: g in scanned && SameKey(g, f) && g.name == f.name
  {
    if scanned != [] {
      var before, last := scanned[..|scanned| - 1], scanned[|scanned| - 1];
      assert scanned == before + [last];
      DuplicatesExact(before, f, other);
      FirstHolderAppend(before, last, f);
      SameKeySameFirst(before, last, f);
      if FirstHolder(before, f).None? { NoHolder(before, f); }
    }
  }

  lemma {:induction false} SameKeySameFirst(scanned: seq<PortForward>, f: PortForward, g: PortForward)
    ensures SameKey(f, g) ==> FirstHolder(scanned, f) == FirstHolder(scanned, g)
  {
    if scanned != [] { SameKeySameFirst(scanned[1..], f, g); }
  }

  lemma {:induction false} NoHolder(scanned: seq<PortForward>, f: PortForward)
    requires FirstHolder(scanned, f).None?
    ensures forall g | g in scanned :: !SameKey(g, f)
  {
    if scanned != [] {
      NoHolder(scanned[1..], f);
      assert scanned == [scanned[0]] + scanned[1..];
    }
  }

  /** A duplicate is reported for a key exactly when two different containers were scanned with it. */
  lemma DuplicateIffShared(scanned: seq<PortForward>, protocol: string, port: int)
    ensures (exists x :: x in Duplicates(scanned) && x.protocol == protocol && x.port == port) <==>
            (exists f, g :: f in scanned && g in scanned && SameKey(f, g) && f.name != g.name &&
                            f.protocol == protocol && f.listenPort == port)
  {
    if x :| x in Duplicates(scanned) && x.protocol == protocol && x.port == port {
      DuplicatesShape(scanned, x);
      var probe := PortForward(x.container, protocol, port, 0);
      assert x == Duplicate(probe, x.other);
      DuplicatesExact(scanned, probe, x.other);
      var g :| g in scanned && SameKey(g, probe) && g.name == x.container;
      var i := FirstHolderIndex(scanned, probe);
      assert scanned[i] in scanned && SameKey(scanned[i], g) && scanned[i].name != g.name;
    }
    if f, g :| f in scanned && g in scanned && SameKey(f, g) && f.name != g.name && f.protocol == protocol &&
               f.listenPort == port {
      var i := FirstHolderIndex(scanned, f);
      SameKeySameFirst(scanned, f, g);
      var late := if scanned[i].name == f.name then g else f;
      SameKeySameFirst(scanned, late, f);
      DuplicatesExact(scanned, late, scanned[i].name);
    }
  }

  lemma {:induction false} DuplicatesShape(scanned: seq<PortForward>, x: Issue)
    requires x in Duplicates(scanned)
    ensures x.kind == "duplicate_listen_port"
  {
    if scanned != [] && x in Duplicates(scanned[..|scanned| - 1]) { DuplicatesShape(scanned[..|scanned| - 1], x); }
  }

  /** How often this container's forwards with this key were scanned. */
  function Scans(scanned: seq<PortForward>, f: PortForward): nat {
    if scanned == [] then 0
    else
      var last := scanned[|scanned| - 1];
      Scans(scanned[..|scanned| - 1], f) + if SameKey(last, f) && last.name == f.name then 1 else 0
  }

  lemma {:induction false} ScansNone(scanned: seq<PortForward>, f: PortForward)
    requires forall g | g in scanned :: !(SameKey(g, f) && g.name == f.name)
    ensures Scans(scanned, f) == 0
  {
    if scanned != [] {
      assert scanned[|scanned| - 1] in scanned;
      ScansNone(scanned[..|scanned| - 1], f);
    }
  }

  lemma {:induction false} ScansJoin(a: seq<PortForward>, b: seq<PortForward>, f: PortForward)
    ensures Scans(a + b, f) == Scans(a, f) + Scans(b, f)
  {
    if b == [] {
      assert a + b == a;
    } else {
      assert (a + b)[..|a + b| - 1] == a + b[..|b| - 1];
      ScansJoin(a, b[..|b| - 1], f);
    }
  }

  /** A later holder of a key is reported as often as it was scanned with it, against the first
      holder, and nothing else is reported. */
  lemma {:induction false} DuplicatesCount(scanned: seq<PortForward>, f: PortForward, other: string)
    ensures multiset(Duplicates(scanned))[Duplicate(f, other)] ==
            if f.name != other && FirstHolder(scanned, f) == Some(other) then Scans(scanned, f) else 0
  {
    if scanned != [] {
      var before, last := scanned[..|scanned| - 1], scanned[|scanned| - 1];
      assert scanned == before + [last];
      DuplicatesCount(before, f, other);
      DuplicatesAppend(before, last);
      FirstHolderAppend(before, last, f);
      SameKeySameFirst(before, last, f);
      if FirstHolder(before, f).None? {
        NoHolder(before, f);
        ScansNone(before, f);
      }
    }
  }

  lemma {:induction false} OnlyDuplicates(scanned: seq<PortForward>, x: Issue)
    requires x.kind != "duplicate_listen_port"
    ensures x !in Duplicates(scanned)
  {
    if x in Duplicates(scanned) { DuplicatesShape(scanned, x); }
  }

  // ---------------------------------------------------------------- the scan

  /** The devices listening on this public port. */
  ghost function Listeners(devices: map<string, Device>, keys: set<string>, protocol: string, port: int): set<string> {
    set d | d in keys && d in devices && ListensOn(devices[d], protocol, port)
  }

  /** How many devices of an instance listen on this public port. */
  ghost function Occupancy(inst: Instance, protocol: string, port: int): nat {
    |Listeners(inst.devices, inst.devices.Keys, protocol, port)|
  }

  lemma OccupancyHolds(inst: Instance, protocol: string, port: int)
    ensures Occupancy(inst, protocol, port) > 0 <==> Holds(inst, protocol, port)
  {
    hide ListensOn;
    if Holds(inst, protocol, port) {
      var d :| d in inst.devices && ListensOn(inst.devices[d], protocol, port);
      assert d in Listeners(inst.devices, inst.devices.Keys, protocol, port);
    } else {
      assert Listeners(inst.devices, inst.devices.Keys, protocol, port) == {};
    }
  }

  /** The rest of a listing without its last forward is the listing without one device. */
  lemma {:induction false} CountsByKey(name: string, devices: map<string, Device>, keys: set<string>,
                                       r: seq<PortForward>, f: PortForward)
    requires keys <= devices.Keys && f.name == name
    requires forall g :: multiset(r)[g] == |HoldersAmong(name, devices, keys, g)|
    ensures Scans(r, f) == |Listeners(devices, keys, f.protocol, f.listenPort)|
  {
    hide VisibleForward;
    if r == [] {
      if Listeners(devices, keys, f.protocol, f.listenPort) != {} {
        ListenerHolds(name, devices, keys, f.protocol, f.listenPort);
      }
    } else {
      var last, rest := r[|r| - 1], r[..|r| - 1];
      assert r == rest + [last];
      assert multiset(r)[last] > 0;
      assert HoldersAmong(name, devices, keys, last) != {};
      var d :| d in HoldersAmong(name, devices, keys, last);
      forall g ensures multiset(rest)[g] == |HoldersAmong(name, devices, keys - {d}, g)| {
        HoldersStep(name, devices, keys - {d}, d, g);
        assert keys - {d} + {d} == keys;
      }
      CountsByKey(name, devices, keys - {d}, rest, f);
      OneListener(name, devices, keys, d, last, f);
    }
  }

  lemma ListenerHolds(name: string, devices: map<string, Device>, keys: set<string>, protocol: string, port: int)
    requires Listeners(devices, keys, protocol, port) != {}
    ensures exists g :: |HoldersAmong(name, devices, keys, g)| > 0
  {
    var d :| d in Listeners(devices, keys, protocol, port);
    var g := VisibleForward(name, devices[d]).value;
    assert d in HoldersAmong(name, devices, keys, g);
  }

  lemma OneListener(name: string, devices: map<string, Device>, keys: set<string>, d: string, last: PortForward,
                    f: PortForward)
    requires keys <= devices.Keys && d in keys && VisibleForward(name, devices[d]) == Some(last)
    ensures last.name == name
    ensures |Listeners(devices, keys, f.protocol, f.listenPort)| ==
            |Listeners(devices, keys - {d}, f.protocol, f.listenPort)| + if SameKey(last, f) then 1 else 0
  {
    assert ListensOn(devices[d], f.protocol, f.listenPort) <==> SameKey(last, f);
    hide ListensOn, VisibleForward;
    var before, now := Listeners(devices, keys - {d}, f.protocol, f.listenPort),
      Listeners(devices, keys, f.protocol, f.listenPort);
    assert now == if SameKey(last, f) then before + {d} else before;
  }

  /** A listing has one forward of a key for each device listening on it. */
  lemma ListingCounts(name: string, inst: Instance, r: seq<PortForward>, f: PortForward)
    requires ListsForwards(name, inst.devices, r) && f.name == name
    ensures Scans(r, f) == Occupancy(inst, f.protocol, f.listenPort)
  {
    CountsByKey(name, inst.devices, inst.devices.Keys, r, f);
  }

  /** What the pass has read of each instance visited so far: a listing of a readable one, nothing of
      any other. */
  ghost predicate Reads(insts: map<string, Instance>, rows: seq<Listed>, readable: set<string>,
                        lists: seq<seq<PortForward>>) {
    && |lists| <= |rows|
    && forall j | 0 <= j < |lists| ::
         rows[j].name in insts &&
         if rows[j].name in readable then ListsForwards(rows[j].name, insts[rows[j].name].devices, lists[j])
         else lists[j] == []
  }

  /** The forwards in scan order. */
  function Flatten(lists: seq<seq<PortForward>>): seq<PortForward> {
    if lists == [] then [] else Flatten(lists[..|lists| - 1]) + lists[|lists| - 1]
  }

  /** Among the first k instances of the listing, the first readable one to hold this port is n. */
  ghost predicate FirstToHold(insts: map<string, Instance>, rows: seq<Listed>, k: nat, readable: set<string>,
                              protocol: string,
                              port: int, n: string)
    requires k <= |rows| && forall i | 0 <= i < k :: rows[i].name in insts
  {
    exists i :: 0 <= i < k && rows[i].name == n && n in readable && Holds(insts[n], protocol, port) &&
      forall j | 0 <= j < i :: !(rows[j].name in readable && Holds(insts[rows[j].name], protocol, port))
  }

  lemma {:induction false} FirstHolderJoin(a: seq<PortForward>, b: seq<PortForward>, f: PortForward)
    ensures FirstHolder(a + b, f) == if FirstHolder(a, f).Some? then FirstHolder(a, f) else FirstHolder(b, f)
  {
    if a == [] {
      assert a + b == b;
    } else {
      assert (a + b)[1..] == a[1..] + b;
      FirstHolderJoin(a[1..], b, f);
    }
  }

  /** In the listing of one instance, that instance is the holder of everything. */
  lemma FirstInListing(name: string, inst: Instance, r: seq<PortForward>, f: PortForward)
    requires ListsForwards(name, inst.devices, r)
    ensures FirstHolder(r, f) == if Holds(inst, f.protocol, f.listenPort) then Some(name) else None
  {
    hide ListsForwards, Holds;
    ForwardsRead(name, inst, r);
    if Holds(inst, f.protocol, f.listenPort) {
      var g :| g in r && g.name == name && g.protocol == f.protocol && g.listenPort == f.listenPort;
      var i := FirstHolderIndex(r, f);
      assert r[i] in r;
    } else if FirstHolder(r, f).Some? {
      SomeHolder(r, f);
    }
  }

  lemma {:induction false} SomeHolder(scanned: seq<PortForward>, f: PortForward)
    requires FirstHolder(scanned, f).Some?
    ensures exists g :: g in scanned && SameKey(g, f)
  {
    if SameKey(scanned[0], f) {
      assert scanned[0] in scanned;
    } else {
      SomeHolder(scanned[1..], f);
      var g :| g in scanned[1..] && SameKey(g, f);
      assert g in scanned;
    }
  }

  /** The first holder the scan finds is the first in listing order. */
  lemma {:induction false} FirstInOrder(insts: map<string, Instance>, rows: seq<Listed>, readable: set<string>,
                                        lists: seq<seq<PortForward>>, f: PortForward)
    requires Reads(insts, rows, readable, lists)
    ensures forall n :: FirstHolder(Flatten(lists), f) == Some(n) <==>
                        FirstToHold(insts, rows, |lists|, readable, f.protocol, f.listenPort, n)
    ensures FirstHolder(Flatten(lists), f).None? <==>
            forall j | 0 <= j < |lists| ::
              !(rows[j].name in readable && Holds(insts[rows[j].name], f.protocol, f.listenPort))
  {
    hide Holds, ListsForwards;
    if lists != [] {
      var before, last := lists[..|lists| - 1], lists[|lists| - 1];
      var row := rows[|before|];
      assert forall j | 0 <= j < |before| :: before[j] == lists[j];
      FirstInOrder(insts, rows, readable, before, f);
      FirstHolderJoin(Flatten(before), last, f);
      if row.name in readable { FirstInListing(row.name, insts[row.name], last, f); }
    }
  }

  /** Each instance is scanned once: its forwards count as its devices do. */
  lemma {:induction false} ScansPerInstance(insts: map<string, Instance>, rows: seq<Listed>, readable: set<string>,
                                            lists: seq<seq<PortForward>>, f: PortForward)
    requires IsListing(insts, rows) && Reads(insts, rows, readable, lists)
    ensures Scans(Flatten(lists), f) ==
            if f.name in readable && exists j :: 0 <= j < |lists| && rows[j].name == f.name
            then Occupancy(insts[f.name], f.protocol, f.listenPort) else 0
  {
    hide Occupancy, ListsForwards;
    if lists != [] {
      var before, last := lists[..|lists| - 1], lists[|lists| - 1];
      var row := rows[|before|];
      assert forall j | 0 <= j < |before| :: before[j] == lists[j];
      ScansPerInstance(insts, rows, readable, before, f);
      ScansJoin(Flatten(before), last, f);
      if row.name == f.name {
        if f.name in readable { ListingCounts(f.name, insts[f.name], last, f); }
      } else if row.name in readable {
        ForwardsRead(row.name, insts[row.name], last);
        ScansNone(last, f);
      }
    }
  }

  /** The map from key to container agrees with the first holders. */
  ghost predicate UsedAgrees(used: map<string, string>, scanned: seq<PortForward>) {
    forall f: PortForward | Plain(f) ::
      var key := PortKey(f.protocol, f.listenPort);
      FirstHolder(scanned, f) == if key in used then Some(used[key]) else None
  }

  lemma UsedStep(used: map<string, string>, scanned: seq<PortForward>, g: PortForward)
    requires UsedAgrees(used, scanned) && Plain(g)
    requires PortKey(g.protocol, g.listenPort) in used ==> used[PortKey(g.protocol, g.listenPort)] == g.name
    ensures UsedAgrees(used[PortKey(g.protocol, g.listenPort) := g.name], scanned + [g])
  {
    forall f: PortForward | Plain(f)
      ensures FirstHolder(scanned + [g], f) ==
              var used' := used[PortKey(g.protocol, g.listenPort) := g.name];
              if PortKey(f.protocol, f.listenPort) in used' then Some(used'[PortKey(f.protocol, f.listenPort)])
              else None
    {
      FirstHolderAppend(scanned, g, f);
      PortKeyInjective(f, g);
    }
  }

  lemma UsedSkip(used: map<string, string>, scanned: seq<PortForward>, g: PortForward)
    requires UsedAgrees(used, scanned) && Plain(g) && PortKey(g.protocol, g.listenPort) in used
    ensures UsedAgrees(used, scanned + [g])
  {
    forall f: PortForward | Plain(f)
      ensures FirstHolder(scanned + [g], f) ==
              if PortKey(f.protocol, f.listenPort) in used then Some(used[PortKey(f.protocol, f.listenPort)]) else None
    {
      FirstHolderAppend(scanned, g, f);
      PortKeyInjective(f, g);
    }
  }

  lemma UsedLookup(used: map<string, string>, scanned: seq<PortForward>, f: PortForward)
    requires UsedAgrees(used, scanned) && Plain(f)
    ensures FirstHolder(scanned, f) ==
            if PortKey(f.protocol, f.listenPort) in used then Some(used[PortKey(f.protocol, f.listenPort)]) else None
  {
  }

  lemma DuplicatesAppend(scanned: seq<PortForward>, f: PortForward)
    ensures Duplicates(scanned + [f]) ==
            Duplicates(scanned) +
            if FirstHolder(scanned, f).Some? && FirstHolder(scanned, f).value != f.name
            then [Duplicate(f, FirstHolder(scanned, f).value)] else []
  {
    assert (scanned + [f])[..|scanned|] == scanned;
  }

  /** The inner loop: the forwards of one instance. */
  method ScanForwards(forwards: seq<PortForward>, used: map<string, string>, issues: seq<Issue>,
                      ghost scanned: seq<PortForward>)
    returns (used': map<string, string>, issues': seq<Issue>)
    requires UsedAgrees(used, scanned) && forall f | f in forwards :: Plain(f)
    ensures UsedAgrees(used', scanned + forwards)
    ensures exists found :: issues' == issues + found && Duplicates(scanned) + found == Duplicates(scanned + forwards)
  {
    hide PortKey, UsedAgrees, FirstHolder, Duplicates;
    used', issues' := used, issues;
    ghost var found: seq<Issue> := [];
    assert scanned + forwards[..0] == scanned;
    for i := 0 to |forwards|
      invariant UsedAgrees(used', scanned + forwards[..i])
      invariant issues' == issues + found && Duplicates(scanned) + found == Duplicates(scanned + forwards[..i])
    {
      var f := forwards[i];
      assert f in forwards;
      ghost var before := scanned + forwards[..i];
      assert scanned + forwards[..i + 1] == before + [f];
      UsedLookup(used', before, f);
      DuplicatesAppend(before, f);
      var key := PortKey(f.protocol, f.listenPort);
      if key in used' && used'[key] != f.name {
        UsedSkip(used', before, f);
        issues', found := issues' + [Duplicate(f, used'[key])], found + [Duplicate(f, used'[key])];
      } else {
        UsedStep(used', before, f);
        used' := used'[key := f.name];
      }
    }
    assert forwards[..|forwards|] == forwards;
  }

  lemma ForwardsRead(name: string, inst: Instance, forwards: seq<PortForward>)
    requires ListsForwards(name, inst.devices, forwards)
    ensures forall f | f in forwards :: f.name == name && Plain(f) && Holds(inst, f.protocol, f.listenPort)
    ensures forall p, q | Holds(inst, p, q) ::
              exists f :: f in forwards && f.name == name && f.protocol == p && f.listenPort == q
  {
    forall f | f in forwards ensures f.name == name && Plain(f) && Holds(inst, f.protocol, f.listenPort) {
      ListedIffVisible(name, inst.devices, forwards, f);
      var d :| d in inst.devices && VisibleForward(name, inst.devices[d]) == Some(f);
      assert ListensOn(inst.devices[d], f.protocol, f.listenPort);
    }
    forall p, q | Holds(inst, p, q)
      ensures exists f :: f in forwards && f.name == name && f.protocol == p && f.listenPort == q {
      ListedIffListening(name, inst.devices, forwards, p, q);
      var f :| f in forwards && f.protocol == p && f.listenPort == q;
      ListedIffVisible(name, inst.devices, forwards, f);
    }
  }

  function Unreadable(name: string): Issue {
    Issue("unreadable", "", 0, name, "")
  }

  predicate IssueLe(a: Issue, b: Issue) {
    if a.protocol == b.protocol then a.port <= b.port else StrLe(a.protocol, b.protocol)
  }

  lemma IssueLePreorder()
    ensures TotalPreorder(IssueLe)
  {
    StrLePreorder();
    forall x: Issue, y: Issue ensures IssueLe(x, y) || IssueLe(y, x) {
      assert StrLe(x.protocol, y.protocol) || StrLe(y.protocol, x.protocol);
    }
    forall x: Issue, y: Issue, z: Issue | IssueLe(x, y) && IssueLe(y, z) ensures IssueLe(x, z) {
      StrLessTotal(x.protocol, y.protocol);
      StrLessTotal(y.protocol, z.protocol);
      StrLessIrreflexive(x.protocol);
      if x.protocol != y.protocol && y.protocol != z.protocol {
        StrLessTransitive(x.protocol, y.protocol, z.protocol);
        StrLessIrreflexive(x.protocol);
        StrLeTransitive(x.protocol, y.protocol, z.protocol);
      }
    }
  }

  /** How often a report has this issue: once for an unreadable instance; and for a readable one,
      against the first readable instance of the listing that holds the port, when that is another
      one, as often as it has devices on the port. */
  ghost function Expected(insts: map<string, Instance>, rows: seq<Listed>, readable: set<string>, x: Issue): nat
    requires IsListing(insts, rows)
  {
    if x.kind == "duplicate_listen_port" then
      if x.container in insts && x.container in readable && x.container != x.other &&
         FirstToHold(insts, rows, |rows|, readable, x.protocol, x.port, x.other)
      then Occupancy(insts[x.container], x.protocol, x.port) else 0
    else if x.container in insts && x.container !in readable && x == Unreadable(x.container) then 1
    else 0
  }

  /** The issues of a report, sorted: exactly the expected ones. */
  ghost predicate ReportsIssues(insts: map<string, Instance>, rows: seq<Listed>, readable: set<string>,
                                issues: seq<Issue>)
    requires IsListing(insts, rows)
  {
    SortedBy(issues, IssueLe) && forall x :: multiset(issues)[x] == Expected(insts, rows, readable, x)
  }

  lemma FirstExists(insts: map<string, Instance>, rows: seq<Listed>, k: nat, readable: set<string>, protocol: string,
                    port: int, m: string)
    requires k <= |rows| && forall i | 0 <= i < |rows| :: rows[i].name in insts
    requires m in readable && m in insts && Holds(insts[m], protocol, port) &&
             exists i :: 0 <= i < k && rows[i].name == m
    ensures exists n :: FirstToHold(insts, rows, |rows|, readable, protocol, port, n)
  {
    hide Holds;
    var i :| 0 <= i < k && rows[i].name == m;
    if j :| 0 <= j < i && rows[j].name in readable && Holds(insts[rows[j].name], protocol, port) {
      FirstExists(insts, rows, i, readable, protocol, port, rows[j].name);
    } else {
      assert FirstToHold(insts, rows, |rows|, readable, protocol, port, m);
    }
  }

  lemma IssueMeansClash(insts: map<string, Instance>, rows: seq<Listed>, readable: set<string>, x: Issue)
    requires IsListing(insts, rows) && readable <= insts.Keys
    requires x.kind == "duplicate_listen_port" && Expected(insts, rows, readable, x) > 0
    ensures x.container != x.other && x.container in readable && x.other in readable
    ensures Holds(insts[x.container], x.protocol, x.port) && Holds(insts[x.other], x.protocol, x.port)
  {
    hide Holds, Occupancy;
    OccupancyHolds(insts[x.container], x.protocol, x.port);
  }

  lemma ClashMeansIssue(insts: map<string, Instance>, rows: seq<Listed>, readable: set<string>, protocol: string,
                        port: int, m: string, n: string) returns (x: Issue)
    requires IsListing(insts, rows) && readable <= insts.Keys && m != n && m in readable && n in readable
    requires Holds(insts[m], protocol, port) && Holds(insts[n], protocol, port)
    ensures x.kind == "duplicate_listen_port" && x.protocol == protocol && x.port == port
    ensures x.container in {m, n} && Expected(insts, rows, readable, x) > 0
  {
    hide Holds, Occupancy;
    FirstExists(insts, rows, |rows|, readable, protocol, port, m);
    var first :| FirstToHold(insts, rows, |rows|, readable, protocol, port, first);
    var late := if first == m then n else m;
    OccupancyHolds(insts[late], protocol, port);
    x := Issue("duplicate_listen_port", protocol, port, late, first);
  }

  /** In a report, a duplicate is there for a port exactly when two different readable containers
      hold it. */
  lemma IssueIffClash(insts: map<string, Instance>, rows: seq<Listed>, readable: set<string>, issues: seq<Issue>,
                      protocol: string, port: int)
    requires IsListing(insts, rows) && readable <= insts.Keys && ReportsIssues(insts, rows, readable, issues)
    ensures (exists x :: x in issues && x.kind == "duplicate_listen_port" && x.protocol == protocol &&
                         x.port == port) <==>
            (exists m, n :: m != n && m in readable && n in readable && Holds(insts[m], protocol, port) &&
                            Holds(insts[n], protocol, port))
  {
    hide Holds, SortedBy, IsListing, Expected;
    if x :| x in issues && x.kind == "duplicate_listen_port" && x.protocol == protocol && x.port == port {
      assert multiset(issues)[x] > 0;
      IssueMeansClash(insts, rows, readable, x);
    }
    if m, n :| m != n && m in readable && n in readable && Holds(insts[m], protocol, port) &&
               Holds(insts[n], protocol, port) {
      var x := ClashMeansIssue(insts, rows, readable, protocol, port, m, n);
      assert multiset(issues)[x] > 0;
    }
  }

  /** One instance of the outer loop. */
  method ScanOne(client: Client, name: string, used: map<string, string>, issues: seq<Issue>,
                 ghost scanned: seq<PortForward>, ghost unreadable: seq<Issue>)
    returns (read: bool, used': map<string, string>, issues': seq<Issue>, ghost list: seq<PortForward>,
             ghost unreadable': seq<Issue>)
    requires name in client.insts && UsedAgrees(used, scanned)
    requires multiset(issues) == multiset(Duplicates(scanned) + unreadable)
    modifies client`faults
    ensures client.faults >= old(client.faults)
    ensures client.faults == old(client.faults) ==> (read <==> ValidName(name))
    ensures UsedAgrees(used', scanned + list)
    ensures if read then ListsForwards(name, client.insts[name].devices, list) && unreadable' == unreadable
            else list == [] && unreadable' == unreadable + [Unreadable(name)]
    ensures multiset(issues') == multiset(Duplicates(scanned + list) + unreadable')
  {
    hide Holds, ValidName;
    var forwards;
    read, forwards := client.ListPortForwards(name);
    used', issues', list, unreadable' := used, issues, [], unreadable;
    assert scanned + [] == scanned;
    if !read {
      issues', unreadable' := issues + [Unreadable(name)], unreadable + [Unreadable(name)];
      assert Duplicates(scanned) + unreadable' == (Duplicates(scanned) + unreadable) + [Unreadable(name)];
    } else {
      ForwardsRead(name, client.insts[name], forwards);
      used', issues' := ScanForwards(forwards, used, issues, scanned);
      ghost var found :| issues' == issues + found && Duplicates(scanned) + found == Duplicates(scanned + forwards);
      ScanBag(issues, Duplicates(scanned), unreadable, found);
      list := forwards;
    }
  }

  /** The instances visited so far, split into readable and not. */
  ghost predicate Visited(rows: seq<Listed>, i: nat, readable: set<string>, unreadable: seq<Issue>)
    requires i <= |rows|
  {
    && NoDuplicates(unreadable) && (forall n | n in readable :: exists j :: 0 <= j < i && rows[j].name == n)
    && (forall x :: x in unreadable <==>
          x == Unreadable(x.container) && x.container !in readable &&
          exists j :: 0 <= j < i && rows[j].name == x.container)
  }

  lemma VisitOne(insts: map<string, Instance>, rows: seq<Listed>, i: nat, readable: set<string>, unreadable: seq<Issue>)
    requires IsListing(insts, rows) && i < |rows| && Visited(rows, i, readable, unreadable)
    ensures Visited(rows, i + 1, readable + {rows[i].name}, unreadable)
    ensures Visited(rows, i + 1, readable, unreadable + [Unreadable(rows[i].name)])
    ensures rows[i].name !in readable
  {
    var more := unreadable + [Unreadable(rows[i].name)];
    forall j, k | 0 <= j < k < |more| ensures more[j] != more[k] {
      if k == |unreadable| { assert more[j] in unreadable; }
    }
  }

  lemma ReadOne(insts: map<string, Instance>, rows: seq<Listed>, readable: set<string>, lists: seq<seq<PortForward>>,
                read: bool, list: seq<PortForward>)
    requires IsListing(insts, rows) && Reads(insts, rows, readable, lists) && |lists| < |rows| &&
             rows[|lists|].name !in readable
    requires if read then ListsForwards(rows[|lists|].name, insts[rows[|lists|].name].devices, list) else list == []
    ensures Reads(insts, rows, if read then readable + {rows[|lists|].name} else readable, lists + [list])
    ensures Flatten(lists + [list]) == Flatten(lists) + list
  {
    hide ListsForwards;
    assert (lists + [list])[..|lists|] == lists;
  }

  method ScanLoop(client: Client, rows: seq<Listed>)
    returns (issues: seq<Issue>, ghost readable: set<string>, ghost lists: seq<seq<PortForward>>,
             ghost unreadable: seq<Issue>)
    requires IsListing(client.insts, rows)
    modifies client`faults
    ensures client.faults >= old(client.faults)
    ensures Reads(client.insts, rows, readable, lists) && |lists| == |rows| && readable <= client.insts.Keys
    ensures client.faults == old(client.faults) ==> forall n | n in client.insts :: n in readable <==> ValidName(n)
    ensures multiset(issues) == multiset(Duplicates(Flatten(lists)) + unreadable)
    ensures NoDuplicates(unreadable)
    ensures forall x :: x in unreadable <==>
              x.container in client.insts && x.container !in readable && x == Unreadable(x.container)
  {
    hide Holds, ValidName, Reads, UsedAgrees, Duplicates, Flatten, ListsForwards;
    issues, readable, lists, unreadable := [], {}, [], [];
    var used: map<string, string> := map[];
    NothingScanned(client.insts, rows);
    for i := 0 to |rows|
      invariant client.faults >= old(client.faults) && |lists| == i
      invariant UsedAgrees(used, Flatten(lists)) && Reads(client.insts, rows, readable, lists)
      invariant Visited(rows, i, readable, unreadable)
      invariant client.faults == old(client.faults) ==>
                  forall j | 0 <= j < i :: rows[j].name in readable <==> ValidName(rows[j].name)
      invariant multiset(issues) == multiset(Duplicates(Flatten(lists)) + unreadable)
    {
      VisitOne(client.insts, rows, i, readable, unreadable);
      var read;
      ghost var list;
      read, used, issues, list, unreadable := ScanOne(client, rows[i].name, used, issues, Flatten(lists), unreadable);
      ReadOne(client.insts, rows, readable, lists, read, list);
      lists := lists + [list];
      if read { readable := readable + {rows[i].name}; }
    }
  }

  lemma NothingScanned(insts: map<string, Instance>, rows: seq<Listed>)
    ensures Flatten([]) == [] && UsedAgrees(map[], []) && Reads(insts, rows, {}, []) && Duplicates([]) == []
  {
  }

  lemma ScanBag(issues: seq<Issue>, duplicates: seq<Issue>, unreadable: seq<Issue>, found: seq<Issue>)
    requires multiset(issues) == multiset(duplicates + unreadable)
    ensures multiset(issues + found) == multiset((duplicates + found) + unreadable)
  {
  }

  /** The one-pass scan finds exactly the expected issues. */
  lemma ScanExact(insts: map<string, Instance>, rows: seq<Listed>, readable: set<string>, lists: seq<seq<PortForward>>,
                  unreadable: seq<Issue>, x: Issue)
    requires IsListing(insts, rows) && Reads(insts, rows, readable, lists) && |lists| == |rows| &&
             readable <= insts.Keys
    requires NoDuplicates(unreadable)
    requires forall y :: y in unreadable <==>
               y.container in insts && y.container !in readable && y == Unreadable(y.container)
    ensures multiset(Duplicates(Flatten(lists)) + unreadable)[x] == Expected(insts, rows, readable, x)
  {
    hide Reads, Flatten, Duplicates, Occupancy, FirstToHold, NoDuplicates;
    var scanned := Flatten(lists);
    assert multiset(Duplicates(scanned) + unreadable)[x] == multiset(Duplicates(scanned))[x] + multiset(unreadable)[x];
    DistinctCounts(unreadable);
    assert x in unreadable <==> x in multiset(unreadable);
    if x.kind == "duplicate_listen_port" {
      var f := PortForward(x.container, x.protocol, x.port, 0);
      assert x == Duplicate(f, x.other);
      DuplicatesCount(scanned, f, x.other);
      FirstInOrder(insts, rows, readable, lists, f);
      ScansPerInstance(insts, rows, readable, lists, f);
    } else {
      OnlyDuplicates(scanned, x);
      assert x !in multiset(Duplicates(scanned));
    }
  }

  method ScanPorts(client: Client, rows: seq<Listed>) returns (issues: seq<Issue>, ghost readable: set<string>)
    requires IsListing(client.insts, rows)
    modifies client`faults
    ensures client.faults >= old(client.faults)
    ensures readable <= client.insts.Keys && ReportsIssues(client.insts, rows, readable, issues)
    // Sorted by protocol and port; one issue for each container whose devices could not be read.
    ensures forall i, j | 0 <= i < j < |issues| ::
              if issues[i].protocol == issues[j].protocol then issues[i].port <= issues[j].port
              else !StrLess(issues[j].protocol, issues[i].protocol)
    ensures forall x | x in issues :: x.kind == "unreadable" || x.kind == "duplicate_listen_port"
    ensures forall n | n in client.insts ::
              multiset(issues)[Issue("unreadable", "", 0, n, "")] == if n in readable then 0 else 1
    ensures client.faults == old(client.faults) ==> forall n | n in client.insts :: n in readable <==> ValidName(n)
  {
    hide IssueLe, IsListing, Expected, Reads, Flatten, Duplicates, NoDuplicates, ValidName;
    ghost var lists, unreadable;
    issues, readable, lists, unreadable := ScanLoop(client, rows);
    forall x { ScanExact(client.insts, rows, readable, lists, unreadable, x); }
    IssueLePreorder();
    issues := Sort(issues, IssueLe);
    IssuesMean(client.insts, rows, readable, issues);
  }

  lemma IssuesMean(insts: map<string, Instance>, rows: seq<Listed>, readable: set<string>, issues: seq<Issue>)
    requires IsListing(insts, rows) && ReportsIssues(insts, rows, readable, issues)
    ensures forall i, j | 0 <= i < j < |issues| ::
              if issues[i].protocol == issues[j].protocol then issues[i].port <= issues[j].port
              else !StrLess(issues[j].protocol, issues[i].protocol)
    ensures forall x | x in issues :: x.kind == "unreadable" || x.kind == "duplicate_listen_port"
    ensures forall n | n in insts ::
              multiset(issues)[Issue("unreadable", "", 0, n, "")] == if n in readable then 0 else 1
  {
    hide IsListing, FirstToHold, Occupancy, StrLess;
    forall i, j | 0 <= i < j < |issues|
      ensures if issues[i].protocol == issues[j].protocol then issues[i].port <= issues[j].port
              else !StrLess(issues[j].protocol, issues[i].protocol) {
      assert IssueLe(issues[i], issues[j]);
    }
    forall x | x in issues ensures x.kind == "unreadable" || x.kind == "duplicate_listen_port" {
      assert multiset(issues)[x] > 0 && multiset(issues)[x] == Expected(insts, rows, readable, x);
    }
    forall n | n in insts
      ensures multiset(issues)[Issue("unreadable", "", 0, n, "")] == if n in readable then 0 else 1 {
      var x := Issue("unreadable", "", 0, n, "");
      assert multiset(issues)[x] == Expected(insts, rows, readable, x);
    }
  }
}
