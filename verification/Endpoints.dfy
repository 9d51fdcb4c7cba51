/** Proxy devices and the port forwards Natbox reads out of them (internal/incus/client.go). */
module Endpoints {
  import opened Prelude
  import opened Text
  import opened Sorting

  datatype Device = Device(kind: string, listen: string, connect: string)

  datatype PortForward = PortForward(name: string, protocol: string, listenPort: int, targetPort: int)

  datatype Endpoint = Endpoint(protocol: string, port: int)

  predicate ValidProtocol(protocol: string) {
    protocol == "tcp" || protocol == "udp"
  }

  predicate ValidPort(port: int) {
    1 <= port <= 65535
  }

  /** `fmt.Sprintf("%s:%s:%d", protocol, address, port)`. */
  function FormatEndpoint(protocol: string, address: string, port: nat): string {
    protocol + ":" + address + ":" + Itoa(port)
  }

  function ParseEndpoint(value: string): Option<Endpoint> {
    var parts := Split(value, ':');
    if |parts| != 3 then None
    else
      var port := Atoi(parts[2]);
      if port.None? || !ValidPort(port.value) || !ValidProtocol(parts[0]) then None
      else Some(Endpoint(parts[0], port.value))
  }

  function DeviceName(protocol: string, port: nat): string {
    "proxy-" + protocol + "-" + Itoa(port)
  }

  function ProxyDevice(protocol: string, listenPort: nat, address: string, targetPort: nat): Device {
    Device("proxy", FormatEndpoint(protocol, "0.0.0.0", listenPort), FormatEndpoint(protocol, address, targetPort))
  }

  /** The forward a device stands for, when Natbox can read it. */
  function VisibleForward(name: string, d: Device): Option<PortForward> {
    if d.kind != "proxy" then None
    else
      var listen, connect := ParseEndpoint(d.listen), ParseEndpoint(d.connect);
      if listen.None? || connect.None? || connect.value.protocol != listen.value.protocol then None
      else Some(PortForward(name, listen.value.protocol, listen.value.port, connect.value.port))
  }

  predicate ListensOn(d: Device, protocol: string, port: int) {
    var f := VisibleForward("", d);
    f.Some? && f.value.protocol == protocol && f.value.listenPort == port
  }

  // ---------------------------------------------------------------- printing and parsing

  /** Natbox reads exactly the proxy devices whose two strings are protocol, address and port, of one
      protocol, with ports in range. The listen string gives the public port, the connect string the
      target. */
  lemma VisibleMeans(name: string, d: Device, f: PortForward)
    ensures VisibleForward(name, d) == Some(f) <==>
            var listen, connect := Split(d.listen, ':'), Split(d.connect, ':');
            d.kind == "proxy" && |listen| == |connect| == 3 && listen[0] == connect[0] == f.protocol &&
            (f.protocol == "tcp" || f.protocol == "udp") && f.name == name &&
            Atoi(listen[2]) == Some(f.listenPort) && 1 <= f.listenPort <= 65535 &&
            Atoi(connect[2]) == Some(f.targetPort) && 1 <= f.targetPort <= 65535
  {
    hide Split, Atoi;
  }

  /** The device listens on every address of the host and connects to the container's. */
  lemma ProxyDeviceParts(protocol: string, listenPort: nat, address: string, targetPort: nat)
    requires ':' !in protocol && ':' !in address
    ensures var d := ProxyDevice(protocol, listenPort, address, targetPort);
            Split(d.listen, ':') == [protocol, "0.0.0.0", Itoa(listenPort)] &&
            Split(d.connect, ':') == [protocol, address, Itoa(targetPort)]
  {
    DigitsOnly(listenPort, ':');
    DigitsOnly(targetPort, ':');
    assert ':' !in "0.0.0.0";
    SplitThree(protocol, "0.0.0.0", Itoa(listenPort), ':');
    SplitThree(protocol, address, Itoa(targetPort), ':');
  }

  lemma EndpointReadsBack(protocol: string, address: string, port: nat)
    requires ValidProtocol(protocol) && ValidPort(port) && ':' !in address
    ensures ParseEndpoint(FormatEndpoint(protocol, address, port)) == Some(Endpoint(protocol, port))
  {
    DigitsOnly(port, ':');
    SplitThree(protocol, address, Itoa(port), ':');
    AtoiItoa(port);
  }

  lemma EndpointWithColon(protocol: string, address: string, port: nat)
    requires ':' in address
    ensures ParseEndpoint(FormatEndpoint(protocol, address, port)) == None
  {
    var s, a, z := FormatEndpoint(protocol, address, port), protocol + [':'], [':'] + Itoa(port);
    SplitCount(s, ':');
    assert s == a + address + z;
    assert multiset(s) == multiset(a) + multiset(address) + multiset(z);
    assert ':' in a && ':' in z;
  }

  /** Reading a printed endpoint gives protocol and port back exactly when the address holds no
      colon; with a colon (an IPv6 address) the device is invisible to Natbox. */
  lemma EndpointRoundTrip(protocol: string, address: string, port: nat)
    requires ValidProtocol(protocol) && ValidPort(port)
    ensures ParseEndpoint(FormatEndpoint(protocol, address, port)) ==
            if ':' in address then None else Some(Endpoint(protocol, port))
  {
    if ':' in address { EndpointWithColon(protocol, address, port); }
    else { EndpointReadsBack(protocol, address, port); }
  }

  /** The device Natbox writes is read back as the forward that was asked for. */
  lemma ProxyDeviceVisible(name: string, protocol: string, listenPort: nat, address: string, targetPort: nat)
    requires ValidProtocol(protocol) && ValidPort(listenPort) && ValidPort(targetPort)
    ensures VisibleForward(name, ProxyDevice(protocol, listenPort, address, targetPort)) ==
            if ':' in address then None else Some(PortForward(name, protocol, listenPort, targetPort))
  {
    assert ':' !in "0.0.0.0";
    EndpointRoundTrip(protocol, "0.0.0.0", listenPort);
    EndpointRoundTrip(protocol, address, targetPort);
  }

  lemma DeviceNameInjective(p: string, m: nat, q: string, n: nat)
    requires ValidProtocol(p) && ValidProtocol(q)
    ensures DeviceName(p, m) == DeviceName(q, n) <==> p == q && m == n
  {
    if DeviceName(p, m) == DeviceName(q, n) {
      var s, t := DeviceName(p, m), DeviceName(q, n);
      assert s[6..9] == p && t[6..9] == q;
      assert s[10..] == Itoa(m) && t[10..] == Itoa(n);
      ItoaInjective(m, n);
    }
  }

  // ---------------------------------------------------------------- listing

  predicate ForwardLe(a: PortForward, b: PortForward) {
    if a.listenPort == b.listenPort then StrLe(a.protocol, b.protocol) else a.listenPort < b.listenPort
  }

  lemma ForwardLePreorder()
    ensures TotalPreorder(ForwardLe)
  {
    StrLePreorder();
  }

  ghost function HoldersAmong(name: string, devices: map<string, Device>, keys: set<string>,
                              f: PortForward): set<string> {
    set d | d in keys && d in devices && VisibleForward(name, devices[d]) == Some(f)
  }

  /** The devices that stand for the forward f. */
  ghost function Holders(name: string, devices: map<string, Device>, f: PortForward): set<string> {
    HoldersAmong(name, devices, devices.Keys, f)
  }

  /** r lists every visible forward once for each device that stands for it, and is sorted. */
  ghost predicate ListsForwards(name: string, devices: map<string, Device>, r: seq<PortForward>) {
    SortedBy(r, ForwardLe) && forall f :: multiset(r)[f] == |Holders(name, devices, f)|
  }

  lemma HoldersStep(name: string, devices: map<string, Device>, keys: set<string>, k: string, f: PortForward)
    requires k !in keys && k in devices
    ensures |HoldersAmong(name, devices, keys + {k}, f)| ==
            |HoldersAmong(name, devices, keys, f)| + (if VisibleForward(name, devices[k]) == Some(f) then 1 else 0)
  {
    var old' := HoldersAmong(name, devices, keys, f);
    var new' := HoldersAmong(name, devices, keys + {k}, f);
    if VisibleForward(name, devices[k]) == Some(f) {
      assert new' == old' + {k};
    } else {
      assert new' == old';
    }
  }

  method PortForwardsFromDevices(name: string, devices: map<string, Device>) returns (r: seq<PortForward>)
    ensures ListsForwards(name, devices, r)
    ensures forall i, j | 0 <= i < j < |r| ::
              r[i].listenPort < r[j].listenPort ||
              (r[i].listenPort == r[j].listenPort && !StrLess(r[j].protocol, r[i].protocol))
  {
    hide VisibleForward, ForwardLe;
    r := [];
    var rest := devices.Keys;
    ghost var seen: set<string> := {};
    assert forall f :: HoldersAmong(name, devices, {}, f) == {};
    while rest != {}
      invariant seen !! rest && seen + rest == devices.Keys
      invariant forall f :: multiset(r)[f] == |HoldersAmong(name, devices, seen, f)|
      decreases |rest|
    {
      var k :| k in rest;
      forall f { HoldersStep(name, devices, seen, k, f); }
      rest, seen := rest - {k}, seen + {k};
      var visible := VisibleForward(name, devices[k]);
      if visible.Some? {
        r := r + [visible.value];
      }
    }
    assert seen == devices.Keys;
    ForwardLePreorder();
    ghost var unsorted := r;
    r := Sort(r, ForwardLe);
    assert forall f :: multiset(r)[f] == multiset(unsorted)[f];
    ForwardsOrdered(r);
  }

  lemma ForwardsOrdered(r: seq<PortForward>)
    requires SortedBy(r, ForwardLe)
    ensures forall i, j | 0 <= i < j < |r| ::
              r[i].listenPort < r[j].listenPort ||
              (r[i].listenPort == r[j].listenPort && !StrLess(r[j].protocol, r[i].protocol))
  {
    forall i, j | 0 <= i < j < |r|
      ensures r[i].listenPort < r[j].listenPort ||
              (r[i].listenPort == r[j].listenPort && !StrLess(r[j].protocol, r[i].protocol)) {
      assert ForwardLe(r[i], r[j]);
    }
  }

  /** What is listed is exactly what some device stands for. */
  lemma ListedIffVisible(name: string, devices: map<string, Device>, r: seq<PortForward>, f: PortForward)
    requires ListsForwards(name, devices, r)
    ensures f in r <==> exists d :: d in devices && VisibleForward(name, devices[d]) == Some(f)
  {
    var hs := Holders(name, devices, f);
    assert multiset(r)[f] == |hs|;
    if f in r {
      assert hs != {};
      var d :| d in hs;
    }
    if d :| d in devices && VisibleForward(name, devices[d]) == Some(f) {
      assert d in hs;
      assert |hs| > 0;
      assert f in multiset(r);
    }
  }

  /** Some listed forward has this protocol and listen port exactly when some device listens there. */
  lemma ListedIffListening(name: string, devices: map<string, Device>, r: seq<PortForward>, protocol: string, port: int)
    requires ListsForwards(name, devices, r)
    ensures (exists f :: f in r && f.protocol == protocol && f.listenPort == port) <==>
            (exists d :: d in devices && ListensOn(devices[d], protocol, port))
  {
    if f :| f in r && f.protocol == protocol && f.listenPort == port {
      ListedIffVisible(name, devices, r, f);
      var d :| d in devices && VisibleForward(name, devices[d]) == Some(f);
      assert ListensOn(devices[d], protocol, port);
    }
    if d :| d in devices && ListensOn(devices[d], protocol, port) {
      var f := VisibleForward(name, devices[d]).value;
      ListedIffVisible(name, devices, r, f);
      assert f in r && f.protocol == protocol && f.listenPort == port;
    }
  }

  /** No two devices listen on one (protocol, port). */
  ghost predicate DistinctKeys(devices: map<string, Device>) {
    forall d, e, protocol, port | d in devices && e in devices && ListensOn(devices[d], protocol, port) &&
    ListensOn(devices[e], protocol, port) ::
      d == e
  }

  /** With distinct listen keys the listing is a function of the devices: map order cannot show. */
  lemma ListingDetermined(name: string, devices: map<string, Device>, r: seq<PortForward>, s: seq<PortForward>)
    requires DistinctKeys(devices) && ListsForwards(name, devices, r) && ListsForwards(name, devices, s)
    ensures r == s
  {
    assert multiset(r) == multiset(s) by {
      forall f ensures multiset(r)[f] == multiset(s)[f] { assert multiset(r)[f] == |Holders(name, devices, f)|; }
    }
    ListingSeparated(name, devices, r);
    ListingSeparated(name, devices, s);
    SortedUnique(r, s, ForwardLe);
  }

  lemma ListingSeparated(name: string, devices: map<string, Device>, r: seq<PortForward>)
    requires DistinctKeys(devices) && ListsForwards(name, devices, r)
    ensures Separates(r, ForwardLe)
  {
    forall x, y | x in r && y in r && ForwardLe(x, y) && ForwardLe(y, x) ensures x == y {
      StrLessTotal(x.protocol, y.protocol);
      ListedIffVisible(name, devices, r, x);
      ListedIffVisible(name, devices, r, y);
      var d :| d in devices && VisibleForward(name, devices[d]) == Some(x);
      var e :| e in devices && VisibleForward(name, devices[e]) == Some(y);
      assert ListensOn(devices[d], x.protocol, x.listenPort) && ListensOn(devices[e], x.protocol, x.listenPort);
    }
  }

  lemma NewDeviceListed(name: string, devices: map<string, Device>, r: seq<PortForward>, s: seq<PortForward>,
                        k: string, p: Device, added: PortForward)
    requires k !in devices && VisibleForward(name, p) == Some(added)
    requires ListsForwards(name, devices, r) && ListsForwards(name, devices[k := p], s)
    ensures multiset(s) == multiset(r) + multiset{added} && devices[k := p] - {k} == devices
  {
    hide VisibleForward, SortedBy;
    var devices' := devices[k := p];
    assert devices'.Keys == devices.Keys + {k};
    forall f ensures multiset(s)[f] == (multiset(r) + multiset{added})[f] {
      HoldersStep(name, devices', devices.Keys, k, f);
      assert HoldersAmong(name, devices', devices.Keys, f) == Holders(name, devices, f);
      assert multiset(s)[f] == |Holders(name, devices', f)|;
    }
  }

  /** Adding a forward adds exactly it to the listing; removing the device restores the devices. */
  lemma AddThenList(name: string, devices: map<string, Device>, r: seq<PortForward>, s: seq<PortForward>,
                    protocol: string, listenPort: nat, address: string, targetPort: nat)
    requires ValidProtocol(protocol) && ValidPort(listenPort) && ValidPort(targetPort) && ':' !in address
    requires DeviceName(protocol, listenPort) !in devices
    requires ListsForwards(name, devices, r)
    requires ListsForwards(name, devices[
      DeviceName(protocol, listenPort) := ProxyDevice(protocol, listenPort, address, targetPort)], s)
    ensures multiset(s) == multiset(r) + multiset{PortForward(name, protocol, listenPort, targetPort)}
    ensures devices[DeviceName(protocol, listenPort) := ProxyDevice(protocol, listenPort, address, targetPort)]
            - {DeviceName(protocol, listenPort)} == devices
  {
    ProxyDeviceVisible(name, protocol, listenPort, address, targetPort);
    NewDeviceListed(name, devices, r, s, DeviceName(protocol, listenPort),
                    ProxyDevice(protocol, listenPort, address, targetPort),
                    PortForward(name, protocol, listenPort, targetPort));
  }
}
