/** Quota accounting over traces of traffic, counter resets and enforcement passes (policy.go). */
module Quota {
  import opened Prelude
  import opened Text
  import opened Incus
  import opened Store
  import opened AppState
  import opened Rfc3339
  import opened Policy
  import Runs

  /** Traffic moves both counters; a reset (a restart of the instance) puts them back to zero. */
  datatype Event = Traffic(rx: nat, tx: nat) | Reset

  /** The runtime's counters, and the bytes really moved since the policy was set. */
  datatype Meter = Meter(rx: nat, tx: nat, moved: nat)

  function After(m: Meter, e: Event): Meter {
    match e
    case Traffic(rx, tx) => Meter(m.rx + rx, m.tx + tx, m.moved + rx + tx)
    case Reset => Meter(0, 0, m.moved)
  }

  function AfterAll(m: Meter, events: seq<Event>): Meter {
    if events == [] then m else After(AfterAll(m, events[..|events| - 1]), events[|events| - 1])
  }

  /** The meter at the moment the policy was set: its counters are the baselines. */
  function AtUpdate(row: Row): Meter
    requires row.quotaRxBaseline >= 0 && row.quotaTxBaseline >= 0
  {
    Meter(row.quotaRxBaseline, row.quotaTxBaseline, 0)
  }

  /** What the two counters add to the charge, before the sum can wrap. */
  function Charge(row: Row, m: Meter): int {
    (if m.rx <= row.quotaRxBaseline then 0 else m.rx - row.quotaRxBaseline) +
    (if m.tx <= row.quotaTxBaseline then 0 else m.tx - row.quotaTxBaseline)
  }

  /** Counters and their charge fit `int64`. */
  predicate Fits(row: Row, m: Meter) {
    0 <= row.quotaRxBaseline && 0 <= row.quotaTxBaseline && m.rx < TWO_63 && m.tx < TWO_63 && Charge(row, m) < TWO_63
  }

  lemma UsedIsCharge(row: Row, m: Meter)
    requires Fits(row, m)
    ensures UsedBytes(row, m.rx, m.tx) == Charge(row, m)
  {
  }

  /** Whatever the trace, a policy is never charged more than the traffic since it was set. */
  lemma {:induction false} NeverOvercharged(row: Row, events: seq<Event>)
    requires row.quotaRxBaseline >= 0 && row.quotaTxBaseline >= 0
    ensures var m := AfterAll(AtUpdate(row), events);
            Charge(row, m) <= m.moved && (Fits(row, m) ==> UsedBytes(row, m.rx, m.tx) <= m.moved)
  {
    if events != [] { NeverOvercharged(row, events[..|events| - 1]); }
    var m := AfterAll(AtUpdate(row), events);
    if Fits(row, m) { UsedIsCharge(row, m); }
  }

  predicate NoReset(events: seq<Event>) {
    forall e | e in events :: e.Traffic?
  }

  /** Without a reset the charge is exactly the traffic since the update. */
  lemma {:induction false} ChargedExactly(row: Row, events: seq<Event>)
    requires row.quotaRxBaseline >= 0 && row.quotaTxBaseline >= 0 && NoReset(events)
    ensures var m := AfterAll(AtUpdate(row), events);
            Charge(row, m) == m.moved && m.rx >= row.quotaRxBaseline && m.tx >= row.quotaTxBaseline &&
            (Fits(row, m) ==> UsedBytes(row, m.rx, m.tx) == m.moved)
  {
    if events != [] {
      assert events[|events| - 1] in events;
      assert NoReset(events[..|events| - 1]);
      ChargedExactly(row, events[..|events| - 1]);
      assert AfterAll(AtUpdate(row), events) ==
             After(AfterAll(AtUpdate(row), events[..|events| - 1]), events[|events| - 1]);
    }
    var m := AfterAll(AtUpdate(row), events);
    if Fits(row, m) { UsedIsCharge(row, m); }
  }

  // ---------------------------------------------------------------- what resets hide

  function Volume(events: seq<Event>): nat {
    if events == [] then 0
    else
      var e := events[|events| - 1];
      Volume(events[..|events| - 1]) + if e.Traffic? then e.rx + e.tx else 0
  }

  lemma {:induction false} MovedAdds(m: Meter, a: seq<Event>, b: seq<Event>)
    ensures AfterAll(m, a + b).moved == AfterAll(m, a).moved + Volume(b)
  {
    if b == [] {
      assert a + b == a;
    } else {
      var c := b[..|b| - 1];
      assert (a + b)[..|a + b| - 1] == a + c;
      MovedAdds(m, a, c);
    }
  }

  function RxOf(events: seq<Event>): nat {
    if events == [] then 0
    else RxOf(events[..|events| - 1]) + if events[|events| - 1].Traffic? then events[|events| - 1].rx else 0
  }

  function TxOf(events: seq<Event>): nat {
    if events == [] then 0
    else TxOf(events[..|events| - 1]) + if events[|events| - 1].Traffic? then events[|events| - 1].tx else 0
  }

  /** The events after the last reset. */
  function Since(events: seq<Event>): (since: seq<Event>)
    ensures |since| <= |events| && since == events[|events| - |since|..]
  {
    if events == [] || events[|events| - 1].Reset? then []
    else Since(events[..|events| - 1]) + [events[|events| - 1]]
  }

  /** The events up to the last reset. */
  function Before(events: seq<Event>): seq<Event> {
    events[..|events| - |Since(events)|]
  }

  /** The traffic a policy is not charged for: none without a reset; otherwise all of it before the
      last reset, and of what each counter has seen since, what its baseline covers. */
  function Lost(row: Row, events: seq<Event>): nat
    requires row.quotaRxBaseline >= 0 && row.quotaTxBaseline >= 0
  {
    if NoReset(events) then 0
    else
      Volume(Before(events)) +
      Covered(RxOf(Since(events)), row.quotaRxBaseline) + Covered(TxOf(Since(events)), row.quotaTxBaseline)
  }

  function Covered(counted: nat, baseline: nat): nat {
    if counted <= baseline then counted else baseline
  }

  lemma {:induction false} CountersSince(m: Meter, events: seq<Event>)
    requires !NoReset(events)
    ensures AfterAll(m, events).rx == RxOf(Since(events)) && AfterAll(m, events).tx == TxOf(Since(events))
  {
    var before, last := events[..|events| - 1], events[|events| - 1];
    if last.Traffic? {
      assert exists e :: e in before && e.Reset? by {
        var e :| e in events && e.Reset?;
        assert events == before + [last];
      }
      CountersSince(m, before);
      assert (Since(before) + [last])[..|Since(before)|] == Since(before);
    }
  }

  lemma {:induction false} VolumeSums(events: seq<Event>)
    ensures Volume(events) == RxOf(events) + TxOf(events)
  {
    if events != [] { VolumeSums(events[..|events| - 1]); }
  }

  /** Every byte moved since the update is charged or lost, whatever the trace; so a policy is charged
      exactly what was moved if and only if nothing was lost. */
  lemma ChargedOrLost(row: Row, events: seq<Event>)
    requires row.quotaRxBaseline >= 0 && row.quotaTxBaseline >= 0
    ensures var m := AfterAll(AtUpdate(row), events);
            m.moved == Charge(row, m) + Lost(row, events) &&
            (Charge(row, m) == m.moved <==> NothingLost(row, events))
  {
    hide AfterAll, NoReset, Volume, RxOf, TxOf, Since, Before;
    if NoReset(events) {
      ChargedExactly(row, events);
    } else {
      CountersSince(AtUpdate(row), events);
      MovedSplit(row, events);
    }
  }

  lemma MovedSplit(row: Row, events: seq<Event>)
    requires row.quotaRxBaseline >= 0 && row.quotaTxBaseline >= 0
    ensures AfterAll(AtUpdate(row), events).moved == Volume(Before(events)) + RxOf(Since(events)) + TxOf(Since(events))
  {
    hide AfterAll, Volume, RxOf, TxOf, Since, Before;
    var before, since, m := Before(events), Since(events), AtUpdate(row);
    assert AfterAll(m, []) == m by { NothingAfter(m); }
    MovedAdds(m, [], before);
    assert [] + before == before by { NoPrefix(before); }
    MovedAdds(m, before, since);
    SplitAtReset(events);
    VolumeSums(since);
  }

  lemma NoPrefix(events: seq<Event>)
    ensures [] + events == events
  {
  }

  lemma SplitAtReset(events: seq<Event>)
    ensures Before(events) + Since(events) == events
  {
    hide Since;
    var k := |events| - |Since(events)|;
    assert events == events[..k] + events[k..];
  }

  lemma NothingAfter(m: Meter)
    ensures AfterAll(m, []) == m
  {
  }

  /** No reset; or nothing moved before the last one, and no counter with a baseline has moved
      since. */
  predicate NothingLost(row: Row, events: seq<Event>) {
    NoReset(events) ||
    (Volume(Before(events)) == 0 &&
     (RxOf(Since(events)) == 0 || row.quotaRxBaseline == 0) && (TxOf(Since(events)) == 0 || row.quotaTxBaseline == 0))
  }

  /** n rounds of traffic, each followed by a counter reset. */
  function Rounds(g: nat, n: nat): seq<Event> {
    if n == 0 then [] else Rounds(g, n - 1) + [Traffic(g, 0), Reset]
  }

  /** The documented bound has no room for resets: any amount can pass uncharged when the counters are
      reset between passes. */
  lemma {:induction false} ResetsHideTraffic(row: Row, g: nat, n: nat)
    requires row.quotaRxBaseline >= 0 && row.quotaTxBaseline >= 0
    ensures var m := AfterAll(AtUpdate(row), Rounds(g, n));
            m.moved == n * g && Charge(row, m) == 0 && m.rx <= row.quotaRxBaseline && m.tx <= row.quotaTxBaseline
  {
    hide Charge, AfterAll;
    if n == 0 {
      NothingAfter(AtUpdate(row));
    } else {
      ResetsHideTraffic(row, g, n - 1);
      RoundAdds(AtUpdate(row), g, n);
      OneMoreTime(n, g);
    }
    NothingCharged(row, AfterAll(AtUpdate(row), Rounds(g, n)));
  }

  lemma NothingCharged(row: Row, m: Meter)
    requires row.quotaRxBaseline >= m.rx && row.quotaTxBaseline >= m.tx
    ensures Charge(row, m) == 0
  {
  }

  lemma OneMoreTime(n: nat, g: nat)
    requires n > 0
    ensures n * g == (n - 1) * g + g
  {
  }

  lemma RoundAdds(m: Meter, g: nat, n: nat)
    requires n > 0
    ensures AfterAll(m, Rounds(g, n)) == Meter(0, 0, AfterAll(m, Rounds(g, n - 1)).moved + g)
  {
    var before := Rounds(g, n - 1);
    var all := before + [Traffic(g, 0), Reset];
    assert all[..|all| - 1] == before + [Traffic(g, 0)];
    assert (before + [Traffic(g, 0)])[..|before|] == before;
    assert AfterAll(m, all) == After(After(AfterAll(m, before), Traffic(g, 0)), Reset);
  }

  // ---------------------------------------------------------------- passes

  /** The events of the first k intervals between passes. */
  function Joined(intervals: seq<seq<Event>>, k: nat): seq<Event>
    requires k <= |intervals|
  {
    if k == 0 then [] else Joined(intervals, k - 1) + intervals[k - 1]
  }

  /** The meter at pass k. */
  function MeterAt(row: Row, intervals: seq<seq<Event>>, k: nat): Meter
    requires row.quotaRxBaseline >= 0 && row.quotaTxBaseline >= 0 && k <= |intervals|
  {
    AfterAll(AtUpdate(row), Joined(intervals, k))
  }

  /** The container as a pass finds it shows the meter's counters. */
  ghost predicate Shows(inst: Instance, m: Meter) {
    RxBytes(inst) == m.rx && TxBytes(inst) == m.tx
  }

  /** A pass finds a running, unexpired container due exactly when what was moved, less what was lost,
      has reached the quota. */
  lemma DueAtQuota(row: Row, events: seq<Event>, inst: Instance, now: int)
    requires row.quotaBytes > 0 && row.quotaRxBaseline >= 0 && row.quotaTxBaseline >= 0
    requires var m := AfterAll(AtUpdate(row), events); Fits(row, m) && Shows(inst, m)
    requires Running(inst) && !Expired(row, now)
    ensures DueReason(row, inst, now) != NoReason <==>
            AfterAll(AtUpdate(row), events).moved - Lost(row, events) >= row.quotaBytes
  {
    hide Lost, NothingLost;
    ChargedOrLost(row, events);
    UsedIsCharge(row, AfterAll(AtUpdate(row), events));
  }

  /** The overshoot: if less than the quota was charged at pass k - 1, then at pass k less was moved
      than the quota, the traffic of the interval between them and what had been lost. */
  lemma Overshoot(row: Row, intervals: seq<seq<Event>>, k: nat)
    requires row.quotaRxBaseline >= 0 && row.quotaTxBaseline >= 0 && 0 < k <= |intervals|
    requires Charge(row, MeterAt(row, intervals, k - 1)) < row.quotaBytes
    ensures MeterAt(row, intervals, k).moved <
            row.quotaBytes + Volume(intervals[k - 1]) + Lost(row, Joined(intervals, k - 1))
  {
    ChargedOrLost(row, Joined(intervals, k - 1));
    MovedAdds(AtUpdate(row), Joined(intervals, k - 1), intervals[k - 1]);
  }

  lemma {:induction false} AfterAllJoin(m: Meter, a: seq<Event>, b: seq<Event>)
    ensures AfterAll(m, a + b) == AfterAll(AfterAll(m, a), b)
  {
    if b == [] {
      assert a + b == a;
    } else {
      assert (a + b)[..|a + b| - 1] == a + b[..|b| - 1];
      AfterAllJoin(m, a, b[..|b| - 1]);
    }
  }

  /** An instance whose one interface has the meter's counters. */
  function Showing(m: Meter): map<string, Counters> {
    map["eth0" := Counters(m.rx, m.tx)]
  }

  lemma ShowingShows(inst: Instance, m: Meter)
    requires inst.networks == Showing(m)
    ensures Shows(inst, m)
  {
    var names := inst.networks.Keys - {"lo"};
    assert names == {"eth0"};
    TotalStep(inst.networks, names, Incus.Received, "eth0");
    TotalStep(inst.networks, names, Incus.Sent, "eth0");
    assert names - {"eth0"} == {};
  }

  /** What pass k charges: what was moved, less what was lost. */
  function ChargedAt(row: Row, intervals: seq<seq<Event>>, k: nat): int
    requires row.quotaRxBaseline >= 0 && row.quotaTxBaseline >= 0 && k <= |intervals|
  {
    MeterAt(row, intervals, k).moved - Lost(row, Joined(intervals, k))
  }

  /** The container and its row at pass k, not stopped so far. */
  ghost predicate Metering(e: Snap, name: string, row: Row, intervals: seq<seq<Event>>, k: nat)
    requires row.quotaRxBaseline >= 0 && row.quotaTxBaseline >= 0 && k <= |intervals|
  {
    && name in e.insts && name in e.rows && e.rows[name] == row
    && Running(e.insts[name]) && Shows(e.insts[name], MeterAt(row, intervals, k))
    && forall i | 0 <= i <= k :: ChargedAt(row, intervals, i) < row.quotaBytes
  }

  /** After the given number of passes the container is stopped, by the first pass that charged the
      quota, or has come through all of them; and less was moved than the quota, the traffic of the
      last interval and what had been lost before it. */
  ghost predicate StoppedAtQuota(e: Snap, name: string, row: Row, intervals: seq<seq<Event>>, passes: nat)
    requires row.quotaRxBaseline >= 0 && row.quotaTxBaseline >= 0 && passes <= |intervals|
  {
    && name in e.insts && name in e.rows
    && (forall k | 0 <= k < passes :: ChargedAt(row, intervals, k) < row.quotaBytes)
    && (if Running(e.insts[name]) then passes == |intervals| && ChargedAt(row, intervals, passes) < row.quotaBytes
        else ChargedAt(row, intervals, passes) >= row.quotaBytes && StoppedRow(row, e.rows[name]))
    && (passes > 0 ==>
          MeterAt(row, intervals, passes).moved <
          row.quotaBytes + Volume(intervals[passes - 1]) + Lost(row, Joined(intervals, passes - 1)))
  }

  /** One pass over a running container: it is stopped exactly when the quota is charged. */
  lemma PassAtQuota(s: Snap, e: Snap, name: string, row: Row, intervals: seq<seq<Event>>, k: nat, now: int)
    requires row.quotaBytes > 0 && row.quotaRxBaseline >= 0 && row.quotaTxBaseline >= 0 && 0 < k <= |intervals|
    requires Enforced(s, e, now) && !Expired(row, now) && Fits(row, MeterAt(row, intervals, k))
    requires name in s.insts && name in s.rows && s.rows[name] == row
    requires Running(s.insts[name]) && Shows(s.insts[name], MeterAt(row, intervals, k))
    requires forall i | 0 <= i < k :: ChargedAt(row, intervals, i) < row.quotaBytes
    ensures name in e.insts && name in e.rows
    ensures Running(e.insts[name]) ==> Metering(e, name, row, intervals, k)
    ensures !Running(e.insts[name]) ==> StoppedAtQuota(e, name, row, intervals, k)
  {
    hide Fits, Shows, Lost, DueReason, Charge, Volume, MeterAt, Enforced, StoppedRow, Expired, AfterAll, NoReset;
    PassOnOne(s, e, now, name);
    MeterMeans(row, intervals, k);
    DueAtQuota(row, Joined(intervals, k), s.insts[name], now);
    ChargeIsCharged(row, intervals, k - 1);
    Overshoot(row, intervals, k);
  }

  /** A pass without failures stops a container exactly if it is due. */
  lemma PassOnOne(s: Snap, e: Snap, now: int, name: string)
    requires Enforced(s, e, now) && name in s.insts && name in s.rows
    ensures name in e.insts && name in e.rows
    ensures if DueReason(s.rows[name], s.insts[name], now) != NoReason
            then !Running(e.insts[name]) && StoppedRow(s.rows[name], e.rows[name])
            else e.insts[name] == s.insts[name] && e.rows[name] == s.rows[name]
  {
    hide DueReason;
    assert name in DueNames(s, now) <==> DueReason(s.rows[name], s.insts[name], now) != NoReason;
    if name in DueNames(s, now) { assert PolicyStopped(s, e, name); }
  }

  lemma MeterMeans(row: Row, intervals: seq<seq<Event>>, k: nat)
    requires row.quotaRxBaseline >= 0 && row.quotaTxBaseline >= 0 && k <= |intervals|
    ensures MeterAt(row, intervals, k) == AfterAll(AtUpdate(row), Joined(intervals, k))
  {
  }

  lemma ChargeIsCharged(row: Row, intervals: seq<seq<Event>>, k: nat)
    requires row.quotaRxBaseline >= 0 && row.quotaTxBaseline >= 0 && k <= |intervals|
    ensures Charge(row, MeterAt(row, intervals, k)) == ChargedAt(row, intervals, k)
  {
    ChargedOrLost(row, Joined(intervals, k));
  }

  /** The counters and the charge fit `int64` at every pass. */
  predicate FitsThroughout(row: Row, intervals: seq<seq<Event>>)
    requires row.quotaRxBaseline >= 0 && row.quotaTxBaseline >= 0
  {
    forall k | 0 <= k <= |intervals| :: Fits(row, MeterAt(row, intervals, k))
  }

  /** The counters move to what m shows, then a pass runs. s: when the metering began. */
  method MeterPass(a: App, name: string, row: Row, intervals: seq<seq<Event>>, k: nat, m: Meter, now: int,
                   ghost s: Snap)
    requires row.quotaBytes > 0 && row.quotaRxBaseline >= 0 && row.quotaTxBaseline >= 0 && k < |intervals|
    requires m == MeterAt(row, intervals, k + 1) && Fits(row, m) && !Expired(row, now)
    requires Later(s, a.Now()) && Restorable(a.store.rows) && name in a.client.insts
    requires FaultFree(s, a.Now()) ==> Metering(a.Now(), name, row, intervals, k)
    modifies a.client`insts, a.client`faults, a.store`rows, a.store`faults, a.store`audit, a.store`auditFaults
    ensures Later(s, a.Now()) && Restorable(a.store.rows) && name in a.client.insts
    ensures FaultFree(s, a.Now()) ==>
              if Running(a.client.insts[name]) then Metering(a.Now(), name, row, intervals, k + 1)
              else StoppedAtQuota(a.Now(), name, row, intervals, k + 1)
  {
    hide PortsUnique, Restorable, ValidLog, PassResult, Enforced, Metering, StoppedAtQuota, Shows, Expired, Fits,
      AfterAll, MeterAt, Keyed, Running;
    ghost var before := a.Now();
    Runs.Traffic(a.client, map[name := Showing(m)]);
    ShowingShows(a.client.insts[name], m);
    ghost var mid := a.Now();
    Runs.KeyedTable(mid.rows);
    EnforcePass(a, now);
    Runs.PassLater(mid, a.Now(), now);
    Runs.PassKeeps(mid, a.Now(), now);
    SameNames(mid, a.Now(), now, name);
    if FaultFree(s, a.Now()) {
      PassFree(mid, a.Now(), now);
      StillMetering(before, mid, name, row, intervals, k);
      PassAtQuota(mid, a.Now(), name, row, intervals, k + 1, now);
    }
  }

  /** Real passes over a container running under a quota, its counters moving in between, until one
      stops it. */
  method PassesUntilStopped(a: App, name: string, intervals: seq<seq<Event>>, times: seq<int>) returns (passes: nat)
    requires Restorable(a.store.rows) && name in a.store.rows && name in a.client.insts && Running(a.client.insts[name])
    requires var row := a.store.rows[name];
             row.quotaBytes > 0 && row.quotaRxBaseline >= 0 && row.quotaTxBaseline >= 0 &&
             Shows(a.client.insts[name], AtUpdate(row)) && FitsThroughout(row, intervals) &&
             |times| == |intervals| && forall t | t in times :: !Expired(row, t)
    modifies a.client`insts, a.client`faults, a.store`rows, a.store`faults, a.store`audit, a.store`auditFaults
    ensures Later(old(a.Now()), a.Now()) && passes <= |intervals|
    ensures FaultFree(old(a.Now()), a.Now()) ==>
              StoppedAtQuota(a.Now(), name, old(a.store.rows)[name], intervals, passes)
  {
    hide Restorable, ValidLog, Metering, StoppedAtQuota, Shows, Expired, Fits, AfterAll, MeterAt, Running;
    ghost var s := a.Now();
    var row := a.store.rows[name];
    var m := AtUpdate(row);
    MeteringBegins(s, name, row, intervals);
    for k := 0 to |intervals|
      invariant Later(s, a.Now()) && Restorable(a.store.rows) && name in a.client.insts
      invariant m == MeterAt(row, intervals, k)
      invariant FaultFree(s, a.Now()) ==> Metering(a.Now(), name, row, intervals, k)
    {
      m := AfterAll(m, intervals[k]);
      MeterStep(row, intervals, k);
      assert times[k] in times && Fits(row, MeterAt(row, intervals, k + 1));
      MeterPass(a, name, row, intervals, k, m, times[k], s);
      if !Running(a.client.insts[name]) { return k + 1; }
    }
    passes := |intervals|;
    if FaultFree(s, a.Now()) { MeteringEnds(a.Now(), name, row, intervals); }
  }

  lemma MeteringBegins(s: Snap, name: string, row: Row, intervals: seq<seq<Event>>)
    requires row.quotaBytes > 0 && row.quotaRxBaseline >= 0 && row.quotaTxBaseline >= 0
    requires name in s.insts && name in s.rows && s.rows[name] == row && Running(s.insts[name]) &&
             Shows(s.insts[name], AtUpdate(row))
    ensures Metering(s, name, row, intervals, 0) && MeterAt(row, intervals, 0) == AtUpdate(row)
  {
    assert MeterAt(row, intervals, 0) == AtUpdate(row);
    assert Lost(row, []) == 0;
  }

  lemma MeterStep(row: Row, intervals: seq<seq<Event>>, k: nat)
    requires row.quotaRxBaseline >= 0 && row.quotaTxBaseline >= 0 && k < |intervals|
    ensures AfterAll(MeterAt(row, intervals, k), intervals[k]) == MeterAt(row, intervals, k + 1)
  {
    AfterAllJoin(AtUpdate(row), Joined(intervals, k), intervals[k]);
  }

  lemma SameNames(s: Snap, e: Snap, now: int, name: string)
    requires PassResult(s, e, now) && name in s.insts
    ensures name in e.insts
  {
  }

  lemma PassFree(s: Snap, e: Snap, now: int)
    requires PassResult(s, e, now) && FaultFree(s, e) && Restorable(s.rows)
    ensures Enforced(s, e, now)
  {
    hide Enforced, Restorable;
  }

  lemma StillMetering(before: Snap, mid: Snap, name: string, row: Row, intervals: seq<seq<Event>>, k: nat)
    requires row.quotaRxBaseline >= 0 && row.quotaTxBaseline >= 0 && k < |intervals|
    requires Metering(before, name, row, intervals, k) && mid.rows == before.rows && name in mid.insts
    requires mid.insts[name].status == before.insts[name].status
    ensures name in mid.rows && mid.rows[name] == row && Running(mid.insts[name])
    ensures forall i | 0 <= i < k + 1 :: ChargedAt(row, intervals, i) < row.quotaBytes
  {
  }

  lemma MeteringEnds(e: Snap, name: string, row: Row, intervals: seq<seq<Event>>)
    requires row.quotaRxBaseline >= 0 && row.quotaTxBaseline >= 0 && Metering(e, name, row, intervals, |intervals|)
    ensures StoppedAtQuota(e, name, row, intervals, |intervals|)
  {
    hide Lost, Charge, Volume, MeterAt;
    if |intervals| > 0 {
      ChargeIsCharged(row, intervals, |intervals| - 1);
      Overshoot(row, intervals, |intervals|);
    }
  }

  /** The row a policy update leaves, as far as metering sees it. */
  ghost function Metered(row: Row, inst: Instance, quota: int): Row {
    row.(quotaBytes := quota, quotaRxBaseline := RxBytes(inst), quotaTxBaseline := TxBytes(inst))
  }

  /** The expiry set with the quota has not come at this time. */
  predicate NotYet(text: string, now: int) {
    var stored := StampOf(ReadExpiry(text));
    stored.Instant? ==> now < stored.nanos
  }

  /** The soft limit, from the policy update on: without failures, the container is stopped by the
      first pass that charges the quota, and by no other; the excess is bounded by the traffic of one
      interval and what resets had hidden before it. row: what the update stored. */
  method SoftLimit(a: App, name: string, quota: int, expiry: string, intervals: seq<seq<Event>>, times: seq<int>)
    returns (ok: bool, passes: nat, ghost row: Row)
    requires Restorable(a.store.rows) && name in a.store.rows && name in a.client.insts && Running(a.client.insts[name])
    requires quota > 0 && 0 <= RxBytes(a.client.insts[name]) < TWO_63 && 0 <= TxBytes(a.client.insts[name]) < TWO_63
    requires FitsThroughout(Metered(a.store.rows[name], a.client.insts[name], quota), intervals)
    requires Blank(expiry) || ReadDateTime(TrimSpace(expiry)).Some?
    requires |times| == |intervals| && forall t | t in times :: NotYet(expiry, t)
    modifies a.client`insts, a.client`faults, a.store`rows, a.store`faults, a.store`audit, a.store`auditFaults
    ensures Later(old(a.Now()), a.Now()) && passes <= |intervals|
    ensures FaultFree(old(a.Now()), a.Now()) ==>
              ok && PolicySet(old(a.store.rows)[name], old(a.client.insts)[name], quota, expiry, row) &&
              StoppedAtQuota(a.Now(), name, row, intervals, passes)
  {
    hide PortsUnique, Restorable, ValidLog, StoppedAtQuota, FormatExpiry, Fits, AfterAll, Lost, ReadExpiry,
      ReadDateTime, TrimSpace, DateTime, Blank;
    ghost var s := a.Now();
    passes := 0;
    row := a.store.rows[name];
    Runs.KeyedTable(s.rows);
    NamesValid(s.rows, name);
    ok := UpdatePolicy(a, name, quota, expiry);
    if !ok { return; }
    row := a.store.rows[name];
    Runs.PolicyKeeps(s, a.Now(), name, quota, expiry);
    UpdateMeters(s.rows[name], a.client.insts[name], quota, expiry, row, intervals, times);
    passes := PassesUntilStopped(a, name, intervals, times);
  }

  lemma UpdateMeters(before: Row, inst: Instance, quota: int, expiry: string, row: Row, intervals: seq<seq<Event>>,
                     times: seq<int>)
    requires PolicySet(before, inst, quota, expiry, row)
    requires 0 <= RxBytes(inst) < TWO_63 && 0 <= TxBytes(inst) < TWO_63
    requires FitsThroughout(Metered(before, inst, quota), intervals)
    requires forall t | t in times :: NotYet(expiry, t)
    ensures Shows(inst, AtUpdate(row)) && FitsThroughout(row, intervals) && forall t | t in times :: !Expired(row, t)
  {
    hide FormatExpiry, ReadExpiry;
    var probe := Metered(before, inst, quota);
    assert AtUpdate(probe) == AtUpdate(row);
    forall k | 0 <= k <= |intervals| ensures Fits(row, MeterAt(row, intervals, k)) {
      assert Fits(probe, MeterAt(probe, intervals, k));
    }
  }
}
