/** Public ports under concurrency. Any number of handlers and background passes run at once; each
    takes `mutationMu`, reads and changes devices in separate commands, and releases it. One step
    below is one lock operation or one runtime command, and steps of different threads interleave
    freely. Handlers that only read take no step here: they change nothing. */
module PortProtocol {
  import opened Prelude
  import opened Text
  import opened Endpoints
  import opened Incus

  type Thread = nat

  datatype Request = Request(name: string, protocol: string, listenPort: int, targetPort: int)

  /** Where a thread stands inside its locked section. */
  datatype Phase =
    | Ready
    | OwnChecked(req: Request)
    | Scanning(req: Request, rows: seq<Listed>, next: nat)

  /** sections: the threads between `Lock` and `Unlock`, with their phase. */
  datatype State = State(insts: map<string, Instance>, lock: Option<Thread>, sections: map<Thread, Phase>)

  datatype Step =
    | Acquire(t: Thread)
    | Release(t: Thread)
    | ListOwn(t: Thread, req: Request)
    | ListAll(t: Thread, rows: seq<Listed>)
    | ListOther(t: Thread)
    | GiveUp(t: Thread)
    | DeviceAdd(t: Thread)
    | DeviceRemove(t: Thread, name: string, device: string)
    | Init(t: Thread, name: string)
    | Delete(t: Thread, name: string)
    | Drift(insts: map<string, Instance>)

  ghost predicate RequestOk(r: Request) {
    ValidName(r.name) && ValidProtocol(r.protocol) && ValidPort(r.listenPort) && ValidPort(r.targetPort)
  }

  function AddressIn(rows: seq<Listed>, name: string): string {
    if rows == [] then ""
    else if rows[0].name == name then rows[0].inst.ipv4
    else AddressIn(rows[1..], name)
  }

  /** One step. With `mutex` false the lock would be granted to anyone who asks. */
  ghost predicate Next(s: State, step: Step, s': State, mutex: bool) {
    match step
    case Acquire(t) =>
      t !in s.sections && (mutex ==> s.lock == None) &&
      s' == s.(lock := Some(t), sections := s.sections[t := Ready])
    case Release(t) =>
      t in s.sections && s.sections[t].Ready? &&
      s' == s.(lock := None, sections := s.sections - {t})
    case ListOwn(t, req) =>
      t in s.sections && s.sections[t].Ready? &&
      RequestOk(req) && req.name in s.insts && !Holds(s.insts[req.name], req.protocol, req.listenPort) &&
      s' == s.(sections := s.sections[t := OwnChecked(req)])
    case ListAll(t, rows) =>
      t in s.sections && s.sections[t].OwnChecked? && IsListing(s.insts, rows) &&
      s' == s.(sections := s.sections[t := Scanning(s.sections[t].req, rows, 0)])
    case ListOther(t) =>
      t in s.sections && s.sections[t].Scanning? && s.sections[t].next < |s.sections[t].rows| &&
      (var Scanning(req, rows, next) := s.sections[t];
       (rows[next].name == req.name ||
        (rows[next].name in s.insts && !Holds(s.insts[rows[next].name], req.protocol, req.listenPort))) &&
       s' == s.(sections := s.sections[t := Scanning(req, rows, next + 1)]))
    case GiveUp(t) =>
      t in s.sections && s' == s.(sections := s.sections[t := Ready])
    case DeviceAdd(t) =>
      t in s.sections && s.sections[t].Scanning? && s.sections[t].next == |s.sections[t].rows| &&
      (var Scanning(req, rows, next) := s.sections[t];
       RequestOk(req) && req.name in s.insts && AddressIn(rows, req.name) != "" &&
       DeviceName(req.protocol, req.listenPort) !in s.insts[req.name].devices &&
       s' == s.(insts := WithForward(s.insts, req.name, req.protocol, req.listenPort, AddressIn(rows, req.name),
                                     req.targetPort),
                sections := s.sections[t := Ready]))
    case DeviceRemove(t, name, device) =>
      t in s.sections && s.sections[t].Ready? && name in s.insts &&
      s' == s.(insts := s.insts[name := s.insts[name].(devices := s.insts[name].devices - {device})])
    case Init(t, name) =>
      t in s.sections && s.sections[t].Ready? && name !in s.insts && s' == s.(insts := s.insts[name := FRESH])
    case Delete(t, name) =>
      t in s.sections && s.sections[t].Ready? && s' == s.(insts := s.insts - {name})
    case Drift(insts) =>
      SameDevices(s.insts, insts) && s' == s.(insts := insts)
  }

  /** What a thread inside its section may rely on. */
  ghost predicate PhaseHolds(insts: map<string, Instance>, phase: Phase) {
    match phase
    case Ready => true
    case OwnChecked(req) =>
      RequestOk(req) && req.name in insts && !Holds(insts[req.name], req.protocol, req.listenPort)
    case Scanning(req, rows, next) =>
      RequestOk(req) && req.name in insts && !Holds(insts[req.name], req.protocol, req.listenPort) &&
      next <= |rows| &&
      (forall n | n in insts :: exists i :: 0 <= i < |rows| && rows[i].name == n) &&
      (forall i | 0 <= i < next :: rows[i].name in insts ==> !Holds(insts[rows[i].name], req.protocol, req.listenPort))
  }

  /** The mutex has one holder, who is the one thread inside a section. */
  ghost predicate Inv(s: State) {
    s.sections.Keys == (if s.lock.None? then {} else {s.lock.value}) &&
    forall t | t in s.sections :: PhaseHolds(s.insts, s.sections[t])
  }

  /** Two containers hold one visible public port. */
  ghost predicate Clash(insts: map<string, Instance>, m: string, n: string, protocol: string, port: int) {
    m != n && m in insts && n in insts && Holds(insts[m], protocol, port) && Holds(insts[n], protocol, port)
  }

  /** Every clash after was a clash before. */
  ghost predicate NoNewClash(before: map<string, Instance>, after: map<string, Instance>) {
    forall m, n, protocol, port | Clash(after, m, n, protocol, port) :: Clash(before, m, n, protocol, port)
  }

  /** A step of `AddPortForward` lands on a port nobody holds, as if the whole call were atomic. */
  ghost predicate AtomicAdd(s: State, step: Step, s': State) {
    step.DeviceAdd? && step.t in s.sections && s.sections[step.t].Scanning? ==>
      var req := s.sections[step.t].req;
      var address := AddressIn(s.sections[step.t].rows, req.name);
      RequestOk(req) && req.name in s.insts && address != "" &&
      FreeEverywhere(s.insts, req.protocol, req.listenPort) &&
      DeviceName(req.protocol, req.listenPort) !in s.insts[req.name].devices &&
      s'.insts == WithForward(s.insts, req.name, req.protocol, req.listenPort, address, req.targetPort)
  }

  /** A finished scan has covered every container. */
  lemma ScannedAll(insts: map<string, Instance>, phase: Phase)
    requires phase.Scanning? && PhaseHolds(insts, phase) && phase.next == |phase.rows|
    ensures FreeEverywhere(insts, phase.req.protocol, phase.req.listenPort)
  {
    forall n | n in insts ensures !Holds(insts[n], phase.req.protocol, phase.req.listenPort) {
      var i :| 0 <= i < |phase.rows| && phase.rows[i].name == n;
    }
  }

  lemma DriftKeeps(s: State, step: Step, s': State)
    requires Inv(s) && step.Drift? && Next(s, step, s', true)
    ensures Inv(s') && NoNewClash(s.insts, s'.insts)
  {
    SameDevicesSameHolds(s.insts, s'.insts);
    forall t | t in s'.sections ensures PhaseHolds(s'.insts, s'.sections[t]) {
      assert PhaseHolds(s.insts, s.sections[t]);
    }
  }

  lemma DeviceAddKeeps(s: State, step: Step, s': State)
    requires Inv(s) && step.DeviceAdd? && Next(s, step, s', true)
    ensures Inv(s') && NoNewClash(s.insts, s'.insts) && AtomicAdd(s, step, s')
  {
    var Scanning(req, rows, next) := s.sections[step.t];
    assert PhaseHolds(s.insts, s.sections[step.t]);
    ScannedAll(s.insts, s.sections[step.t]);
    forall m, n, p, q | Clash(s'.insts, m, n, p, q) ensures Clash(s.insts, m, n, p, q) {
      AddedHolds(s.insts[req.name], req.protocol, req.listenPort, AddressIn(rows, req.name), req.targetPort, p, q);
    }
  }

  lemma DeviceRemoveKeeps(s: State, step: Step, s': State)
    requires Inv(s) && step.DeviceRemove? && Next(s, step, s', true)
    ensures Inv(s') && NoNewClash(s.insts, s'.insts)
  {
    forall m, n, p, q | Clash(s'.insts, m, n, p, q) ensures Clash(s.insts, m, n, p, q) {
      if step.name in {m, n} { RemovedHolds(s.insts[step.name], step.device, p, q); }
    }
  }

  lemma InitKeeps(s: State, step: Step, s': State)
    requires Inv(s) && step.Init? && Next(s, step, s', true)
    ensures Inv(s') && NoNewClash(s.insts, s'.insts)
  {
    assert s'.insts[step.name].devices == map[];
  }

  /** Lock operations and reads change no instance. */
  lemma SectionKeeps(s: State, step: Step, s': State)
    requires Inv(s) && Next(s, step, s', true)
    requires step.Acquire? || step.Release? || step.ListOwn? || step.ListAll? || step.ListOther? || step.GiveUp?
    ensures Inv(s') && s'.insts == s.insts
  {
    hide Holds, RequestOk;
  }

  lemma DeleteKeeps(s: State, step: Step, s': State)
    requires Inv(s) && step.Delete? && Next(s, step, s', true)
    ensures Inv(s') && NoNewClash(s.insts, s'.insts)
  {
    hide Holds, RequestOk;
  }

  /** Every step of every thread keeps the invariant and makes no two containers share a port. */
  lemma StepKeeps(s: State, step: Step, s': State)
    requires Inv(s) && Next(s, step, s', true)
    ensures Inv(s') && NoNewClash(s.insts, s'.insts) && AtomicAdd(s, step, s')
  {
    hide Inv, Next, Clash;
    match step {
      case Drift(_) => DriftKeeps(s, step, s');
      case DeviceAdd(_) => DeviceAddKeeps(s, step, s');
      case DeviceRemove(_, _, _) => DeviceRemoveKeeps(s, step, s');
      case Init(_, _) => InitKeeps(s, step, s');
      case Delete(_, _) => DeleteKeeps(s, step, s');
      case _ => SectionKeeps(s, step, s');
    }
  }

  /** A run: each state follows from the one before. */
  ghost predicate Run(states: seq<State>, steps: seq<Step>, mutex: bool) {
    |states| == |steps| + 1 && forall k | 0 <= k < |steps| :: Next(states[k], steps[k], states[k + 1], mutex)
  }

  ghost predicate Idle(s: State) {
    s.lock == None && s.sections == map[]
  }

  lemma {:induction false} ReachedState(states: seq<State>, steps: seq<Step>, k: nat)
    requires Run(states, steps, true) && Idle(states[0]) && k < |states|
    ensures Inv(states[k]) && NoNewClash(states[0].insts, states[k].insts)
  {
    if k > 0 {
      ReachedState(states, steps, k - 1);
      StepKeeps(states[k - 1], steps[k - 1], states[k - 1 + 1]);
    }
  }

  /** Over every interleaving, of any length, a clash in any reached state was there at the start,
      and every port added on the way was free everywhere at the moment it was added. */
  lemma RunAddsNoClash(states: seq<State>, steps: seq<Step>)
    requires Run(states, steps, true) && Idle(states[0])
    ensures forall k | 0 <= k < |states| :: NoNewClash(states[0].insts, states[k].insts)
    ensures forall k | 0 <= k < |steps| :: AtomicAdd(states[k], steps[k], states[k + 1])
  {
    forall k | 0 <= k < |states| ensures NoNewClash(states[0].insts, states[k].insts) {
      ReachedState(states, steps, k);
    }
    forall k | 0 <= k < |steps| ensures AtomicAdd(states[k], steps[k], states[k + 1]) {
      ReachedState(states, steps, k);
      StepKeeps(states[k], steps[k], states[k + 1]);
    }
  }

  /** Ports that are unique at the start are unique in every reachable state. */
  lemma PortsStayUnique(states: seq<State>, steps: seq<Step>)
    requires Run(states, steps, true) && Idle(states[0]) && PortsUnique(states[0].insts)
    ensures forall k | 0 <= k < |states| :: PortsUnique(states[k].insts)
  {
    RunAddsNoClash(states, steps);
    forall k, m, n, p, q
      | 0 <= k < |states| && m in states[k].insts && n in states[k].insts && Holds(states[k].insts[m], p, q) &&
      Holds(states[k].insts[n], p, q)
      ensures m == n
    {
      assert m != n ==> Clash(states[k].insts, m, n, p, q);
      assert Clash(states[k].insts, m, n, p, q) ==> Clash(states[0].insts, m, n, p, q);
    }
  }

  // ---------------------------------------------------------------- why the mutex

  const WEB: Request := Request("a", "tcp", 80, 80)
  const RACE: Request := Request("b", "tcp", 80, 80)

  const BOX := Instance("Running", "10.0.0.2", map[], map[])
  const BOXES := map["a" := BOX, "b" := BOX]
  const ROWS := [Listed("a", BOX), Listed("b", BOX)]

  function Twin(phaseA: Phase, phaseB: Phase, insts: map<string, Instance>): State {
    State(insts, Some(1), map[0 := phaseA, 1 := phaseB])
  }

  function RaceState(k: nat): State
    requires k <= 12
  {
    if k == 0 then State(BOXES, None, map[])
    else if k == 1 then State(BOXES, Some(0), map[0 := Ready])
    else if k == 2 then Twin(Ready, Ready, BOXES)
    else if k == 3 then Twin(OwnChecked(WEB), Ready, BOXES)
    else if k == 4 then Twin(OwnChecked(WEB), OwnChecked(RACE), BOXES)
    else if k == 5 then Twin(Scanning(WEB, ROWS, 0), OwnChecked(RACE), BOXES)
    else if k <= 8 then Twin(Scanning(WEB, ROWS, k - 6), Scanning(RACE, ROWS, 0), BOXES)
    else if k <= 10 then Twin(Scanning(WEB, ROWS, 2), Scanning(RACE, ROWS, k - 8), BOXES)
    else if k == 11 then Twin(Ready, Scanning(RACE, ROWS, 2), WithForward(BOXES, "a", "tcp", 80, "10.0.0.2", 80))
    else Twin(Ready, Ready,
              WithForward(WithForward(BOXES, "a", "tcp", 80, "10.0.0.2", 80), "b", "tcp", 80, "10.0.0.2", 80))
  }

  function RaceStep(k: nat): Step
    requires k < 12
  {
    if k == 0 then Acquire(0)
    else if k == 1 then Acquire(1)
    else if k == 2 then ListOwn(0, WEB)
    else if k == 3 then ListOwn(1, RACE)
    else if k == 4 then ListAll(0, ROWS)
    else if k == 5 then ListAll(1, ROWS)
    else if k <= 7 then ListOther(0)
    else if k <= 9 then ListOther(1)
    else DeviceAdd(k - 10)
  }

  lemma RaceBegins(k: nat)
    requires k < 6
    ensures Next(RaceState(k), RaceStep(k), RaceState(k + 1), false)
  {
    assert ROWS[0].name == "a" && ROWS[1].name == "b";
  }

  lemma RaceScans(k: nat)
    requires 6 <= k < 10
    ensures Next(RaceState(k), RaceStep(k), RaceState(k + 1), false)
  {
  }

  lemma RaceAdds(k: nat)
    requires 10 <= k < 12
    ensures Next(RaceState(k), RaceStep(k), RaceState(k + 1), false)
  {
    assert AddressIn(ROWS, "a") == "10.0.0.2";
    assert AddressIn(ROWS, "b") == "10.0.0.2" by { assert ROWS[1..] == [ROWS[1]]; }
  }

  /** Without mutual exclusion two requests can both scan, both find tcp/80 free and both add it:
      the check and the addition are separate commands, and only the lock makes them one. */
  lemma WithoutMutexPortsClash() returns (states: seq<State>, steps: seq<Step>)
    ensures Run(states, steps, false) && Idle(states[0])
    ensures PortsUnique(states[0].insts) && !PortsUnique(states[|states| - 1].insts)
  {
    states := seq(13, k requires 0 <= k < 13 => RaceState(k));
    steps := seq(12, k requires 0 <= k < 12 => RaceStep(k));
    forall k | 0 <= k < |steps| ensures Next(states[k], steps[k], states[k + 1], false) {
      if k < 6 { RaceBegins(k); } else if k < 10 { RaceScans(k); } else { RaceAdds(k); }
    }
    var insts := RaceState(12).insts;
    AddedHolds(BOX, "tcp", 80, "10.0.0.2", 80, "tcp", 80);
    assert Holds(insts["a"], "tcp", 80) && Holds(insts["b"], "tcp", 80);
  }
}
