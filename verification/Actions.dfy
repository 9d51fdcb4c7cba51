/** Start, stop, restart and delete, one by one and in bulk (main.go, the lifecycle branch of
    containers and bulkAction). */
module Actions {
  import opened Prelude
  import opened Text
  import opened Incus
  import opened Store
  import opened AppState

  datatype Action = Do(op: Lifecycle) | Remove

  function StateAfter(op: Lifecycle): string {
    if op.Stop? then "stopped" else "running"
  }

  function ActionName(action: Action): string {
    match action
    case Do(Start) => "container.start"
    case Do(Stop) => "container.stop"
    case Do(Restart) => "container.restart"
    case Remove => "container.delete"
  }

  /** The row after the desired state was recorded. */
  predicate StateRecorded(before: Row, now: Row, state: string) {
    now == before.(desiredState := state, updatedAt := now.updatedAt) && now.updatedAt.Instant?
  }

  /** Nothing but this one container and its row differs. */
  ghost predicate OnlyConcerns(s: Snap, e: Snap, name: string) {
    && e.insts - {name} == s.insts - {name} && e.rows - {name} == s.rows - {name}
  }

  /** What a start, stop or restart leaves. */
  ghost predicate DoneTo(s: Snap, e: Snap, op: Lifecycle, name: string, ok: bool) {
    && OnlyConcerns(s, e, name) && (name in s.insts <==> name in e.insts) && (name in s.rows <==> name in e.rows)
    && (name in e.insts ==> SameButStatus(s.insts[name], e.insts[name]))
    && (name in e.rows ==> e.rows[name] == s.rows[name] || StateRecorded(s.rows[name], e.rows[name], StateAfter(op)))
    && (ok ==> ValidName(name) && name in e.insts && (Running(e.insts[name]) <==> !op.Stop?))
    && (ok && FaultFree(s, e) && name in e.rows ==> StateRecorded(s.rows[name], e.rows[name], StateAfter(op)))
    && (!ok && FaultFree(s, e) ==>
          e.insts == s.insts && e.rows == s.rows &&
          (!ValidName(name) || name !in s.insts || MayRefuse(op, s.insts[name])))
  }

  /** What a deletion leaves. */
  ghost predicate Removed(s: Snap, e: Snap, name: string, ok: bool) {
    && OnlyConcerns(s, e, name)
    && (ok ==> name in s.insts && name !in e.insts && name !in e.rows)
    && (!ok ==> e.rows == s.rows)
    && (name in e.insts ==> !ok && e.insts == s.insts)
    && (FaultFree(s, e) ==> (ok <==> ValidName(name) && name in s.insts) && (!ok ==> e.insts == s.insts))
  }

  ghost predicate ActionDone(s: Snap, e: Snap, action: Action, name: string, ok: bool) {
    Later(s, e) && match action
    case Do(op) => DoneTo(s, e, op, name, ok)
    case Remove => Removed(s, e, name, ok)
  }

  lemma Refusals(op: Lifecycle, inst: Instance)
    ensures MayRefuse(op, inst) <==> (op.Start? <==> inst.status == "Running")
  {
  }

  method PerformLifecycle(a: App, op: Lifecycle, name: string, strict: bool) returns (ok: bool)
    modifies a.client`insts, a.client`faults, a.store`rows, a.store`faults
    ensures Later(old(a.Now()), a.Now()) && DoneTo(old(a.Now()), a.Now(), op, name, ok)
    // When the runtime did its part, a desired state that could not be recorded fails a strict caller
    // and no other.
    ensures a.client.faults == old(a.client.faults) && ValidName(name) && name in old(a.client.insts) &&
            (op.Start? <==> old(a.client.insts)[name].status != "Running") ==>
              (ok <==> !strict || a.store.faults == old(a.store.faults))
    ensures PortsUnique(old(a.client.insts)) ==> PortsUnique(a.client.insts)
  {
    hide PortsUnique, ValidName, MayRefuse, Running, ValidLog, SameButStatus, DoneTo;
    ghost var s := a.Now();
    ok := Act(a.client, op, name);
    ghost var mid := a.Now();
    if name in mid.insts { Refusals(op, mid.insts[name]); }
    if !ok {
      ActedOnly(s, mid, op, name, false);
      return;
    }
    NameNotBlank(name);
    ActedOnly(s, mid, op, name, true);
    var stored := a.store.SetDesiredState(name, StateAfter(op));
    Recorded(s, mid, a.Now(), op, name, stored);
    if strict && stored == Failed { ok := false; }
  }

  /** The runtime part of an action, before the table is told. */
  ghost predicate Acted(s: Snap, mid: Snap, op: Lifecycle, name: string, ok: bool) {
    && mid.insts - {name} == s.insts - {name} && mid.rows == s.rows && (name in s.insts <==> name in mid.insts)
    && (name in mid.insts ==> SameButStatus(s.insts[name], mid.insts[name]))
    && (ok ==> ValidName(name) && name in mid.insts && (Running(mid.insts[name]) <==> !op.Stop?))
    && (!ok && mid.faults == s.faults ==>
          mid.insts == s.insts && (!ValidName(name) || name !in s.insts || MayRefuse(op, s.insts[name])))
  }

  lemma ActedOnly(s: Snap, mid: Snap, op: Lifecycle, name: string, ok: bool)
    requires mid.insts.Keys == s.insts.Keys && mid.rows == s.rows && mid.storeFaults == s.storeFaults
    requires forall n | n in mid.insts ::
               SameButStatus(s.insts[n], mid.insts[n]) && (n != name ==> mid.insts[n] == s.insts[n])
    requires ok ==> ValidName(name) && name in mid.insts && (Running(mid.insts[name]) <==> !op.Stop?)
    requires !ok && mid.faults == s.faults ==>
               mid.insts == s.insts && (!ValidName(name) || name !in mid.insts || MayRefuse(op, mid.insts[name]))
    ensures Acted(s, mid, op, name, ok)
    ensures !ok ==> DoneTo(s, mid, op, name, false)
  {
    hide ValidName, MayRefuse, Running, SameButStatus;
    assert mid.insts - {name} == s.insts - {name};
  }

  lemma Recorded(s: Snap, mid: Snap, e: Snap, op: Lifecycle, name: string, stored: DbResult)
    requires Acted(s, mid, op, name, true) && mid.storeFaults == s.storeFaults && e.insts == mid.insts &&
             e.faults == mid.faults
    requires e.storeFaults >= mid.storeFaults
    requires stored != Done ==> e.rows == mid.rows
    requires stored == Done ==>
               name in mid.rows && name in e.rows && e.rows == mid.rows[name := e.rows[name]] &&
               StateRecorded(mid.rows[name], e.rows[name], StateAfter(op))
    requires e.storeFaults == mid.storeFaults ==> stored == if name in mid.rows then Done else NoRows
    ensures DoneTo(s, e, op, name, true)
    ensures stored == Failed ==> DoneTo(s, e, op, name, false)
  {
    hide ValidName, MayRefuse, Running, SameButStatus, StateRecorded;
  }

  method PerformDelete(a: App, name: string) returns (ok: bool)
    modifies a.client`insts, a.client`faults, a.client`deleteFaults, a.store`rows, a.store`faults
    ensures Later(old(a.Now()), a.Now()) && Removed(old(a.Now()), a.Now(), name, ok)
    ensures PortsUnique(old(a.client.insts)) ==> PortsUnique(a.client.insts)
  {
    ok := a.client.Delete(name);
    if ok { ok := a.store.DeleteContainer(name); }
  }

  /** One container, one action. strict: bulkAction reports a desired state that could not be
      recorded as a failure, the single handler only logs it. */
  method Perform(a: App, action: Action, name: string, strict: bool) returns (ok: bool)
    modifies a.client`insts, a.client`faults, a.client`deleteFaults, a.store
    ensures ActionDone(old(a.Now()), a.Now(), action, name, ok)
    ensures action.Do? && a.client.faults == old(a.client.faults) && ValidName(name) &&
            name in old(a.client.insts) && (action.op.Start? <==> old(a.client.insts)[name].status != "Running") ==>
              (ok <==> !strict || a.store.faults == old(a.store.faults))
    ensures Logged(old(a.Now()), a.Now(),
                   if action == Do(Start) then "container.start" else if action == Do(Stop) then "container.stop"
                   else if action == Do(Restart) then "container.restart" else "container.delete",
                   name, if ok then "success" else "failure")
    ensures if a.store.audit == old(a.store.audit) then a.store.auditFaults == old(a.store.auditFaults) + 1
            else a.store.auditFaults == old(a.store.auditFaults) &&
                 |a.store.audit| == |old(a.store.audit)| + 1 && old(a.store.audit) <= a.store.audit &&
                 var e := a.store.audit[|old(a.store.audit)|];
                 e == AuditEvent(e.id, "local", ActionName(action), "container", name,
                                 if ok then "success" else "failure")
    ensures PortsUnique(old(a.client.insts)) ==> PortsUnique(a.client.insts)
  {
    match action {
      case Do(op) => ok := PerformLifecycle(a, op, name, strict);
      case Remove => ok := PerformDelete(a, name);
    }
    Record(a, "local", ActionName(action), name, if ok then "success" else "failure");
  }

  datatype ActionResult = ActionResult(name: string, ok: bool)

  /** The names in order of first appearance. */
  function FirstSeen(names: seq<string>): seq<string> {
    if names == [] then []
    else
      var before, n := FirstSeen(names[..|names| - 1]), names[|names| - 1];
      if n in before then before else before + [n]
  }

  lemma {:induction false} FirstSeenExact(names: seq<string>)
    ensures NoDuplicates(FirstSeen(names))
    ensures forall n :: n in FirstSeen(names) <==> n in names
  {
    if names != [] {
      FirstSeenExact(names[..|names| - 1]);
      assert names == names[..|names| - 1] + [names[|names| - 1]];
    }
  }

  /** And in the order of their first appearances: where one stands, no later one has stood yet. */
  lemma {:induction false} FirstSeenOrder(names: seq<string>, i: nat, j: nat) returns (p: nat)
    requires i < j < |FirstSeen(names)|
    ensures p < |names| && names[p] == FirstSeen(names)[i]
    ensures forall q | 0 <= q <= p :: names[q] != FirstSeen(names)[j]
  {
    var before, last := names[..|names| - 1], names[|names| - 1];
    var seen := FirstSeen(before);
    FirstSeenExact(before);
    assert forall q | 0 <= q < |before| :: names[q] == before[q] && before[q] in before;
    if j < |seen| {
      p := FirstSeenOrder(before, i, j);
    } else {
      assert seen[i] in seen && seen[i] in before;
      p :| 0 <= p < |before| && before[p] == seen[i];
    }
  }

  /** One run of actions, each applied to the state the one before left. */
  ghost predicate Chain(states: seq<Snap>, action: Action, results: seq<ActionResult>) {
    && |states| == |results| + 1
    && forall k | 0 <= k < |results| :: ActionDone(states[k], states[k + 1], action, results[k].name, results[k].ok)
  }

  /** `bulkAction`: between 1 and 32 names, repeated ones once, each on its own. states: the state
      before each action and at the end. */
  method BulkAction(a: App, names: seq<string>, action: Action) returns (r: Option<seq<ActionResult>>,
                    ghost states: seq<Snap>)
    modifies a.client`insts, a.client`faults, a.client`deleteFaults, a.store
    ensures Later(old(a.Now()), a.Now())
    ensures r.Some? <==> 1 <= |names| <= 32
    ensures r.None? ==> a.Now() == old(a.Now())
    ensures r.Some? ==>
              Chain(states, action, r.value) && states[0] == old(a.Now()) && states[|states| - 1] == a.Now() &&
              |r.value| == |FirstSeen(names)| && forall i | 0 <= i < |r.value| :: r.value[i].name == FirstSeen(names)[i]
    ensures PortsUnique(old(a.client.insts)) ==> PortsUnique(a.client.insts)
  {
    hide PortsUnique, DoneTo, Removed, Logged, ValidLog;
    states := [a.Now()];
    if |names| < 1 || |names| > 32 { return None, states; }
    var seen: set<string> := {};
    var results: seq<ActionResult> := [];
    for i := 0 to |names|
      invariant states != [] && states[0] == old(a.Now()) && Later(states[0], a.Now()) &&
                states[|states| - 1] == a.Now()
      invariant forall n :: n in seen <==> n in FirstSeen(names[..i])
      invariant |results| == |FirstSeen(names[..i])| && forall j | 0 <= j < |results| ::
                  results[j].name == FirstSeen(names[..i])[j]
      invariant Chain(states, action, results)
      invariant PortsUnique(old(a.client.insts)) ==> PortsUnique(a.client.insts)
    {
      assert names[..i + 1][..i] == names[..i];
      if names[i] !in seen {
        seen := seen + {names[i]};
        ghost var before := a.Now();
        var ok := Perform(a, action, names[i], true);
        ChainStep(states, action, results, a.Now(), ActionResult(names[i], ok));
        results, states := results + [ActionResult(names[i], ok)], states + [a.Now()];
      }
    }
    assert names[..|names|] == names;
    return Some(results), states;
  }

  lemma ChainStep(states: seq<Snap>, action: Action, results: seq<ActionResult>, e: Snap, r: ActionResult)
    requires Chain(states, action, results) && ActionDone(states[|states| - 1], e, action, r.name, r.ok)
    ensures Chain(states + [e], action, results + [r])
  {
    var states', results' := states + [e], results + [r];
    forall k | 0 <= k < |results'|
      ensures ActionDone(states'[k], states'[k + 1], action, results'[k].name, results'[k].ok) {
      if k < |results| {
        assert states'[k] == states[k] && states'[k + 1] == states[k + 1] && results'[k] == results[k];
      }
    }
  }
}
