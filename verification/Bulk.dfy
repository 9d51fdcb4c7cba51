/** Batch creation (main.go, bulkCreate): preflight, one item after the other, rollback. */
module Bulk {
  import opened Prelude
  import opened Text
  import opened Endpoints
  import opened Incus
  import opened Store
  import opened AppState
  import opened Ports
  import opened Requests
  import opened Saga

  datatype BulkRequest = BulkRequest(
    prefix: string, startIndex: int, count: int, image: string, cpuLimit: string,
    memoryLimitMb: int, diskLimitGb: int, publicKey: Key, allocateSSH: bool)

  datatype Created = Created(name: string, ssh: Option<PortForward>)

  /** Rejected before anything was tried; rolled back at a name; or completed. */
  datatype BulkResult =
    | Rejected
    | RolledBack(created: seq<Created>, failed: string, stage: Stage)
    | Completed(created: seq<Created>)

  function ItemRequest(r: BulkRequest, name: string): CreateRequest {
    WithImage(CreateRequest(name, r.image, r.cpuLimit, r.memoryLimitMb, r.diskLimitGb, r.publicKey))
  }

  /** The batch's names, in order. */
  ghost predicate NamesOf(r: BulkRequest, names: seq<string>) {
    BulkAllowed(r.prefix, r.startIndex, r.count) && |names| == r.count &&
    FirstNames(r.prefix, r.startIndex, r.count, names)
  }

  ghost predicate GoodNames(names: seq<string>) {
    (forall n | n in names :: ValidName(n)) && (forall i, j | 0 <= i < j < |names| :: names[i] != names[j])
  }

  lemma NamesAreGood(r: BulkRequest, names: seq<string>)
    requires NamesOf(r, names)
    ensures GoodNames(names)
  {
    forall n | n in names ensures ValidName(n) {
      var i :| 0 <= i < |names| && names[i] == n;
      BulkNameValid(r.prefix, r.startIndex, r.count, i);
    }
    forall i, j | 0 <= i < j < |names| ensures names[i] != names[j] {
      BulkNamesGood(r.prefix, r.startIndex, r.count, i, j);
    }
  }

  /** What the preflight looks for; a reader can check it before the call. */
  ghost predicate Admissible(a: App, insts: map<string, Instance>, r: BulkRequest, view: Option<HostView>) {
    && ValidRequest(ItemRequest(r, "nat01"))
    && BulkAllowed(r.prefix, r.startIndex, r.count)
    && (forall i | 0 <= i < r.count :: BulkName(r.prefix, r.startIndex, r.count, i) !in insts)
    && (r.allocateSSH ==> AllNamesValid(insts) && r.count <= |FreeSsh(a, insts)|)
    && view.Some? && CapacityAllows(view.value, r.memoryLimitMb, r.diskLimitGb, r.count)
  }

  /** The check for names that are already taken. */
  method AnyTaken(client: Client, names: seq<string>) returns (ok: bool, taken: bool)
    modifies client`faults
    ensures client.faults >= old(client.faults)
    ensures client.faults == old(client.faults) ==> ok
    ensures ok ==> (taken <==> exists i :: 0 <= i < |names| && names[i] in client.insts)
  {
    taken := false;
    var rows;
    ok, rows := client.List();
    if !ok { return; }
    var existing := set row | row in rows :: row.name;
    assert existing == client.insts.Keys by {
      forall n | n in client.insts ensures n in existing {
        var i :| 0 <= i < |rows| && rows[i].name == n;
        assert rows[i] in rows;
      }
    }
    for i := 0 to |names|
      invariant forall j | 0 <= j < i :: names[j] !in existing
    {
      if names[i] in existing { return true, true; }
    }
  }

  lemma TakenMeans(insts: map<string, Instance>, r: BulkRequest, names: seq<string>)
    requires NamesOf(r, names)
    ensures (exists i :: 0 <= i < |names| && names[i] in insts) <==>
            !(forall i | 0 <= i < r.count :: BulkName(r.prefix, r.startIndex, r.count, i) !in insts)
  {
    assert forall i | 0 <= i < r.count :: names[i] == BulkName(r.prefix, r.startIndex, r.count, i);
  }

  method Preflight(a: App, r: BulkRequest, view: Option<HostView>) returns (ok: bool, names: seq<string>)
    requires a.Configured()
    modifies a.client`faults
    ensures a.client.faults >= old(a.client.faults)
    ensures ok ==> Admissible(a, a.client.insts, r, view) && NamesOf(r, names)
    ensures a.client.faults == old(a.client.faults) ==> (ok <==> Admissible(a, a.client.insts, r, view))
  {
    names := [];
    if !ValidRequest(ItemRequest(r, "nat01")) { return false, names; }
    var generated := BulkNames(r.prefix, r.startIndex, r.count);
    if generated.None? { return false, names; }
    names := generated.value;
    TakenMeans(a.client.insts, r, names);
    var listed, taken := AnyTaken(a.client, names);
    if !listed || taken { return false, names; }
    if r.allocateSSH {
      ok := CheckSSHCapacity(a, |names|);
      if !ok { return; }
    }
    ok := view.Some? && CapacityAllows(view.value, r.memoryLimitMb, r.diskLimitGb, |names|);
  }

  /** The runtime after the first i names: what there was, plus those, running. */
  ghost predicate InstProgress(before: map<string, Instance>, now: map<string, Instance>, names: seq<string>, i: nat)
    requires i <= |names|
  {
    && (forall n :: n in now <==> n in before || n in names[..i])
    && Submap(before, now)
    && (forall n | n in names[..i] :: n in now && Running(now[n]))
  }

  /** A row of the batch: the columns of the request, and the policy of an earlier row of the same
      name. */
  predicate RowMade(before: map<string, Row>, row: Row, r: BulkRequest, n: string) {
    row.updatedAt.Instant? &&
    row == Upserted(before, RowOf(ItemRequest(r, n)).(createdAt := row.createdAt, updatedAt := row.updatedAt))[n] &&
    (n !in before ==> row.createdAt == row.updatedAt)
  }

  /** The table after the first i names are persisted. */
  ghost predicate RowProgress(before: map<string, Row>, now: map<string, Row>, r: BulkRequest, names: seq<string>,
                              i: nat)
    requires i <= |names|
  {
    && (forall n :: n in now <==> n in before || n in names[..i])
    && (forall n | n in before && n !in names[..i] :: now[n] == before[n])
    && (forall n | n in names[..i] :: n in now && RowMade(before, now[n], r, n))
  }

  /** The rows written: the columns of the request; the policy and the creation time of an earlier row,
      or none. */
  lemma RowsMean(before: map<string, Row>, now: map<string, Row>, r: BulkRequest, names: seq<string>, written: nat)
    requires written <= |names| && RowProgress(before, now, r, names, written)
    ensures forall n | n in before && n !in names[..written] :: n in now && now[n] == before[n]
    ensures forall k | 0 <= k < written ::
              names[k] in now &&
                var row := now[names[k]];
                row.image == (if r.image == "" then "images:alpine/3.24" else r.image) &&
                row.memoryLimitMb == r.memoryLimitMb && row.diskLimitGb == r.diskLimitGb &&
                row.cpuLimit == r.cpuLimit && row.desiredState == "running" &&
                if names[k] in before then
                  var kept := before[names[k]];
                  row.quotaBytes == kept.quotaBytes && row.quotaRxBaseline == kept.quotaRxBaseline &&
                  row.quotaTxBaseline == kept.quotaTxBaseline && row.quotaResetAt == kept.quotaResetAt &&
                  row.expiresAt == kept.expiresAt && row.createdAt == kept.createdAt
                else
                  row.name == names[k] && row.quotaBytes == row.quotaRxBaseline == row.quotaTxBaseline == 0 &&
                  row.quotaResetAt == Unset && row.expiresAt == Unset && row.createdAt == row.updatedAt
  {
    forall k | 0 <= k < written ensures names[k] in now && RowMade(before, now[names[k]], r, names[k]) {
      assert names[k] in names[..written];
    }
  }

  lemma InstStep(before: map<string, Instance>, now: map<string, Instance>, next: map<string, Instance>,
                 names: seq<string>, i: nat)
    requires i < |names| && names[i] !in before && InstProgress(before, now, names, i)
    requires OnlyAdded(now, next, names[i]) && Running(next[names[i]])
    ensures InstProgress(before, next, names, i + 1)
  {
    assert names[..i + 1] == names[..i] + [names[i]];
  }

  lemma PersistedRow(before: map<string, Row>, now: map<string, Row>, next: map<string, Row>, r: BulkRequest, n: string)
    requires Persisted(now, ItemRequest(r, n), next)
    requires (n in now <==> n in before) && (n in now ==> now[n] == before[n])
    ensures n in next && RowMade(before, next[n], r, n)
  {
    var req := ItemRequest(r, n);
    var t: Stamp :| t.Instant? && next == Upserted(now, RowOf(req).(createdAt := t, updatedAt := t));
    var row := RowOf(req).(createdAt := t, updatedAt := t);
    assert row.name == n && next[n] == Upserted(before, row)[n];
  }

  lemma RowStep(before: map<string, Row>, now: map<string, Row>, next: map<string, Row>, r: BulkRequest,
                names: seq<string>, i: nat)
    requires i < |names| && GoodNames(names) && RowProgress(before, now, r, names, i)
    requires Persisted(now, ItemRequest(r, names[i]), next)
    ensures RowProgress(before, next, r, names, i + 1)
  {
    hide RowMade, Persisted, ValidName, ValidRequest, Restorable, Keyed;
    assert names[..i + 1] == names[..i] + [names[i]];
    PersistedShape(now, ItemRequest(r, names[i]), next);
    PersistedRow(before, now, next, r, names[i]);
  }

  lemma NotYetThere(before: map<string, Instance>, now: map<string, Instance>, names: seq<string>, i: nat)
    requires i < |names| && GoodNames(names) && names[i] !in before && InstProgress(before, now, names, i)
    ensures names[i] !in now
  {
  }

  /** The instances of e that were not there in s. */
  ghost function Leftovers(s: Snap, e: Snap): set<string> {
    e.insts.Keys - s.insts.Keys
  }

  /** What is left, in e, of a batch that started in s and failed at its k-th name, after the
      rollback: every instance that was there before is there, unchanged; there is one leftover for
      each deletion that failed, and no other; a leftover has one of the batch's names; the rows
      written so far stay. At most as many leftovers lack a report as audit writes failed, not
      counting the instance of a failed deletion inside `Create`, which was never started. */
  ghost predicate Compensated(s: Snap, e: Snap, r: BulkRequest, names: seq<string>, k: nat, stage: Stage)
    requires k < |names|
  {
    && Submap(s.insts, e.insts)
    && (forall n | n in Leftovers(s, e) :: n in names[..k + 1])
    && |Leftovers(s, e)| == e.deletes - s.deletes
    && AllLogged(s, e, "container.cleanup", Leftovers(s, e) - Silent(names, k, stage), "failure")
    && (stage.AtCreate? && names[k] in e.insts ==> e.insts[names[k]] == FRESH)
    && RowProgress(s.rows, e.rows, r, names, if stage.AtSSH? then k + 1 else k)
    && (stage.AtSSH? ==> stage.reason != NoFreePort)
  }

  function Silent(names: seq<string>, k: nat, stage: Stage): set<string>
    requires k < |names|
  {
    if stage.AtCreate? then {names[k]} else {}
  }

  /** A failed batch leaves the instances as they were if and only if none of its deletions failed. */
  lemma UndoneIffDeleted(s: Snap, e: Snap, r: BulkRequest, names: seq<string>, k: nat, stage: Stage)
    requires k < |names| && Compensated(s, e, r, names, k, stage)
    ensures e.insts == s.insts <==> e.deletes == s.deletes
  {
    hide RowProgress, AllLogged;
    if e.deletes == s.deletes {
      assert Leftovers(s, e) == {};
      forall n | n in e.insts ensures n in s.insts { assert n !in Leftovers(s, e); }
      assert e.insts.Keys == s.insts.Keys;
    } else {
      assert Leftovers(s, e) != {};
    }
  }

  lemma RollbackRestores(before: map<string, Instance>, mid: map<string, Instance>, now: map<string, Instance>,
                         names: seq<string>, k: nat)
    requires k < |names| && GoodNames(names) && forall n | n in names :: n !in before
    requires Submap(before, mid) && forall n :: n in mid ==> n in before || n in names[..k + 1]
    requires Submap(now, mid) && forall n | n in mid :: n in now || n in names[..k]
    ensures Submap(before, now)
    ensures forall n | n in now && n !in before :: n in names[..k + 1]
    ensures now.Keys - before.Keys == (if names[k] in now then {names[k]} else {}) + Left(now, names[..k])
  {
    assert forall n | n in names[..k] :: n in names;
    assert names[..k + 1] == names[..k] + [names[k]];
    assert names[k] in names;
  }

  function NamesIn(created: seq<Created>): seq<string> {
    seq(|created|, i requires 0 <= i < |created| => created[i].name)
  }

  /** The names and the request fit the state the batch starts from. */
  ghost predicate Fits(a: App, s: Snap, r: BulkRequest, names: seq<string>) {
    && a.Configured() && ValidRequest(ItemRequest(r, "nat01")) && GoodNames(names)
    && (forall n | n in names :: n !in s.insts)
    && (r.allocateSSH ==> AllNamesValid(s.insts) && |names| <= |FreeSsh(a, s.insts)|)
  }

  /** The ports handed out are the first free ports, in increasing order. */
  ghost predicate SshPorts(a: App, s: Snap, r: BulkRequest, names: seq<string>, created: seq<Created>) {
    && |created| <= |names|
    && (r.allocateSSH ==> |created| <= |FreeSsh(a, s.insts)|)
    && (forall j | 0 <= j < |created| ::
          created[j].ssh ==
          if r.allocateSSH then Some(PortForward(names[j], "tcp", FreeSsh(a, s.insts)[j], 22)) else None)
  }

  /** Each container made has the one device of its SSH port, or none. */
  ghost predicate Forwarding(insts: map<string, Instance>, created: seq<Created>) {
    forall j | 0 <= j < |created| ::
      created[j].name in insts &&
      if created[j].ssh.Some? then SshDevice(insts[created[j].name], created[j].ssh.value.listenPort)
      else insts[created[j].name].devices == map[]
  }

  function NamesTo(names: seq<string>, k: nat): set<string>
    requires k <= |names|
  {
    set n | n in names[..k]
  }

  /** Of the first k creations, no more lack their event than audit writes failed. */
  ghost predicate CreationsLogged(s: Snap, e: Snap, names: seq<string>, k: nat)
    requires k <= |names|
  {
    AllLogged(s, e, "container.create", NamesTo(names, k), "success")
  }

  /** The loop invariant of the batch. */
  ghost predicate Underway(a: App, s: Snap, e: Snap, r: BulkRequest, names: seq<string>, created: seq<Created>) {
    && |created| <= |names| && NamesIn(created) == names[..|created|]
    && InstProgress(s.insts, e.insts, names, |created|)
    && RowProgress(s.rows, e.rows, r, names, |created|)
    && (created != [] ==> KeyUsable(r.publicKey))
    && SshPorts(a, s, r, names, created) && Forwarding(e.insts, created)
    && (r.allocateSSH ==> FreeSsh(a, e.insts) == FreeSsh(a, s.insts)[|created|..] && AllNamesValid(e.insts))
    && Later(s, e) && e.deletes == s.deletes && CreationsLogged(s, e, names, |created|)
  }

  /** mid: after the items before. late: after the failed item and its own clean-up. done: after
      the rollback. */
  lemma UnwoundIsCompensated(s: Snap, mid: Snap, late: Snap, done: Snap, e: Snap, r: BulkRequest,
                             names: seq<string>, k: nat, stage: Stage)
    requires k < |names| && GoodNames(names) && forall n | n in names :: n !in s.insts
    requires Later(s, mid) && Later(mid, late) && Later(late, done) && Later(done, e)
    requires InstProgress(s.insts, mid.insts, names, k) && RowProgress(s.rows, mid.rows, r, names, k)
    requires late.insts == mid.insts || OnlyAdded(mid.insts, late.insts, names[k])
    requires if stage.AtSSH? then Persisted(mid.rows, ItemRequest(r, names[k]), late.rows) else late.rows == mid.rows
    requires stage.AtSSH? ==> stage.reason != NoFreePort
    requires mid.deletes == s.deletes && late.deletes == mid.deletes + if late.insts == mid.insts then 0 else 1
    requires late.insts != mid.insts ==> LeftBy(mid, late, names[k], stage)
    requires Deleted(late, done, names[..k]) && e.insts == done.insts && e.rows == late.rows &&
             e.deletes == done.deletes
    ensures Compensated(s, e, r, names, k, stage)
  {
    hide AllLogged, RowProgress, Deleted, InstProgress, CleanupReported, ValidName, ValidLog, Left, Persisted, Logged;
    assert names[k] in names;
    NotYetThere(s.insts, mid.insts, names, k);
    ItemLeftover(s.insts, mid.insts, late.insts, names, k);
    if stage.AtSSH? { RowStep(s.rows, mid.rows, late.rows, r, names, k); }
    StillLeft(s.insts, mid.insts, late.insts, names, k);
    DeletedShape(late, done, names, k);
    RollbackRestores(s.insts, late.insts, e.insts, names, k);
    CountLeftovers(s, e, names, k);
    LeftoversLogged(s, mid, late, done, e, names, k, stage);
  }

  lemma CountLeftovers(s: Snap, e: Snap, names: seq<string>, k: nat)
    requires k < |names| && GoodNames(names)
    requires e.insts.Keys - s.insts.Keys == (if names[k] in e.insts then {names[k]} else {}) + Left(e.insts, names[..k])
    ensures |Leftovers(s, e)| == (if names[k] in e.insts then 1 else 0) + |Left(e.insts, names[..k])|
  {
    DistinctFrom(names, k);
    var own := if names[k] in e.insts then {names[k]} else {};
    assert own !! Left(e.insts, names[..k]);
    UnionSize(own, Left(e.insts, names[..k]));
  }

  lemma DistinctFrom(names: seq<string>, k: nat)
    requires k < |names| && GoodNames(names)
    ensures names[k] !in names[..k] && NoDuplicates(names[..k])
  {
    hide ValidName;
  }

  lemma DeletedShape(s: Snap, e: Snap, names: seq<string>, k: nat)
    requires k < |names| && GoodNames(names) && Deleted(s, e, names[..k]) && forall n | n in names[..k] :: n in s.insts
    ensures Submap(e.insts, s.insts) && (forall n | n in s.insts :: n in e.insts || n in names[..k])
    ensures |Left(e.insts, names[..k])| == e.deletes - s.deletes
    ensures names[k] in e.insts <==> names[k] in s.insts
  {
    hide AllLogged, ValidName;
    DistinctFrom(names, k);
  }

  lemma StillLeft(before: map<string, Instance>, mid: map<string, Instance>, late: map<string, Instance>,
                  names: seq<string>, k: nat)
    requires k < |names| && names[k] !in mid && InstProgress(before, mid, names, k)
    requires late == mid || OnlyAdded(mid, late, names[k])
    ensures forall n | n in names[..k] :: n in late
  {
  }

  lemma LeftoversLogged(s: Snap, mid: Snap, late: Snap, done: Snap, e: Snap, names: seq<string>, k: nat, stage: Stage)
    requires k < |names| && Later(s, mid) && Later(mid, late) && Later(late, done) && Later(done, e)
    requires names[k] in late.insts ==> LeftBy(mid, late, names[k], stage)
    requires names[k] in e.insts ==> names[k] in late.insts
    requires Leftovers(s, e) == (if names[k] in e.insts then {names[k]} else {}) + Left(done.insts, names[..k])
    requires Deleted(late, done, names[..k])
    ensures AllLogged(s, e, "container.cleanup", Leftovers(s, e) - Silent(names, k, stage), "failure")
  {
    hide AllLogged, Logged, ValidLog;
    var own := if names[k] in late.insts && !stage.AtCreate? then {names[k]} else {};
    if own == {} {
      NoneToLog(mid, late, "container.cleanup", "failure");
    } else {
      OneLogged(mid, late, "container.cleanup", names[k], "failure");
    }
    AllLoggedJoin(mid, late, done, "container.cleanup", own, Left(done.insts, names[..k]), "failure");
    AllLoggedKept(s, mid, done, e, "container.cleanup", own + Left(done.insts, names[..k]), "failure");
    FewerLogged(s, e, "container.cleanup", own + Left(done.insts, names[..k]),
                Leftovers(s, e) - Silent(names, k, stage), "failure");
  }

  /** The free ports and the ports handed out, one item later. */
  lemma SshStep(a: App, s: Snap, r: BulkRequest, names: seq<string>, created: seq<Created>,
                now: map<string, Instance>, next: map<string, Instance>, ssh: Option<PortForward>)
    requires Fits(a, s, r, names) && |created| < |names| && SshPorts(a, s, r, names, created)
    requires OnlyAdded(now, next, names[|created|]) && ssh.Some? == r.allocateSSH
    requires r.allocateSSH ==>
               FreeSsh(a, now) == FreeSsh(a, s.insts)[|created|..] && AllNamesValid(now) &&
               ssh.value == PortForward(names[|created|], "tcp", FreeSsh(a, now)[0], 22) &&
               FreeSsh(a, next) == FreeSsh(a, now)[1..]
    ensures SshPorts(a, s, r, names, created + [Created(names[|created|], ssh)])
    ensures r.allocateSSH ==> FreeSsh(a, next) == FreeSsh(a, s.insts)[|created| + 1..] && AllNamesValid(next)
  {
    hide FreeSsh, ValidName, ValidRequest, InstProgress, RowProgress;
    assert names[|created|] in names;
  }

  lemma LogStep(s: Snap, mid: Snap, e: Snap, names: seq<string>, k: nat)
    requires k < |names| && Later(s, mid) && Later(mid, e) && CreationsLogged(s, mid, names, k)
    requires Logged(mid, e, "container.create", names[k], "success")
    ensures CreationsLogged(s, e, names, k + 1)
  {
    hide Logged, AllLogged, ValidLog;
    OneLogged(mid, e, "container.create", names[k], "success");
    AllLoggedJoin(s, mid, e, "container.create", NamesTo(names, k), {names[k]}, "success");
    assert names[..k + 1] == names[..k] + [names[k]];
    assert NamesTo(names, k + 1) == NamesTo(names, k) + {names[k]};
  }

  lemma ForwardingStep(now: map<string, Instance>, next: map<string, Instance>, created: seq<Created>, n: string,
                       ssh: Option<PortForward>)
    requires Forwarding(now, created) && OnlyAdded(now, next, n)
    requires if ssh.Some? then SshDevice(next[n], ssh.value.listenPort) else next[n].devices == map[]
    ensures Forwarding(next, created + [Created(n, ssh)])
  {
    hide SshDevice;
  }

  lemma ItemSucceeded(a: App, s: Snap, mid: Snap, e: Snap, r: BulkRequest, names: seq<string>,
                      created: seq<Created>, ssh: Option<PortForward>)
    requires Fits(a, s, r, names) && |created| < |names| && Underway(a, s, mid, r, names, created) && Later(mid, e)
    requires KeyUsable(r.publicKey) && OnlyAdded(mid.insts, e.insts, names[|created|]) &&
             Running(e.insts[names[|created|]])
    requires Persisted(mid.rows, ItemRequest(r, names[|created|]), e.rows) && ssh.Some? == r.allocateSSH
    requires Logged(mid, e, "container.create", names[|created|], "success") && e.deletes == mid.deletes
    requires r.allocateSSH ==>
               ssh.value == PortForward(names[|created|], "tcp", FreeSsh(a, mid.insts)[0], 22) &&
               FreeSsh(a, e.insts) == FreeSsh(a, mid.insts)[1..]
    requires if ssh.Some? then SshDevice(e.insts[names[|created|]], ssh.value.listenPort)
             else e.insts[names[|created|]].devices == map[]
    ensures Underway(a, s, e, r, names, created + [Created(names[|created|], ssh)])
  {
    hide RowMade, RowProgress, ItemRequest, Persisted, ValidName, ValidRequest, SshPorts, FreeSsh, AllNamesValid,
      InstProgress, OnlyAdded, ValidLog, Logged, CreationsLogged, Forwarding, SshDevice;
    var i := |created|;
    LogStep(s, mid, e, names, i);
    assert names[i] in names;
    InstStep(s.insts, mid.insts, e.insts, names, i);
    RowStep(s.rows, mid.rows, e.rows, r, names, i);
    SshStep(a, s, r, names, created, mid.insts, e.insts, ssh);
    ForwardingStep(mid.insts, e.insts, created, names[i], ssh);
    var created' := created + [Created(names[i], ssh)];
    assert NamesIn(created') == NamesIn(created) + [names[i]];
    assert names[..i + 1] == names[..i] + [names[i]];
  }

  lemma NextItem(r: BulkRequest, n: string)
    requires ValidRequest(ItemRequest(r, "nat01")) && ValidName(n)
    ensures ValidRequest(ItemRequest(r, n)) && ItemRequest(r, n).name == n && ItemRequest(r, n).publicKey == r.publicKey
  {
    NameNotBlank(n);
  }

  /** One round of the loop. A failed item has cleaned up after itself; everything created before
      it is then deleted. */
  method Advance(a: App, r: BulkRequest, names: seq<string>, created: seq<Created>, ghost s: Snap)
    returns (item: Item)
    requires Fits(a, s, r, names) && |created| < |names| && Underway(a, s, a.Now(), r, names, created)
    modifies a.client`insts, a.client`faults, a.client`deleteFaults, a.store
    ensures Later(s, a.Now())
    ensures item.ItemDone? ==> Underway(a, s, a.Now(), r, names, created + [Created(names[|created|], item.ssh)])
    ensures item.ItemFailed? ==> Compensated(s, a.Now(), r, names, |created|, item.stage) &&
                                 FailureLogged(s, a.Now(), names[|created|], item.stage)
    ensures item.ItemFailed? && FaultFree(s, a.Now()) ==>
              !KeyUsable(r.publicKey) && created == [] && item.stage == AtReady
    ensures PortsUnique(old(a.client.insts)) ==> PortsUnique(a.client.insts)
  {
    hide PortsUnique, Compensated, RowMade, ValidLog, SshPorts, RowProgress, InstProgress, Deleted, Persisted,
      ItemRequest, ValidRequest, BulkAllowed, LeftBy, OnlyAdded, AllNamesValid, ValidName, CreationsLogged,
      Logged, SshDevice, Forwarding;
    ghost var mid := a.Now();
    var i := |created|;
    assert names[i] in names;
    NextItem(r, names[i]);
    NotYetThere(s.insts, mid.insts, names, i);
    item := BulkItem(a, ItemRequest(r, names[i]), r.allocateSSH);
    if item.ItemDone? {
      ItemSucceeded(a, s, mid, a.Now(), r, names, created, item.ssh);
      return;
    }
    ghost var late := a.Now();
    forall n | n in NamesIn(created) ensures ValidName(n) { assert n in names; }
    RollbackBulk(a, NamesIn(created));
    ghost var done := a.Now();
    if item.stage == AtPersist { Record(a, "local", "container.create", names[i], "failure"); }
    UnwoundIsCompensated(s, mid, late, done, a.Now(), r, names, i, item.stage);
    FailureKept(s, mid, late, done, a.Now(), names[i], item.stage);
  }

  /** The failed item is logged by its own step, or after the rollback. */
  lemma FailureKept(s: Snap, mid: Snap, late: Snap, done: Snap, e: Snap, name: string, stage: Stage)
    requires Later(s, mid) && Later(mid, late) && Later(late, done) && Later(done, e)
    requires if stage.AtPersist? then FailureLogged(done, e, name, stage) else FailureLogged(mid, late, name, stage)
    ensures FailureLogged(s, e, name, stage)
  {
    hide Logged, ValidLog;
    var action := if stage.AtSSH? then "port.allocate_ssh" else "container.create";
    if stage.AtPersist? {
      LoggedKept(s, done, e, e, action, name, "failure");
    } else {
      LoggedKept(s, mid, late, e, action, name, "failure");
    }
  }

  /** The loop: one name after the other, until one fails. s: when the batch began. */
  method CreateAll(a: App, r: BulkRequest, names: seq<string>, ghost s: Snap) returns (result: BulkResult)
    requires Fits(a, s, r, names) && Underway(a, s, a.Now(), r, names, [])
    modifies a.client`insts, a.client`faults, a.client`deleteFaults, a.store
    ensures Later(s, a.Now()) && !result.Rejected?
    ensures result.RolledBack? ==>
              |result.created| < |names| && NamesIn(result.created) == names[..|result.created|] &&
              result.failed == names[|result.created|] &&
              Compensated(s, a.Now(), r, names, |result.created|, result.stage) &&
              FailureLogged(s, a.Now(), result.failed, result.stage)
    ensures result.RolledBack? && FaultFree(s, a.Now()) ==>
              !KeyUsable(r.publicKey) && result.created == [] && result.stage == AtReady
    ensures result.Completed? ==>
              NamesIn(result.created) == names && Underway(a, s, a.Now(), r, names, result.created) &&
              (names != [] ==> KeyUsable(r.publicKey))
    ensures PortsUnique(old(a.client.insts)) ==> PortsUnique(a.client.insts)
  {
    hide PortsUnique, Fits, Underway, Compensated, KeyUsable, ValidLog, FailureLogged;
    var created: seq<Created> := [];
    UnderwayShape(a, s, a.Now(), r, names, created);
    while |created| < |names|
      invariant Later(s, a.Now()) && |created| <= |names| && NamesIn(created) == names[..|created|]
      invariant Underway(a, s, a.Now(), r, names, created)
      invariant PortsUnique(old(a.client.insts)) ==> PortsUnique(a.client.insts)
    {
      var item := Advance(a, r, names, created, s);
      if item.ItemFailed? { return RolledBack(created, names[|created|], item.stage); }
      created := created + [Created(names[|created|], item.ssh)];
      UnderwayShape(a, s, a.Now(), r, names, created);
    }
    UnderwayShape(a, s, a.Now(), r, names, created);
    assert names[..|names|] == names;
    return Completed(created);
  }

  /** The whole batch, for every failure point and every size. */
  method BulkCreate(a: App, r: BulkRequest, view: Option<HostView>) returns (result: BulkResult,
                    ghost names: seq<string>)
    requires a.Configured()
    modifies a.client`insts, a.client`faults, a.client`deleteFaults, a.store
    ensures Later(old(a.Now()), a.Now())
    ensures result.Rejected? ==>
              a.client.insts == old(a.client.insts) && a.store.rows == old(a.store.rows) &&
              a.store.audit == old(a.store.audit)
    ensures !result.Rejected? ==> Admissible(a, old(a.client.insts), r, view) && NamesOf(r, names)
    ensures result.RolledBack? ==>
              |result.created| < |names| && NamesIn(result.created) == names[..|result.created|] &&
              result.failed == names[|result.created|] &&
              Compensated(old(a.Now()), a.Now(), r, names, |result.created|, result.stage) &&
              (a.client.insts == old(a.client.insts) <==> a.client.deleteFaults == old(a.client.deleteFaults)) &&
              FailureLogged(old(a.Now()), a.Now(), result.failed, result.stage)
    // The names exist and run, their rows are written, and the SSH ports are the first free ports
    // of the range in increasing order.
    ensures result.Completed? ==>
              KeyUsable(r.publicKey) && NamesIn(result.created) == names &&
              InstProgress(old(a.client.insts), a.client.insts, names, |names|) &&
              RowProgress(old(a.store.rows), a.store.rows, r, names, |names|) &&
              SshPorts(a, old(a.Now()), r, names, result.created) &&
              CreationsLogged(old(a.Now()), a.Now(), names, |names|)
    ensures result.Completed? ==>
              (forall n | n in a.client.insts :: n in old(a.client.insts) || n in names) &&
              (forall k | 0 <= k < |names| ::
                 names[k] in a.client.insts && a.client.insts[names[k]].status == "Running" &&
                 var ssh, inst := result.created[k].ssh, a.client.insts[names[k]];
                 if !r.allocateSSH then ssh == None && inst.devices == map[]
                 else ssh.Some? && ssh.value.listenPort >= 0 && inst.devices ==
                        map["proxy-tcp-" + Itoa(ssh.value.listenPort) := Device(
                          "proxy", "tcp:0.0.0.0:" + Itoa(ssh.value.listenPort), "tcp:" + inst.ipv4 + ":22")])
    // Nothing that was there before is touched.
    ensures forall n | n in old(a.client.insts) ::
              n in a.client.insts && a.client.insts[n] == old(a.client.insts)[n]
    // The names are the prefix and the numbers from the start index on.
    ensures !result.Rejected? ==>
              |names| == r.count &&
              forall k | 0 <= k < r.count ::
                |names[k]| >= |r.prefix| && names[k][..|r.prefix|] == r.prefix && AllDigits(names[k][|r.prefix|..]) &&
                DigitsValue(names[k][|r.prefix|..]) == r.startIndex + k
    // The rows written: the columns of the request; the policy and the creation time of an earlier
    // row, or none.
    ensures !result.Rejected? ==>
              forall k | 0 <= k < |result.created| + if result.RolledBack? && result.stage.AtSSH? then 1 else 0 ::
                names[k] in a.store.rows &&
                  var row := a.store.rows[names[k]];
                  row.image == (if r.image == "" then "images:alpine/3.24" else r.image) &&
                  row.memoryLimitMb == r.memoryLimitMb && row.diskLimitGb == r.diskLimitGb &&
                  row.cpuLimit == r.cpuLimit && row.desiredState == "running" &&
                  if names[k] in old(a.store.rows) then
                    var before := old(a.store.rows)[names[k]];
                    row.quotaBytes == before.quotaBytes && row.quotaRxBaseline == before.quotaRxBaseline &&
                    row.quotaTxBaseline == before.quotaTxBaseline && row.quotaResetAt == before.quotaResetAt &&
                    row.expiresAt == before.expiresAt && row.createdAt == before.createdAt
                  else
                    row.name == names[k] && row.quotaBytes == row.quotaRxBaseline == row.quotaTxBaseline == 0 &&
                    row.quotaResetAt == Unset && row.expiresAt == Unset && row.createdAt == row.updatedAt
    // What the preflight lets through: valid columns, generated names that are free, capacity for all of
    // them, and a free SSH port for each when ports are wanted.
    ensures !result.Rejected? || FaultFree(old(a.Now()), a.Now()) ==>
              (!result.Rejected? <==>
                 (r.image == "" || !Blank(r.image)) && 16 <= r.memoryLimitMb <= 8192 && 1 <= r.diskLimitGb <= 100 &&
                 ValidCpu(r.cpuLimit) && BulkAllowed(r.prefix, r.startIndex, r.count) &&
                 (forall i | 0 <= i < r.count ::
                    BulkName(r.prefix, r.startIndex, r.count, i) !in old(a.client.insts)) &&
                 (r.allocateSSH ==>
                    (forall n | n in old(a.client.insts) :: ValidName(n)) &&
                    r.count <= |FreePorts(UsedTcp(old(a.client.insts)), a.sshPortStart, a.sshPortEnd)|) &&
                 view.Some? && CapacityAllows(view.value, r.memoryLimitMb, r.diskLimitGb, r.count))
    // Without failures the preflight decides, but for an unusable key, which fails on the first
    // name before any row is written.
    ensures FaultFree(old(a.Now()), a.Now()) ==>
              (result.Rejected? <==> !Admissible(a, old(a.client.insts), r, view)) &&
              (result.RolledBack? ==>
                 !KeyUsable(r.publicKey) && result.created == [] && result.stage == AtReady &&
                 a.client.insts == old(a.client.insts) && a.store.rows == old(a.store.rows))
    ensures PortsUnique(old(a.client.insts)) ==> PortsUnique(a.client.insts)
  {
    hide PortsUnique, Admissible, NamesOf, GoodNames, Fits, Underway, Compensated, InstProgress, RowProgress,
      SshPorts, KeyUsable, ValidLog, FailureLogged, CreationsLogged, Forwarding, BulkName, BulkAllowed,
      CapacityAllows, ValidCpu, ValidName, Blank, AllDigits, DigitsValue, NamesIn, Itoa;
    ghost var s := a.Now();
    names := [];
    AdmissibleMeans(a, a.client.insts, r, view);
    var ok, list := Preflight(a, r, view);
    if !ok { return Rejected, []; }
    names := list;
    NamesNumbered(r, names);
    BatchBegins(a, s, a.Now(), r, names, view);
    result := CreateAll(a, r, list, s);
    match result {
      case RolledBack(created, _, stage) =>
        UndoneIffDeleted(s, a.Now(), r, names, |created|, stage);
        if FaultFree(s, a.Now()) { NothingDone(s, a.Now(), r, names, stage); }
        CompensatedShape(s, a.Now(), r, names, |created|, stage);
        RowsMean(s.rows, a.store.rows, r, names, |created| + if stage.AtSSH? then 1 else 0);
      case Completed(created) =>
        UnderwayShape(a, s, a.Now(), r, names, created);
        RowsMean(s.rows, a.store.rows, r, names, |names|);
        WhatRuns(a, s, a.Now(), r, names, created);
    }
  }

  lemma AdmissibleMeans(a: App, insts: map<string, Instance>, r: BulkRequest, view: Option<HostView>)
    ensures Admissible(a, insts, r, view) <==>
            (r.image == "" || !Blank(r.image)) && 16 <= r.memoryLimitMb <= 8192 && 1 <= r.diskLimitGb <= 100 &&
            ValidCpu(r.cpuLimit) && BulkAllowed(r.prefix, r.startIndex, r.count) &&
            (forall i | 0 <= i < r.count :: BulkName(r.prefix, r.startIndex, r.count, i) !in insts) &&
            (r.allocateSSH ==>
               (forall n | n in insts :: ValidName(n)) &&
               r.count <= |FreePorts(UsedTcp(insts), a.sshPortStart, a.sshPortEnd)|) &&
            view.Some? && CapacityAllows(view.value, r.memoryLimitMb, r.diskLimitGb, r.count)
  {
    hide ValidCpu, BulkAllowed, BulkName, CapacityAllows;
    assert ValidName("nat01");
    ImageGiven(ItemRequest(r, "nat01").(image := r.image));
  }

  lemma CompensatedShape(s: Snap, e: Snap, r: BulkRequest, names: seq<string>, k: nat, stage: Stage)
    requires k < |names| && Compensated(s, e, r, names, k, stage)
    ensures forall n | n in s.insts :: n in e.insts && e.insts[n] == s.insts[n]
    ensures RowProgress(s.rows, e.rows, r, names, k + if stage.AtSSH? then 1 else 0)
  {
    hide RowProgress, AllLogged;
  }

  /** What a failed batch leaves behind: one instance for each deletion that failed; no more of them go
      unreported than audit writes failed, but for one that was never started. */
  lemma LeftoversMean(s: Snap, e: Snap, r: BulkRequest, names: seq<string>, k: nat, stage: Stage)
    requires k < |names| && Compensated(s, e, r, names, k, stage)
    ensures var left := e.insts.Keys - s.insts.Keys;
            |left| == e.deletes - s.deletes && (forall n | n in left :: n in names[..k + 1]) &&
            AllLogged(s, e, "container.cleanup", if stage.AtCreate? then left - {names[k]} else left, "failure") &&
            (stage.AtCreate? && names[k] in e.insts ==> e.insts[names[k]].status == "Stopped")
  {
    hide RowProgress, AllLogged;
    if !stage.AtCreate? { assert Leftovers(s, e) - {} == Leftovers(s, e); }
  }

  lemma WhatRuns(a: App, s: Snap, e: Snap, r: BulkRequest, names: seq<string>, created: seq<Created>)
    requires NamesIn(created) == names && InstProgress(s.insts, e.insts, names, |names|)
    requires Forwarding(e.insts, created) && SshPorts(a, s, r, names, created)
    ensures forall n | n in s.insts :: n in e.insts && e.insts[n] == s.insts[n]
    ensures forall n | n in e.insts :: n in s.insts || n in names
    ensures forall k | 0 <= k < |names| ::
              names[k] in e.insts && e.insts[names[k]].status == "Running" &&
              var ssh, inst := created[k].ssh, e.insts[names[k]];
              if !r.allocateSSH then ssh == None && inst.devices == map[]
              else ssh.Some? && ssh.value.listenPort >= 0 && inst.devices ==
                     map["proxy-tcp-" + Itoa(ssh.value.listenPort) := Device(
                       "proxy", "tcp:0.0.0.0:" + Itoa(ssh.value.listenPort), "tcp:" + inst.ipv4 + ":22")]
  {
    hide FreeSsh;
    assert names[..|names|] == names;
    forall k | 0 <= k < |names|
      ensures created[k].name == names[k] && names[k] in e.insts && Running(e.insts[names[k]])
    {
      assert NamesIn(created)[k] == created[k].name;
      assert names[k] in names;
    }
  }

  lemma NamesNumbered(r: BulkRequest, names: seq<string>)
    requires NamesOf(r, names)
    ensures |names| == r.count
    ensures forall k | 0 <= k < r.count ::
              |names[k]| >= |r.prefix| && names[k][..|r.prefix|] == r.prefix && AllDigits(names[k][|r.prefix|..]) &&
              DigitsValue(names[k][|r.prefix|..]) == r.startIndex + k
  {
    hide BulkName, AllDigits;
    assert r.startIndex >= 0;
    forall k | 0 <= k < r.count { NameParts(r.prefix, r.startIndex, r.count, k); }
  }

  /** An admissible batch fits the state it starts from. */
  lemma BatchBegins(a: App, s: Snap, e: Snap, r: BulkRequest, names: seq<string>, view: Option<HostView>)
    requires a.Configured() && Admissible(a, s.insts, r, view) && NamesOf(r, names)
    requires Later(s, e) && e.insts == s.insts && e.rows == s.rows && e.deletes == s.deletes
    ensures Fits(a, s, r, names) && Underway(a, s, e, r, names, []) && |names| > 0
  {
    hide RowMade, ValidRequest, BulkAllowed, ValidLog, AllLogged;
    assert NamesTo(names, 0) == {};
    NoneToLog(s, e, "container.create", "success");
    NamesAreGood(r, names);
    forall n | n in names ensures n !in s.insts {
      var i :| 0 <= i < |names| && names[i] == n;
    }
    assert names[..0] == [];
    assert r.count >= 1 by { CountPositive(r); }
  }

  lemma CountPositive(r: BulkRequest)
    requires BulkAllowed(r.prefix, r.startIndex, r.count)
    ensures r.count >= 1
  {
  }

  /** What the loop invariant says of a batch in progress, and once it is complete. */
  lemma UnderwayShape(a: App, s: Snap, e: Snap, r: BulkRequest, names: seq<string>, created: seq<Created>)
    requires Underway(a, s, e, r, names, created)
    ensures Later(s, e) && |created| <= |names| && NamesIn(created) == names[..|created|]
    ensures SshPorts(a, s, r, names, created) && (created != [] ==> KeyUsable(r.publicKey)) &&
            Forwarding(e.insts, created)
    ensures |created| == |names| ==>
              InstProgress(s.insts, e.insts, names, |names|) && RowProgress(s.rows, e.rows, r, names, |names|) &&
              CreationsLogged(s, e, names, |names|)
  {
    hide SshPorts, InstProgress, RowProgress, ValidLog, SshDevice;
  }

  /** A batch that failed on its first name without any deletion failing has changed nothing. */
  lemma NothingDone(s: Snap, e: Snap, r: BulkRequest, names: seq<string>, stage: Stage)
    requires names != [] && Compensated(s, e, r, names, 0, stage) && !stage.AtSSH? && e.deletes == s.deletes
    ensures e.insts == s.insts && e.rows == s.rows
  {
    UndoneIffDeleted(s, e, r, names, 0, stage);
    RowsKept(s.rows, e.rows, r, names);
  }

  lemma RowsKept(before: map<string, Row>, now: map<string, Row>, r: BulkRequest, names: seq<string>)
    ensures RowProgress(before, now, r, names, 0) ==> now == before
  {
  }

  lemma ItemLeftover(before: map<string, Instance>, mid: map<string, Instance>, now: map<string, Instance>,
                     names: seq<string>, i: nat)
    requires i < |names| && names[i] !in mid && InstProgress(before, mid, names, i)
    requires now == mid || OnlyAdded(mid, now, names[i])
    ensures Submap(before, now) && forall n :: n in now ==> n in before || n in names[..i + 1]
    ensures names[i] in now <==> now != mid
  {
    assert names[..i + 1] == names[..i] + [names[i]];
  }
}
