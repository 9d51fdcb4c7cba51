/** The management database (internal/store/store.go): the table of desired containers as a map
    from its primary key, the audit table as its rows in id order. A statement may fail for an
    unknown reason; `faults` counts those failures on the container table and `auditFaults` those
    on the audit table. A failed statement and a rolled-back transaction change nothing. */
module Store {
  import opened Text

  /** A timestamp column: empty, an RFC 3339 instant in Unix nanoseconds, or any other text. */
  datatype Stamp = Unset | Instant(nanos: int) | Malformed(text: string)

  datatype Row = Row(
    name: string, image: string, memoryLimitMb: int, diskLimitGb: int, cpuLimit: string, desiredState: string,
    quotaBytes: int, quotaRxBaseline: int, quotaTxBaseline: int, quotaResetAt: Stamp, expiresAt: Stamp,
    createdAt: Stamp, updatedAt: Stamp)

  datatype AuditEvent = AuditEvent(id: int, actor: string, action: string, target: string, targetId: string,
                                   result: string)

  datatype Backup = Backup(version: int, containers: seq<Row>)

  datatype DbResult = Done | NoRows | Failed

  predicate ValidState(state: string) {
    state == "running" || state == "stopped"
  }

  /** What `Restore` demands of a row. */
  predicate Accepted(row: Row) {
    && ValidName(row.name) && !Blank(row.image) && ValidState(row.desiredState)
    && 16 <= row.memoryLimitMb <= 8192 && 1 <= row.diskLimitGb <= 100
    && row.quotaBytes >= 0 && row.quotaRxBaseline >= 0 && row.quotaTxBaseline >= 0
    && ValidCpu(row.cpuLimit)
  }

  /** Every row sits under its own name, carries both timestamps and is one `Restore` accepts. */
  ghost predicate Restorable(rows: map<string, Row>) {
    forall n | n in rows ::
      rows[n].name == n && Accepted(rows[n]) && rows[n].createdAt != Unset && rows[n].updatedAt != Unset
  }

  /** Every row sits under its own name. */
  ghost predicate Keyed(rows: map<string, Row>) {
    forall n | n in rows :: rows[n].name == n
  }

  /** What `INSERT ... ON CONFLICT(name) DO UPDATE` leaves in the table: the policy columns and the
      creation time of an existing row survive. */
  function Upserted(rows: map<string, Row>, row: Row): map<string, Row> {
    rows[row.name :=
      if row.name in rows then
        rows[row.name].(image := row.image, memoryLimitMb := row.memoryLimitMb, diskLimitGb := row.diskLimitGb,
                        cpuLimit := row.cpuLimit, desiredState := row.desiredState, updatedAt := row.updatedAt)
      else row]
  }

  // ---------------------------------------------------------------- listing

  method LeastName(names: set<string>) returns (least: string)
    requires names != {}
    ensures least in names && forall m | m in names :: m == least || StrLess(least, m)
  {
    least :| least in names;
    var rest := names - {least};
    while rest != {}
      invariant rest <= names && least in names
      invariant forall m | m in names && m !in rest :: m == least || StrLess(least, m)
      decreases |rest|
    {
      var n :| n in rest;
      StrLessTotal(n, least);
      if StrLess(n, least) {
        forall m | m in names && m !in rest && m != least ensures StrLess(n, m) { StrLessTransitive(n, least, m); }
        least := n;
      }
      rest := rest - {n};
    }
  }

  /** `SELECT ... ORDER BY name`: every row once, in strictly increasing order of names. */
  ghost predicate ListsRows(rows: map<string, Row>, list: seq<Row>) {
    && (forall i | 0 <= i < |list| :: list[i].name in rows && list[i] == rows[list[i].name])
    && (forall i, j | 0 <= i < j < |list| :: StrLess(list[i].name, list[j].name))
    && (forall n | n in rows :: exists i :: 0 <= i < |list| && list[i].name == n)
  }

  // ---------------------------------------------------------------- restore

  /** row is item as `Restore` writes it: missing timestamps are filled in, nothing else changes. */
  predicate StampedFrom(item: Row, row: Row) {
    && row == item.(createdAt := row.createdAt, updatedAt := row.updatedAt)
    && row.createdAt != Unset
    && (item.createdAt != Unset ==> row.createdAt == item.createdAt)
    && row.updatedAt == if item.updatedAt == Unset then row.createdAt else item.updatedAt
  }

  /** Every row valid and no name twice. */
  ghost predicate AcceptedRows(list: seq<Row>) {
    && (forall i | 0 <= i < |list| :: Accepted(list[i]))
    && (forall i, j | 0 <= i < j < |list| :: list[i].name != list[j].name)
  }

  /** The backups `Restore` accepts. */
  ghost predicate Restorables(b: Backup) {
    b.version == 1 && AcceptedRows(b.containers)
  }

  /** The table holds exactly these rows. */
  ghost predicate Installed(list: seq<Row>, rows: map<string, Row>) {
    && (forall n | n in rows :: exists i :: 0 <= i < |list| && list[i].name == n)
    && (forall i | 0 <= i < |list| :: list[i].name in rows && StampedFrom(list[i], rows[list[i].name]))
  }

  lemma InstalledRestorable(list: seq<Row>, rows: map<string, Row>)
    requires Installed(list, rows) && forall i | 0 <= i < |list| :: Accepted(list[i])
    ensures Restorable(rows)
  {
    forall n | n in rows
      ensures rows[n].name == n && Accepted(rows[n]) && rows[n].createdAt != Unset && rows[n].updatedAt != Unset
    {
      var i :| 0 <= i < |list| && list[i].name == n;
    }
  }

  /** Restoring the export of a restorable table is accepted and gives back that table exactly. */
  lemma RestoreOfExport(rows: map<string, Row>, list: seq<Row>, restored: map<string, Row>)
    requires Restorable(rows) && ListsRows(rows, list)
    ensures Restorables(Backup(1, list))
    ensures Installed(list, restored) ==> restored == rows
  {
    hide Accepted, StrLess;
    forall i, j | 0 <= i < j < |list| ensures list[i].name != list[j].name { StrLessIrreflexive(list[i].name); }
    if Installed(list, restored) {
      forall n | n in rows ensures n in restored && restored[n] == rows[n] {
        var i :| 0 <= i < |list| && list[i].name == n;
        assert StampedFrom(list[i], restored[n]);
      }
      forall n | n in restored ensures n in rows {
        var i :| 0 <= i < |list| && list[i].name == n;
      }
    }
  }

  // ---------------------------------------------------------------- audit table

  /** AUTOINCREMENT ids: positive and strictly increasing. */
  predicate ValidLog(log: seq<AuditEvent>) {
    (forall i | 0 <= i < |log| :: log[i].id >= 1) &&
    (forall i, j | 0 <= i < j < |log| :: log[i].id < log[j].id)
  }

  function PageSize(limit: int): nat {
    if limit < 1 then 50 else if limit > 200 then 200 else limit
  }

  /** How many events a cursor leaves: those with an id below it, or all of them without one. */
  function Below(log: seq<AuditEvent>, beforeId: int): (k: nat)
    ensures k <= |log|
  {
    if log == [] || beforeId <= 0 || log[|log| - 1].id < beforeId then |log| else Below(log[..|log| - 1], beforeId)
  }

  /** A positive cursor leaves exactly the events with a smaller id, event id or not. */
  lemma {:induction false} BelowExact(log: seq<AuditEvent>, beforeId: int)
    requires ValidLog(log) && beforeId > 0
    ensures forall i | 0 <= i < |log| :: i < Below(log, beforeId) <==> log[i].id < beforeId
  {
    if log != [] && log[|log| - 1].id >= beforeId {
      var before := log[..|log| - 1];
      assert forall i | 0 <= i < |before| :: before[i] == log[i];
      BelowExact(before, beforeId);
    }
  }

  /** The n latest of the first k events, latest first. */
  function Latest(log: seq<AuditEvent>, k: nat, n: nat): seq<AuditEvent>
    requires k <= |log|
  {
    if k == 0 || n == 0 then [] else [log[k - 1]] + Latest(log, k - 1, n - 1)
  }

  lemma {:induction false} LatestShape(log: seq<AuditEvent>, k: nat, n: nat)
    requires k <= |log|
    ensures |Latest(log, k, n)| == if n < k then n else k
    ensures forall i | 0 <= i < |Latest(log, k, n)| :: Latest(log, k, n)[i] == log[k - 1 - i]
  {
    if k > 0 && n > 0 { LatestShape(log, k - 1, n - 1); }
  }

  function Page(log: seq<AuditEvent>, limit: int, beforeId: int): seq<AuditEvent> {
    Latest(log, Below(log, beforeId), PageSize(limit))
  }

  /** `SELECT ... WHERE id < ? ORDER BY id DESC LIMIT ?`. */
  method SelectPage(log: seq<AuditEvent>, beforeId: int, size: nat) returns (page: seq<AuditEvent>)
    ensures page == Latest(log, Below(log, beforeId), size)
    ensures ValidLog(log) && beforeId > 0 ==>
              forall i | 0 <= i < |log| :: i < Below(log, beforeId) <==> log[i].id < beforeId
  {
    if ValidLog(log) && beforeId > 0 { BelowExact(log, beforeId); }
    page := [];
    var k := |log|;
    assert log[..k] == log;
    while beforeId > 0 && k > 0 && log[k - 1].id >= beforeId
      invariant 0 <= k <= |log| && Below(log[..k], beforeId) == Below(log, beforeId)
    {
      assert log[..k][..k - 1] == log[..k - 1];
      k := k - 1;
    }
    assert k == Below(log, beforeId);
    ghost var first := k;
    while |page| < size && k > 0
      invariant 0 <= k <= first && |page| == first - k && |page| <= size
      invariant forall i | 0 <= i < |page| :: page[i] == log[first - 1 - i]
    {
      page, k := page + [log[k - 1]], k - 1;
    }
    LatestShape(log, first, size);
  }

  /** `ParseBeforeID`. */
  function ParseBeforeId(value: string): int {
    var parsed := Atoi(value);
    if parsed.None? || parsed.value < 1 then 0 else parsed.value
  }

  class Store {
    var rows: map<string, Row>
    var audit: seq<AuditEvent>
    ghost var faults: nat
    ghost var auditFaults: nat

    constructor ()
      ensures rows == map[] && audit == [] && faults == 0 && auditFaults == 0
    {
      rows, audit, faults, auditFaults := map[], [], 0, 0;
    }

    method Fault() returns (failed: bool)
      modifies `faults
      ensures faults == old(faults) + if failed then 1 else 0
    {
      failed := *;
      if failed { faults := faults + 1; }
    }

    method Now() returns (s: Stamp)
      ensures s.Instant?
    {
      var nanos: int := *;
      s := Instant(nanos);
    }

    method UpsertContainer(container: Row) returns (ok: bool)
      modifies `rows, `faults
      ensures faults >= old(faults)
      ensures !ok ==> rows == old(rows)
      ensures ok ==> !Blank(container.name) &&
                     exists now: Stamp :: now.Instant? &&
                       rows == Upserted(old(rows), container.(
                         desiredState := if container.desiredState == "" then "running" else container.desiredState,
                         createdAt := if container.createdAt == Unset then now else container.createdAt,
                         updatedAt := now))
      // A row of this name keeps its policy and its creation time; the rest is what was passed.
      ensures ok ==>
                container.name in rows && rows == old(rows)[container.name := rows[container.name]] &&
                var row := rows[container.name];
                row.image == container.image && row.memoryLimitMb == container.memoryLimitMb &&
                row.diskLimitGb == container.diskLimitGb && row.cpuLimit == container.cpuLimit &&
                row.desiredState == (if container.desiredState == "" then "running" else container.desiredState) &&
                row.updatedAt.Instant? &&
                (container.name !in old(rows) ==>
                   row == container.(desiredState := row.desiredState, createdAt := row.createdAt,
                                     updatedAt := row.updatedAt) &&
                   row.createdAt == if container.createdAt == Unset then row.updatedAt else container.createdAt)
      ensures ok && container.name in old(rows) ==>
                var row, before := rows[container.name], old(rows)[container.name];
                row.quotaBytes == before.quotaBytes && row.quotaRxBaseline == before.quotaRxBaseline &&
                row.quotaTxBaseline == before.quotaTxBaseline && row.quotaResetAt == before.quotaResetAt &&
                row.expiresAt == before.expiresAt && row.createdAt == before.createdAt && row.name == before.name
      ensures faults == old(faults) ==> (ok <==> !Blank(container.name))
    {
      if Blank(container.name) { return false; }
      var row := container;
      if row.desiredState == "" { row := row.(desiredState := "running"); }
      var timestamp := Now();
      if row.createdAt == Unset { row := row.(createdAt := timestamp); }
      row := row.(updatedAt := timestamp);
      var failed := Fault();
      if failed { return false; }
      rows := Upserted(rows, row);
      ok := true;
    }

    method SetDesiredState(name: string, state: string) returns (r: DbResult)
      modifies `rows, `faults
      ensures faults >= old(faults)
      ensures r != Done ==> rows == old(rows)
      ensures r == Done ==> ValidState(state) && name in old(rows) && name in rows && rows[name].updatedAt.Instant? &&
                            rows == old(rows)[name := old(rows)[name].(
                              desiredState := state, updatedAt := rows[name].updatedAt)]
      ensures r == NoRows ==> name !in rows
      ensures r != Failed ==> faults == old(faults)
      ensures faults == old(faults) && name != "" && ValidState(state) ==>
                r == if name in old(rows) then Done else NoRows
    {
      if name == "" || !ValidState(state) { return Failed; }
      var failed := Fault();
      if failed { return Failed; }
      if name !in rows { return NoRows; }
      var timestamp := Now();
      rows := rows[name := rows[name].(desiredState := state, updatedAt := timestamp)];
      r := Done;
    }

    method DeleteContainer(name: string) returns (ok: bool)
      modifies `rows, `faults
      ensures faults >= old(faults)
      ensures rows == if ok then old(rows) - {name} else old(rows)
      ensures faults == old(faults) ==> ok
    {
      var failed := Fault();
      if !failed { rows := rows - {name}; }
      ok := !failed;
    }

    method UpdatePolicy(name: string, quotaBytes: int, rxBaseline: int, txBaseline: int, resetAt: Stamp,
                        expiresAt: Stamp) returns (r: DbResult)
      modifies `rows, `faults
      ensures faults >= old(faults)
      ensures r != Done ==> rows == old(rows)
      ensures r == Done ==> quotaBytes >= 0 && rxBaseline >= 0 && txBaseline >= 0 &&
                            name in old(rows) && name in rows && rows[name].updatedAt.Instant? &&
                            rows == old(rows)[name := old(rows)[name].(
                              quotaBytes := quotaBytes, quotaRxBaseline := rxBaseline, quotaTxBaseline := txBaseline,
                              quotaResetAt := resetAt, expiresAt := expiresAt, updatedAt := rows[name].updatedAt)]
      ensures faults == old(faults) && name != "" && quotaBytes >= 0 && rxBaseline >= 0 && txBaseline >= 0 ==>
                r == if name in old(rows) then Done else NoRows
    {
      if name == "" || quotaBytes < 0 || rxBaseline < 0 || txBaseline < 0 { return Failed; }
      var failed := Fault();
      if failed { return Failed; }
      if name !in rows { return NoRows; }
      var timestamp := Now();
      rows := rows[name := rows[name].(
        quotaBytes := quotaBytes, quotaRxBaseline := rxBaseline, quotaTxBaseline := txBaseline,
        quotaResetAt := resetAt, expiresAt := expiresAt, updatedAt := timestamp)];
      r := Done;
    }

    method ListContainers() returns (ok: bool, list: seq<Row>)
      requires Keyed(rows)
      modifies `faults
      ensures faults >= old(faults)
      ensures faults == old(faults) ==> ok
      ensures ok ==> ListsRows(rows, list)
    {
      hide StrLess, Accepted;
      list := [];
      var failed := Fault();
      if failed { return false, list; }
      var rest := rows.Keys;
      while rest != {}
        invariant faults >= old(faults) && rest <= rows.Keys
        invariant forall i | 0 <= i < |list| :: list[i].name in rows && list[i] == rows[list[i].name]
        invariant forall i, m | 0 <= i < |list| && m in rest :: StrLess(list[i].name, m)
        invariant forall i, j | 0 <= i < j < |list| :: StrLess(list[i].name, list[j].name)
        invariant forall n | n in rows && n !in rest :: exists i :: 0 <= i < |list| && list[i].name == n
        decreases |rest|
      {
        var n := LeastName(rest);
        ghost var before := list;
        list, rest := list + [rows[n]], rest - {n};
        assert list[|before|].name == n;
        forall m | m in rows && m !in rest ensures exists i :: 0 <= i < |list| && list[i].name == m {
          if m != n {
            var i :| 0 <= i < |before| && before[i].name == m;
            assert list[i].name == m;
          }
        }
      }
      ok := true;
    }

    method Export() returns (ok: bool, backup: Backup)
      requires Keyed(rows)
      modifies `faults
      ensures faults >= old(faults)
      ensures faults == old(faults) ==> ok
      ensures ok ==> backup.version == 1 && ListsRows(rows, backup.containers)
    {
      var list;
      ok, list := ListContainers();
      backup := Backup(1, list);
    }

    /** Checks and inserts one row of the transaction. */
    method InsertRow(item: Row, tx: map<string, Row>) returns (ok: bool, tx': map<string, Row>)
      modifies `faults
      ensures faults >= old(faults)
      ensures ok ==> Accepted(item) && item.name !in tx && item.name in tx' &&
                     tx' == tx[item.name := tx'[item.name]] && StampedFrom(item, tx'[item.name])
      ensures faults == old(faults) ==> (ok <==> Accepted(item) && item.name !in tx)
    {
      if !Accepted(item) { return false, tx; }
      var row := item;
      if row.createdAt == Unset {
        var timestamp := Now();
        row := row.(createdAt := timestamp);
      }
      if row.updatedAt == Unset { row := row.(updatedAt := row.createdAt); }
      var failed := Fault();
      if failed || item.name in tx { return false, tx; }
      return true, tx[row.name := row];
    }

    /** One transaction: delete everything, check and insert row by row, commit. */
    method Restore(backup: Backup) returns (ok: bool)
      modifies `rows, `faults
      ensures faults >= old(faults)
      ensures !ok ==> rows == old(rows)
      ensures ok ==> Restorables(backup) && Installed(backup.containers, rows)
      ensures faults == old(faults) ==> (ok <==> Restorables(backup))
      // Accepted: version 1, no name twice, every row within the limits.
      ensures ok || faults == old(faults) ==>
                (ok <==>
                   backup.version == 1 &&
                   (forall i, j | 0 <= i < j < |backup.containers| ::
                      backup.containers[i].name != backup.containers[j].name) &&
                   (forall row | row in backup.containers ::
                      ValidName(row.name) && !Blank(row.image) && ValidCpu(row.cpuLimit) &&
                      (row.desiredState == "running" || row.desiredState == "stopped") &&
                      16 <= row.memoryLimitMb <= 8192 && 1 <= row.diskLimitGb <= 100 &&
                      row.quotaBytes >= 0 && row.quotaRxBaseline >= 0 && row.quotaTxBaseline >= 0))
      // Installed: those rows and no others, unchanged but for timestamps that were missing.
      ensures ok ==> |rows| == |backup.containers| && forall row | row in backup.containers ::
                row.name in rows &&
                row.(createdAt := rows[row.name].createdAt, updatedAt := rows[row.name].updatedAt) == rows[row.name] &&
                (row.createdAt != Unset ==> rows[row.name].createdAt == row.createdAt) &&
                (row.updatedAt != Unset ==> rows[row.name].updatedAt == row.updatedAt) &&
                rows[row.name].createdAt != Unset && rows[row.name].updatedAt != Unset
    {
      hide Accepted, StampedFrom, AcceptedRows, Installed, Blank, ValidName, ValidCpu;
      AcceptedMeans(backup.containers);
      if backup.version != 1 { return false; }
      var failed := Fault();
      if failed { return false; }
      NothingInstalled();
      var tx: map<string, Row> := map[];
      var list := backup.containers;
      for i := 0 to |list|
        invariant rows == old(rows) && faults >= old(faults)
        invariant AcceptedRows(list[..i]) && Installed(list[..i], tx)
      {
        assert list[..i + 1] == list[..i] + [list[i]];
        PrefixStep(list, i, tx);
        var inserted, tx' := InsertRow(list[i], tx);
        if !inserted { return false; }
        InstallOne(list[..i], tx, list[i], tx'[list[i].name]);
        tx := tx';
      }
      assert list[..|list|] == list;
      failed := Fault();
      if failed { return false; }
      rows := tx;
      ok := true;
      RestoredMeans(list, rows);
    }

    /** A page of the newest events, newest first, all below the cursor when there is one. */
    method ListAudit(limit: int, beforeId: int) returns (ok: bool, page: seq<AuditEvent>)
      requires ValidLog(audit)
      ensures ok ==> page == Page(audit, limit, beforeId)
      ensures ok ==>
                var size, left := if limit < 1 then 50 else if limit > 200 then 200 else limit, Below(audit, beforeId);
                |page| == (if left < size then left else size) &&
                forall i | 0 <= i < |page| :: page[i] == audit[left - 1 - i]
    {
      ok, page := *, [];
      if !ok { return; }
      var size := limit;
      if size < 1 { size := 50; }
      if size > 200 { size := 200; }
      page := SelectPage(audit, beforeId, size);
      LatestShape(audit, Below(audit, beforeId), size);
    }

    /** Appends one event under an id above every id used before. */
    method Audit(actor: string, action: string, target: string, targetId: string, result: string) returns (ok: bool)
      modifies `audit, `auditFaults
      ensures auditFaults == old(auditFaults) + if ok then 0 else 1
      ensures !ok ==> audit == old(audit)
      ensures ok ==> exists id: int :: audit == old(audit) + [AuditEvent(id, actor, action, target, targetId, result)]
      ensures ValidLog(old(audit)) ==> ValidLog(audit)
    {
      ok := *;
      if !ok { auditFaults := auditFaults + 1; return; }
      var id := if audit == [] then 1 else audit[|audit| - 1].id + 1;
      audit := audit + [AuditEvent(id, actor, action, target, targetId, result)];
    }
  }

  lemma AcceptedMeans(list: seq<Row>)
    ensures AcceptedRows(list) <==>
            (forall i, j | 0 <= i < j < |list| :: list[i].name != list[j].name) &&
            (forall row | row in list ::
               ValidName(row.name) && !Blank(row.image) && ValidCpu(row.cpuLimit) &&
               (row.desiredState == "running" || row.desiredState == "stopped") &&
               16 <= row.memoryLimitMb <= 8192 && 1 <= row.diskLimitGb <= 100 &&
               row.quotaBytes >= 0 && row.quotaRxBaseline >= 0 && row.quotaTxBaseline >= 0)
  {
    hide ValidName, Blank, ValidCpu;
    assert (forall row | row in list :: Accepted(row)) <==> forall i | 0 <= i < |list| :: Accepted(list[i]) by {
      hide Accepted;
      assert forall i | 0 <= i < |list| :: list[i] in list;
    }
  }

  lemma RestoredMeans(list: seq<Row>, rows: map<string, Row>)
    requires AcceptedRows(list) && Installed(list, rows)
    ensures |rows| == |list|
    ensures forall row | row in list ::
              row.name in rows &&
              row.(createdAt := rows[row.name].createdAt, updatedAt := rows[row.name].updatedAt) == rows[row.name] &&
              (row.createdAt != Unset ==> rows[row.name].createdAt == row.createdAt) &&
              (row.updatedAt != Unset ==> rows[row.name].updatedAt == row.updatedAt) &&
              rows[row.name].createdAt != Unset && rows[row.name].updatedAt != Unset
  {
    hide Accepted;
    NamesCount(list);
    assert rows.Keys == NamesIn(list) by {
      forall n | n in NamesIn(list) ensures n in rows { var i :| 0 <= i < |list| && list[i].name == n; }
    }
    assert |rows| == |rows.Keys|;
  }

  function NamesIn(list: seq<Row>): set<string> {
    set row | row in list :: row.name
  }

  lemma {:induction false} NamesCount(list: seq<Row>)
    requires forall i, j | 0 <= i < j < |list| :: list[i].name != list[j].name
    ensures |NamesIn(list)| == |list|
  {
    if list != [] {
      var rest, last := list[..|list| - 1], list[|list| - 1];
      NamesCount(rest);
      assert list == rest + [last];
      assert NamesIn(list) == NamesIn(rest) + {last.name};
    }
  }

  lemma NothingInstalled()
    ensures AcceptedRows([]) && Installed([], map[])
  {
  }

  /** The next row extends the accepted prefix, or the backup as a whole is refused. */
  lemma PrefixStep(list: seq<Row>, i: nat, tx: map<string, Row>)
    requires i < |list| && AcceptedRows(list[..i]) && Installed(list[..i], tx)
    ensures Accepted(list[i]) && list[i].name !in tx ==> AcceptedRows(list[..i + 1])
    ensures !Accepted(list[i]) || list[i].name in tx ==> !AcceptedRows(list)
  {
    if list[i].name in tx {
      var j :| 0 <= j < i && list[..i][j].name == list[i].name;
      assert list[j].name == list[i].name;
    } else {
      var before, next := list[..i], list[..i + 1];
      assert forall j | 0 <= j < i :: next[j] == before[j] && before[j].name in tx;
      assert next[i] == list[i];
    }
  }

  lemma InstallOne(list: seq<Row>, tx: map<string, Row>, item: Row, row: Row)
    requires Installed(list, tx) && item.name !in tx && StampedFrom(item, row)
    ensures Installed(list + [item], tx[item.name := row])
  {
    var tx', list' := tx[item.name := row], list + [item];
    forall n | n in tx' ensures exists i :: 0 <= i < |list'| && list'[i].name == n {
      if n == item.name {
        assert list'[|list|].name == n;
      } else {
        var i :| 0 <= i < |list| && list[i].name == n;
        assert list'[i].name == n;
      }
    }
    forall i | 0 <= i < |list'| ensures list'[i].name in tx' && StampedFrom(list'[i], tx'[list'[i].name]) {
      if i < |list| { assert list'[i] == list[i]; }
    }
  }
}
