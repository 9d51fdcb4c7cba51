# Natbox: a verified model of its control logic

Natbox runs NAT containers on one host. It keeps two kinds of state that can drift apart: the
container runtime (Incus or LXD) with its instances, proxy devices and traffic counters, and a table
of desired containers in a database. Handlers and background passes check, act, record and undo over
that pair, under one mutex, and every command and statement may fail. This project models that logic
in Dafny and proves what it keeps, for all inputs, failures and runs.

## How the model is built

- `Incus.Client` holds the instances, `Store.Store` the table and the audit log, `AppState.App` both
  and the configured port ranges. The methods of the source's client, store and application are
  methods here, with the same branches, in the same order.
- The methods named `Run...` in `Incus.dfy` are the runtime's own commands. Their contracts are all
  the model assumes of the runtime. Besides the refusals a reader can see in the state, any command
  or statement may fail for an unknown reason. Ghost counters (`faults`, `deleteFaults`,
  `auditFaults`) count those failures, so "nothing failed" is `FaultFree`, and most contracts say
  both what holds whatever fails and exactly when a call succeeds if nothing does.
- `AppState.Snap` is the whole state at one moment. The relations over two snapshots (`Compensated`,
  `PassResult`, `Repaired`, `DoneTo`, `Removed`, `Kept`) are what the operations' contracts promise,
  and the run-level lemmas work on them.
- `PortProtocol` splits the locked sections into single commands and interleaves any number of
  threads. `Runs`, `Convergence`, `AuditPages`, `Login`, `Quota` and `Backups` speak of whole runs.
- Integers are unbounded; where Go's `int64` could wrap, `Wrap64` says so.

| file | what it covers |
|---|---|
| `Prelude.dfy`, `Text.dfy`, `Sorting.dfy` | 64-bit arithmetic, decimals, the byte order on strings, name patterns, splitting, sorting |
| `Endpoints.dfy`, `Incus.dfy` | listen and connect strings, proxy devices, the runtime and its client |
| `PortProtocol.dfy`, `Ports.dfy` | public ports under interleaving; SSH port allocation |
| `Requests.dfy`, `Saga.dfy`, `Bulk.dfy` | validation, generated names, capacity; create and batch create with compensation |
| `Store.dfy`, `AuditPages.dfy` | the table, export and restore, audit pagination |
| `Reconcile.dfy`, `PortScan.dfy`, `Repair.dfy`, `Policy.dfy`, `Actions.dfy` | the report, the duplicate scan, repair, quota and expiry enforcement, start/stop/restart/delete |
| `Rfc3339.dfy` | expiries as text |
| `Quota.dfy`, `Convergence.dfy`, `Runs.dfy` | quota accounting, passes acting on the same containers, runs of everything |
| `Login.dfy`, `Base64.dfy`, `Password.dfy`, `Calendar.dfy`, `Backups.dfy` | login failures, the password record, snapshot retention |

## Main results

1. Public ports: in every interleaving, no step gives two containers one visible public port, and the
   mutex is needed for that (`PortProtocol.RunAddsNoClash`, `PortProtocol.PortsStayUnique`,
   `PortProtocol.WithoutMutexPortsClash`).
2. Batch creation: the names are the prefix and the numbers from the start index on; whatever fails, instances that were there before are untouched; there is one
   leftover for each deletion that failed and no other, so a failed batch is undone if and only if all
   its deletions worked; no more leftovers go unreported than audit writes failed, but for the one
   whose deletion failed inside `Create`; the preflight leaves no way to run out of SSH ports, and the
   ports handed out are the least free ones in increasing order (`Bulk.BulkCreate`).
3. Runs: a table reachable by any operations with any failures can be exported and restored to the
   last timestamp, and without failures every row stays backed by an instance that is Running if and
   only if the row wants it to be
   (`Runs.RunAll`, `Runs.ExportThenRestore`).
4. Policy: every byte moved since the update is charged or lost to a counter reset, with the lost part
   given exactly (`Quota.ChargedOrLost`); real passes stop a container at the first one that charges
   the quota, with that loss in the bound on the overshoot (`Quota.SoftLimit`); enforcement and repair cannot
   fight over an expired container (`Convergence.StoppedAtMostOnce`,
   `Convergence.ExpiredStayStopped`).
5. The report partitions exactly, and every duplicate-port issue occurs exactly as often as its
   definition over the listing order says (`Reconcile.BuildReport`, `PortScan.ScanExact`,
   `PortScan.IssueIffClash`).
6. Reading the audit log by cursor, the login failure window, the password record and the snapshot
   directory: see the last rows of the table.

## Where the code and its documentation differ

The model follows the code.

- `README.md:137` says a failed batch rolls back every instance it created. It does so if and only if
  all its deletions work (`Bulk.UndoneIffDeleted`), and the rows already written stay in the table
  (main.go:851-885); `Bulk.BulkCreate` and `Runs.LeftoversAreReported` say exactly what is left.
- `README.md:90` bounds the overshoot of a quota by the traffic of one sampling interval. That leaves out
  what counter resets have hidden by the pass before (`Quota.Overshoot`), which is unbounded
  (`Quota.ResetsHideTraffic`) and exactly `Quota.Lost`; it is nothing if and only if
  `Quota.NothingLost` holds (`Quota.ChargedOrLost`). `README.md:75` says counters reset at a policy
  update; the code records baselines instead.
- An expiry whose instant falls outside the years 0 to 9999 in UTC is accepted, printed with a sign or a
  fifth digit in its year, refused when it is read back, and never enforced (policy.go:48-52,
  policy.go:106); `Rfc3339.ReadsBack` and `Policy.ExpiryEffective` give the exact condition.
- The error text of the SSH preflight always names the range 2201-2299 (main.go:1139), whatever range
  is configured.
- The capacity check of a single create runs before validation, on products that can wrap
  (main.go:631-635): `Requests.CapacityCheckWraps`. Validation then stops such a request
  (`Requests.CapacityExact`).
- The password record's decoder skips line breaks and ignores unused low bits, and later parameters
  override earlier ones, so other texts than the printed one denote the same record.

## Model

| member | source | states |
|---|---|---|
| PortProtocol.StepKeeps | main.go:708-735 | Every lock operation or runtime command, of any thread, keeps the mutex invariant, adds no clash of public ports, and a device is only ever added on a port nobody holds |
| PortProtocol.RunAddsNoClash | internal/incus/client.go:391-445 | In every interleaving, every clash at the end was a clash at the start, and every successful add is atomic |
| PortProtocol.PortsStayUnique | main.go:708-735 | From unique ports, with no thread inside a section, every reachable state has unique ports |
| PortProtocol.WithoutMutexPortsClash | internal/incus/client.go:412-443 | A concrete interleaving in which, were the mutex granted to everyone, two containers end up with one port |
| PortProtocol.DeviceAddKeeps | internal/incus/client.go:412-443 | After the scan the port is free everywhere, so adding it is as if check and add were one step |
| Endpoints.EndpointRoundTrip | internal/incus/client.go:580-590 | A printed endpoint is read back as its protocol and port exactly when protocol, port and colon-free address allow it |
| Endpoints.VisibleMeans | internal/incus/client.go:485-590 | Which devices are read, and as which forward, in terms of the parts of their two strings |
| Endpoints.ProxyDeviceVisible | internal/incus/client.go:410-444 | A device made by adding a port is visible exactly when the address has no colon, and shows the requested forward |
| Endpoints.ProxyDeviceParts | internal/incus/client.go:410-440 | Split at the colons, the listen string is protocol, 0.0.0.0 and public port, the connect string protocol, container address and target port |
| Endpoints.DeviceNameInjective | internal/incus/client.go:410 | Device names are different for different protocols and ports |
| Endpoints.PortForwardsFromDevices | internal/incus/client.go:480-507 | The listing has each visible forward as often as devices show it, by increasing port, then protocol |
| Endpoints.ListedIffVisible | internal/incus/client.go:485-499 | A forward is listed if and only if some device shows it |
| Endpoints.ListingDetermined | internal/incus/client.go:485-506 | With distinct listen keys the listing does not depend on map order |
| Endpoints.AddThenList | internal/incus/client.go:391-521 | After an add the listing gains exactly the new forward; removing the device gives the old devices back |
| Incus.AddKeepsUnique | internal/incus/client.go:412-443 | Adding a port no other container holds keeps public ports unique |
| Incus.PortsKept | internal/incus/client.go:284-364 | Creating, deleting, starting and stopping keep public ports unique |
| Incus.SumCounters | internal/incus/client.go:230-239 | The counters are the int64 sums over all interfaces but the loopback, whatever the visiting order |
| Incus.TotalStep | internal/incus/client.go:230-238 | The sum over a set of interfaces does not depend on which is taken first |
| Incus.OneInterface | internal/incus/client.go:230-239 | An interface adds its received and sent bytes to their own sum, the loopback adds nothing |
| Incus.Client.Lifecycle | internal/incus/client.go:523-531 | Validates the name, then changes status and address of that instance or nothing; a stop and a restart lose the address |
| Incus.Client.WaitIPv4 | internal/incus/client.go:323-347 | Succeeds with an address for that instance or changes nothing; without failure exactly for a running or addressed one |
| Incus.Client.Delete | internal/incus/client.go:356-364 | Removes exactly that instance or nothing; if no deletion fails, succeeds exactly for a valid existing name |
| Incus.Client.Stats | internal/incus/client.go:209-241 | Returns the summed counters; without failure succeeds exactly for a valid existing name |
| Incus.Client.ListPortForwards | internal/incus/client.go:447-478 | Returns the listing of the instance's devices |
| Incus.Client.Listens | internal/incus/client.go:401-409 | Finds a protocol and port in the listing exactly when the instance holds it |
| Incus.Client.AddPortForward | internal/incus/client.go:391-445 | Adds exactly one device, on a port nobody holds, or nothing: it listens on 0.0.0.0 at the public port and connects to the container's own address at the target port; without failure succeeds exactly when the visible conditions allow it; keeps ports unique |
| Incus.Client.RemovePortForward | internal/incus/client.go:509-521 | Removes exactly that device or nothing; without failure succeeds exactly when it is there |
| Incus.Client.Create | internal/incus/client.go:284-321 | Makes a started instance without devices, or leaves nothing, or leaves a fresh one if its own silent deletion failed; without failure succeeds exactly for a valid free name and limits within 16 MiB to 8 GiB and 128 MiB to 100 GiB |
| Ports.FreePortsExact | main.go:1105-1116 | The free ports of a range are exactly the unused ones, strictly increasing |
| Ports.UsedAndFreeFillRange | main.go:1137-1138 | The pigeonhole of the preflight: used and free ports together number the range |
| Ports.FreePortsTaken | main.go:1105-1115 | Taking the least free port leaves the other free ports |
| Ports.CollectPorts | main.go:1093-1104 | The used map holds exactly the protocols and ports some container holds |
| Ports.UsedPorts | main.go:1144-1174 | The used tcp and udp ports, each in strictly increasing order and exact |
| Ports.CheckSSHCapacity | main.go:1120-1142 | Accepts n exactly when at least n ports of the SSH range are free and all containers are readable |
| Ports.LeastFree | main.go:1105-1116 | The search returns the least free port of the range or none |
| Ports.LeastSshPort | main.go:1105-1116 | The first free SSH port is in the configured range, held by nobody, and every smaller port of the range is held; without one the whole range is held |
| Ports.AllocateSSH | main.go:1082-1118 | Returns an existing forward to tcp port 22 and changes nothing, or adds the least port of the configured range nobody holds; runs out only if the whole range is held; without failure succeeds exactly when it can |
| Ports.OnlySshForward | main.go:1087-1091 | After an allocation a repeated call can return only that forward |
| Ports.AllocateTakesFirst | main.go:1105-1115 | An allocation removes exactly the first port from the free ports |
| Requests.RequestSpecRow | main.go:1007-1024 | The request validation and the runtime's agree but for the name; the runtime gets name, image, CPU limit and both limits in bytes; a request passing both makes a row a restore accepts |
| Requests.BulkNames | main.go:1028-1054 | Succeeds exactly on the allowed inputs; name k is the prefix and, in digits of one width, the number start + k; repeats cannot occur |
| Requests.NameParts | main.go:1039-1046 | A generated name is the prefix followed by at least two digits whose value is start + i |
| Requests.BulkNamesGood | main.go:1039-1052 | The names have one length, are valid, pairwise distinct and increase in the byte order as in number |
| Requests.CapacityExact | main.go:1176-1212 | A valid request passes the capacity check if and only if its true product fits between reserve and available, for memory and for disk; nothing wraps |
| Requests.CapacityCheckWraps | main.go:1185-1187 | The capacity check alone accepts a request whose product wraps |
| Requests.SuggestionsExact | main.go:1176-1212 | n containers of the suggested size pass exactly when n is at most both suggested counts |
| Saga.CleanupContainer | main.go:989-996 | Deletes that instance, or leaves it and reports the failure |
| Saga.MakeReady | main.go:976-986 | After the start: reachable and, with a key, set up, or cleaned up; what is left is reported |
| Saga.CreateOne | main.go:969-987 | Adds one running, reachable instance, or nothing; a failed deletion leaves it, never started and unreported inside Create, running and reported after it |
| Saga.PersistManaged | main.go:962-967 | Writes the request's columns; an existing name keeps quota, baselines, reset time, expiry and creation time, a new one starts without a policy |
| Saga.PersistedShape | internal/store/store.go:188-205 | A persisted row touches no other row, wants to run, and keeps the table restorable |
| Saga.PersistedColumns | internal/store/store.go:188-205 | The same of every persisted row, column by column |
| Saga.CreateManaged | main.go:851-866 | Create, then persist: instance and row together, or no row and this name cleaned up; what a failed deletion leaves is reported unless it was never started |
| Saga.CreateContainer | main.go:617-648 | Create handler: instance and row together, or no row, and no instance exactly if no deletion failed; the row has the request's columns and an earlier row's policy and creation time, or none; a leftover is reported unless it was never started; the outcome is the last audit event; without failure succeeds exactly on visible conditions |
| Saga.AllocateForNew | main.go:868-879 | The SSH step of a batch on a fresh container: one device, from the least free port to the container's port 22, or the container is cleaned up |
| Saga.BulkItem | main.go:851-881 | One name of a batch: all three steps done, or this name cleaned up, its row left only after the SSH step failed; what a failed deletion leaves is reported unless it was never started |
| Saga.RollbackBulk | main.go:998-1005 | Deletes only the given names; one is left for each deletion that failed; no more are unreported than audit writes failed |
| Bulk.Preflight | main.go:815-850 | Accepts exactly the admissible batches, changing nothing |
| Bulk.AdmissibleMeans | main.go:815-850 | Admissible: columns within their limits, generated names free, capacity for all of them, and as many free SSH ports when ports are wanted |
| Bulk.CreateAll | main.go:851-885 | The loop over the names: all made, or the state after the failed name's clean-up and the rollback |
| Bulk.RowsMean | main.go:851-866 | Each row a batch wrote has the request's columns and an earlier row's policy and creation time, or none; other rows are untouched |
| Bulk.UnwoundIsCompensated | main.go:851-885 | Clean-up of the failed name followed by rollback leaves the compensated state, reports counted |
| Bulk.UndoneIffDeleted | main.go:998-1005 | A failed batch leaves the instances as they were if and only if none of its deletions failed |
| Bulk.LeftoversMean | main.go:989-1005 | A failed batch leaves one instance, with one of its names, for each deletion that failed; no more go unreported than audit writes failed, but for one that was never started |
| Bulk.BulkCreate | main.go:803-886 | For every failure point and size: old instances untouched, one leftover per failed deletion and undone exactly if none failed, unreported ones at most the failed audit writes and one never started; names are the prefix and the numbers from the start index; rows exactly the persisted prefix, with the request's columns and an earlier policy; no way to run out of SSH ports, ports least-free in order, each behind the container's one device; without failure the preflight decides, condition by condition |
| Runs.LeftoversAreReported | reconcile.go:92-97 | Rows a failed batch leaves are exactly its persisted names; each is reported missing next if and only if its deletion worked |
| Store.Store.UpsertContainer | internal/store/store.go:188-205 | Inserts the row, or writes image, limits and desired state into the one of that name, which keeps its policy columns and creation time; other rows untouched |
| Store.Store.SetDesiredState | internal/store/store.go:207-219 | Changes only desired state and update time of that row; a missing row is a distinct outcome |
| Store.Store.UpdatePolicy | internal/store/store.go:243-255 | Changes only the policy columns and update time; refuses negative values |
| Store.Store.DeleteContainer | internal/store/store.go:221-224 | Removes exactly that row or nothing |
| Store.Store.ListContainers | internal/store/store.go:226-241 | Every row once, strictly increasing by name |
| Store.Store.Export | internal/store/store.go:257-263 | Version 1 and every row once |
| Store.Store.Restore | internal/store/store.go:265-293 | Installs exactly the backup's rows, unchanged but for missing timestamps, or leaves the table; without failure succeeds exactly on version 1 with rows within the limits and no repeated name |
| Store.PrefixStep | internal/store/store.go:276-291 | An invalid or repeated row anywhere refuses the whole backup |
| Store.RestoreOfExport | internal/store/store.go:257-293 | The export of a restorable table is accepted, and only that table can result |
| Store.InstalledRestorable | internal/store/store.go:276-291 | A restored table is again one an export can restore |
| Store.Store.Audit | internal/store/store.go:295-308 | Appends one event under a new greatest id, or nothing |
| Store.SelectPage | internal/store/store.go:310-339 | The page holds the newest events below the cursor, newest first, up to the page size |
| Store.BelowExact | internal/store/store.go:320-323 | A positive cursor leaves exactly the events with a smaller id, whether or not it is an event id |
| Store.Store.ListAudit | internal/store/store.go:310-339 | The newest events below the cursor, latest first: as many as there are up to the limit, which is 50 when below 1 and at most 200 |
| AuditPages.BelowEvent | internal/store/store.go:317-324 | An event's id as cursor leaves exactly the events before it |
| AuditPages.CursorText | internal/store/store.go:343-349 | An id printed and parsed as a cursor is that id |
| AuditPages.OtherCursors | internal/store/store.go:343-349 | A negative or unreadable cursor is none |
| AuditPages.FollowReadsLog | internal/store/store.go:310-349 | Following the cursor yields every event present at the start exactly once, strictly descending, for any limit and concurrent appends |
| Reconcile.Partition | reconcile.go:83-108 | Missing, unmanaged and drifting containers are exactly the sets defined over table and runtime |
| Reconcile.SplitRows | reconcile.go:92-103 | The managed rows split into missing and, among present ones, those that disagree |
| Reconcile.Unmanaged | reconcile.go:104-108 | The unmanaged list is exactly the instances without a row |
| Reconcile.BuildReport | reconcile.go:74-135 | A row is listed as drifting if and only if wanting to run differs from the instance being Running, with both states; missing and unmanaged exactly likewise; each list sorted; without failure it succeeds and exactly the validly named containers are readable |
| Reconcile.ReportMeans | reconcile.go:92-108 | The three lists in the fields of rows and instances |
| PortScan.PortKeyInjective | reconcile.go:117 | The map key separates protocols and ports |
| PortScan.DuplicatesExact | reconcile.go:109-124 | The one-pass scan reports exactly the forwards whose first holder is another container, against that first holder, in order |
| PortScan.DuplicateIffShared | reconcile.go:116-123 | A duplicate is reported for a port if and only if two containers share it |
| PortScan.DuplicatesCount | reconcile.go:116-123 | A later holder is reported as often as it was scanned with the port, against the first holder, and nothing else is reported |
| PortScan.FirstInOrder | reconcile.go:109-123 | The holder the map remembers is the first readable container of the listing to hold the port |
| PortScan.ListingCounts | reconcile.go:116-123 | A container is scanned with a port once for each of its devices listening there |
| PortScan.ScanForwards | reconcile.go:116-123 | The loop over one container's forwards extends map and issues as the definition says |
| PortScan.ScanPorts | reconcile.go:109-133 | Every issue occurs exactly as often as defined over the listing: once per unreadable container; per later holder once for each of its devices on the port, against the earliest readable holder; by protocol, then port |
| PortScan.ScanExact | reconcile.go:109-124 | The one-pass scan and that definition agree on the count of every issue |
| PortScan.IssueIffClash | reconcile.go:109-133 | In a report, a port has a duplicate issue if and only if two readable containers hold it |
| Repair.RepairCommand | main.go:509-521 | Starting or stopping a drifting container changes only it and is never refused |
| Repair.RepairState | main.go:508-523 | Command, then the desired state written back: in agreement afterwards, or a failure that leaves the table alone |
| Repair.RepairOne | main.go:504-531 | Repairs one container or reports the failure, touching nothing else, with exactly one audit event of what was tried and how it ended |
| Repair.RepairDrift | main.go:502-534 | One outcome for each drifting container, in order, no more without an audit event than writes failed; successful ones agree afterwards |
| Repair.SecondReport | main.go:502-534 | A second report drifts only where the repair reported failure |
| Repair.RepairPass | reconcile.go:38-49 | Unmanaged, missing and agreeing containers are untouched and no desired state changes; without failure every managed container is Running if and only if its row wants it to |
| Policy.ReadPolicy | policy.go:15-39 | Quota, charged usage and int64 remainder of the stored policy |
| Policy.UpdatePolicy | policy.go:41-62 | Stores the quota, this moment's counters as baselines and the second the expiry text names, or no expiry for a blank text; else nothing; without failure succeeds exactly on visible conditions |
| Policy.StoredExpiry | policy.go:45-53 | The stored instant for a date and clock, any fraction, any offset in hours and minutes, blanks around: the second named, in UTC, if its year is one of 0 to 9999 |
| Policy.StampMeans | policy.go:45-53 | A blank text stores no expiry; a readable one its second, if a pass can read it back |
| Policy.ExpiryEffective | policy.go:48-52 | An accepted expiry is enforced from its second on if and only if that second, in UTC, lies in the years 0 to 9999 |
| Policy.ExpiryNeverEnforced | policy.go:46-52 | The text 9999-12-31T23:59:59-01:00 is accepted and never expires |
| Rfc3339.ReadsBack | policy.go:52-106 | A time printed in RFC 3339 is read back, to the second, if and only if its UTC year is one of 0 to 9999 |
| Rfc3339.ReadsZoned | policy.go:47-51 | A date-time with a four-digit year, with any fraction, at Z or an offset of h hours and m minutes either way, is read as that date and clock less the offset; dates the calendar does not have are refused |
| Rfc3339.ZoneText | policy.go:47-51 | An offset +hh:mm is that many seconds east, -hh:mm that many west, up to 24 hours and 60 minutes, and refused beyond |
| Rfc3339.WhatIsRead | policy.go:47-51 | Only texts with these separators and a clock before midnight are read |
| Rfc3339.RefusesOtherYears | policy.go:106 | A printed year with a sign or five digits is refused |
| Calendar.DayOfCivil | policy.go:52 | Every day has a valid civil date, which counts back to that day |
| Calendar.DayFormula | policy.go:52 | The day of a date in closed form: years, leap days, cumulated month lengths |
| Policy.IsDue | policy.go:96-120 | Running, and expired or with a positive quota used up on counters that could be read |
| Policy.EnforceOne | policy.go:93-132 | Stops and records one due container; touches nothing else; at most one audit event, of that stop |
| Policy.EnforcePass | policy.go:78-134 | Whatever fails, a container is stopped only if due; no more stops, or failed stops of expired containers, lack their event than audit writes failed; without failure exactly those running and expired, or with their quota used up, are stopped and recorded as stopped |
| Quota.NeverOvercharged | policy.go:110-120 | For every trace of traffic and resets, the charge never exceeds the traffic since the update |
| Quota.ChargedExactly | policy.go:136-141 | Without resets the charge is that traffic |
| Quota.ChargedOrLost | policy.go:110-141 | For every trace, traffic since the update is the charge plus what resets hid, given exactly; the charge is the traffic if and only if nothing was hidden |
| Quota.DueAtQuota | policy.go:110-120 | A running container is due exactly when the traffic less what resets hid has reached the quota |
| Quota.Overshoot | policy.go:110-120 | If the pass before charged less than the quota, less was moved than quota, one interval and what was lost by then |
| Quota.PassesUntilStopped | policy.go:64-134 | Real passes, counters moving in between, stop the container at the first that charges the quota and at no other |
| Quota.SoftLimit | policy.go:41-134 | The same from the policy update on: stopped and recorded by the first pass that charges the quota, with that bound on the overshoot |
| Quota.ResetsHideTraffic | policy.go:136-141 | With resets between passes, any amount goes uncharged |
| Convergence.RunPasses | policy.go:64-76 | Real passes in any order, with traffic in between, make a run of the kind the lemmas below speak of |
| Convergence.StepFacts | policy.go:96-133 | What each pass keeps about a container: settled stays settled, agreeing stays agreeing |
| Convergence.StopsAtMeans | policy.go:96-133 | An enforcement step stops a container exactly if it finds it Running and leaves it Stopped |
| Convergence.StoppedAtMostOnce | policy.go:96-133 | In any interleaving of passes, enforcement finds a managed container running and leaves it stopped at most once |
| Convergence.ExpiredStayStopped | reconcile.go:92-103 | After a repair and a later enforcement every container expired by then is not running, wants to be stopped, and stays so |
| Convergence.MeasureShrinks | policy.go:124-131 | The number of expired containers still wanted running never grows and falls with each stop |
| Convergence.MeasureReachesZero | policy.go:124-131 | It is zero after a repair and a later enforcement |
| AppState.Act | main.go:766-777 | Start and restart wait for an address; only status and address of that instance change |
| Actions.PerformLifecycle | main.go:760-798 | Runtime first, then the desired state; without failure both agree or neither changed; a state that could not be recorded fails a strict caller only |
| Actions.PerformDelete | main.go:778-782 | Instance first, then row; the row goes only after the instance |
| Actions.Perform | main.go:760-801 | The action and exactly one audit event with its name and outcome; strict as above |
| Actions.FirstSeenExact | main.go:912-917 | Repeated names are acted on once, at their first position, none is lost |
| Actions.FirstSeenOrder | main.go:912-917 | Distinct names keep the order of their first appearances |
| Actions.BulkAction | main.go:888-960 | Between 1 and 32 names; each action starts from the state the one before left, one result per distinct name in order |
| Runs.AddPort | main.go:708-735 | Only ports of the configured range reach the client; then exactly as the client's add, with its audit event |
| Runs.RemovePort | main.go:736-758 | Removes exactly that device or nothing, with its audit event |
| Runs.AllocatePort | main.go:1056-1080 | Allocates exactly when it can if nothing fails, with its audit event |
| Runs.ActionKeeps | main.go:760-801 | An action keeps the table restorable and, without failure, every row backed |
| Runs.MadeRowsKeep | main.go:851-885 | Rows a batch wrote, rolled back or not, are rows a restore accepts |
| Runs.PassKeeps | policy.go:78-134 | Enforcement keeps the table restorable and, without failure, every row backed |
| Runs.RepairKeeps | main.go:502-534 | Repair does too |
| Runs.PolicyKeeps | policy.go:41-62 | Setting a policy does too |
| Runs.RunAll | main.go:575-960 | Any run of operations with any failures keeps restorability, valid audit ids and unique ports; without failure or restore, if every row had an instance Running exactly when the row wants it, so it is afterwards |
| Runs.ExportThenRestore | internal/store/store.go:257-293 | Exporting any reachable table and restoring it succeeds and changes nothing, timestamps included |
| Login.AdminAuth.AllowAttempt | admin_auth.go:133-141 | Refuses exactly until the window ends, once it holds five failures |
| Login.AdminAuth.Failed | admin_auth.go:143-152 | Opens a five-minute window after the old one, else counts up; other addresses untouched |
| Login.AdminAuth.ClearFailure | admin_auth.go:154-158 | Forgets exactly that address |
| Login.AdminAuth.Play | admin_auth.go:55-89 | Handlers of any addresses interleaved: each address's entry is that of its own trace |
| Login.WindowBounded | admin_auth.go:133-152 | With at most c attempts at once a window holds at most 4 + c failures: 5 without overlap |
| Login.FailuresBounded | admin_auth.go:133-152 | Without a success in between, any closed five-minute interval holds at most 7 + 2c failures: 9 without overlap |
| Login.FailuresCount | admin_auth.go:143-152 | The count of that bound is the number of failures within five minutes of the interval's start |
| Login.NineReached | admin_auth.go:133-152 | A trace without overlap that reaches nine |
| Base64.RoundTrip | internal/auth/password.go:40-41 | Decoding an unpadded base64 encoding gives the bytes back |
| Base64.Alphabet | internal/auth/password.go:40-41 | The standard alphabet, letter by letter |
| Base64.Vectors | internal/auth/password.go:40-41 | Test vectors of RFC 4648: f, fo, foo |
| Base64.DecodedLength | internal/auth/password.go:68-69 | A text of letters decodes if and only if its length is not one more than a multiple of four, to three bytes per four letters |
| Base64.SkipsBreaks | internal/auth/password.go:68-69 | A line break anywhere is skipped |
| Password.HashPassword | internal/auth/password.go:31-42 | Refuses exactly passwords outside 12 to 1024 bytes or a missing salt, else prints $argon2id$v=19$m=65536,t=3,p=2$ with the encoded salt and 32-byte hash |
| Password.Parse | internal/auth/password.go:53-75 | The loop and checks compute the parsed record or refuse |
| Password.ParsedNeeds | internal/auth/password.go:53-75 | Whatever is read has six parts, this algorithm and version, parameters within those limits |
| Password.LaterWins | internal/auth/password.go:58-65 | A later parameter of the same key wins; an item without an equals sign is refused |
| Password.ParsePrint | internal/auth/password.go:31-75 | A printed record is read back exactly if memory is at least 8192, iterations and parallelism at least 1, salt and hash at least 8 and 16 bytes, and all fit their widths; else refused |
| Password.VerifyPassword | internal/auth/password.go:44-51 | Accepts exactly a non-empty password that hashes to a parsable record's hash |
| Password.SetThenVerify | internal/auth/password.go:31-51 | A new record accepts its own password, and another exactly when it hashes to the same bytes |
| Calendar.StampOrder | backup_scheduler.go:48 | The byte order of formatted times is the order of the times |
| Rfc3339.StampIsDateTime | backup_scheduler.go:48 | The time in a file name is the RFC 3339 text without hyphens and colons |
| Backups.NameOrder | backup_scheduler.go:48 | The byte order of file names is the order of backups, even within one second |
| Backups.NameText | backup_scheduler.go:48 | The file name is natbox-, the time in seconds, a hyphen, the nanosecond count and .db |
| Backups.SnapshotMeans | backup_scheduler.go:60 | A snapshot is a name that begins with natbox- and ends with .db, without overlap |
| Backups.LastAreNewest | backup_scheduler.go:65-69 | The end of the sorted listing holds exactly the names with fewer than k greater ones |
| Backups.NewestWithin | backup_scheduler.go:65-69 | Having removed others than the newest k does not change which are the newest k |
| Backups.Directory.Prune | backup_scheduler.go:59-74 | Never removes one of the newest or a foreign file; if every removal works, only the newest snapshots remain |
| Backups.Directory.BackupOnce | backup_scheduler.go:43-57 | A failing backup changes nothing; a successful one adds its file and prunes |
| Backups.Directory.RunBackups | backup_scheduler.go:15-57 | Over any run on any directory, failures included, the newest within the retention of what was found and made are there, all else only if a removal failed; from no snapshots these are the newest min(N, retention); the last one made is there if the clock is past those found |
| Text.AtoiItoa | internal/incus/client.go:584 | A printed number is read back |
| Text.AtoiSigned | internal/incus/client.go:584 | One sign in front is read, within 64 bits |
| Text.FixedOrder | main.go:1046 | On digits of one width the byte order is the numeric order |
| Text.NameGrows | internal/incus/client.go:263 | Instance names letter by letter: a letter or digit, then also dots and hyphens, 63 at most |
| Text.CpuRange | main.go:1020 | CPU limits are empty or 1% to 999% without leading zeros |
| Text.TrimBlanks | policy.go:45 | Trimming removes the white space on both sides and nothing else |
| Sorting.SortedUnique | internal/incus/client.go:500-505 | When the comparison separates the elements, the sorted permutation is the only one |

## Left out

- HTTP parsing, JSON, routing, headers, cookies, sessions, CSRF tokens, error classification and the audit fields for details and source address: per-branch plumbing around the modelled calls.
- The runtime's commands themselves (process execution, JSON output, the fallback query of the port listing): each is one step that succeeds or fails. A command that fails is assumed to have changed nothing, so a timeout after which the runtime still acts is not covered.
- Concurrency inside the store and the client beyond the mutex: `PortProtocol` interleaves the port commands, every other operation runs alone, as the mutex has it. The operator using the runtime's own tools is covered only as `Drift` steps that leave devices alone, and as traffic.
- Proxy devices the endpoint parser rejects (IPv6 listens, port ranges): the code cannot see them, so port properties speak of visible forwards.
- SQL, schema migration and the file handling of `BackupDatabase`: the table is a map, a transaction is all or nothing, a failed snapshot leaves no file under its final name.
- Argon2id (RFC 9106) and random bytes: the key derivation is an arbitrary function, the salt a parameter; constant-time comparison is equality.
- `validatePublicKey`: whether it accepts a key is a flag of the request; a blank key counts as no key.
- The image, limits and keys inside an instance: `Incus.Instance` keeps status, address, devices and counters; `Requests.RequestSpecRow` says which limits the runtime is given, and `Saga.PersistManaged` which the table keeps.
- Real time, tickers, contexts and timeouts: clock readings are parameters or arbitrary values, a timeout is one more failure.
- RFC 3339: `Rfc3339` prints and reads expiries; a one-digit hour, which Go's reader takes too, is not modelled. The other timestamp columns are empty, an instant or other text.
- Packet counters, metrics, host file reading, `formatBytes` (floating point), `Probe`, `Info`, templates, diagnostics and the web pages.
- The sorting algorithm: any sorted permutation, here by insertion; Go's is not stable, and nothing depends on ties.
- Install, upgrade and build scripts.
- Incus.Client.ConfigureSSH: does not model the script it runs, only that it needs a valid key and a running instance.
- Incus.Client.RunLifecycle: a refused start or stop is allowed, not required, because the runtime's answer to starting what runs is not fixed by the source.
- Policy.EnforcePass: does not say that a failed counter read is logged, because the log file is not part of this model; that such a container keeps running is proved.
- Backups.Directory.RunBackups: needs nanosecond counts of 19 digits (2001 to 2286), because outside them the order of names is not the order of time.
