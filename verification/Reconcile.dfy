/** Comparing the table with the runtime, and repairing the difference (reconcile.go and
    repairDrift in main.go). */
module Reconcile {
  import opened Text
  import opened Sorting
  import opened Incus
  import opened Store
  import opened AppState
  import opened PortScan

  datatype Drift = Drift(name: string, desiredState: string, runtimeStatus: string)

  datatype Report = Report(missing: seq<Row>, unmanaged: seq<Listed>, drift: seq<Drift>, issues: seq<Issue>)

  function RowName(r: Row): string {
    r.name
  }

  function ListedName(l: Listed): string {
    l.name
  }

  function DriftName(d: Drift): string {
    d.name
  }

  // ---------------------------------------------------------------- the partition

  predicate Disagrees(row: Row, inst: Instance) {
    (row.desiredState == "running") != Running(inst)
  }

  predicate Drifted(rows: map<string, Row>, insts: map<string, Instance>, n: string) {
    n in rows && n in insts && Disagrees(rows[n], insts[n])
  }

  /** Exactly the rows without an instance, sorted by name. */
  ghost predicate ReportsMissing(rows: map<string, Row>, insts: map<string, Instance>, list: seq<Row>) {
    && (forall i, j | 0 <= i < j < |list| :: StrLess(list[i].name, list[j].name))
    && (forall x :: x in list <==> x.name in rows && x.name !in insts && x == rows[x.name])
  }

  /** Exactly the instances without a row, sorted by name. */
  ghost predicate ReportsUnmanaged(rows: map<string, Row>, insts: map<string, Instance>, list: seq<Listed>) {
    && (forall i, j | 0 <= i < j < |list| :: StrLess(list[i].name, list[j].name))
    && (forall x :: x in list <==> x.name in insts && x.name !in rows && x.inst == insts[x.name])
  }

  /** Exactly the rows whose desired state and instance disagree, sorted by name. */
  ghost predicate ReportsDrift(rows: map<string, Row>, insts: map<string, Instance>, list: seq<Drift>) {
    && (forall i, j | 0 <= i < j < |list| :: StrLess(list[i].name, list[j].name))
    && (forall x :: x in list <==> ReportedDrift(rows, insts, x))
  }

  method Partition(list: seq<Row>, listing: seq<Listed>, ghost rows: map<string, Row>, ghost insts: map<string,
                   Instance>)
    returns (missing: seq<Row>, unmanaged: seq<Listed>, drift: seq<Drift>)
    requires Keyed(rows) && ListsRows(rows, list) && IsListing(insts, listing)
    ensures ReportsMissing(rows, insts, missing)
    ensures ReportsUnmanaged(rows, insts, unmanaged)
    ensures ReportsDrift(rows, insts, drift)
  {
    var managedByName: map<string, Row> := map[];
    for i := 0 to |list|
      invariant forall n :: n in managedByName <==> exists j :: 0 <= j < i && list[j].name == n
    {
      managedByName := managedByName[list[i].name := list[i]];
    }
    assert managedByName.Keys == rows.Keys;
    var runtimeByName := IndexListing(listing, insts);
    missing, drift := SplitRows(list, runtimeByName, rows);
    unmanaged := Unmanaged(listing, managedByName.Keys, rows, insts);
  }

  function MissingIn(list: seq<Row>, insts: map<string, Instance>): seq<Row> {
    if list == [] then []
    else
      var item := list[|list| - 1];
      MissingIn(list[..|list| - 1], insts) + if item.name in insts then [] else [item]
  }

  function DriftIn(list: seq<Row>, insts: map<string, Instance>): seq<Drift> {
    if list == [] then []
    else
      var item := list[|list| - 1];
      DriftIn(list[..|list| - 1], insts) +
      if item.name in insts && Disagrees(item, insts[item.name])
      then [Drift(item.name, item.desiredState, insts[item.name].status)] else []
  }

  predicate IncreasingNames(list: seq<Row>) {
    forall i, j | 0 <= i < j < |list| :: StrLess(list[i].name, list[j].name)
  }

  lemma {:induction false} MissingInExact(list: seq<Row>, insts: map<string, Instance>, x: Row)
    ensures x in MissingIn(list, insts) <==> x in list && x.name !in insts
  {
    if list != [] {
      var item, before := list[|list| - 1], list[..|list| - 1];
      MissingInExact(before, insts, x);
      assert list == before + [item];
    }
  }

  lemma {:induction false} MissingInDistinct(list: seq<Row>, insts: map<string, Instance>)
    requires IncreasingNames(list)
    ensures forall i, j | 0 <= i < j < |MissingIn(list, insts)| ::
              MissingIn(list, insts)[i].name != MissingIn(list, insts)[j].name
  {
    if list != [] {
      var item, before := list[|list| - 1], list[..|list| - 1];
      MissingInDistinct(before, insts);
      var m := MissingIn(before, insts);
      forall i | 0 <= i < |m| ensures m[i].name != item.name {
        MissingInExact(before, insts, m[i]);
        assert m[i] in m;
        var k :| 0 <= k < |before| && before[k] == m[i];
        StrLessIrreflexive(item.name);
        assert StrLess(list[k].name, list[|list| - 1].name);
      }
    }
  }

  lemma {:induction false} DriftInExact(list: seq<Row>, insts: map<string, Instance>, x: Drift)
    ensures x in DriftIn(list, insts) <==>
            exists r :: r in list && r.name in insts && Disagrees(r, insts[r.name]) &&
                        x == Drift(r.name, r.desiredState, insts[r.name].status)
  {
    if list != [] {
      var item, before := list[|list| - 1], list[..|list| - 1];
      DriftInExact(before, insts, x);
      assert list == before + [item];
    }
  }

  lemma {:induction false} DriftInDistinct(list: seq<Row>, insts: map<string, Instance>)
    requires IncreasingNames(list)
    ensures forall i, j | 0 <= i < j < |DriftIn(list, insts)| ::
              DriftIn(list, insts)[i].name != DriftIn(list, insts)[j].name
  {
    if list != [] {
      var item, before := list[|list| - 1], list[..|list| - 1];
      DriftInDistinct(before, insts);
      var d := DriftIn(before, insts);
      forall i | 0 <= i < |d| ensures d[i].name != item.name {
        DriftInExact(before, insts, d[i]);
        assert d[i] in d;
        var r :| r in before && r.name in insts && d[i] == Drift(r.name, r.desiredState, insts[r.name].status);
        var k :| 0 <= k < |before| && before[k] == r;
        StrLessIrreflexive(item.name);
        assert StrLess(list[k].name, list[|list| - 1].name);
      }
    }
  }

  method SplitLoop(list: seq<Row>, insts: map<string, Instance>) returns (missing: seq<Row>, drift: seq<Drift>)
    ensures missing == MissingIn(list, insts) && drift == DriftIn(list, insts)
  {
    missing, drift := [], [];
    for i := 0 to |list|
      invariant missing == MissingIn(list[..i], insts) && drift == DriftIn(list[..i], insts)
    {
      var item := list[i];
      assert list[..i + 1][..i] == list[..i];
      if item.name !in insts {
        missing := missing + [item];
      } else if Disagrees(item, insts[item.name]) {
        drift := drift + [Drift(item.name, item.desiredState, insts[item.name].status)];
      }
    }
    assert list[..|list|] == list;
  }

  lemma DriftExact(rows: map<string, Row>, insts: map<string, Instance>, list: seq<Row>, x: Drift)
    requires Keyed(rows) && ListsRows(rows, list)
    ensures x in DriftIn(list, insts) <==> ReportedDrift(rows, insts, x)
  {
    ListedRows(rows, list);
    DriftInExact(list, insts, x);
    if ReportedDrift(rows, insts, x) {
      var r := rows[x.name];
      assert r in list && r.name in insts && Disagrees(r, insts[r.name]) &&
             x == Drift(r.name, r.desiredState, insts[r.name].status);
    }
  }

  method SplitRows(list: seq<Row>, insts: map<string, Instance>, ghost rows: map<string, Row>)
    returns (missing: seq<Row>, drift: seq<Drift>)
    requires Keyed(rows) && ListsRows(rows, list)
    ensures ReportsMissing(rows, insts, missing) && ReportsDrift(rows, insts, drift)
  {
    missing, drift := SplitLoop(list, insts);
    MissingInDistinct(list, insts);
    DriftInDistinct(list, insts);
    missing := SortByKey(missing, RowName);
    drift := SortByKey(drift, DriftName);
    ListedRows(rows, list);
    forall x { MissingInExact(list, insts, x); }
    forall x { DriftExact(rows, insts, list, x); }
  }

  ghost predicate ReportedDrift(rows: map<string, Row>, insts: map<string, Instance>, x: Drift) {
    Drifted(rows, insts, x.name) && x.desiredState == rows[x.name].desiredState &&
    x.runtimeStatus == insts[x.name].status
  }

  lemma ListedRows(rows: map<string, Row>, list: seq<Row>)
    requires Keyed(rows) && ListsRows(rows, list)
    ensures forall x :: x in list <==> x.name in rows && x == rows[x.name]
  {
    forall x: Row | x.name in rows && x == rows[x.name] ensures x in list {
      var i :| 0 <= i < |list| && list[i].name == x.name;
      assert list[i] == x;
    }
  }

  function UnmanagedIn(listing: seq<Listed>, managed: set<string>): seq<Listed> {
    if listing == [] then []
    else
      var item := listing[|listing| - 1];
      UnmanagedIn(listing[..|listing| - 1], managed) + if item.name in managed then [] else [item]
  }

  lemma {:induction false} UnmanagedInExact(listing: seq<Listed>, managed: set<string>, x: Listed)
    ensures x in UnmanagedIn(listing, managed) <==> x in listing && x.name !in managed
  {
    if listing != [] {
      var item, before := listing[|listing| - 1], listing[..|listing| - 1];
      UnmanagedInExact(before, managed, x);
      assert listing == before + [item];
    }
  }

  lemma {:induction false} UnmanagedInDistinct(listing: seq<Listed>, managed: set<string>)
    requires forall i, j | 0 <= i < j < |listing| :: listing[i].name != listing[j].name
    ensures forall i, j | 0 <= i < j < |UnmanagedIn(listing, managed)| ::
              UnmanagedIn(listing, managed)[i].name != UnmanagedIn(listing, managed)[j].name
  {
    if listing != [] {
      var item, before := listing[|listing| - 1], listing[..|listing| - 1];
      UnmanagedInDistinct(before, managed);
      var m := UnmanagedIn(before, managed);
      forall i | 0 <= i < |m| ensures m[i].name != item.name {
        UnmanagedInExact(before, managed, m[i]);
        assert m[i] in m;
        var k :| 0 <= k < |before| && before[k] == m[i];
        assert listing[k].name != listing[|listing| - 1].name;
      }
    }
  }

  lemma ListingMembers(insts: map<string, Instance>, listing: seq<Listed>)
    requires IsListing(insts, listing)
    ensures forall x :: x in listing <==> x.name in insts && x.inst == insts[x.name]
  {
    forall x: Listed | x.name in insts && x.inst == insts[x.name] ensures x in listing {
      var i :| 0 <= i < |listing| && listing[i].name == x.name;
      assert listing[i] == x;
    }
  }

  method Unmanaged(listing: seq<Listed>, managed: set<string>, ghost rows: map<string, Row>,
                   ghost insts: map<string, Instance>)
    returns (unmanaged: seq<Listed>)
    requires IsListing(insts, listing) && managed == rows.Keys
    ensures ReportsUnmanaged(rows, insts, unmanaged)
  {
    hide ReportsUnmanaged, StrLess;
    unmanaged := [];
    for i := 0 to |listing|
      invariant unmanaged == UnmanagedIn(listing[..i], managed)
    {
      assert listing[..i + 1][..i] == listing[..i];
      if listing[i].name !in managed {
        unmanaged := unmanaged + [listing[i]];
      }
    }
    assert listing[..|listing|] == listing;
    UnmanagedInDistinct(listing, managed);
    unmanaged := SortByKey(unmanaged, ListedName);
    UnmanagedExact(rows, insts, listing, unmanaged);
  }

  lemma UnmanagedExact(rows: map<string, Row>, insts: map<string, Instance>, listing: seq<Listed>, list: seq<Listed>)
    requires IsListing(insts, listing)
    requires forall i, j | 0 <= i < j < |list| :: StrLess(ListedName(list[i]), ListedName(list[j]))
    requires forall x :: x in list <==> x in UnmanagedIn(listing, rows.Keys)
    ensures ReportsUnmanaged(rows, insts, list)
  {
    hide StrLess, UnmanagedIn, IsListing;
    ListingMembers(insts, listing);
    forall x { UnmanagedInExact(listing, rows.Keys, x); }
  }

  /** What the three lists say, in the fields of rows and instances. */
  lemma ReportMeans(rows: map<string, Row>, insts: map<string, Instance>, missing: seq<Row>, unmanaged: seq<Listed>,
                    drift: seq<Drift>)
    requires ReportsMissing(rows, insts, missing) && ReportsUnmanaged(rows, insts, unmanaged) &&
             ReportsDrift(rows, insts, drift)
    ensures (forall row :: row in missing <==> row.name in rows && row.name !in insts && row == rows[row.name]) &&
            (forall item :: item in unmanaged <==>
               item.name in insts && item.name !in rows && item.inst == insts[item.name]) &&
            (forall x | x in drift ::
               x.name in rows && x.name in insts && x.desiredState == rows[x.name].desiredState &&
               x.runtimeStatus == insts[x.name].status) &&
            forall n | n in rows && n in insts ::
              (exists x :: x in drift && x.name == n) <==>
              (rows[n].desiredState == "running") != (insts[n].status == "Running")
  {
    hide StrLess;
    forall n | n in rows && n in insts
      ensures (exists x :: x in drift && x.name == n) <==>
              (rows[n].desiredState == "running") != (insts[n].status == "Running")
    {
      var x := Drift(n, rows[n].desiredState, insts[n].status);
      assert ReportedDrift(rows, insts, x) <==> Drifted(rows, insts, n);
      if y :| y in drift && y.name == n { assert ReportedDrift(rows, insts, y); }
    }
    forall x | x in drift
      ensures x.name in rows && x.name in insts && x.desiredState == rows[x.name].desiredState &&
              x.runtimeStatus == insts[x.name].status
    {
      assert ReportedDrift(rows, insts, x);
    }
  }

  /** `reconcile`. listing: the instances in the order the runtime listed them; readable: those whose
      devices could be read. */
  method BuildReport(a: App) returns (ok: bool, report: Report, listing: seq<Listed>, ghost readable: set<string>)
    requires Keyed(a.store.rows)
    modifies a.client`faults, a.store`faults
    ensures Later(old(a.Now()), a.Now())
    ensures FaultFree(old(a.Now()), a.Now()) ==> ok && forall n | n in a.client.insts :: n in readable <==> ValidName(n)
    ensures ok ==>
              ReportsMissing(a.store.rows, a.client.insts, report.missing) &&
              ReportsUnmanaged(a.store.rows, a.client.insts, report.unmanaged) &&
              ReportsDrift(a.store.rows, a.client.insts, report.drift) &&
              IsListing(a.client.insts, listing) && readable <= a.client.insts.Keys &&
              ReportsIssues(a.client.insts, listing, readable, report.issues)
    // Missing, unmanaged and drifting, in the fields of rows and instances.
    ensures ok ==>
              (forall row :: row in report.missing <==>
                 row.name in a.store.rows && row.name !in a.client.insts && row == a.store.rows[row.name]) &&
              (forall item :: item in report.unmanaged <==>
                 item.name in a.client.insts && item.name !in a.store.rows && item.inst == a.client.insts[item.name]) &&
              (forall x | x in report.drift ::
                 x.name in a.store.rows && x.name in a.client.insts &&
                 x.desiredState == a.store.rows[x.name].desiredState &&
                 x.runtimeStatus == a.client.insts[x.name].status) &&
              forall n | n in a.store.rows && n in a.client.insts ::
                (exists x :: x in report.drift && x.name == n) <==>
                (a.store.rows[n].desiredState == "running") != (a.client.insts[n].status == "Running")
  {
    hide ReportsMissing, ReportsUnmanaged, ReportsDrift, ReportsIssues, ListsRows, IsListing, ValidName, ValidLog;
    report, listing, readable := Report([], [], [], []), [], {};
    var listed, managed := a.store.ListContainers();
    if !listed { return false, report, [], {}; }
    var ran;
    ran, listing := a.client.List();
    if !ran { return false, report, [], {}; }
    var missing, unmanaged, drift := Partition(managed, listing, a.store.rows, a.client.insts);
    var issues;
    issues, readable := ScanPorts(a.client, listing);
    ReportMeans(a.store.rows, a.client.insts, missing, unmanaged, drift);
    return true, Report(missing, unmanaged, drift, issues), listing, readable;
  }
}
