/** Automatic database snapshots and their retention (backup_scheduler.go). The directory is the set
    of its file names. */
module Backups {
  import opened Prelude
  import opened Text
  import opened Sorting
  import opened Calendar

  const SECOND: nat := 1_000_000_000

  /** The file name made from the two readings of the clock, in Unix nanoseconds. */
  function FileName(first: nat, second: nat): string {
    "natbox-" + (Stamp(first / SECOND) + ("-" + (Itoa(second) + ".db")))
  }

  /** `natbox-*.db`. */
  predicate IsSnapshot(name: string) {
    |name| >= 10 && name[..7] == "natbox-" && name[|name| - 3..] == ".db"
  }

  lemma SnapshotMeans(name: string)
    ensures IsSnapshot(name) <==> exists middle :: name == "natbox-" + middle + ".db"
  {
    if IsSnapshot(name) {
      var middle := name[7..|name| - 3];
      assert name == name[..7] + middle + name[|name| - 3..];
      assert name == "natbox-" + middle + ".db";
    }
    if middle :| name == "natbox-" + middle + ".db" {
      assert name[..7] == "natbox-" && name[|name| - 3..] == ".db";
    }
  }

  lemma NameText(first: nat, second: nat)
    ensures FileName(first, second) == "natbox-" + Stamp(first / 1_000_000_000) + "-" + Itoa(second) + ".db"
  {
    hide Stamp, Itoa;
    var s, n := Stamp(first / SECOND), Itoa(second);
    assert "natbox-" + (s + ("-" + (n + ".db"))) == "natbox-" + s + "-" + n + ".db";
  }

  function Snapshots(files: set<string>): set<string> {
    set n | n in files && IsSnapshot(n)
  }

  function After(names: set<string>, n: string): set<string> {
    set m | m in names && StrLess(n, m)
  }

  /** The names with fewer than k greater ones: the k greatest. */
  function Newest(names: set<string>, k: nat): set<string> {
    set n | n in names && |After(names, n)| < k
  }

  // ---------------------------------------------------------------- file names

  /** 2001-09-09 to 2286-11-20: nanosecond counts of 19 digits. */
  predicate NineteenDigits(t: nat) {
    1_000_000_000_000_000_000 <= t < 10_000_000_000_000_000_000
  }

  lemma PowersOfTen()
    ensures Pow10(18) == 1_000_000_000_000_000_000 && Pow10(19) == 10_000_000_000_000_000_000
  {
    assert Pow10(3) == 10 * Pow10(2) && Pow10(2) == 10 * Pow10(1) && Pow10(1) == 10 * Pow10(0);
    assert Pow10(6) == 10 * Pow10(5) && Pow10(5) == 10 * Pow10(4) && Pow10(4) == 10 * Pow10(3);
    assert Pow10(9) == 10 * Pow10(8) && Pow10(8) == 10 * Pow10(7) && Pow10(7) == 10 * Pow10(6);
    assert Pow10(12) == 10 * Pow10(11) && Pow10(11) == 10 * Pow10(10) && Pow10(10) == 10 * Pow10(9);
    assert Pow10(15) == 10 * Pow10(14) && Pow10(14) == 10 * Pow10(13) && Pow10(13) == 10 * Pow10(12);
    assert Pow10(18) == 10 * Pow10(17) && Pow10(17) == 10 * Pow10(16) && Pow10(16) == 10 * Pow10(15);
  }

  lemma NanosFixed(t: nat)
    requires NineteenDigits(t)
    ensures Itoa(t) == FixedDigits(19, t)
  {
    hide Itoa, FixedDigits;
    PowersOfTen();
    ItoaLength(t, 18);
    ItoaLength(t, 19);
    PaddedIsFixed(19, t);
  }

  /** The byte order of the file names is the order of the backups, even within one second. */
  lemma NameOrder(first: nat, second: nat, first': nat, second': nat)
    requires NineteenDigits(second) && NineteenDigits(second') && first <= first' < 10_000_000_000_000_000_000 &&
             second < second'
    ensures StrLess(FileName(first, second), FileName(first', second'))
  {
    hide StrLess, Stamp, Itoa, FixedDigits;
    var s, s' := Stamp(first / SECOND), Stamp(first' / SECOND);
    var tail, tail' := "-" + (Itoa(second) + ".db"), "-" + (Itoa(second') + ".db");
    NanosFixed(second);
    NanosFixed(second');
    PowersOfTen();
    FieldOrder(19, second, second', ".db", ".db");
    StrLessPrefix("-", Itoa(second) + ".db", Itoa(second') + ".db");
    if first / SECOND == first' / SECOND {
      StrLessPrefix(s, tail, tail');
    } else {
      StampOrder(first / SECOND, first' / SECOND);
      StampLength(first / SECOND);
      StampLength(first' / SECOND);
      StrLessHead(s, s', tail, tail');
    }
    StrLessPrefix("natbox-", s + tail, s' + tail');
  }

  lemma NameMatches(first: nat, second: nat)
    ensures IsSnapshot(FileName(first, second))
  {
    hide Stamp, Itoa;
    var name, middle := FileName(first, second), Stamp(first / SECOND) + ("-" + Itoa(second));
    assert name == "natbox-" + middle + ".db";
  }

  // ---------------------------------------------------------------- pruning

  ghost predicate Listing(names: set<string>, paths: seq<string>) {
    (forall n :: n in paths <==> n in names) && forall i, j | 0 <= i < j < |paths| :: StrLess(paths[i], paths[j])
  }

  function Same(name: string): string {
    name
  }

  /** `filepath.Glob`, then `sort.Strings`. */
  method Glob(files: set<string>) returns (paths: seq<string>)
    ensures Listing(Snapshots(files), paths)
  {
    hide StrLess;
    paths := [];
    var rest := Snapshots(files);
    while rest != {}
      invariant rest <= Snapshots(files)
      invariant forall n :: n in paths <==> n in Snapshots(files) && n !in rest
      invariant forall i, j | 0 <= i < j < |paths| :: paths[i] != paths[j]
      decreases |rest|
    {
      var n :| n in rest;
      paths, rest := paths + [n], rest - {n};
    }
    paths := SortByKey(paths, Same);
  }

  function SetOf(s: seq<string>): set<string> {
    set n | n in s
  }

  lemma {:induction false} DistinctSize(s: seq<string>)
    requires NoDuplicates(s)
    ensures |SetOf(s)| == |s|
  {
    if s != [] {
      var before, last := s[..|s| - 1], s[|s| - 1];
      DistinctSize(before);
      assert last !in before;
      assert s == before + [last];
      assert SetOf(s) == SetOf(before) + {last};
    }
  }

  /** In a sorted listing the names after the i-th are those at later positions. */
  lemma AfterInListing(names: set<string>, paths: seq<string>, i: nat)
    requires Listing(names, paths) && i < |paths|
    ensures |After(names, paths[i])| == |paths| - 1 - i
  {
    var later := paths[i + 1..];
    forall n ensures n in later <==> n in After(names, paths[i]) {
      if n in After(names, paths[i]) {
        var j :| 0 <= j < |paths| && paths[j] == n;
        StrLessIrreflexive(n);
        if j < i { StrLessAsymmetric(paths[j], paths[i]); }
        assert later[j - i - 1] == n;
      }
    }
    assert After(names, paths[i]) == SetOf(later);
    forall j, k | 0 <= j < k < |later| ensures later[j] != later[k] { StrLessIrreflexive(later[j]); }
    DistinctSize(later);
  }

  /** What is at the end of the sorted listing is the newest. */
  lemma LastAreNewest(names: set<string>, paths: seq<string>, k: nat)
    requires Listing(names, paths)
    ensures var cut := if |paths| <= k then 0 else |paths| - k;
            forall n :: (n in paths[cut..] <==> n in Newest(names, k)) &&
                        (n in paths[..cut] <==> n in names && n !in Newest(names, k))
  {
    hide StrLess, After, Snapshots;
    var cut := if |paths| <= k then 0 else |paths| - k;
    forall i | 0 <= i < |paths| ensures paths[i] in Newest(names, k) <==> i >= cut {
      AfterInListing(names, paths, i);
    }
    forall n ensures n in paths[cut..] <==> n in Newest(names, k) {
      if n in Newest(names, k) {
        var i :| 0 <= i < |paths| && paths[i] == n;
        assert paths[cut..][i - cut] == n;
      }
    }
    forall n ensures n in paths[..cut] <==> n in names && n !in Newest(names, k) {
      if n in names && n !in Newest(names, k) {
        var i :| 0 <= i < |paths| && paths[i] == n;
        assert paths[..cut][i] == n;
      }
    }
  }

  /** Removing the front of the listing, all but the last k, leaves the newest k. */
  lemma OldestFirst(files: set<string>, paths: seq<string>, k: nat)
    requires Listing(Snapshots(files), paths)
    ensures |paths| <= k ==> Snapshots(files) == Newest(Snapshots(files), k)
    ensures |paths| > k ==>
              Snapshots(files - SetOf(paths[..|paths| - k])) == Newest(Snapshots(files), k) &&
              forall n | n in files && (!IsSnapshot(n) || n in Newest(Snapshots(files), k)) ::
                n !in paths[..|paths| - k]
  {
    hide StrLess, After, IsSnapshot;
    var names := Snapshots(files);
    LastAreNewest(names, paths, k);
    assert paths[0..] == paths;
    if |paths| > k {
      var oldest := paths[..|paths| - k];
      forall n ensures n in Snapshots(files - SetOf(oldest)) <==> n in Newest(names, k) {
        assert n in oldest <==> n in names && n !in Newest(names, k);
      }
      forall n | n in files && (!IsSnapshot(n) || n in Newest(names, k)) ensures n !in oldest {
        assert n in oldest <==> n in names && n !in Newest(names, k);
      }
    }
  }

  function Clamp(retention: int): nat {
    if retention < 1 then 1 else retention
  }

  class Directory {
    var files: set<string>

    constructor ()
      ensures files == {}
    {
      files := {};
    }

    /** Removes the oldest snapshots beyond the retention; a removal may fail. clean: none did. */
    method Prune(retention: nat) returns (clean: bool)
      modifies this
      ensures files <= old(files)
      ensures forall n | n in old(files) && (!IsSnapshot(n) || n in Newest(Snapshots(old(files)), retention)) ::
                n in files
      ensures clean ==> Snapshots(files) == Newest(Snapshots(old(files)), retention)
    {
      hide StrLess, After, Newest, IsSnapshot, Snapshots, Listing;
      clean := true;
      var paths := Glob(files);
      OldestFirst(files, paths, retention);
      if |paths| <= retention { return; }
      var old' := paths[..|paths| - retention];
      for i := 0 to |old'|
        invariant files <= old(files)
        invariant forall n | n in old(files) && n !in old' :: n in files
        invariant clean ==> forall n :: n in files <==> n in old(files) && n !in old'[..i]
      {
        assert old'[..i + 1] == old'[..i] + [old'[i]];
        var removed: bool := *;
        if removed { files := files - {old'[i]}; } else { clean := false; }
      }
      assert old'[..|old'|] == old';
      assert clean ==> files == old(files) - SetOf(old');
    }

    /** `backupOnce`. The snapshot is written under a temporary name and renamed, so a failing
        backup leaves no snapshot and prunes nothing. */
    method BackupOnce(first: nat, second: nat, retention: nat) returns (made: bool, clean: bool)
      modifies this
      ensures !made ==> files == old(files)
      ensures made ==>
                var name := "natbox-" + Stamp(first / 1_000_000_000) + "-" + Itoa(second) + ".db";
                name == FileName(first, second) && files <= old(files) + {name} &&
                (forall n | n in old(files) + {name} &&
                   (!IsSnapshot(n) || n in Newest(Snapshots(old(files) + {name}), retention)) :: n in files) &&
                (clean ==> Snapshots(files) == Newest(Snapshots(old(files) + {name}), retention))
    {
      NameText(first, second);
      hide Newest, IsSnapshot, FileName;
      made, clean := *, false;
      if !made { return; }
      files := files + {FileName(first, second)};
      clean := Prune(retention);
    }

    /** Any run of backups, some failing, on any directory, with an advancing clock and any configured
        retention. made: the names of the successful ones, oldest first. Of the snapshots found at the
        start and those made, the newest within the retention are always there, and nothing else is
        but what a removal failed on; when the last pass could remove everything it wanted, they are
        all there is. If the clock is past every snapshot found, the last one made is there. */
    method RunBackups(times: seq<(nat, nat)>, retention: int) returns (made: seq<string>, clean: bool)
      requires Advancing(times)
      modifies this
      ensures |made| <= |times| && Increasing(made)
      ensures forall i | 0 <= i < |made| :: exists j :: 0 <= j < |times| && made[i] == FileName(times[j].0, times[j].1)
      ensures Retained(files, Snapshots(old(files)) + SetOf(made), if retention < 1 then 1 else retention)
      ensures clean ==>
                Snapshots(files) ==
                Newest(Snapshots(old(files)) + SetOf(made), if retention < 1 then 1 else retention)
      ensures Snapshots(old(files)) == {} ==>
                SetOf(Last(made, if retention < 1 then 1 else retention)) <= Snapshots(files) &&
                (clean ==> Snapshots(files) == SetOf(Last(made, if retention < 1 then 1 else retention)))
      ensures made != [] && (forall n | n in Snapshots(old(files)) :: StrLess(n, made[|made| - 1])) ==>
                made[|made| - 1] in files
      ensures forall n | n in old(files) && !IsSnapshot(n) :: n in files
    {
      hide Newest, IsSnapshot, FileName, Snapshots, Retained, StrLess, NineteenDigits, SetOf, Stamp, Itoa;
      var keep := Clamp(retention);
      made, clean := [], false;
      ghost var last := -1;
      ghost var found := Snapshots(files);
      NothingMade(files, keep);
      for i := 0 to |times|
        invariant |made| <= i && last < i && (made == [] <==> last == -1)
        invariant made != [] ==> last >= 0 && made[|made| - 1] == FileName(times[last].0, times[last].1)
        invariant forall k | 0 <= k < |made| :: exists j :: 0 <= j < i && made[k] == FileName(times[j].0, times[j].1)
        invariant Increasing(made) && Retained(files, found + SetOf(made), keep)
        invariant clean ==> Snapshots(files) == Newest(found + SetOf(made), keep)
        invariant forall n | n in old(files) && !IsSnapshot(n) :: n in files
      {
        ghost var before := files;
        var done, removed := BackupOnce(times[i].0, times[i].1, keep);
        if done {
          var name := FileName(times[i].0, times[i].1);
          if made != [] { AdvancingNames(times, last, i); }
          NameMatches(times[i].0, times[i].1);
          IncreasingMore(made, name);
          RetainedStep(before, files, found + SetOf(made), name, keep);
          OneMoreMade(found, made, name);
          ghost var made' := made + [name];
          forall k | 0 <= k < |made'|
            ensures exists j :: 0 <= j < i + 1 && made'[k] == FileName(times[j].0, times[j].1) {
            if k < |made| {
              var j :| 0 <= j < i && made[k] == FileName(times[j].0, times[j].1);
            }
          }
          made, clean, last := made + [name], removed, i;
        }
      }
      if found == {} { FromEmpty(files, found, made, keep); }
      if made != [] && (forall n | n in found :: StrLess(n, made[|made| - 1])) {
        LastIsRetained(files, found, made, keep);
      }
    }
  }

  // ---------------------------------------------------------------- runs

  /** Both readings of the clock never go back, and the second advances from backup to backup. */
  predicate Advancing(times: seq<(nat, nat)>) {
    && (forall i | 0 <= i < |times| :: NineteenDigits(times[i].1) && times[i].0 < 10_000_000_000_000_000_000)
    && (forall i, j | 0 <= i < j < |times| :: times[i].0 <= times[j].0 && times[i].1 < times[j].1)
  }

  lemma AdvancingNames(times: seq<(nat, nat)>, i: nat, j: nat)
    requires Advancing(times) && i < j < |times|
    ensures StrLess(FileName(times[i].0, times[i].1), FileName(times[j].0, times[j].1))
  {
    NameOrder(times[i].0, times[i].1, times[j].0, times[j].1);
  }

  predicate Increasing(names: seq<string>) {
    forall i, j | 0 <= i < j < |names| :: StrLess(names[i], names[j])
  }

  lemma IncreasingMore(names: seq<string>, n: string)
    requires Increasing(names) && (names != [] ==> StrLess(names[|names| - 1], n))
    ensures Increasing(names + [n])
  {
    hide StrLess;
    forall i | 0 <= i < |names| ensures StrLess(names[i], n) {
      if i < |names| - 1 { StrLessTransitive(names[i], names[|names| - 1], n); }
    }
  }

  function Last(names: seq<string>, k: nat): seq<string> {
    names[if |names| > k then |names| - k else 0..]
  }

  /** The newest k of these names are there, and every snapshot has one of them. */
  ghost predicate Retained(files: set<string>, names: set<string>, k: nat) {
    Newest(names, k) <= Snapshots(files) <= names
  }

  lemma NothingMade(files: set<string>, k: nat)
    ensures Retained(files, Snapshots(files) + SetOf([]), k)
  {
    assert Snapshots(files) + SetOf([]) == Snapshots(files);
  }

  lemma FromEmpty(files: set<string>, found: set<string>, made: seq<string>, k: nat)
    requires Increasing(made) && found == {} && Retained(files, found + SetOf(made), k)
    ensures SetOf(Last(made, k)) <= Snapshots(files) && Newest(found + SetOf(made), k) == SetOf(Last(made, k))
  {
    hide StrLess;
    assert found + SetOf(made) == SetOf(made);
    assert SetOf(Last(made, k)) <= SetOf(made);
    NewestMade(SetOf(made), made, k);
  }

  lemma OneMoreMade(found: set<string>, made: seq<string>, name: string)
    ensures found + SetOf(made) + {name} == found + SetOf(made + [name])
  {
  }

  lemma LastIsRetained(files: set<string>, found: set<string>, made: seq<string>, k: nat)
    requires made != [] && k >= 1 && Increasing(made) && Retained(files, found + SetOf(made), k)
    requires forall n | n in found :: StrLess(n, made[|made| - 1])
    ensures made[|made| - 1] in files
  {
    hide StrLess;
    var last := made[|made| - 1];
    var names := found + SetOf(made);
    forall n | n in names ensures !StrLess(last, n) {
      StrLessIrreflexive(last);
      if n != last {
        if n in made {
          var i :| 0 <= i < |made| && made[i] == n;
          assert StrLess(n, last);
        }
        StrLessAsymmetric(n, last);
      }
    }
    assert After(names, last) == {};
    assert last in Newest(names, k);
  }

  // ---------------------------------------------------------------- newest of a part

  lemma LeastOf(names: set<string>) returns (least: string)
    requires names != {}
    ensures least in names && forall n | n in names :: n == least || StrLess(least, n)
    decreases |names|
  {
    hide StrLess;
    least :| least in names;
    var rest := names - {least};
    if rest != {} {
      var m := LeastOf(rest);
      StrLessTotal(m, least);
      if StrLess(m, least) {
        least := m;
      } else {
        forall n | n in rest && n != m ensures StrLess(least, n) { StrLessTransitive(least, m, n); }
      }
    }
  }

  lemma SortedListing(names: set<string>) returns (paths: seq<string>)
    ensures Listing(names, paths)
    decreases |names|
  {
    hide StrLess;
    paths := [];
    if names != {} {
      var least := LeastOf(names);
      var rest := SortedListing(names - {least});
      paths := [least] + rest;
      forall i, j | 0 <= i < j < |paths| ensures StrLess(paths[i], paths[j]) {
        assert paths[j] == rest[j - 1] && rest[j - 1] in rest;
        if i > 0 { assert paths[i] == rest[i - 1]; }
      }
    }
  }

  /** Leaving out others than the newest k does not change which are the newest k. */
  lemma NewestWithin(names: set<string>, all: set<string>, k: nat)
    requires Newest(all, k) <= names <= all
    ensures Newest(names, k) == Newest(all, k)
  {
    hide StrLess, Newest;
    var paths := SortedListing(all);
    LastAreNewest(all, paths, k);
    assert SetOf(Last(paths, k)) == Newest(all, k);
    assert SetOf(paths) == all;
    NewestMade(names, paths, k);
  }

  lemma NewestGrows(all: set<string>, n: string, k: nat)
    ensures Newest(all + {n}, k) <= Newest(all, k) + {n}
  {
    hide StrLess;
    forall m | m in Newest(all + {n}, k) && m != n ensures m in Newest(all, k) {
      SubsetSize(After(all, m), After(all + {n}, m));
    }
  }

  /** Among names that were made and include the newest k made, the newest k are the newest made. */
  lemma NewestMade(names: set<string>, made: seq<string>, k: nat)
    requires Increasing(made) && SetOf(Last(made, k)) <= names <= SetOf(made)
    ensures Newest(names, k) == SetOf(Last(made, k))
  {
    hide StrLess;
    var last := Last(made, k);
    var cut := |made| - |last|;
    forall i | 0 <= i < |made| ensures made[i] in names && made[i] in Newest(names, k) <==> i >= cut {
      if i >= cut { assert last[i - cut] == made[i]; }
      RankMade(names, made, k, i);
    }
    forall n ensures n in Newest(names, k) <==> n in last {
      if n in Newest(names, k) {
        var i :| 0 <= i < |made| && made[i] == n;
        assert last[i - cut] == n;
      }
    }
  }

  lemma RankMade(names: set<string>, made: seq<string>, k: nat, i: nat)
    requires Increasing(made) && SetOf(Last(made, k)) <= names <= SetOf(made) && i < |made|
    ensures |After(names, made[i])| < k <==> i >= |made| - |Last(made, k)|
  {
    var later, last := made[i + 1..], Last(made, k);
    var cut := |made| - |last|;
    if i >= cut {
      forall n | n in After(names, made[i]) ensures n in later { LaterMade(made, i, n); }
      DistinctMade(later);
      SubsetSize(After(names, made[i]), SetOf(later));
    } else {
      forall n | n in last ensures n in After(names, made[i]) {
        var j :| 0 <= j < |last| && last[j] == n;
        assert made[cut + j] == n;
      }
      forall a, b | 0 <= a < b < |last| ensures StrLess(last[a], last[b]) {
        assert StrLess(made[cut + a], made[cut + b]);
      }
      DistinctMade(last);
      SubsetSize(SetOf(last), After(names, made[i]));
    }
  }

  lemma LaterMade(made: seq<string>, i: nat, n: string)
    requires Increasing(made) && i < |made| && n in made && StrLess(made[i], n)
    ensures n in made[i + 1..]
  {
    var j :| 0 <= j < |made| && made[j] == n;
    StrLessIrreflexive(n);
    if j < i { StrLessAsymmetric(made[j], made[i]); }
    assert made[i + 1..][j - i - 1] == n;
  }

  lemma DistinctMade(s: seq<string>)
    requires Increasing(s)
    ensures |SetOf(s)| == |s|
  {
    forall i, j | 0 <= i < j < |s| ensures s[i] != s[j] { StrLessIrreflexive(s[i]); }
    DistinctSize(s);
  }

  lemma RetainedStep(before: set<string>, files: set<string>, all: set<string>, name: string, k: nat)
    requires IsSnapshot(name) && Retained(before, all, k)
    requires files <= before + {name}
    requires forall n | n in before + {name} && (!IsSnapshot(n) || n in Newest(Snapshots(before + {name}), k)) ::
               n in files
    ensures Retained(files, all + {name}, k)
    ensures Newest(Snapshots(before + {name}), k) == Newest(all + {name}, k)
  {
    hide StrLess, Newest, IsSnapshot;
    var now := Snapshots(before + {name});
    assert now == Snapshots(before) + {name};
    NewestGrows(all, name, k);
    NewestWithin(now, all + {name}, k);
    assert Newest(now, k) <= now by { NewestAmong(now, k); }
  }

  lemma NewestAmong(names: set<string>, k: nat)
    ensures Newest(names, k) <= names
  {
  }
}
