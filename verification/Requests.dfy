/** Create requests: validation, generated names and the host capacity preflight (main.go). */
module Requests {
  import opened Prelude
  import opened Text
  import opened Incus
  import opened Store

  /** The public key of a request; valid says whether `validatePublicKey` accepts it. */
  datatype Key = NoKey | Key(valid: bool)

  datatype CreateRequest = CreateRequest(
    name: string, image: string, cpuLimit: string, memoryLimitMb: int, diskLimitGb: int, publicKey: Key)

  /** A request without an image gets the default one. */
  function WithImage(r: CreateRequest): CreateRequest {
    if r.image == "" then r.(image := "images:alpine/3.24") else r
  }

  /** `validateCreateRequest`. */
  predicate ValidRequest(r: CreateRequest) {
    && !Blank(r.name) && !Blank(r.image)
    && 16 <= r.memoryLimitMb <= 8192 && 1 <= r.diskLimitGb <= 100
    && ValidCpu(r.cpuLimit)
  }

  function SpecOf(r: CreateRequest): Spec {
    Spec(r.name, r.image, r.cpuLimit, Wrap64(r.memoryLimitMb * MIB), Wrap64(r.diskLimitGb * GIB))
  }

  function RowOf(r: CreateRequest): Row {
    Row(r.name, r.image, r.memoryLimitMb, r.diskLimitGb, r.cpuLimit, "running", 0, 0, 0, Unset, Unset, Unset, Unset)
  }

  /** The two validations agree: past the first, the second looks only at the name, and a request
      that passes both makes a row every backup can restore. The runtime gets the request's limits
      in bytes, without wrapping. */
  lemma RequestSpecRow(r: CreateRequest)
    requires ValidRequest(r)
    ensures SpecOf(r) == Spec(r.name, r.image, r.cpuLimit, r.memoryLimitMb * 1_048_576, r.diskLimitGb * 1_073_741_824)
    ensures ValidSpec(SpecOf(r)) <==> ValidName(r.name)
    ensures Accepted(RowOf(r)) <==> ValidName(r.name)
  {
  }

  // ---------------------------------------------------------------- generated names

  /** `^[A-Za-z0-9][A-Za-z0-9.-]{0,58}$`. */
  predicate ValidPrefix(s: string) {
    1 <= |s| <= 59 && IsAlnum(s[0]) && forall c | c in s :: IsNameChar(c)
  }

  function Width(last: nat): nat {
    if last >= 100 then |Itoa(last)| else 2
  }

  predicate BulkAllowed(prefix: string, start: int, count: int) {
    ValidPrefix(prefix) && 0 <= start <= 999999 && 1 <= count <= 32 && |prefix| + Width(start + count - 1) <= 63
  }

  function BulkName(prefix: string, start: nat, count: nat, i: nat): string
    requires i < count
  {
    prefix + Padded(Width(start + count - 1), start + i)
  }

  lemma WidthFits(last: nat, i: nat)
    requires i <= last
    ensures Width(last) >= 2 && i < Pow10(Width(last))
    ensures Padded(Width(last), i) == FixedDigits(Width(last), i)
  {
    var w := Width(last);
    if last >= 100 {
      ItoaLength(last, w);
      ItoaLength(last, 2);
      Pow10Two();
    } else {
      Pow10Two();
    }
    PaddedIsFixed(w, i);
  }

  lemma Pow10Two()
    ensures Pow10(2) == 100
  {
    assert Pow10(1) == 10 * Pow10(0);
  }

  /** The generated names have one length, are names the runtime accepts, are pairwise distinct and
      increase in the byte order as their numbers do. */
  lemma BulkNamesGood(prefix: string, start: nat, count: nat, i: nat, j: nat)
    requires BulkAllowed(prefix, start, count) && i < j < count
    ensures |BulkName(prefix, start, count, i)| == |prefix| + Width(start + count - 1)
    ensures |BulkName(prefix, start, count, j)| == |prefix| + Width(start + count - 1)
    ensures ValidName(BulkName(prefix, start, count, i)) && ValidName(BulkName(prefix, start, count, j))
    ensures BulkName(prefix, start, count, i) != BulkName(prefix, start, count, j)
    ensures StrLess(BulkName(prefix, start, count, i), BulkName(prefix, start, count, j))
  {
    var last := start + count - 1;
    BulkNameValid(prefix, start, count, i);
    BulkNameValid(prefix, start, count, j);
    WidthFits(last, start + i);
    WidthFits(last, start + j);
    FixedOrder(Width(last), start + i, start + j);
    StrLessPrefix(prefix, FixedDigits(Width(last), start + i), FixedDigits(Width(last), start + j));
    StrLessIrreflexive(BulkName(prefix, start, count, i));
  }

  lemma BulkNameValid(prefix: string, start: nat, count: nat, i: nat)
    requires BulkAllowed(prefix, start, count) && i < count
    ensures ValidName(BulkName(prefix, start, count, i))
    ensures |BulkName(prefix, start, count, i)| == |prefix| + Width(start + count - 1)
  {
    var w := Width(start + count - 1);
    WidthFits(start + count - 1, start + i);
    FixedAreDigits(w, start + i);
    var name := BulkName(prefix, start, count, i);
    assert name == prefix + FixedDigits(w, start + i);
    forall c | c in name ensures IsNameChar(c) {
      assert c in prefix || c in FixedDigits(w, start + i);
    }
  }

  lemma {:induction false} FixedAreDigits(w: nat, n: nat)
    ensures AllDigits(FixedDigits(w, n))
  {
    if w > 0 { FixedAreDigits(w - 1, n / 10); }
  }

  /** The first k generated names. */
  ghost predicate FirstNames(prefix: string, start: nat, count: nat, names: seq<string>) {
    |names| <= count && forall k | 0 <= k < |names| :: names[k] == BulkName(prefix, start, count, k)
  }

  lemma NextNameIsNew(prefix: string, start: nat, count: nat, names: seq<string>)
    requires BulkAllowed(prefix, start, count) && FirstNames(prefix, start, count, names) && |names| < count
    ensures BulkName(prefix, start, count, |names|) !in names
  {
    forall k | 0 <= k < |names| ensures names[k] != BulkName(prefix, start, count, |names|) {
      BulkNamesGood(prefix, start, count, k, |names|);
    }
  }

  lemma NameLength(prefix: string, start: nat, count: nat, i: nat)
    requires i < count
    ensures |BulkName(prefix, start, count, i)| == |prefix| + Width(start + count - 1)
  {
    WidthFits(start + count - 1, start + i);
  }

  /** A generated name is the prefix and its number: at least two digits, and as many as the last. */
  lemma NameParts(prefix: string, start: nat, count: nat, i: nat)
    requires i < count
    ensures var n, last := BulkName(prefix, start, count, i), start + count - 1;
            |n| == |prefix| + (if last < 100 then 2 else |Itoa(last)|) && n[..|prefix|] == prefix &&
            AllDigits(n[|prefix|..]) && DigitsValue(n[|prefix|..]) == start + i
  {
    var n, w := BulkName(prefix, start, count, i), Width(start + count - 1);
    WidthFits(start + count - 1, start + i);
    FixedValue(w, start + i);
    assert n[..|prefix|] == prefix && n[|prefix|..] == FixedDigits(w, start + i);
  }

  /** Succeeds exactly on the allowed inputs, with the names numbered from start on; the check for
      repeated names never fires. */
  method BulkNames(prefix: string, start: int, count: int) returns (r: Option<seq<string>>)
    ensures r.Some? <==> BulkAllowed(prefix, start, count)
    ensures r.Some? <==>
              1 <= |prefix| <= 59 && IsAlnum(prefix[0]) && (forall c | c in prefix :: IsNameChar(c)) &&
              0 <= start <= 999999 && 1 <= count <= 32 &&
              |prefix| + (if start + count - 1 < 100 then 2 else |Itoa(start + count - 1)|) <= 63
    ensures r.Some? ==> |r.value| == count && FirstNames(prefix, start, count, r.value)
    ensures r.Some? ==>
              forall k | 0 <= k < count ::
                |r.value[k]| == |prefix| + (if start + count - 1 < 100 then 2 else |Itoa(start + count - 1)|) &&
                r.value[k][..|prefix|] == prefix && AllDigits(r.value[k][|prefix|..]) &&
                DigitsValue(r.value[k][|prefix|..]) == start + k
  {
    hide Itoa, Padded, DigitsValue, AllDigits, IsNameChar, IsAlnum;
    if !ValidPrefix(prefix) || start < 0 || start > 999999 || count < 1 || count > 32 { return None; }
    var last := start + count - 1;
    var width := 2;
    if last >= 100 { width := |Itoa(last)|; }
    var names: seq<string> := [];
    var seen: set<string> := {};
    for i := start to last + 1
      invariant |names| == i - start
      invariant i > start ==> BulkAllowed(prefix, start, count)
      invariant FirstNames(prefix, start, count, names)
      invariant forall n :: n in seen <==> n in names
    {
      var name := prefix + Padded(width, i);
      assert name == BulkName(prefix, start, count, |names|);
      NameLength(prefix, start, count, |names|);
      if |name| > 63 { return None; }
      NextNameIsNew(prefix, start, count, names);
      if name in seen { return None; }
      seen := seen + {name};
      names := names + [name];
    }
    forall k | 0 <= k < count { NameParts(prefix, start, count, k); }
    return Some(names);
  }

  // ---------------------------------------------------------------- host capacity

  datatype HostSnapshot = HostSnapshot(memoryAvailable: int, diskAvailable: int)

  datatype HostView = HostView(memoryAllocatable: int, diskAllocatable: int, suggestedByMemory: int,
                               suggestedByDisk: int)

  function Allocatable(available: int, reserve: int): int {
    var rest := Wrap64(available - reserve);
    if rest < 0 then 0 else rest
  }

  /** `hostView` with the configured reserves, in MiB and GiB. */
  function ViewOf(s: HostSnapshot, memoryReserveMb: int, diskReserveGb: int): HostView {
    var memory := Allocatable(s.memoryAvailable, Wrap64(memoryReserveMb * MIB));
    var disk := Allocatable(s.diskAvailable, Wrap64(diskReserveGb * GIB));
    HostView(memory, disk, memory / (120 * MIB), disk / GIB)
  }

  /** `checkCapacity`, on the `int64` products the code computes. */
  predicate CapacityAllows(v: HostView, memoryMb: int, diskGb: int, count: int) {
    count >= 1 && Wrap64(memoryMb * MIB * count) <= v.memoryAllocatable &&
    Wrap64(diskGb * GIB * count) <= v.diskAllocatable
  }

  /** Reserves that are not negative and do not overflow, on a host with non-negative counters. */
  predicate SaneHost(s: HostSnapshot, memoryReserveMb: int, diskReserveGb: int) {
    0 <= s.memoryAvailable < TWO_63 && 0 <= s.diskAvailable < TWO_63 &&
    0 <= memoryReserveMb * MIB < TWO_63 && 0 <= diskReserveGb * GIB < TWO_63
  }

  lemma NoWrap(unit: int, amount: int, most: int, count: int)
    requires 0 <= amount <= most && 1 <= count <= 32 && 0 < unit && most * unit * 32 < TWO_63
    ensures 0 <= amount * unit * count < TWO_63
  {
    assert amount * unit <= most * unit by { assert (most - amount) * unit >= 0; }
    var a := amount * unit;
    assert a >= 0;
    assert a * count <= a * 32 by { assert a * (32 - count) >= 0; }
    assert a * count >= 0;
  }

  /** A valid request passes the capacity check if and only if what it really asks for fits between the
      reserve and what is available; the products the check computes do not overflow. */
  lemma CapacityExact(s: HostSnapshot, memoryReserveMb: int, diskReserveGb: int, r: CreateRequest, count: int)
    requires SaneHost(s, memoryReserveMb, diskReserveGb) && ValidRequest(r) && 1 <= count <= 32
    ensures InInt64(r.memoryLimitMb * 1_048_576 * count) && InInt64(r.diskLimitGb * 1_073_741_824 * count)
    ensures CapacityAllows(ViewOf(s, memoryReserveMb, diskReserveGb), r.memoryLimitMb, r.diskLimitGb, count) <==>
            r.memoryLimitMb * 1_048_576 * count <= s.memoryAvailable - memoryReserveMb * 1_048_576 &&
            r.diskLimitGb * 1_073_741_824 * count <= s.diskAvailable - diskReserveGb * 1_073_741_824
  {
    NoWrap(MIB, r.memoryLimitMb, 8192, count);
    NoWrap(GIB, r.diskLimitGb, 100, count);
    Positive(r.memoryLimitMb, MIB, count);
    Positive(r.diskLimitGb, GIB, count);
  }

  lemma Positive(a: int, b: int, c: int)
    requires a > 0 && b > 0 && c > 0
    ensures a * b * c > 0
  {
    assert a * b > 0;
  }

  /** The capacity check alone lets a request through whose product wraps to something small; only
      validation stops it. */
  lemma CapacityCheckWraps(v: HostView)
    requires v.memoryAllocatable >= 0 && v.diskAllocatable >= GIB
    ensures CapacityAllows(v, TWO_64 / MIB, 1, 1) && TWO_64 / MIB > 8192
  {
  }

  lemma DivideIff(total: int, unit: int, n: int)
    requires unit > 0
    ensures unit * n <= total <==> n <= total / unit
  {
    var q := total / unit;
    assert q * unit <= total < q * unit + unit;
    if n <= q {
      assert (q - n) * unit >= 0;
    } else {
      assert (n - q - 1) * unit >= 0;
    }
  }

  /** A batch of n of the suggested size passes exactly when n is at most both suggested counts. */
  lemma SuggestionsExact(s: HostSnapshot, memoryReserveMb: int, diskReserveGb: int, n: int)
    requires n >= 1 && InInt64(120 * MIB * n) && InInt64(GIB * n)
    ensures var v := ViewOf(s, memoryReserveMb, diskReserveGb);
            CapacityAllows(v, 120, 1, n) <==> n <= v.suggestedByMemory && n <= v.suggestedByDisk
  {
    var v := ViewOf(s, memoryReserveMb, diskReserveGb);
    DivideIff(v.memoryAllocatable, 120 * MIB, n);
    DivideIff(v.diskAllocatable, GIB, n);
    assert 1 * GIB * n == GIB * n;
  }
}
