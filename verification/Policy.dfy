/** Quota and expiry policies (policy.go). */
module Policy {
  import opened Prelude
  import opened Text
  import opened Incus
  import opened Store
  import opened AppState
  import opened Calendar
  import opened Rfc3339

  /** `counterDelta`. */
  function CounterDelta(current: int, baseline: int): int {
    if current <= baseline then 0 else Wrap64(current - baseline)
  }

  /** The traffic charged to a policy, as the `int64` sum the code computes. */
  function UsedBytes(row: Row, rx: int, tx: int): int {
    Wrap64(CounterDelta(rx, row.quotaRxBaseline) + CounterDelta(tx, row.quotaTxBaseline))
  }

  predicate Expired(row: Row, now: int) {
    row.expiresAt.Instant? && now >= row.expiresAt.nanos
  }

  datatype Reason = NoReason | ExpiredReason | QuotaReached(used: int)

  /** Why an enforcement pass at time now stops this container, on the counters it reads. */
  function ReasonFor(row: Row, inst: Instance, now: int, rx: int, tx: int): Reason {
    if !Running(inst) then NoReason
    else if Expired(row, now) then ExpiredReason
    else if row.quotaBytes > 0 && UsedBytes(row, rx, tx) >= row.quotaBytes then QuotaReached(UsedBytes(row, rx, tx))
    else NoReason
  }

  ghost function DueReason(row: Row, inst: Instance, now: int): Reason {
    ReasonFor(row, inst, now, Wrap64(RxBytes(inst)), Wrap64(TxBytes(inst)))
  }

  ghost predicate Due(rows: map<string, Row>, insts: map<string, Instance>, now: int, n: string) {
    n in rows && n in insts && DueReason(rows[n], insts[n], now) != NoReason
  }

  /** The row of a container a pass has stopped. */
  predicate StoppedRow(before: Row, now: Row) {
    now == before.(desiredState := "stopped", updatedAt := now.updatedAt) && now.updatedAt.Instant?
  }

  // ---------------------------------------------------------------- setting a policy

  /** The expiry field of a request after `time.Parse`. */
  datatype Expiry = NoExpiry | Parsed(nanos: int) | Unparsable

  function ReadExpiry(text: string): Expiry {
    var t := TrimSpace(text);
    if t == "" then NoExpiry
    else if ReadDateTime(t).None? then Unparsable
    else Parsed(ReadDateTime(t).value)
  }

  /** What a pass later finds in the column after `parsed.UTC().Format(time.RFC3339)`: the instant its
      own parse reads, or text it cannot read. */
  function FormatExpiry(nanos: int): Stamp {
    var text := DateTime(nanos / SECOND);
    if ReadDateTime(text).None? then Malformed(text) else Instant(ReadDateTime(text).value)
  }

  /** An expiry that was accepted is enforced from the second it names exactly when that second,
      in UTC, lies in the years 0 to 9999; otherwise it is never enforced. */
  lemma ExpiryEffective(row: Row, nanos: int, now: int)
    requires row.expiresAt == FormatExpiry(nanos)
    ensures Expired(row, now) <==> YEAR_ZERO <= nanos / SECOND < YEAR_TEN_THOUSAND && now / SECOND >= nanos / SECOND
  {
    hide ReadDateTime, DateTime;
    ReadsBack(nanos / SECOND);
    var s := nanos / SECOND;
    assert now >= s * SECOND <==> now / SECOND >= s;
  }

  /** One accepted offset date-time that never expires. */
  lemma ExpiryNeverEnforced(row: Row, now: int)
    ensures ReadExpiry("9999-12-31T23:59:59-01:00") == Parsed((YEAR_TEN_THOUSAND - 1 + 3600) * SECOND)
    ensures row.expiresAt == FormatExpiry((YEAR_TEN_THOUSAND - 1 + 3600) * SECOND) ==> !Expired(row, now)
  {
    hide ReadDateTime, DateTime, TrimSpace, FormatExpiry;
    LastHour();
    NothingToTrim("9999-12-31T23:59:59-01:00");
    if row.expiresAt == FormatExpiry((YEAR_TEN_THOUSAND - 1 + 3600) * SECOND) {
      ExpiryEffective(row, (YEAR_TEN_THOUSAND - 1 + 3600) * SECOND, now);
    }
  }

  lemma NothingToTrim(s: string)
    requires s != "" && !IsSpace(s[0]) && !IsSpace(s[|s| - 1])
    ensures TrimSpace(s) == s
  {
  }

  lemma {:induction false} DigitsBelow(s: string)
    requires AllDigits(s)
    ensures DigitsValue(s) < Pow10(|s|)
  {
    if s != "" {
      assert s[|s| - 1] in s && forall c | c in s[..|s| - 1] :: c in s;
      DigitsBelow(s[..|s| - 1]);
    }
  }

  lemma {:induction false} Pow10Sum(a: nat, b: nat)
    ensures Pow10(a) * Pow10(b) == Pow10(a + b)
  {
    if a > 0 { Pow10Sum(a - 1, b); }
  }

  lemma NinePlaces()
    ensures Pow10(9) == SECOND
  {
    assert Pow10(3) == 10 * Pow10(2) == 10 * (10 * Pow10(1)) && Pow10(1) == 10 * Pow10(0);
    Pow10Sum(3, 3);
    Pow10Sum(6, 3);
  }

  lemma TimesMore(v: nat, p: nat, q: nat)
    requires v < p && q > 0
    ensures 0 <= v * q < p * q
  {
    assert (p - v) * q > 0;
  }

  /** A fraction is less than a second. */
  lemma FractionBelow(digits: string)
    requires AllDigits(digits)
    ensures 0 <= (if |digits| <= 9 then DigitsValue(digits) * Pow10(9 - |digits|) else DigitsValue(digits[..9]))
              < SECOND
  {
    hide DigitsValue, Pow10;
    NinePlaces();
    if |digits| <= 9 {
      DigitsBelow(digits);
      Pow10Sum(|digits|, 9 - |digits|);
      Pow10Positive(9 - |digits|);
      TimesMore(DigitsValue(digits), Pow10(|digits|), Pow10(9 - |digits|));
    } else {
      assert forall c | c in digits[..9] :: c in digits;
      DigitsBelow(digits[..9]);
    }
  }

  lemma {:induction false} Pow10Positive(w: nat)
    ensures Pow10(w) > 0
  {
    if w > 0 { Pow10Positive(w - 1); }
  }

  lemma NoSpace(c: char)
    requires IsDigit(c) || c == 'Z'
    ensures !IsSpace(c)
  {
  }

  lemma OffsetEnds(zone: string, h: nat, m: nat, offset: int)
    requires IsOffset(zone, h, m, offset)
    ensures zone != "" && !IsSpace(zone[|zone| - 1])
  {
    hide FixedDigits, IsSpace;
    NoSpace('Z');
    if zone != "Z" {
      TwoDigits(m);
      var two := FixedDigits(2, m);
      assert zone[|zone| - 1] == two[1] && two[1] in two;
      NoSpace(two[1]);
    }
  }

  /** A date-time with blanks around it is read as if they were not there. */
  lemma BlanksAround(front: string, back: string, date: Date, clock: nat, mark: char, digits: string, zone: string,
                     h: nat, m: nat, offset: int)
    requires Blank(front) && Blank(back) && IsOffset(zone, h, m, offset)
    requires 0 <= date.year < 10_000 && AllDigits(digits)
    ensures var text := YearText(date.year) + Fields(date.month, date.day, clock) +
                        (if digits == "" then "" else [mark] + digits) + zone;
            TrimSpace(front + text + back) == text && text != ""
  {
    hide FixedDigits, Fields, TrimSpace, IsSpace, IsOffset, Blank, Padded;
    var text := YearText(date.year) + Fields(date.month, date.day, clock) +
      (if digits == "" then "" else [mark] + digits) + zone;
    OffsetEnds(zone, h, m, offset);
    FourDigits(date.year);
    PowersOfTen();
    FixedValue(4, date.year);
    var year := FixedDigits(4, date.year);
    assert text[0] == year[0] && year[0] in year;
    NoSpace(text[0]);
    assert text[|text| - 1] == zone[|zone| - 1];
    TrimBlanks(front, text, back);
  }

  datatype PolicyView = PolicyView(quota: int, used: int, remaining: int)

  /** `policy`. */
  method ReadPolicy(a: App, name: string) returns (ok: bool, view: PolicyView)
    requires Keyed(a.store.rows)
    modifies a.client`faults, a.store`faults
    ensures Later(old(a.Now()), a.Now())
    ensures ok ==> name in a.store.rows && view.quota == a.store.rows[name].quotaBytes &&
                   view.remaining == (if view.quota > view.used then Wrap64(view.quota - view.used) else 0)
    ensures FaultFree(old(a.Now()), a.Now()) ==> (ok <==> name in a.store.rows)
    ensures FaultFree(old(a.Now()), a.Now()) && ok ==>
              view.used == if ValidName(name) && name in a.client.insts
                           then UsedBytes(a.store.rows[name], Wrap64(RxBytes(a.client.insts[name])),
                                          Wrap64(TxBytes(a.client.insts[name])))
                           else 0
  {
    view := PolicyView(0, 0, 0);
    var listed, items := a.store.ListContainers();
    if !listed { return false, view; }
    var i := 0;
    while i < |items| && items[i].name != name
      invariant i <= |items| && forall j | 0 <= j < i :: items[j].name != name
    {
      i := i + 1;
    }
    if i == |items| { return false, view; }
    var item := items[i];
    var read, rx, tx := a.client.Stats(name);
    var used := if read then UsedBytes(item, rx, tx) else 0;
    return true, PolicyView(item.quotaBytes, used,
                            if item.quotaBytes > used then Wrap64(item.quotaBytes - used) else 0);
  }

  /** What is stored for an expiry that was read. */
  function StampOf(expiry: Expiry): Stamp {
    if expiry.Parsed? then FormatExpiry(expiry.nanos) else Unset
  }

  /** The row after a policy update: the baselines are the counters of this moment. */
  ghost predicate PolicySet(before: Row, inst: Instance, quota: int, text: string, now: Row) {
    && now == before.(quotaBytes := quota, quotaRxBaseline := Wrap64(RxBytes(inst)),
                      quotaTxBaseline := Wrap64(TxBytes(inst)), quotaResetAt := now.quotaResetAt,
                      expiresAt := StampOf(ReadExpiry(text)),
                      updatedAt := now.updatedAt)
    && now.quotaBytes >= 0 && now.quotaRxBaseline >= 0 && now.quotaTxBaseline >= 0
    && now.quotaResetAt.Instant? && now.updatedAt.Instant?
  }

  /** The expiry that is stored: nothing for a blank text; else the second the text names, when its
      year in UTC is one of 0 to 9999, and otherwise a text no pass can read. */
  lemma StampMeans(text: string)
    ensures Blank(text) ==> StampOf(ReadExpiry(text)) == Unset && ReadExpiry(text) == NoExpiry
    ensures !Blank(text) ==> (ReadExpiry(text).Unparsable? <==> ReadDateTime(TrimSpace(text)).None?)
    ensures !Blank(text) && ReadDateTime(TrimSpace(text)).Some? ==>
              var second := ReadDateTime(TrimSpace(text)).value / 1_000_000_000;
              StampOf(ReadExpiry(text)) == if -62_167_219_200 <= second < 253_402_300_800
                                           then Instant(second * 1_000_000_000) else Malformed(DateTime(second))
  {
    hide ReadDateTime, DateTime, TrimSpace, Blank;
    BlankTrims(text);
    if !Blank(text) && ReadDateTime(TrimSpace(text)).Some? { ReadsBack(ReadDateTime(TrimSpace(text)).value / SECOND); }
  }

  /** Which instant an update stores: for a date and a clock, with any fraction, at any offset, with any
      blanks around, the second they name in UTC. */
  lemma StoredExpiry(before: Row, inst: Instance, quota: int, text: string, now: Row, front: string, back: string,
                     date: Date, clock: nat, mark: char, digits: string, zone: string, h: nat, m: nat, offset: int)
    requires PolicySet(before, inst, quota, text, now) && Blank(front) && Blank(back)
    requires 0 <= date.year < 10_000 && ValidDate(date) && clock < DAY
    requires (mark == '.' || mark == ',') && AllDigits(digits)
    requires text == front + (YearText(date.year) + Fields(date.month, date.day, clock) +
                              (if digits == "" then "" else [mark] + digits) + zone) + back
    requires || (zone == "Z" && offset == 0)
             || (h <= 24 && m <= 60 && zone == "+" + FixedDigits(2, h) + ":" + FixedDigits(2, m) &&
                 offset == h * 3600 + m * 60)
             || (h <= 24 && m <= 60 && zone == "-" + FixedDigits(2, h) + ":" + FixedDigits(2, m) &&
                 offset == -(h * 3600 + m * 60))
    ensures var second := DayOf(date) * 86_400 + clock - offset;
            now.expiresAt == if -62_167_219_200 <= second < 253_402_300_800
                             then Instant(second * 1_000_000_000) else Malformed(DateTime(second))
  {
    hide ReadDateTime, DateTime, TrimSpace, Blank, FixedDigits, Fields, YearText, DayOf, ValidDate, AllDigits,
      DigitsValue, Pow10;
    BlanksAround(front, back, date, clock, mark, digits, zone, h, m, offset);
    DateRules(date);
    ReadsZoned(date, clock, mark, digits, zone, h, m, offset);
    FractionBelow(digits);
    BlankTrims(text);
    StampMeans(text);
  }

  /** `updatePolicy`. text: the expiry field of the request. */
  method UpdatePolicy(a: App, name: string, quota: int, text: string) returns (ok: bool)
    requires Keyed(a.store.rows)
    modifies a.client`faults, a.store`rows, a.store`faults
    ensures Later(old(a.Now()), a.Now())
    ensures a.store.rows == old(a.store.rows) ||
            (name in old(a.store.rows) && name in a.store.rows && name in a.client.insts &&
             a.store.rows == old(a.store.rows)[name := a.store.rows[name]] &&
             PolicySet(old(a.store.rows)[name], a.client.insts[name], quota, text, a.store.rows[name]))
    ensures ok ==> name in old(a.store.rows) && name in a.store.rows && name in a.client.insts &&
                   PolicySet(old(a.store.rows)[name], a.client.insts[name], quota, text, a.store.rows[name])
    // The quota, this moment's counters and the second the text names are stored; nothing else of
    // the row but its reset and update time changes.
    ensures ok ==>
              var row := a.store.rows[name];
              row == old(a.store.rows)[name].(
                quotaBytes := quota, quotaRxBaseline := Wrap64(RxBytes(a.client.insts[name])),
                quotaTxBaseline := Wrap64(TxBytes(a.client.insts[name])), quotaResetAt := row.quotaResetAt,
                expiresAt := row.expiresAt, updatedAt := row.updatedAt) &&
              (Blank(text) ==> row.expiresAt == Unset) &&
              (!Blank(text) ==>
                 ReadDateTime(TrimSpace(text)).Some? &&
                 var second := ReadDateTime(TrimSpace(text)).value / 1_000_000_000;
                 row.expiresAt == if -62_167_219_200 <= second < 253_402_300_800
                                  then Instant(second * 1_000_000_000) else Malformed(DateTime(second)))
    ensures FaultFree(old(a.Now()), a.Now()) ==>
              (ok <==> quota >= 0 && (Blank(text) || ReadDateTime(TrimSpace(text)).Some?) && ValidName(name) &&
                       name in a.client.insts && name in old(a.store.rows) &&
                       Wrap64(RxBytes(a.client.insts[name])) >= 0 && Wrap64(TxBytes(a.client.insts[name])) >= 0)
    ensures FaultFree(old(a.Now()), a.Now()) && !ok ==> a.store.rows == old(a.store.rows)
  {
    hide FormatExpiry, Accepted, ListsRows, UsedBytes, ValidLog, ReadExpiry, ReadDateTime, TrimSpace, Blank, DateTime;
    StampMeans(text);
    var expiry := ReadExpiry(text);
    if quota < 0 || expiry.Unparsable? { return false; }
    var expiresAt := if expiry.Parsed? then FormatExpiry(expiry.nanos) else Unset;
    var read, rx, tx := a.client.Stats(name);
    if !read { return false; }
    var resetAt := a.store.Now();
    var stored := a.store.UpdatePolicy(name, quota, rx, tx, resetAt, expiresAt);
    if stored != Done { return false; }
    var view;
    ok, view := ReadPolicy(a, name);
  }

  // ---------------------------------------------------------------- enforcement

  /** The containers a pass at time now has to stop. */
  ghost function DueNames(s: Snap, now: int): set<string> {
    set n | n in s.rows && Due(s.rows, s.insts, now, n)
  }

  /** A pass has stopped this container and its row says so. */
  ghost predicate PolicyStopped(s: Snap, e: Snap, n: string)
    requires n in s.insts && n in s.rows && n in e.insts && n in e.rows
  {
    e.insts[n] == AfterLifecycle(Stop, s.insts[n]) && StoppedRow(s.rows[n], e.rows[n])
  }

  /** What a pass does to one container: nothing, or, when it is due, a stop with, if the table took
      it, the row set to stopped. A stop is logged, and so is an expired container's failed stop. */
  ghost predicate EnforcedOne(s: Snap, e: Snap, due: set<string>, now: int, n: string) {
    n in e.insts && n in s.insts &&
    if e.insts[n] == s.insts[n] then
      (n in s.rows ==> n in e.rows && e.rows[n] == s.rows[n]) &&
      (n in due && n in s.rows && Expired(s.rows[n], now) ==> Logged(s, e, "policy.stop", n, "failure"))
    else
      n in due && n in s.rows && n in e.rows && e.insts[n] == AfterLifecycle(Stop, s.insts[n]) &&
      (e.rows[n] == s.rows[n] || StoppedRow(s.rows[n], e.rows[n])) &&
      Logged(s, e, "policy.stop", n, "success")
  }

  /** What a pass without failures does: exactly the due containers are stopped, and their rows say
      so. */
  ghost predicate Enforced(s: Snap, e: Snap, now: int) {
    Untouched(s, e, DueNames(s, now)) && forall n | n in DueNames(s, now) :: PolicyStopped(s, e, n)
  }

  /** Outside these names nothing has changed since s. */
  ghost predicate Untouched(s: Snap, e: Snap, names: set<string>) {
    && e.insts.Keys == s.insts.Keys && e.rows.Keys == s.rows.Keys
    && (forall n | n in s.insts && n !in names :: e.insts[n] == s.insts[n])
    && (forall n | n in s.rows && n !in names :: e.rows[n] == s.rows[n])
  }

  /** Of these containers, those whose instance has changed. */
  ghost function ChangedIn(s: Snap, e: Snap, names: set<string>): set<string> {
    set n | n in names && n in s.insts && n in e.insts && e.insts[n] != s.insts[n]
  }

  /** Of these containers, those that ran although expired, and have not changed. */
  ghost function OverdueIn(s: Snap, e: Snap, now: int, names: set<string>): set<string> {
    set n | n in names && n in s.rows && n in s.insts && n in e.insts &&
            Running(s.insts[n]) && Expired(s.rows[n], now) && e.insts[n] == s.insts[n]
  }

  /** Of the stops, and of the failed stops of expired containers, no more lack their event than audit
      writes failed. */
  ghost predicate StopsLogged(s: Snap, e: Snap, now: int, names: set<string>) {
    AllLogged(s, e, "policy.stop", ChangedIn(s, e, names), "success") &&
    AllLogged(s, e, "policy.stop", OverdueIn(s, e, now, names), "failure")
  }

  /** The names already handled are settled, the others untouched. */
  ghost predicate Handled(s: Snap, e: Snap, due: set<string>, now: int, names: set<string>) {
    && Later(s, e) && Untouched(s, e, names) && StopsLogged(s, e, now, names)
    && (forall n | n in names && n in s.insts :: EnforcedOne(s, e, due, now, n))
    && (forall n | n in names && n in s.rows && n !in s.insts :: e.rows[n] == s.rows[n])
    && (FaultFree(s, e) && Restorable(s.rows) ==>
          forall n | n in names && n in due && n in s.insts && n in s.rows :: PolicyStopped(s, e, n))
  }

  /** Whether this container has to stop. A failed read of its counters leaves it alone. */
  method IsDue(client: Client, item: Row, inst: Instance, now: int) returns (due: bool)
    requires item.name in client.insts && client.insts[item.name] == inst
    modifies client`faults
    ensures client.faults >= old(client.faults)
    ensures due ==> DueReason(item, inst, now) != NoReason
    ensures Running(inst) && Expired(item, now) ==> due
    ensures client.faults == old(client.faults) && ValidName(item.name) ==>
              (due <==> DueReason(item, inst, now) != NoReason)
    ensures client.faults == old(client.faults) && ValidName(item.name) ==>
              (due <==>
                 inst.status == "Running" &&
                 ((item.expiresAt.Instant? && now >= item.expiresAt.nanos) ||
                  (item.quotaBytes > 0 &&
                   UsedBytes(item, Wrap64(RxBytes(inst)), Wrap64(TxBytes(inst))) >= item.quotaBytes)))
  {
    if !Running(inst) { return false; }
    if Expired(item, now) { return true; }
    if item.quotaBytes <= 0 { return false; }
    var ok, rx, tx := client.Stats(item.name);
    if !ok { return false; }
    var used := Wrap64(CounterDelta(rx, item.quotaRxBaseline) + CounterDelta(tx, item.quotaTxBaseline));
    return used >= item.quotaBytes;
  }

  /** The body of the loop, for one row. */
  method EnforceOne(a: App, item: Row, runtimeByName: map<string, Instance>, now: int)
    requires item.name in a.store.rows && a.store.rows[item.name] == item
    requires item.name in runtimeByName <==> item.name in a.client.insts
    requires item.name in runtimeByName ==> runtimeByName[item.name] == a.client.insts[item.name]
    modifies a.client`insts, a.client`faults, a.store`rows, a.store`faults, a.store`audit, a.store`auditFaults
    ensures Later(old(a.Now()), a.Now()) && Untouched(old(a.Now()), a.Now(), {item.name})
    ensures item.name in a.client.insts ==>
              EnforcedOne(old(a.Now()), a.Now(),
                          if Due(old(a.store.rows), old(a.client.insts), now, item.name) then {item.name} else {},
                          now, item.name)
    ensures item.name !in a.client.insts ==> a.store.rows == old(a.store.rows)
    ensures FaultFree(old(a.Now()), a.Now()) && ValidName(item.name) &&
            Due(old(a.store.rows), old(a.client.insts), now, item.name) ==>
              PolicyStopped(old(a.Now()), a.Now(), item.name)
    // At most one event, of the stop that was tried; a stop that worked has one, or its write failed.
    ensures if a.store.audit == old(a.store.audit)
            then a.client.insts != old(a.client.insts) ==> a.store.auditFaults > old(a.store.auditFaults)
            else |a.store.audit| == |old(a.store.audit)| + 1 && old(a.store.audit) <= a.store.audit &&
                 var e := a.store.audit[|old(a.store.audit)|];
                 e == AuditEvent(e.id, "system", "policy.stop", "container", item.name,
                                 if a.client.insts == old(a.client.insts) then "failure" else "success")
    ensures PortsUnique(old(a.client.insts)) ==> PortsUnique(a.client.insts)
  {
    hide PortsUnique, Logged, ValidLog, ValidName, DueReason, Expired, Blank;
    ghost var s := a.Now();
    if item.quotaBytes <= 0 && item.expiresAt == Unset {
      NoPolicy(item, runtimeByName, now);
      return;
    }
    if item.name !in runtimeByName { return; }
    DueRuns(item, runtimeByName[item.name], now);
    var due := IsDue(a.client, item, runtimeByName[item.name], now);
    if !due { return; }
    var stopped := a.client.Lifecycle(Stop, item.name);
    if !stopped {
      ghost var mid := a.Now();
      Record(a, "system", "policy.stop", item.name, "failure");
      LoggedKept(s, mid, a.Now(), a.Now(), "policy.stop", item.name, "failure");
      return;
    }
    NameNotBlank(item.name);
    var stored := a.store.SetDesiredState(item.name, "stopped");
    ghost var mid := a.Now();
    Record(a, "system", "policy.stop", item.name, "success");
    LoggedKept(s, mid, a.Now(), a.Now(), "policy.stop", item.name, "success");
  }

  lemma NoPolicy(item: Row, runtimeByName: map<string, Instance>, now: int)
    requires item.quotaBytes <= 0 && item.expiresAt == Unset
    ensures !Expired(item, now) && forall n | n in runtimeByName :: DueReason(item, runtimeByName[n], now) == NoReason
  {
  }

  lemma DueRuns(item: Row, inst: Instance, now: int)
    ensures DueReason(item, inst, now) != NoReason ==> Running(inst)
    ensures Running(inst) && Expired(item, now) ==> DueReason(item, inst, now) != NoReason
  {
  }

  lemma OneSettled(s: Snap, mid: Snap, e: Snap, due: set<string>, now: int, names: set<string>, n: string)
    requires Untouched(s, mid, names) && n !in names && n in s.insts && Later(s, mid) && Later(mid, e)
    requires EnforcedOne(mid, e, due * {n}, now, n)
    ensures EnforcedOne(s, e, due, now, n)
  {
    hide Logged, ValidLog;
    assert mid.insts[n] == s.insts[n] && (n in s.rows ==> mid.rows[n] == s.rows[n]);
    forall result: string | Logged(mid, e, "policy.stop", n, result) ensures Logged(s, e, "policy.stop", n, result) {
      LoggedKept(s, mid, e, e, "policy.stop", n, result);
    }
  }

  lemma OneKept(s: Snap, mid: Snap, e: Snap, due: set<string>, now: int, n: string, m: string)
    requires EnforcedOne(s, mid, due, now, m) && m != n && Untouched(mid, e, {n}) && Later(s, mid) && Later(mid, e)
    ensures EnforcedOne(s, e, due, now, m)
  {
    hide Logged, ValidLog;
    assert e.insts[m] == mid.insts[m] && (m in mid.rows ==> e.rows[m] == mid.rows[m]);
    forall result: string | Logged(s, mid, "policy.stop", m, result) ensures Logged(s, e, "policy.stop", m, result) {
      LoggedKept(s, s, mid, e, "policy.stop", m, result);
    }
  }

  lemma LogsStep(s: Snap, mid: Snap, e: Snap, now: int, names: set<string>, n: string)
    requires StopsLogged(s, mid, now, names) && Untouched(s, mid, names) && Later(s, mid)
    requires Untouched(mid, e, {n}) && n !in names && n in s.rows && Later(mid, e)
    requires n in mid.insts ==> EnforcedOne(mid, e, DueNames(s, now) * {n}, now, n)
    ensures StopsLogged(s, e, now, names + {n})
  {
    hide AllLogged, Logged, ValidLog, StoppedRow, AfterLifecycle;
    assert mid.rows[n] == s.rows[n] && (n in s.insts ==> mid.insts[n] == s.insts[n]);
    var changed, overdue := ChangedIn(mid, e, {n}), OverdueIn(mid, e, now, {n});
    if n in overdue { assert n in DueNames(s, now) by { ExpiredIsDue(s, now, n); } }
    assert changed == if n in changed then {n} else {};
    assert overdue == if n in overdue then {n} else {};
    if n in changed {
      OneLogged(mid, e, "policy.stop", n, "success");
    } else {
      NoneToLog(mid, e, "policy.stop", "success");
    }
    if n in overdue {
      OneLogged(mid, e, "policy.stop", n, "failure");
    } else {
      NoneToLog(mid, e, "policy.stop", "failure");
    }
    AllLoggedJoin(s, mid, e, "policy.stop", ChangedIn(s, mid, names), changed, "success");
    AllLoggedJoin(s, mid, e, "policy.stop", OverdueIn(s, mid, now, names), overdue, "failure");
    SetsStep(s, mid, e, now, names, n);
  }

  lemma SetsStep(s: Snap, mid: Snap, e: Snap, now: int, names: set<string>, n: string)
    requires Untouched(s, mid, names) && Untouched(mid, e, {n}) && n !in names && n in s.rows
    ensures ChangedIn(s, e, names + {n}) == ChangedIn(s, mid, names) + ChangedIn(mid, e, {n})
    ensures OverdueIn(s, e, now, names + {n}) == OverdueIn(s, mid, now, names) + OverdueIn(mid, e, now, {n})
  {
  }

  lemma ExpiredIsDue(s: Snap, now: int, n: string)
    requires n in s.rows && n in s.insts && Running(s.insts[n]) && Expired(s.rows[n], now)
    ensures n in DueNames(s, now)
  {
  }

  lemma HandledStep(s: Snap, mid: Snap, e: Snap, due: set<string>, now: int, names: set<string>, n: string)
    requires Handled(s, mid, due, now, names) && n !in names && n in s.rows && due == DueNames(s, now)
    requires Later(mid, e) && Untouched(mid, e, {n})
    requires n in mid.insts ==> EnforcedOne(mid, e, due * {n}, now, n)
    requires n !in mid.insts ==> e.rows == mid.rows
    requires FaultFree(mid, e) && ValidName(n) && n in due && n in mid.insts ==> PolicyStopped(mid, e, n)
    ensures Handled(s, e, due, now, names + {n})
  {
    hide Logged, StoppedRow, ValidName, ValidLog, EnforcedOne, Accepted, Restorable, PolicyStopped, StopsLogged,
      DueNames;
    LogsStep(s, mid, e, now, names, n);
    forall m | m in names + {n} && m in s.insts ensures EnforcedOne(s, e, due, now, m) {
      if m == n { OneSettled(s, mid, e, due, now, names, n); } else { OneKept(s, mid, e, due, now, n, m); }
    }
    assert mid.rows[n] == s.rows[n] && (n in s.insts ==> mid.insts[n] == s.insts[n]);
    NamesValid(s.rows, n);
    forall m | m in names + {n} && m in s.insts && m in s.rows
      ensures PolicyStopped(if m == n then mid else s, if m == n then e else mid, m) ==> PolicyStopped(s, e, m) {
      SameStop(s, mid, e, n, m);
    }
  }

  lemma SameStop(s: Snap, mid: Snap, e: Snap, n: string, m: string)
    requires Untouched(mid, e, {n}) && m in s.insts && m in s.rows && m in mid.insts && m in mid.rows
    requires m == n ==> mid.insts[n] == s.insts[n] && mid.rows[n] == s.rows[n]
    ensures PolicyStopped(if m == n then mid else s, if m == n then e else mid, m) ==> PolicyStopped(s, e, m)
  {
  }

  lemma NamesValid(rows: map<string, Row>, n: string)
    requires n in rows
    ensures Restorable(rows) ==> ValidName(n)
  {
  }

  /** One round: item is untouched so far, so it is due now exactly when it was due at the start. */
  lemma DueUnchanged(s: Snap, mid: Snap, names: set<string>, now: int, n: string)
    requires Untouched(s, mid, names) && n !in names
    ensures Due(mid.rows, mid.insts, now, n) <==> n in DueNames(s, now)
  {
    assert n in mid.rows ==> mid.rows[n] == s.rows[n];
    assert n in mid.insts ==> mid.insts[n] == s.insts[n];
  }

  method EnforceRound(a: App, item: Row, runtimeByName: map<string, Instance>, now: int, ghost s: Snap,
                      ghost names: set<string>)
    requires Handled(s, a.Now(), DueNames(s, now), now, names) && item.name !in names
    requires item.name in s.rows && s.rows[item.name] == item && runtimeByName == s.insts
    modifies a.client`insts, a.client`faults, a.store`rows, a.store`faults, a.store`audit, a.store`auditFaults
    ensures Handled(s, a.Now(), DueNames(s, now), now, names + {item.name})
    ensures PortsUnique(old(a.client.insts)) ==> PortsUnique(a.client.insts)
  {
    hide PortsUnique;
    ghost var mid := a.Now();
    DueUnchanged(s, mid, names, now, item.name);
    EnforceOne(a, item, runtimeByName, now);
    assert DueNames(s, now) * {item.name} == if item.name in DueNames(s, now) then {item.name} else {};
    HandledStep(s, mid, a.Now(), DueNames(s, now), now, names, item.name);
  }

  /** The pass could not read the table or the instances. */
  ghost predicate Skipped(s: Snap, e: Snap) {
    e.insts == s.insts && e.rows == s.rows && !FaultFree(s, e)
  }

  /** What any pass leaves, whatever fails: per container a stop that was due or nothing; and
      without failures, on a table whose names are valid, exactly the due containers stopped. */
  ghost predicate PassResult(s: Snap, e: Snap, now: int) {
    && Later(s, e) && e.insts.Keys == s.insts.Keys && e.rows.Keys == s.rows.Keys
    && (Skipped(s, e) ||
        (StopsLogged(s, e, now, s.rows.Keys) && forall n | n in e.insts :: EnforcedOne(s, e, DueNames(s, now), now, n)))
    && (forall n | n in e.rows && n !in e.insts :: e.rows[n] == s.rows[n])
    && (FaultFree(s, e) && Restorable(s.rows) ==> Enforced(s, e, now))
  }

  lemma PassSettled(s: Snap, e: Snap, now: int)
    requires Handled(s, e, DueNames(s, now), now, s.rows.Keys)
    ensures PassResult(s, e, now)
  {
    var due := DueNames(s, now);
    forall n | n in e.insts ensures EnforcedOne(s, e, due, now, n) {
      if n !in s.rows { assert e.insts[n] == s.insts[n]; }
    }
    forall n | n in s.rows && n !in due ensures e.rows[n] == s.rows[n] {
      if n in s.insts { assert EnforcedOne(s, e, due, now, n); }
    }
  }

  lemma PassSkipped(s: Snap, e: Snap, now: int)
    requires Later(s, e) && e.insts == s.insts && e.rows == s.rows && !FaultFree(s, e)
    ensures PassResult(s, e, now)
  {
  }

  function NamesTo(items: seq<Row>, i: nat): set<string>
    requires i <= |items|
  {
    if i == 0 then {} else NamesTo(items, i - 1) + {items[i - 1].name}
  }

  lemma {:induction false} NamesToExact(items: seq<Row>, i: nat)
    requires i <= |items|
    ensures forall n :: n in NamesTo(items, i) <==> exists j :: 0 <= j < i && items[j].name == n
  {
    if i > 0 { NamesToExact(items, i - 1); }
  }

  lemma NextIsNew(rows: map<string, Row>, items: seq<Row>, i: nat)
    requires ListsRows(rows, items) && i < |items|
    ensures items[i].name !in NamesTo(items, i)
  {
    NamesToExact(items, i);
    StrLessIrreflexive(items[i].name);
  }

  lemma AllNamed(rows: map<string, Row>, items: seq<Row>)
    requires ListsRows(rows, items)
    ensures NamesTo(items, |items|) == rows.Keys
  {
    NamesToExact(items, |items|);
  }

  lemma NothingHandled(s: Snap, due: set<string>, now: int)
    ensures Handled(s, s, due, now, {})
  {
    assert ChangedIn(s, s, {}) == {} && OverdueIn(s, s, now, {}) == {};
    NoneToLog(s, s, "policy.stop", "success");
    NoneToLog(s, s, "policy.stop", "failure");
  }

  method EnforceRows(a: App, items: seq<Row>, runtimeByName: map<string, Instance>, now: int)
    requires ListsRows(a.store.rows, items) && runtimeByName == a.client.insts
    modifies a.client`insts, a.client`faults, a.store`rows, a.store`faults, a.store`audit, a.store`auditFaults
    ensures Handled(old(a.Now()), a.Now(), DueNames(old(a.Now()), now), now, old(a.store.rows.Keys))
    ensures PortsUnique(old(a.client.insts)) ==> PortsUnique(a.client.insts)
  {
    hide PortsUnique, Handled, DueNames, Keyed;
    ghost var s := a.Now();
    NothingHandled(s, DueNames(s, now), now);
    for i := 0 to |items|
      invariant Handled(s, a.Now(), DueNames(s, now), now, NamesTo(items, i))
      invariant PortsUnique(s.insts) ==> PortsUnique(a.client.insts)
    {
      NextIsNew(s.rows, items, i);
      EnforceRound(a, items[i], runtimeByName, now, s, NamesTo(items, i));
    }
    AllNamed(s.rows, items);
  }

  /** `enforcePolicyPass` at time now. */
  method EnforcePass(a: App, now: int)
    requires Keyed(a.store.rows)
    modifies a.client`insts, a.client`faults, a.store`rows, a.store`faults, a.store`audit, a.store`auditFaults
    ensures PassResult(old(a.Now()), a.Now(), now)
    // In the fields: exactly what runs and has expired or used up its quota is stopped, and so is its
    // row.
    ensures FaultFree(old(a.Now()), a.Now()) && Restorable(old(a.store.rows)) ==>
              forall n | n in old(a.store.rows) && n in old(a.client.insts) ::
                n in a.store.rows && n in a.client.insts &&
                var row, inst := old(a.store.rows)[n], old(a.client.insts)[n];
                if inst.status == "Running" &&
                   ((row.expiresAt.Instant? && now >= row.expiresAt.nanos) ||
                    (row.quotaBytes > 0 &&
                     UsedBytes(row, Wrap64(RxBytes(inst)), Wrap64(TxBytes(inst))) >= row.quotaBytes))
                then a.client.insts[n].status == "Stopped" && a.store.rows[n].desiredState == "stopped"
                else a.client.insts[n] == inst && a.store.rows[n] == row
    ensures PortsUnique(old(a.client.insts)) ==> PortsUnique(a.client.insts)
  {
    ghost var s := a.Now();
    var listed, items := a.store.ListContainers();
    if !listed {
      PassSkipped(s, a.Now(), now);
      return;
    }
    var ran, runtimeItems := a.client.List();
    if !ran {
      PassSkipped(s, a.Now(), now);
      return;
    }
    var runtimeByName := IndexListing(runtimeItems, s.insts);
    ghost var mid := a.Now();
    EnforceRows(a, items, runtimeByName, now);
    PassSettled(mid, a.Now(), now);
    PassFrom(s, mid, a.Now(), now);
    PassMeans(s, a.Now(), now);
  }

  lemma PassMeans(s: Snap, e: Snap, now: int)
    requires PassResult(s, e, now)
    ensures FaultFree(s, e) && Restorable(s.rows) ==>
              forall n | n in s.rows && n in s.insts ::
                n in e.rows && n in e.insts &&
                var row, inst := s.rows[n], s.insts[n];
                if inst.status == "Running" &&
                   ((row.expiresAt.Instant? && now >= row.expiresAt.nanos) ||
                    (row.quotaBytes > 0 &&
                     UsedBytes(row, Wrap64(RxBytes(inst)), Wrap64(TxBytes(inst))) >= row.quotaBytes))
                then e.insts[n].status == "Stopped" && e.rows[n].desiredState == "stopped"
                else e.insts[n] == inst && e.rows[n] == row
  {
    hide Restorable, UsedBytes, RxBytes, TxBytes, StopsLogged, EnforcedOne, ValidLog;
    if FaultFree(s, e) && Restorable(s.rows) {
      assert forall n | n in s.rows && n in s.insts :: n in DueNames(s, now) <==> Due(s.rows, s.insts, now, n);
    }
  }

  lemma PassFrom(s: Snap, mid: Snap, e: Snap, now: int)
    requires Later(s, mid) && mid.insts == s.insts && mid.rows == s.rows && mid.log == s.log &&
             mid.auditFaults == s.auditFaults
    requires PassResult(mid, e, now)
    ensures PassResult(s, e, now)
  {
    assert DueNames(mid, now) == DueNames(s, now);
    if !Skipped(mid, e) {
      forall n | n in e.insts ensures EnforcedOne(s, e, DueNames(s, now), now, n) {
        assert EnforcedOne(mid, e, DueNames(s, now), now, n);
      }
      assert ChangedIn(mid, e, s.rows.Keys) == ChangedIn(s, e, s.rows.Keys) &&
             OverdueIn(mid, e, now, s.rows.Keys) == OverdueIn(s, e, now, s.rows.Keys);
      AllLoggedKept(s, mid, e, e, "policy.stop", ChangedIn(s, e, s.rows.Keys), "success");
      AllLoggedKept(s, mid, e, e, "policy.stop", OverdueIn(s, e, now, s.rows.Keys), "failure");
    }
  }
}
