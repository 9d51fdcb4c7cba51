/** Reading the whole audit log page by page while other requests keep appending to it
    (internal/store/store.go, ListAudit and ParseBeforeID). */
module AuditPages {
  import opened Prelude
  import opened Text
  import opened Store

  /** The log as successive requests find it: it only grows, at its end. */
  ghost predicate Growing(logs: seq<seq<AuditEvent>>) {
    && (forall i | 0 <= i < |logs| :: ValidLog(logs[i]))
    && (forall i | 0 <= i < |logs| :: logs[0] <= logs[i])
  }

  /** What a client collects: it sends the last id of each page as the next cursor, as decimal
      text, and stops at the first empty page. Request i sees logs[i]. */
  function Follow(logs: seq<seq<AuditEvent>>, limit: int, i: nat, cursor: string): seq<AuditEvent>
    decreases |logs| - i
  {
    if i >= |logs| then []
    else
      var page := Page(logs[i], limit, ParseBeforeId(cursor));
      if page == [] || page[|page| - 1].id < 0 then page
      else page + Follow(logs, limit, i + 1, Itoa(page[|page| - 1].id))
  }

  /** The events of a log, latest first. */
  function Backwards(log: seq<AuditEvent>): seq<AuditEvent> {
    if log == [] then [] else [log[|log| - 1]] + Backwards(log[..|log| - 1])
  }

  lemma {:induction false} LatestPrefix(a: seq<AuditEvent>, b: seq<AuditEvent>, k: nat, n: nat)
    requires a <= b && k <= |a|
    ensures Latest(a, k, n) == Latest(b, k, n)
  {
    if k > 0 && n > 0 { LatestPrefix(a, b, k - 1, n - 1); }
  }

  /** A page and what is left behind it are what there was. */
  lemma {:induction false} LatestSplit(log: seq<AuditEvent>, k: nat, n: nat)
    requires k <= |log| && n <= k
    ensures Latest(log, k, k) == Latest(log, k, n) + Latest(log, k - n, k - n)
  {
    if n > 0 { LatestSplit(log, k - 1, n - 1); }
  }

  lemma {:induction false} LatestIsBackwards(log: seq<AuditEvent>, k: nat)
    requires k <= |log|
    ensures Latest(log, k, k) == Backwards(log[..k])
  {
    if k > 0 {
      LatestIsBackwards(log, k - 1);
      assert log[..k][..k - 1] == log[..k - 1];
    }
  }

  /** The id of event m, as a cursor, leaves the m events before it, however the log has grown. */
  lemma {:induction false} BelowEvent(log: seq<AuditEvent>, m: nat)
    requires ValidLog(log) && m < |log|
    ensures Below(log, log[m].id) == m
  {
    var shorter := log[..|log| - 1];
    if m < |log| - 1 {
      BelowEvent(shorter, m);
    } else if m > 0 {
      assert shorter[|shorter| - 1].id < log[m].id;
    }
  }

  lemma CursorText(id: int)
    requires 1 <= id < TWO_63
    ensures ParseBeforeId(Itoa(id)) == id
  {
    AtoiItoa(id);
  }

  lemma ZeroText()
    ensures Itoa(0) == "0"
  {
  }

  /** Anything but a positive number is no cursor. */
  lemma OtherCursors(text: string, id: nat)
    ensures ParseBeforeId("-" + Itoa(id)) == ParseBeforeId("0") == 0
    ensures (exists c :: c in text && !IsDigit(c) && c != '+') ==> ParseBeforeId(text) == 0
  {
    hide Itoa, DigitsValue;
    AtoiSigned(id);
    assert Itoa(0) == "0" by { ZeroText(); }
    AtoiItoa(0);
    if c :| c in text && !IsDigit(c) && c != '+' {
      assert text == [text[0]] + text[1..];
    }
  }

  /** One request at a point where k events are still unread. */
  lemma OnePage(log: seq<AuditEvent>, now: seq<AuditEvent>, limit: int, cursor: int, k: nat)
    requires ValidLog(log) && ValidLog(now) && log <= now && 0 < k <= |log| && Below(now, cursor) == k
    requires forall e | e in log :: e.id < TWO_63
    ensures var page := Page(now, limit, cursor);
            page != [] && |page| == (if PageSize(limit) < k then PageSize(limit) else k) &&
            page[|page| - 1] == log[k - |page|] && 1 <= page[|page| - 1].id < TWO_63 &&
            ParseBeforeId(Itoa(page[|page| - 1].id)) == log[k - |page|].id &&
            Latest(log, k, k) == page + Latest(log, k - |page|, k - |page|)
  {
    var n := PageSize(limit);
    var page := Page(now, limit, cursor);
    LatestPrefix(log, now, k, n);
    LatestShape(log, k, n);
    if n > k { LatestPast(log, k, n); }
    LatestSplit(log, k, |page|);
    var last := log[k - |page|];
    assert last in log;
    CursorText(last.id);
  }

  /** How many pages of n hold k events. */
  function Pages(k: nat, n: nat): nat
    requires n > 0
  {
    if k == 0 then 0 else 1 + Pages(if n < k then k - n else 0, n)
  }

  lemma {:induction false} PagesSuffice(k: nat, n: nat, requests: nat)
    requires n > 0 && requests * n >= k
    ensures Pages(k, n) <= requests
  {
    if k > 0 {
      assert requests > 0 && (requests - 1) * n == requests * n - n;
      PagesSuffice(if n < k then k - n else 0, n, requests - 1);
    }
  }

  lemma {:induction false} FollowFrom(logs: seq<seq<AuditEvent>>, limit: int, i: nat, cursor: string, k: nat)
    requires logs != [] && Growing(logs) && i <= |logs| && k <= |logs[0]|
    requires forall e | e in logs[0] :: e.id < TWO_63
    requires i < |logs| ==> Below(logs[i], ParseBeforeId(cursor)) == k
    requires |logs| - i >= Pages(k, PageSize(limit))
    ensures Follow(logs, limit, i, cursor) == Latest(logs[0], k, k)
    decreases |logs| - i
  {
    if i < |logs| && k > 0 {
      OnePage(logs[0], logs[i], limit, ParseBeforeId(cursor), k);
      var page := Page(logs[i], limit, ParseBeforeId(cursor));
      var m := k - |page|;
      if i + 1 < |logs| {
        assert logs[0] <= logs[i + 1];
        assert logs[i + 1][m] == logs[0][m];
        BelowEvent(logs[i + 1], m);
      }
      FollowFrom(logs, limit, i + 1, Itoa(page[|page| - 1].id), m);
    }
  }

  lemma {:induction false} LatestPast(log: seq<AuditEvent>, k: nat, n: nat)
    requires k <= |log| && n >= k
    ensures Latest(log, k, n) == Latest(log, k, k)
  {
    if k > 0 { LatestPast(log, k - 1, n - 1); }
  }

  /** Following the cursor yields every event that was there at the first request, exactly once,
      in strictly descending id order, whatever the page size and whatever is appended meanwhile;
      it needs no more than |log| / page size requests, rounded up, to do so. */
  lemma FollowReadsLog(logs: seq<seq<AuditEvent>>, limit: int)
    requires logs != [] && Growing(logs)
    requires forall e | e in logs[0] :: e.id < TWO_63
    requires |logs| * PageSize(limit) >= |logs[0]|
    ensures Follow(logs, limit, 0, "") == Backwards(logs[0])
    ensures forall i, j | 0 <= i < j < |Backwards(logs[0])| :: Backwards(logs[0])[i].id > Backwards(logs[0])[j].id
    ensures multiset(Backwards(logs[0])) == multiset(logs[0])
  {
    var log := logs[0];
    assert ParseBeforeId("") == 0;
    PagesSuffice(|log|, PageSize(limit), |logs|);
    FollowFrom(logs, limit, 0, "", |log|);
    LatestIsBackwards(log, |log|);
    assert log[..|log|] == log;
    LatestShape(log, |log|, |log|);
    BackwardsPermutes(log);
  }

  lemma {:induction false} BackwardsPermutes(log: seq<AuditEvent>)
    ensures multiset(Backwards(log)) == multiset(log)
  {
    if log != [] {
      BackwardsPermutes(log[..|log| - 1]);
      assert log == log[..|log| - 1] + [log[|log| - 1]];
    }
  }
}
