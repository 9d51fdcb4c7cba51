/** The administrator login's failure window (admin_auth.go). */
module Login {

  /** Go's zero time, in nanoseconds of the Unix clock; any reading of the clock is later. */
  const ZERO_TIME: int := -62_135_596_800_000_000_000

  type Time = t: int | t > ZERO_TIME witness 0

  const WINDOW: int := 5 * 60 * 1_000_000_000

  const LIMIT: nat := 5

  datatype LoginFailure = LoginFailure(count: nat, resetAt: int)

  /** What reading an absent key of the map gives. */
  const NO_FAILURE := LoginFailure(0, ZERO_TIME)

  function Entry(failures: map<string, LoginFailure>, ip: string): LoginFailure {
    if ip in failures then failures[ip] else NO_FAILURE
  }

  predicate Allowed(f: LoginFailure, now: Time) {
    now > f.resetAt || f.count < LIMIT
  }

  /** now and later: the two readings of the clock. */
  function AfterFailure(f: LoginFailure, now: Time, later: Time): LoginFailure {
    if now > f.resetAt then LoginFailure(1, later + WINDOW) else f.(count := f.count + 1)
  }

  class AdminAuth {
    var failures: map<string, LoginFailure>

    constructor ()
      ensures failures == map[]
    {
      failures := map[];
    }

    method AllowAttempt(ip: string, now: Time) returns (allowed: bool)
      ensures allowed == Allowed(Entry(failures, ip), now)
      ensures allowed <==> ip !in failures || now > failures[ip].resetAt || failures[ip].count < 5
    {
      if ip !in failures || now > failures[ip].resetAt { return true; }
      return failures[ip].count < 5;
    }

    method Failed(ip: string, now: Time, later: Time)
      modifies this
      ensures failures == old(failures)[ip := AfterFailure(Entry(old(failures), ip), now, later)]
      ensures ip in failures && failures == old(failures)[ip := failures[ip]] &&
              if ip in old(failures) && now <= old(failures)[ip].resetAt
              then failures[ip] == LoginFailure(old(failures)[ip].count + 1, old(failures)[ip].resetAt)
              else failures[ip] == LoginFailure(1, later + 300_000_000_000)
    {
      var item := if ip in failures then failures[ip] else NO_FAILURE;
      if now > item.resetAt { item := LoginFailure(0, later + WINDOW); }
      item := item.(count := item.count + 1);
      failures := failures[ip := item];
    }

    method ClearFailure(ip: string)
      modifies this
      ensures failures == old(failures) - {ip}
    {
      failures := failures - {ip};
    }

    /** Handlers of any addresses, interleaved: an attempt begins, fails or succeeds. */
    method Play(events: seq<(string, Event)>)
      requires failures == map[]
      modifies this
      ensures forall ip :: Entry(failures, ip) == Replay(Of(ip, events)).entry
    {
      hide Replay, Of;
      assert events[..0] == [];
      forall ip { NothingReplayed(ip); }
      for i := 0 to |events|
        invariant forall ip :: Entry(failures, ip) == Replay(Of(ip, events[..i])).entry
      {
        ghost var before := failures;
        match events[i].1 {
          case Begin(at) => var allowed := AllowAttempt(events[i].0, at);
          case Fail(at, later) => Failed(events[i].0, at, later);
          case Succeed(at) => ClearFailure(events[i].0);
        }
        forall ip ensures Entry(failures, ip) == Replay(Of(ip, events[..i + 1])).entry {
          assert Entry(before, ip) == Replay(Of(ip, events[..i])).entry;
          ReplayMore(ip, events[..i], events[i]);
          assert events[..i + 1] == events[..i] + [events[i]];
        }
      }
      assert events[..|events|] == events;
    }
  }

  // ---------------------------------------------------------------- traces of one address

  /** An attempt is let in or refused; an attempt let in earlier fails, or succeeds. */
  datatype Event = Begin(at: Time) | Fail(at: Time, later: Time) | Succeed(at: Time)

  /** The entry of the address, the attempts under way and the last reading of the clock. For the
      proofs, start is when the current window's first failure was checked. */
  datatype State = State(entry: LoginFailure, pending: nat, clock: int, start: int)

  const INITIAL := State(NO_FAILURE, 0, ZERO_TIME, ZERO_TIME)

  function After(s: State, e: Event): State {
    match e
    case Begin(at) => s.(pending := if Allowed(s.entry, at) then s.pending + 1 else s.pending, clock := at)
    case Fail(at, later) =>
      State(AfterFailure(s.entry, at, later), if s.pending > 0 then s.pending - 1 else 0, later,
            if at > s.entry.resetAt then at else s.start)
    case Succeed(at) => State(NO_FAILURE, if s.pending > 0 then s.pending - 1 else 0, at, s.start)
  }

  function Replay(events: seq<Event>): State {
    if events == [] then INITIAL else After(Replay(events[..|events| - 1]), events[|events| - 1])
  }

  /** The events of one address. */
  function Of(ip: string, events: seq<(string, Event)>): seq<Event> {
    if events == [] then []
    else
      var last := events[|events| - 1];
      Of(ip, events[..|events| - 1]) + if last.0 == ip then [last.1] else []
  }

  lemma NothingReplayed(ip: string)
    ensures Replay(Of(ip, [])) == INITIAL
  {
  }

  lemma ReplayMore(ip: string, before: seq<(string, Event)>, e: (string, Event))
    ensures Replay(Of(ip, before + [e])) ==
            if e.0 == ip then After(Replay(Of(ip, before)), e.1) else Replay(Of(ip, before))
  {
    assert (before + [e])[..|before|] == before;
    if e.0 == ip {
      var now := Of(ip, before) + [e.1];
      assert now[..|now| - 1] == Of(ip, before);
    } else {
      assert Of(ip, before) + [] == Of(ip, before);
    }
  }

  /** The clock never runs backwards, only attempts under way end, and at most c are ever under way
      at once. */
  predicate Possible(events: seq<Event>, c: nat) {
    events == [] ||
    (var before, e := events[..|events| - 1], events[|events| - 1];
     Possible(before, c) && Replay(before).clock <= e.at && (e.Fail? ==> e.at <= e.later) &&
     (e.Begin? || Replay(before).pending > 0) && Replay(events).pending <= c)
  }

  /** A window never holds more than 4 + c failures: 5 when attempts do not overlap. */
  lemma {:induction false} WindowBounded(events: seq<Event>, c: nat)
    requires Possible(events, c)
    ensures Replay(events).entry.count <= 4 + c
    ensures Replay(events).clock > Replay(events).entry.resetAt ||
            Replay(events).entry.count + Replay(events).pending <= 4 + c
  {
    if events != [] { WindowBounded(events[..|events| - 1], c); }
  }

  predicate Within(t: int, from: int) {
    from <= t <= from + WINDOW
  }

  /** How many failures fall in the closed five-minute interval that begins at from. */
  function FailuresIn(events: seq<Event>, from: int): nat {
    if events == [] then 0
    else
      var e := events[|events| - 1];
      FailuresIn(events[..|events| - 1], from) + if e.Fail? && Within(e.at, from) then 1 else 0
  }

  lemma {:induction false} FailuresCount(events: seq<Event>, from: int)
    ensures FailuresIn(events, from) ==
            |set i: nat | i < |events| && events[i].Fail? && from <= events[i].at <= from + 300_000_000_000|
  {
    if events != [] {
      var before, k := events[..|events| - 1], |events| - 1;
      FailuresCount(before, from);
      var a := set i: nat | i < |before| && before[i].Fail? && from <= before[i].at <= from + 300_000_000_000;
      var b := set i: nat | i < |events| && events[i].Fail? && from <= events[i].at <= from + 300_000_000_000;
      assert forall i | 0 <= i < k :: before[i] == events[i];
      if events[k].Fail? && Within(events[k].at, from) {
        assert b == a + {k};
      } else {
        assert b == a;
      }
    }
  }

  predicate NoSuccess(events: seq<Event>) {
    forall e | e in events :: !e.Succeed?
  }

  /** Only the current window has failures in the interval; or an earlier one has too, all but its
      first; or the interval is over. */
  predicate Tallied(s: State, n: nat, from: int, c: nat) {
    || n + (if s.entry.count > 0 && s.start < from then 1 else 0) <= s.entry.count
    || (s.start >= from && n <= s.entry.count + LIMIT - 2 + c)
    || (s.clock > from + WINDOW && n <= 2 * LIMIT - 3 + 2 * c)
  }

  lemma {:induction false} Tally(events: seq<Event>, c: nat, from: int)
    requires Possible(events, c) && NoSuccess(events)
    ensures var s := Replay(events);
            Tallied(s, FailuresIn(events, from), from, c) &&
            (s.clock < from ==> FailuresIn(events, from) == 0) &&
            (s.entry.count > 0 ==> s.entry.resetAt >= s.start + WINDOW) &&
            (s.entry.count == 0 ==> s.entry == NO_FAILURE)
  {
    if events != [] {
      var before, e := events[..|events| - 1], events[|events| - 1];
      assert e in events && forall x | x in before :: x in events;
      Tally(before, c, from);
      WindowBounded(before, c);
      WindowBounded(events, c);
    }
  }

  /** With at most c attempts at once and no success in between, no closed five-minute interval
      sees more than 7 + 2c failures: 9 when attempts do not overlap. */
  lemma FailuresBounded(events: seq<Event>, c: nat, from: int)
    requires Possible(events, c) && NoSuccess(events)
    ensures FailuresIn(events, from) <= 7 + 2 * c
    ensures |set i: nat | i < |events| && events[i].Fail? && from <= events[i].at <= from + 300_000_000_000|
            <= 7 + 2 * c
  {
    FailuresCount(events, from);
    Tally(events, c, from);
    WindowBounded(events, c);
  }

  // ---------------------------------------------------------------- the bound is reached

  lemma OneMore(events: seq<Event>, t: Time, from: int)
    requires Possible(events, 1) && NoSuccess(events) && Replay(events).clock <= t && Replay(events).pending == 0
    requires Allowed(Replay(events).entry, t)
    ensures var events' := events + [Begin(t)] + [Fail(t, t)];
            Possible(events', 1) && NoSuccess(events') &&
            Replay(events') == State(AfterFailure(Replay(events).entry, t, t), 0, t,
                                     if t > Replay(events).entry.resetAt then t else Replay(events).start) &&
            FailuresIn(events', from) == FailuresIn(events, from) + if Within(t, from) then 1 else 0
  {
    var mid := events + [Begin(t)];
    var events' := mid + [Fail(t, t)];
    assert mid[..|mid| - 1] == events && events'[..|events'| - 1] == mid;
    assert Replay(mid) == After(Replay(events), Begin(t)) && Replay(events') == After(Replay(mid), Fail(t, t));
    assert FailuresIn(mid, from) == FailuresIn(events, from);
    assert Possible(mid, 1);
  }

  /** n attempts at time t, one after the other, all failing. */
  function Burst(events: seq<Event>, t: Time, n: nat): seq<Event> {
    if n == 0 then events else Burst(events, t, n - 1) + [Begin(t)] + [Fail(t, t)]
  }

  lemma {:induction false} BurstWithin(events: seq<Event>, t: Time, n: nat, from: int)
    requires Possible(events, 1) && NoSuccess(events) && Replay(events).clock <= t && Replay(events).pending == 0
    requires t <= Replay(events).entry.resetAt && Replay(events).entry.count + n <= LIMIT
    ensures var b := Burst(events, t, n);
            Possible(b, 1) && NoSuccess(b) && Replay(b).pending == 0 && Replay(b).clock <= t &&
            Replay(b).entry == Replay(events).entry.(count := Replay(events).entry.count + n) &&
            FailuresIn(b, from) == FailuresIn(events, from) + if Within(t, from) then n else 0
  {
    hide Replay, Possible, NoSuccess, FailuresIn, Within;
    if n > 0 {
      BurstWithin(events, t, n - 1, from);
      OneMore(Burst(events, t, n - 1), t, from);
    }
  }

  /** One failure, four more when its window is about to close, five right after: nine within five
      minutes, without overlapping attempts. */
  lemma NineReached()
    ensures exists events: seq<Event>, from: int ::
              Possible(events, 1) && NoSuccess(events) && FailuresIn(events, from) == 9
  {
    var first := [] + [Begin(0)] + [Fail(0, 0)];
    OneMore([], 0, WINDOW);
    var second := Burst(first, WINDOW, 4);
    BurstWithin(first, WINDOW, 4, WINDOW);
    var third := second + [Begin(WINDOW + 1)] + [Fail(WINDOW + 1, WINDOW + 1)];
    OneMore(second, WINDOW + 1, WINDOW);
    var last := Burst(third, WINDOW + 1, 4);
    BurstWithin(third, WINDOW + 1, 4, WINDOW);
    assert FailuresIn(last, WINDOW) == 9;
  }
}
