/**
 The in-memory rate limiter as plain values, and what it promises over whole runs.

 A limiter is a map from keys to buckets (last activity and the accepted-request
 timestamps of the key), a count of in-flight reservations per key, and the list of
 reservations handed out so far. The classes in module `RateLimiter` are proved to
 compute exactly the functions of this module.

 Times are nanoseconds; timestamps and window lengths are whole seconds.
 */
module SlidingWindow {

  const NANOS_PER_SECOND := 1_000_000_000

  function Unix(t: int): int {
    t / NANOS_PER_SECOND
  }

  datatype Bucket = Bucket(lastActive: int, stamps: seq<int>)

  datatype Token = Token(key: string, completed: bool)

  datatype State = State(buckets: map<string, Bucket>, reservations: map<string, int>, tokens: seq<Token>) {

    function Stamps(key: string): seq<int> {
      if key in buckets then buckets[key].stamps else []
    }

    function Reserved(key: string): int {
      if key in reservations then reservations[key] else 0
    }
  }

  const INITIAL := State(map[], map[], [])

  // ---------------------------------------------------------------- operations

  /** The timestamps still inside the window of `duration` seconds that ends at second `now`. */
  function Live(stamps: seq<int>, now: int, duration: int): seq<int> {
    if stamps == [] then []
    else (if now - stamps[0] < duration then [stamps[0]] else []) + Live(stamps[1..], now, duration)
  }

  function LiveStamps(s: State, key: string, duration: int, now: int): seq<int> {
    Live(s.Stamps(key), Unix(now), duration)
  }

  predicate RequestAllowed(s: State, key: string, max: int, duration: int, now: int) {
    |LiveStamps(s, key, duration, now)| < max
  }

  function RequestNext(s: State, key: string, max: int, duration: int, now: int): State {
    var live := LiveStamps(s, key, duration, now);
    var stamps := if RequestAllowed(s, key, max, duration, now) then live + [Unix(now)] else live;
    s.(buckets := s.buckets[key := Bucket(now, stamps)])
  }

  predicate ReserveAllowed(s: State, key: string, max: int, duration: int, now: int) {
    |LiveStamps(s, key, duration, now)| + s.Reserved(key) < max
  }

  function ReserveNext(s: State, key: string, max: int, duration: int, now: int): State {
    var touched := s.(buckets := s.buckets[key := Bucket(now, LiveStamps(s, key, duration, now))]);
    if ReserveAllowed(s, key, max, duration, now) then
      touched.(reservations := s.reservations[key := s.Reserved(key) + 1],
               tokens := s.tokens + [Token(key, false)])
    else
      touched
  }

  predicate Completes(s: State, t: int) {
    0 <= t < |s.tokens| && !s.tokens[t].completed
  }

  /** The reservation counts after one reservation of `key` ends; a count of zero leaves the map. */
  function Release(s: State, key: string): map<string, int> {
    var n := s.Reserved(key) - 1;
    if n == 0 then s.reservations - {key} else s.reservations[key := n]
  }

  function CompleteNext(s: State, t: int, success: bool, now: int): State {
    if !Completes(s, t) then s
    else
      var key := s.tokens[t].key;
      var released := s.(reservations := Release(s, key), tokens := s.tokens[t := Token(key, true)]);
      if success then released.(buckets := s.buckets[key := Bucket(now, s.Stamps(key) + [Unix(now)])])
      else released
  }

  predicate Idle(b: Bucket, expiration: int, tick: int) {
    tick - b.lastActive >= expiration
  }

  /** One sweep deletes exactly the keys idle for at least the expiration. */
  function SweepNext(s: State, expiration: int, tick: int): State {
    if expiration <= 0 then s
    else s.(buckets := map k | k in s.buckets && !Idle(s.buckets[k], expiration, tick) :: s.buckets[k])
  }

  // -------------------------------------------------------- what one event changes

  /** The bucket of this key, or its absence, is as before. */
  ghost predicate SameBucket(before: State, after: State, k: string) {
    (k in after.buckets <==> k in before.buckets) && (k in before.buckets ==> after.buckets[k] == before.buckets[k])
  }

  /**
   A sweep keeps exactly the keys that were active within the expiration, with their
   buckets, and touches nothing else; without a positive expiration it does nothing.
   */
  lemma SweepExactly(s: State, expiration: int, tick: int)
    ensures var after := SweepNext(s, expiration, tick);
      && after.reservations == s.reservations && after.tokens == s.tokens
      && (expiration <= 0 ==> after.buckets == s.buckets)
      && (expiration > 0 ==>
            && (forall k :: k in after.buckets <==> k in s.buckets && tick - s.buckets[k].lastActive < expiration)
            && (forall k :: k in after.buckets ==> after.buckets[k] == s.buckets[k]))
  {
  }

  /**
   A request, admitted or not, makes its key active now and drops what has left the window;
   an admitted one is recorded. It touches no other key and no reservation.
   */
  lemma RequestExactly(s: State, key: string, max: int, duration: int, now: int)
    ensures var after := RequestNext(s, key, max, duration, now);
      var live := Live(s.Stamps(key), now / 1_000_000_000, duration);
      && after.reservations == s.reservations && after.tokens == s.tokens
      && (forall k :: k != key ==> SameBucket(s, after, k))
      && key in after.buckets && after.buckets[key].lastActive == now
      && after.buckets[key].stamps == if |live| < max then live + [now / 1_000_000_000] else live
  {
  }

  /** A reservation does the same but for recording; an admitted one is issued and counted. */
  lemma ReserveExactly(s: State, key: string, max: int, duration: int, now: int)
    ensures var after := ReserveNext(s, key, max, duration, now);
      var live := Live(s.Stamps(key), now / 1_000_000_000, duration);
      var admitted := |live| + s.Reserved(key) < max;
      && after.tokens == (if admitted then s.tokens + [Token(key, false)] else s.tokens)
      && (forall k :: after.Reserved(k) == s.Reserved(k) + if admitted && k == key then 1 else 0)
      && (forall k :: k != key ==> SameBucket(s, after, k))
      && key in after.buckets && after.buckets[key] == Bucket(now, live)
  {
  }

  /**
   The first completion of a reservation frees its slot. A successful one also makes the key
   active and records the request; a failed one leaves all buckets alone.
   */
  lemma CompleteExactly(s: State, t: int, success: bool, now: int)
    ensures var after := CompleteNext(s, t, success, now);
      if !(0 <= t < |s.tokens|) || s.tokens[t].completed then after == s
      else
        var key := s.tokens[t].key;
        && after.tokens == s.tokens[t := Token(key, true)]
        && (forall k :: after.Reserved(k) == s.Reserved(k) - if k == key then 1 else 0)
        && (forall k :: !success || k != key ==> SameBucket(s, after, k))
        && (success ==>
              key in after.buckets && after.buckets[key] == Bucket(now, s.Stamps(key) + [now / 1_000_000_000]))
  {
  }

  // ---------------------------------------------------------------------- runs

  datatype Event =
    | Request(key: string, max: int, duration: int)
    | Reserve(key: string, max: int, duration: int)
    | Complete(token: int, success: bool)
    | Sweep(tick: int)

  datatype Timed = Timed(now: int, event: Event)

  function Next(expiration: int, s: State, e: Timed): State {
    match e.event
    case Request(key, max, duration) => RequestNext(s, key, max, duration, e.now)
    case Reserve(key, max, duration) => ReserveNext(s, key, max, duration, e.now)
    case Complete(t, success) => CompleteNext(s, t, success, e.now)
    case Sweep(tick) => SweepNext(s, expiration, tick)
  }

  /** Does this event let one more request of `key` count against its window? */
  predicate Accepts(s: State, e: Timed, key: string) {
    match e.event
    case Request(k, max, duration) => k == key && RequestAllowed(s, k, max, duration, e.now)
    case Reserve(_, _, _) => false
    case Complete(t, success) => Completes(s, t) && success && s.tokens[t].key == key
    case Sweep(_) => false
  }

  function Recorded(s: State, e: Timed, key: string, history: seq<int>): seq<int> {
    if Accepts(s, e, key) then history + [Unix(e.now)] else history
  }

  function Exec(expiration: int, run: seq<Timed>): State {
    if run == [] then INITIAL
    else Next(expiration, Exec(expiration, run[..|run| - 1]), run[|run| - 1])
  }

  /** The seconds at which requests of `key` were accepted, oldest first. */
  function Accepted(expiration: int, run: seq<Timed>, key: string): seq<int> {
    if run == [] then []
    else
      var before := run[..|run| - 1];
      var e := run[|run| - 1];
      Recorded(Exec(expiration, before), e, key, Accepted(expiration, before, key))
  }

  lemma RunExtended(expiration: int, run: seq<Timed>, e: Timed, key: string)
    ensures Exec(expiration, run + [e]) == Next(expiration, Exec(expiration, run), e)
    ensures Accepted(expiration, run + [e], key)
         == Recorded(Exec(expiration, run), e, key, Accepted(expiration, run, key))
  {
    assert (run + [e])[..|run|] == run;
  }

  /** The clock never runs backwards; a sweep may carry a tick older than the clock. */
  ghost predicate ClockOrdered(run: seq<Timed>) {
    && (forall i, j :: 0 <= i < j < |run| ==> run[i].now <= run[j].now)
    && (forall i :: 0 <= i < |run| && run[i].event.Sweep? ==> run[i].event.tick <= run[i].now)
  }

  /** Which of the two entry points a key is used through, `Request` and `Reserve`. */
  datatype Use = Use(requests: bool, reserves: bool)

  const REQUEST_ONLY := Use(true, false)
  const RESERVE_ONLY := Use(false, true)
  const BOTH := Use(true, true)

  predicate Uses(e: Event, key: string, max: int, duration: int, use: Use) {
    match e
    case Request(k, m, d) => k == key ==> use.requests && m == max && d == duration
    case Reserve(k, m, d) => k == key ==> use.reserves && m == max && d == duration
    case _ => true
  }

  /** Every use of `key` is through these entry points and has this limit and window. */
  ghost predicate UsedBy(run: seq<Timed>, key: string, max: int, duration: int, use: Use) {
    forall i :: 0 <= i < |run| ==> Uses(run[i].event, key, max, duration, use)
  }

  /** How many of the stamps lie in the seconds lo, ..., hi - 1. */
  function CountWithin(stamps: seq<int>, lo: int, hi: int): nat {
    if stamps == [] then 0
    else CountWithin(stamps[..|stamps| - 1], lo, hi) + (if lo <= stamps[|stamps| - 1] < hi then 1 else 0)
  }

  function AtLeastZero(max: int): nat {
    if max > 0 then max else 0
  }

  // ------------------------------------------------------------ sequence facts

  ghost predicate NonDecreasing(s: seq<int>) {
    forall i, j :: 0 <= i < j < |s| ==> s[i] <= s[j]
  }

  /** The oldest n of these stamps have left the window that ends at second `now`. */
  ghost predicate Expired(s: seq<int>, n: int, now: int, duration: int)
    requires n <= |s|
  {
    forall i :: 0 <= i < n ==> now - s[i] >= duration
  }

  lemma {:induction false} AllLive(s: seq<int>, now: int, duration: int)
    requires forall i :: 0 <= i < |s| ==> now - s[i] < duration
    ensures Live(s, now, duration) == s
  {
    if s != [] {
      AllLive(s[1..], now, duration);
      assert s == [s[0]] + s[1..];
    }
  }

  lemma ExpiredMore(s: seq<int>, n: nat, now: int, duration: int)
    requires n < |s| && now - s[0] >= duration && Expired(s[1..], n, now, duration)
    ensures Expired(s, n + 1, now, duration)
  {
    forall i | 0 <= i < n + 1 ensures now - s[i] >= duration {
      assert i > 0 ==> s[i] == s[1..][i - 1];
    }
  }

  lemma LiveDropsFirst(s: seq<int>, now: int, duration: int)
    requires s != [] && now - s[0] >= duration
    ensures Live(s, now, duration) == Live(s[1..], now, duration)
  {
  }

  lemma {:induction false} LiveFrom(s: seq<int>, now: int, duration: int) returns (n: nat)
    requires NonDecreasing(s)
    ensures n <= |s| && Live(s, now, duration) == s[n..] && Expired(s, n, now, duration)
  {
    hide Live;
    if s == [] || now - s[0] < duration {
      AllLive(s, now, duration);
      return 0;
    }
    LaterInOrder(s);
    LiveDropsFirst(s, now, duration);
    hide NonDecreasing;
    var m := LiveFrom(s[1..], now, duration);
    ExpiredMore(s, m, now, duration);
    assert s[1..][m..] == s[m + 1..];
    return m + 1;
  }

  /** In time order, the live timestamps are a suffix, and everything before it has expired. */
  lemma LiveIsSuffix(s: seq<int>, now: int, duration: int)
    requires NonDecreasing(s)
    ensures var n := |s| - |Live(s, now, duration)|;
      0 <= n && Live(s, now, duration) == s[n..] && Expired(s, n, now, duration)
  {
    hide Live, NonDecreasing;
    var n := LiveFrom(s, now, duration);
  }

  lemma LaterInOrder(s: seq<int>)
    requires s != [] && NonDecreasing(s)
    ensures NonDecreasing(s[1..])
  {
  }

  /** Stamps below the window do not count. */
  lemma {:induction false} CountSkipsOlder(s: seq<int>, n: nat, lo: int, hi: int)
    requires n <= |s|
    requires forall i :: 0 <= i < n ==> s[i] < lo
    ensures CountWithin(s, lo, hi) <= |s| - n
  {
    if |s| == n {
      if n > 0 {
        CountSkipsOlder(s[..n - 1], n - 1, lo, hi);
      }
    } else {
      CountSkipsOlder(s[..|s| - 1], n, lo, hi);
    }
  }

  // ----------------------------------------------------------- window theorem

  /**
   A bucket's stamps are the newest part of the accepted history of its key, and what
   the bucket no longer holds has left every window that ends at `clock` or later.
   */
  ghost predicate Recent(history: seq<int>, stamps: seq<int>, clock: int, duration: int) {
    && |stamps| <= |history|
    && stamps == history[|history| - |stamps|..]
    && NonDecreasing(history)
    && (forall i :: 0 <= i < |history| ==> history[i] <= Unix(clock))
    && Expired(history, |history| - |stamps|, Unix(clock), duration)
  }

  lemma RecentLater(history: seq<int>, stamps: seq<int>, clock: int, now: int, duration: int)
    requires Recent(history, stamps, clock, duration) && clock <= now
    ensures Recent(history, stamps, now, duration)
  {
    assert Unix(clock) <= Unix(now);
  }

  lemma RecentAppended(history: seq<int>, stamps: seq<int>, now: int, duration: int)
    requires Recent(history, stamps, now, duration)
    ensures Recent(history + [Unix(now)], stamps + [Unix(now)], now, duration)
  {
  }

  /** Dropping expired stamps from the front of the bucket keeps it the newest part. */
  lemma RecentDropped(history: seq<int>, stamps: seq<int>, n: nat, now: int, duration: int)
    requires Recent(history, stamps, now, duration)
    requires n <= |stamps| && Expired(stamps, n, Unix(now), duration)
    ensures Recent(history, stamps[n..], now, duration)
  {
    var m := |history| - |stamps|;
    assert history[m..][n..] == history[m + n..];
    assert forall i :: m <= i < |history| ==> history[i] == stamps[i - m];
  }

  lemma RecentLive(history: seq<int>, stamps: seq<int>, now: int, duration: int)
    requires Recent(history, stamps, now, duration)
    ensures Recent(history, Live(stamps, Unix(now), duration), now, duration)
  {
    var m := |history| - |stamps|;
    assert NonDecreasing(stamps) by {
      assert forall i :: 0 <= i < |stamps| ==> stamps[i] == history[m + i];
    }
    LiveIsSuffix(stamps, Unix(now), duration);
    RecentDropped(history, stamps, |stamps| - |Live(stamps, Unix(now), duration)|, now, duration);
  }

  /** The eviction test compares nanoseconds, the expiry test whole seconds. */
  lemma IdleLongEnough(active: int, tick: int, clock: int, expiration: int, duration: int)
    requires tick <= clock && tick - active >= expiration
    requires duration * NANOS_PER_SECOND <= expiration
    ensures Unix(clock) - Unix(active) >= duration
  {
    assert clock >= active + duration * NANOS_PER_SECOND;
    assert (active + duration * NANOS_PER_SECOND) / NANOS_PER_SECOND == active / NANOS_PER_SECOND + duration;
  }

  /** No stamp of the bucket is newer than the bucket's last activity, which is in the past. */
  ghost predicate ActiveSince(b: Bucket, clock: int) {
    b.lastActive <= clock && forall i :: 0 <= i < |b.stamps| ==> b.stamps[i] <= Unix(b.lastActive)
  }

  ghost predicate HoldsRecent(s: State, history: seq<int>, clock: int, key: string, duration: int) {
    && Recent(history, s.Stamps(key), clock, duration)
    && (key in s.buckets ==> ActiveSince(s.buckets[key], clock))
  }

  /** The windows of `duration` seconds fit into the idle time after which a key is evicted. */
  ghost predicate WindowFits(expiration: int, duration: int) {
    expiration <= 0 || duration * NANOS_PER_SECOND <= expiration
  }

  lemma SweepHoldsRecent(expiration: int, s: State, history: seq<int>, tick: int, now: int, key: string, duration: int)
    requires WindowFits(expiration, duration) && tick <= now
    requires HoldsRecent(s, history, now, key, duration)
    ensures HoldsRecent(SweepNext(s, expiration, tick), history, now, key, duration)
  {
    var s' := SweepNext(s, expiration, tick);
    if key in s.buckets && key !in s'.buckets {
      var stamps := s.buckets[key].stamps;
      IdleLongEnough(s.buckets[key].lastActive, tick, now, expiration, duration);
      RecentDropped(history, stamps, |stamps|, now, duration);
      assert s'.Stamps(key) == stamps[|stamps|..];
    }
  }

  lemma TouchHoldsRecent(s: State, history: seq<int>, now: int, key: string, duration: int)
    requires HoldsRecent(s, history, now, key, duration)
    ensures var live := LiveStamps(s, key, duration, now);
      && Recent(history, live, now, duration)
      && ActiveSince(Bucket(now, live), now)
      && Recent(history + [Unix(now)], live + [Unix(now)], now, duration)
      && ActiveSince(Bucket(now, live + [Unix(now)]), now)
  {
    RecentLive(history, s.Stamps(key), now, duration);
    RecentAppended(history, LiveStamps(s, key, duration, now), now, duration);
  }

  lemma CompleteHoldsRecent(s: State, history: seq<int>, t: int, success: bool, now: int, key: string, duration: int)
    requires HoldsRecent(s, history, now, key, duration)
    ensures HoldsRecent(CompleteNext(s, t, success, now),
                        Recorded(s, Timed(now, Complete(t, success)), key, history), now, key, duration)
  {
    RecentAppended(history, s.Stamps(key), now, duration);
  }

  lemma RequestHoldsRecent(s: State, history: seq<int>, max: int, now: int,
                           k: string, key: string, d: int, duration: int)
    requires HoldsRecent(s, history, now, key, duration) && (k == key ==> d == duration)
    ensures HoldsRecent(RequestNext(s, k, max, d, now),
                        Recorded(s, Timed(now, Request(k, max, d)), key, history), now, key, duration)
  {
    TouchHoldsRecent(s, history, now, key, duration);
  }

  lemma ReserveHoldsRecent(s: State, history: seq<int>, max: int, now: int,
                           k: string, key: string, d: int, duration: int)
    requires HoldsRecent(s, history, now, key, duration) && (k == key ==> d == duration)
    ensures HoldsRecent(ReserveNext(s, k, max, d, now), history, now, key, duration)
  {
    TouchHoldsRecent(s, history, now, key, duration);
  }

  /** Uses of `key` have this window length. */
  predicate UsesWindow(e: Event, key: string, duration: int) {
    match e
    case Request(k, _, d) => k == key ==> d == duration
    case Reserve(k, _, d) => k == key ==> d == duration
    case _ => true
  }

  lemma StepHoldsRecent(expiration: int, s: State, history: seq<int>, clock: int, e: Timed, key: string, duration: int)
    requires WindowFits(expiration, duration)
    requires HoldsRecent(s, history, clock, key, duration) && clock <= e.now
    requires e.event.Sweep? ==> e.event.tick <= e.now
    requires UsesWindow(e.event, key, duration)
    ensures HoldsRecent(Next(expiration, s, e), Recorded(s, e, key, history), e.now, key, duration)
  {
    RecentLater(history, s.Stamps(key), clock, e.now, duration);
    match e.event
    case Sweep(tick) => SweepHoldsRecent(expiration, s, history, tick, e.now, key, duration);
    case Complete(t, success) => CompleteHoldsRecent(s, history, t, success, e.now, key, duration);
    case Request(k, max, d) => RequestHoldsRecent(s, history, max, e.now, k, key, d, duration);
    case Reserve(k, max, d) => ReserveHoldsRecent(s, history, max, e.now, k, key, d, duration);
  }

  ghost predicate UsesWindowThroughout(run: seq<Timed>, key: string, duration: int) {
    forall i :: 0 <= i < |run| ==> UsesWindow(run[i].event, key, duration)
  }

  function Clock(run: seq<Timed>, start: int): int {
    if run == [] then start else run[|run| - 1].now
  }

  lemma {:induction false} RunHoldsRecent(expiration: int, run: seq<Timed>, start: int, key: string, duration: int)
    requires ClockOrdered(run) && WindowFits(expiration, duration) && UsesWindowThroughout(run, key, duration)
    ensures HoldsRecent(Exec(expiration, run), Accepted(expiration, run, key), Clock(run, start), key, duration)
  {
    if run != [] {
      var before, e := run[..|run| - 1], run[|run| - 1];
      RunHoldsRecent(expiration, before, e.now, key, duration);
      StepHoldsRecent(expiration, Exec(expiration, before), Accepted(expiration, before, key),
                      Clock(before, e.now), e, key, duration);
    }
  }

  /** After a run that ends in a sweep exactly the keys active within the expiration are left. */
  lemma RunIsSwept(expiration: int, run: seq<Timed>, now: int, tick: int, key: string)
    requires expiration > 0
    ensures var before, after := Exec(expiration, run), Exec(expiration, run + [Timed(now, Sweep(tick))]);
      && (key in after.buckets <==> key in before.buckets && tick - before.buckets[key].lastActive < expiration)
      && (key in after.buckets ==> after.buckets[key] == before.buckets[key])
  {
    hide Exec, SweepNext;
    RunExtended(expiration, run, Timed(now, Sweep(tick)), key);
    SweepExactly(Exec(expiration, run), expiration, tick);
  }

  // ------------------------------------------------------------- reservations

  /** Reservations of `key` that were issued and not yet completed. */
  function Outstanding(tokens: seq<Token>, key: string): nat {
    if tokens == [] then 0
    else Outstanding(tokens[..|tokens| - 1], key) + (if tokens[|tokens| - 1] == Token(key, false) then 1 else 0)
  }

  lemma {:induction false} OutstandingAfterCompletion(tokens: seq<Token>, t: nat, key: string)
    requires t < |tokens| && !tokens[t].completed
    ensures Outstanding(tokens[t := Token(tokens[t].key, true)], key)
         == Outstanding(tokens, key) - (if tokens[t].key == key then 1 else 0)
  {
    var last := |tokens| - 1;
    var updated := tokens[t := Token(tokens[t].key, true)];
    if t < last {
      OutstandingAfterCompletion(tokens[..last], t, key);
      assert updated[..last] == tokens[..last][t := Token(tokens[t].key, true)];
    } else {
      assert updated[..last] == tokens[..last];
    }
  }

  /** The stored count of every key is its number of outstanding reservations; zero is not stored. */
  ghost predicate CountsOutstanding(s: State) {
    && (forall key :: s.Reserved(key) == Outstanding(s.tokens, key))
    && (forall key :: key in s.reservations ==> s.reservations[key] > 0)
  }

  lemma CompleteCountsOutstanding(s: State, t: int, success: bool, now: int, key: string)
    requires CountsOutstanding(s)
    ensures var s' := CompleteNext(s, t, success, now);
      s'.Reserved(key) == Outstanding(s'.tokens, key) && (key in s'.reservations ==> s'.reservations[key] > 0)
  {
    if Completes(s, t) {
      OutstandingAfterCompletion(s.tokens, t, key);
    }
  }

  lemma ReserveCountsOutstanding(s: State, k: string, max: int, duration: int, now: int, key: string)
    requires CountsOutstanding(s)
    ensures var s' := ReserveNext(s, k, max, duration, now);
      s'.Reserved(key) == Outstanding(s'.tokens, key) && (key in s'.reservations ==> s'.reservations[key] > 0)
  {
    assert (s.tokens + [Token(k, false)])[..|s.tokens|] == s.tokens;
  }

  lemma StepCountsOutstanding(expiration: int, s: State, e: Timed)
    requires CountsOutstanding(s)
    ensures CountsOutstanding(Next(expiration, s, e))
  {
    var s' := Next(expiration, s, e);
    forall key
      ensures s'.Reserved(key) == Outstanding(s'.tokens, key) && (key in s'.reservations ==> s'.reservations[key] > 0)
    {
      match e.event
      case Complete(t, success) => CompleteCountsOutstanding(s, t, success, e.now, key);
      case Reserve(k, max, d) => ReserveCountsOutstanding(s, k, max, d, e.now, key);
      case _ =>
    }
  }

  /** In every run, whatever is evicted meanwhile, the counts match the outstanding reservations. */
  lemma {:induction false} RunCountsOutstanding(expiration: int, run: seq<Timed>)
    ensures CountsOutstanding(Exec(expiration, run))
  {
    if run != [] {
      RunCountsOutstanding(expiration, run[..|run| - 1]);
      StepCountsOutstanding(expiration, Exec(expiration, run[..|run| - 1]), run[|run| - 1]);
    }
  }

  /** Completing a reservation twice is completing it once, at whatever times and with whatever outcomes. */
  lemma SecondCompletionIsNoOp(s: State, t: int, success: bool, now: int, again: bool, later: int)
    ensures CompleteNext(CompleteNext(s, t, success, now), t, again, later) == CompleteNext(s, t, success, now)
    ensures Completes(s, t) ==>
      CompleteNext(s, t, success, now).Reserved(s.tokens[t].key) == s.Reserved(s.tokens[t].key) - 1
  {
  }

  // ------------------------------------------------------------------- limits

  lemma {:induction false} LiveIsShorter(stamps: seq<int>, now: int, duration: int)
    ensures |Live(stamps, now, duration)| <= |stamps|
  {
    if stamps != [] { LiveIsShorter(stamps[1..], now, duration); }
  }

  /** Slots of `key` in use: accepted requests in its bucket and reservations in flight. */
  function InUse(s: State, key: string): int {
    |s.Stamps(key)| + s.Reserved(key)
  }

  /** A key used only through `Request` never has a reservation. */
  lemma {:induction false} RequestOnlyHasNoTokens(
    expiration: int, run: seq<Timed>, key: string, max: int, duration: int)
    requires UsedBy(run, key, max, duration, REQUEST_ONLY)
    ensures forall t :: 0 <= t < |Exec(expiration, run).tokens| ==> Exec(expiration, run).tokens[t].key != key
    ensures Exec(expiration, run).Reserved(key) == 0
  {
    if run != [] {
      RequestOnlyHasNoTokens(expiration, run[..|run| - 1], key, max, duration);
    }
  }

  /** How many slots of a key can be in use: the limit, and twice the limit if both entry points are used. */
  function Slots(max: int, use: Use): nat {
    if use == BOTH then 2 * AtLeastZero(max) else AtLeastZero(max)
  }

  lemma ReservedIsNat(s: State, key: string)
    requires CountsOutstanding(s)
    ensures 0 <= s.Reserved(key) == Outstanding(s.tokens, key)
  {
  }

  lemma CompleteInUse(s: State, t: int, success: bool, now: int, key: string)
    requires CountsOutstanding(s)
    ensures var s' := CompleteNext(s, t, success, now);
      InUse(s', key) <= InUse(s, key) && s'.Reserved(key) <= s.Reserved(key)
  {
    if Completes(s, t) {
      ReservedIsNat(s, s.tokens[t].key);
    }
  }

  lemma StepInUse(expiration: int, s: State, e: Timed, key: string, max: int, duration: int, use: Use)
    requires InUse(s, key) <= Slots(max, use) && s.Reserved(key) <= AtLeastZero(max) && CountsOutstanding(s)
    requires Uses(e.event, key, max, duration, use)
    requires use == REQUEST_ONLY ==> s.Reserved(key) == 0
    ensures InUse(Next(expiration, s, e), key) <= Slots(max, use)
    ensures Next(expiration, s, e).Reserved(key) <= AtLeastZero(max)
  {
    hide Live, CountsOutstanding, CompleteNext;
    LiveIsShorter(s.Stamps(key), Unix(e.now), duration);
    ReservedIsNat(s, key);
    if e.event.Complete? {
      CompleteInUse(s, e.event.token, e.event.success, e.now, key);
    }
  }

  /**
   Accepted requests still in the bucket and reservations in flight never exceed the limit,
   or twice the limit for a key that is used through both entry points.
   */
  lemma {:induction false} RunInUse(expiration: int, run: seq<Timed>, key: string, max: int, duration: int, use: Use)
    requires UsedBy(run, key, max, duration, use)
    ensures 0 <= Exec(expiration, run).Reserved(key) <= AtLeastZero(max)
    ensures InUse(Exec(expiration, run), key) <= Slots(max, use)
  {
    RunCountsOutstanding(expiration, run);
    if run != [] {
      var before, e := run[..|run| - 1], run[|run| - 1];
      RunInUse(expiration, before, key, max, duration, use);
      RunCountsOutstanding(expiration, before);
      if use == REQUEST_ONLY {
        RequestOnlyHasNoTokens(expiration, before, key, max, duration);
      }
      StepInUse(expiration, Exec(expiration, before), e, key, max, duration, use);
    }
  }

  // ------------------------------------------------------------ main theorems

  /** Requests of `key` accepted in the `duration` seconds that start at second `w`. */
  function AcceptedIn(expiration: int, run: seq<Timed>, key: string, w: int, duration: int): nat {
    CountWithin(Accepted(expiration, run, key), w, w + duration)
  }

  /** A window that contains the present second: what it counts is still in the bucket. */
  lemma CurrentWindowBound(history: seq<int>, stamps: seq<int>, clock: int, duration: int, w: int)
    requires Recent(history, stamps, clock, duration)
    requires Unix(clock) < w + duration
    ensures CountWithin(history, w, w + duration) <= |stamps|
  {
    CountSkipsOlder(history, |history| - |stamps|, w, w + duration);
  }

  lemma {:induction false} CountOfSuffix(s: seq<int>, n: nat, lo: int, hi: int)
    requires n <= |s|
    requires forall i :: 0 <= i < n ==> s[i] < lo
    requires forall i :: n <= i < |s| ==> lo <= s[i] < hi
    ensures CountWithin(s, lo, hi) == |s| - n
  {
    if |s| == n {
      CountSkipsOlder(s, n, lo, hi);
    } else {
      CountOfSuffix(s[..|s| - 1], n, lo, hi);
    }
  }

  lemma {:induction false} LiveIsLive(stamps: seq<int>, now: int, duration: int)
    ensures forall i :: 0 <= i < |Live(stamps, now, duration)| ==> now - Live(stamps, now, duration)[i] < duration
  {
    if stamps != [] {
      LiveIsLive(stamps[1..], now, duration);
    }
  }

  /** The live part of a bucket is what was accepted in the window that ends now. */
  lemma WindowIsLive(history: seq<int>, stamps: seq<int>, clock: int, now: int, duration: int)
    requires Recent(history, stamps, clock, duration) && clock <= now
    ensures CountWithin(history, Unix(now) - duration + 1, Unix(now) + 1) == |Live(stamps, Unix(now), duration)|
  {
    hide Live;
    var live := Live(stamps, Unix(now), duration);
    RecentLater(history, stamps, clock, now, duration);
    RecentLive(history, stamps, now, duration);
    LiveIsLive(stamps, Unix(now), duration);
    var n := |history| - |live|;
    assert forall i :: n <= i < |history| ==> history[i] == live[i - n];
    CountOfSuffix(history, n, Unix(now) - duration + 1, Unix(now) + 1);
  }

  /**
   After every run a request is admitted exactly when fewer than `max` were accepted in the
   last `duration` seconds; a reservation counts those in flight too.
   */
  lemma AdmissionExactly(expiration: int, run: seq<Timed>, key: string, max: int, duration: int, now: int)
    requires ClockOrdered(run) && WindowFits(expiration, duration) && UsesWindowThroughout(run, key, duration)
    requires Clock(run, now) <= now
    ensures var s := Exec(expiration, run);
      var counted := AcceptedIn(expiration, run, key, Unix(now) - duration + 1, duration);
      && (RequestAllowed(s, key, max, duration, now) <==> counted < max)
      && (ReserveAllowed(s, key, max, duration, now) <==> counted + Outstanding(s.tokens, key) < max)
  {
    hide Exec, Accepted, Recent, Live, CountWithin, Outstanding;
    var s := Exec(expiration, run);
    RunHoldsRecent(expiration, run, now, key, duration);
    WindowIsLive(Accepted(expiration, run, key), s.Stamps(key), Clock(run, now), now, duration);
    RunCountsOutstanding(expiration, run);
  }

  lemma ShorterRun(run: seq<Timed>, key: string, max: int, duration: int, use: Use)
    requires run != [] && ClockOrdered(run) && UsedBy(run, key, max, duration, use)
    ensures ClockOrdered(run[..|run| - 1]) && UsedBy(run[..|run| - 1], key, max, duration, use)
    ensures UsesWindowThroughout(run, key, duration)
  {
  }

  /**
   In every run and every window of `duration` consecutive seconds, at most `max` requests
   of the key are accepted, even if the key is evicted in between; at most twice as many
   if it is used through both entry points.
   */
  lemma {:induction false} WindowBound(
    expiration: int, run: seq<Timed>, key: string, max: int, duration: int, use: Use, w: int)
    requires ClockOrdered(run) && WindowFits(expiration, duration) && UsedBy(run, key, max, duration, use)
    ensures AcceptedIn(expiration, run, key, w, duration) <= Slots(max, use)
  {
    if run != [] {
      hide Exec, Recent, ClockOrdered, UsedBy, WindowFits, CountWithin, UsesWindowThroughout;
      var before, e := run[..|run| - 1], run[|run| - 1];
      ShorterRun(run, key, max, duration, use);
      WindowBound(expiration, before, key, max, duration, use, w);
      if Accepts(Exec(expiration, before), e, key) {
        if Unix(e.now) < w + duration {
          RunHoldsRecent(expiration, run, 0, key, duration);
          RunInUse(expiration, run, key, max, duration, use);
          CurrentWindowBound(Accepted(expiration, run, key), Exec(expiration, run).Stamps(key), e.now, duration, w);
        } else {
          CountAppended(Accepted(expiration, before, key), Unix(e.now), w, w + duration);
        }
      }
    }
  }

  lemma CountAppended(s: seq<int>, x: int, lo: int, hi: int)
    ensures CountWithin(s + [x], lo, hi) == CountWithin(s, lo, hi) + (if lo <= x < hi then 1 else 0)
  {
    assert (s + [x])[..|s|] == s;
  }

  /** `n` requests for `key`, all at time zero. */
  function Burst(n: nat, key: string, max: int, duration: int): seq<Timed> {
    seq(n, _ => Timed(0, Request(key, max, duration)))
  }

  function Zeros(n: nat): seq<int> {
    seq(n, _ => 0)
  }

  lemma ZerosGrow(n: nat)
    ensures |Zeros(n)| == n && Zeros(n + 1) == Zeros(n) + [0]
  {
  }

  lemma {:induction false} LiveZeros(n: nat, duration: int)
    requires duration > 0
    ensures Live(Zeros(n), 0, duration) == Zeros(n)
    ensures CountWithin(Zeros(n), 0, duration) == n
  {
    if n > 0 {
      assert Zeros(n)[1..] == Zeros(n - 1) == Zeros(n)[..n - 1];
      LiveZeros(n - 1, duration);
    }
  }

  lemma OneMoreAccepted(s: State, n: nat, key: string, max: int, duration: int)
    requires s.Stamps(key) == Zeros(n) && s.buckets.Keys <= {key} && n < max && duration > 0
    ensures RequestAllowed(s, key, max, duration, 0)
    ensures RequestNext(s, key, max, duration, 0).buckets == map[key := Bucket(0, Zeros(n + 1))]
  {
    LiveZeros(n, duration);
    assert Zeros(n + 1) == Zeros(n) + [0];
  }

  lemma {:induction false} BurstAccepted(expiration: int, n: nat, key: string, max: int, duration: int)
    requires n <= max && duration > 0
    ensures var s := Exec(expiration, Burst(n, key, max, duration));
      s.Stamps(key) == Zeros(n) && s.buckets.Keys <= {key} && (key in s.buckets ==> s.buckets[key].lastActive == 0)
    ensures Accepted(expiration, Burst(n, key, max, duration), key) == Zeros(n)
  {
    if n > 0 {
      hide Exec, Accepted, Live;
      BurstAccepted(expiration, n - 1, key, max, duration);
      var before := Burst(n - 1, key, max, duration);
      assert Burst(n, key, max, duration) == before + [Timed(0, Request(key, max, duration))];
      RunExtended(expiration, before, Timed(0, Request(key, max, duration)), key);
      OneMoreAccepted(Exec(expiration, before), n - 1, key, max, duration);
      assert Zeros(n) == Zeros(n - 1) + [0];
    }
  }

  lemma {:induction false} EmptyWindow(stamps: seq<int>, lo: int, hi: int)
    requires hi <= lo
    ensures CountWithin(stamps, lo, hi) == 0
  {
    if stamps != [] {
      EmptyWindow(stamps[..|stamps| - 1], lo, hi);
    }
  }

  // -------------------------------------------------- evicted before the window ends

  /** The run after which all keys idle since time zero are evicted. */
  function Swept(expiration: int, run: seq<Timed>): seq<Timed> {
    run + [Timed(expiration, Sweep(expiration))]
  }

  ghost predicate AtZero(run: seq<Timed>) {
    forall i :: 0 <= i < |run| ==> run[i].now == 0 && !run[i].event.Sweep?
  }

  lemma SweptIsEmpty(expiration: int, run: seq<Timed>, key: string)
    requires expiration > 0 && Exec(expiration, run).buckets.Keys <= {key}
    requires key in Exec(expiration, run).buckets ==> Exec(expiration, run).buckets[key].lastActive == 0
    ensures Exec(expiration, Swept(expiration, run)) == Exec(expiration, run).(buckets := map[])
    ensures Accepted(expiration, Swept(expiration, run), key) == Accepted(expiration, run, key)
  {
    RunExtended(expiration, run, Timed(expiration, Sweep(expiration)), key);
  }

  /** `max` requests, a sweep, and one request more, within one window longer than the expiration. */
  function EvictedRequests(expiration: int, key: string, max: nat, duration: int): seq<Timed> {
    Swept(expiration, Burst(max, key, max, duration)) + [Timed(expiration, Request(key, max, duration))]
  }

  lemma NothingLive(now: int, duration: int)
    ensures Live([], now, duration) == []
  {
  }

  lemma EvictedRequestsIsRun(expiration: int, key: string, max: nat, duration: int)
    requires expiration > 0
    ensures var run := EvictedRequests(expiration, key, max, duration);
      && ClockOrdered(run) && UsedBy(run, key, max, duration, REQUEST_ONLY)
      && run == Swept(expiration, Burst(max, key, max, duration)) + [Timed(expiration, Request(key, max, duration))]
  {
  }

  lemma EvictionBreaksRequests(expiration: int, key: string, max: int, duration: int)
    requires max > 0 && !WindowFits(expiration, duration)
    ensures var run := EvictedRequests(expiration, key, max, duration);
      && ClockOrdered(run) && UsedBy(run, key, max, duration, REQUEST_ONLY)
      && AcceptedIn(expiration, run, key, 0, duration) == max + 1
  {
    hide Exec, Accepted, CountWithin, ClockOrdered, UsedBy, Live, RequestNext, EvictedRequests;
    var burst := Burst(max, key, max, duration);
    EvictedRequestsIsRun(expiration, key, max, duration);
    BurstAccepted(expiration, max, key, max, duration);
    SweptIsEmpty(expiration, burst, key);
    RunExtended(expiration, Swept(expiration, burst), Timed(expiration, Request(key, max, duration)), key);
    NothingLive(Unix(expiration), duration);
    LiveZeros(max, duration);
    CountAppended(Zeros(max), Unix(expiration), 0, duration);
  }

  /** A reservation of `key` and its successful completion; `t` reservations were issued before. */
  function Served(now: int, t: nat, key: string, max: int, duration: int): seq<Timed> {
    [Timed(now, Reserve(key, max, duration)), Timed(now, Complete(t, true))]
  }

  /** Only `key` has been used, nothing is reserved, and `t` reservations were issued. */
  ghost predicate Quiet(s: State, key: string, t: nat) {
    s.reservations == map[] && |s.tokens| == t && s.buckets.Keys <= {key}
  }

  lemma ServedIsAccepted(expiration: int, run: seq<Timed>, now: int, key: string, max: int, duration: int)
    requires var s := Exec(expiration, run); Quiet(s, key, |s.tokens|) && |LiveStamps(s, key, duration, now)| < max
    ensures var s := Exec(expiration, run); var t := |s.tokens|;
      var s' := Exec(expiration, run + Served(now, t, key, max, duration));
      && Quiet(s', key, t + 1)
      && s'.buckets == map[key := Bucket(now, LiveStamps(s, key, duration, now) + [Unix(now)])]
      && Accepted(expiration, run + Served(now, t, key, max, duration), key)
          == Accepted(expiration, run, key) + [Unix(now)]
  {
    hide Exec, Accepted;
    var t := |Exec(expiration, run).tokens|;
    var reserve, complete := Timed(now, Reserve(key, max, duration)), Timed(now, Complete(t, true));
    RunExtended(expiration, run, reserve, key);
    RunExtended(expiration, run + [reserve], complete, key);
    assert run + Served(now, t, key, max, duration) == run + [reserve] + [complete];
  }

  /** `n` reservations of `key`, each completed before the next, all at time zero. */
  function ServedBurst(n: nat, key: string, max: int, duration: int): seq<Timed> {
    if n == 0 then [] else ServedBurst(n - 1, key, max, duration) + Served(0, n - 1, key, max, duration)
  }

  lemma {:induction false} ServedBurstIsRun(n: nat, key: string, max: int, duration: int)
    ensures var run := ServedBurst(n, key, max, duration); AtZero(run) && UsedBy(run, key, max, duration, RESERVE_ONLY)
  {
    if n > 0 {
      ServedBurstIsRun(n - 1, key, max, duration);
    }
  }

  /** `n` requests of `key` were served at time zero, and nothing else happened. */
  ghost predicate ServedState(s: State, key: string, n: nat) {
    Quiet(s, key, n) && s.Stamps(key) == Zeros(n) && (key in s.buckets ==> s.buckets[key].lastActive == 0)
  }

  lemma ServedStateLive(s: State, key: string, n: nat, duration: int)
    requires ServedState(s, key, n) && duration > 0
    ensures LiveStamps(s, key, duration, 0) == Zeros(n) && Quiet(s, key, |s.tokens|) && |s.tokens| == n
  {
    LiveZeros(n, duration);
  }

  lemma ServedOnce(expiration: int, run: seq<Timed>, n: nat, key: string, max: int, duration: int)
    requires ServedState(Exec(expiration, run), key, n) && n < max && duration > 0
    ensures var next := run + Served(0, n, key, max, duration);
      && ServedState(Exec(expiration, next), key, n + 1)
      && Accepted(expiration, next, key) == Accepted(expiration, run, key) + [0]
  {
    hide Exec, Accepted, Served, LiveStamps, Zeros;
    ServedStateLive(Exec(expiration, run), key, n, duration);
    ZerosGrow(n);
    ServedIsAccepted(expiration, run, 0, key, max, duration);
  }

  lemma {:induction false} ServedBurstAccepted(expiration: int, n: nat, key: string, max: int, duration: int)
    requires n <= max && duration > 0
    ensures var run := ServedBurst(n, key, max, duration);
      ServedState(Exec(expiration, run), key, n) && Accepted(expiration, run, key) == Zeros(n)
  {
    if n > 0 {
      hide Exec, Accepted, Served, ServedState, Zeros;
      ServedBurstAccepted(expiration, n - 1, key, max, duration);
      ServedOnce(expiration, ServedBurst(n - 1, key, max, duration), n - 1, key, max, duration);
      ZerosGrow(n - 1);
    }
  }

  function EvictedReservations(expiration: int, key: string, max: nat, duration: int): seq<Timed> {
    Swept(expiration, ServedBurst(max, key, max, duration)) + Served(expiration, max, key, max, duration)
  }

  lemma EvictedReservationsIsRun(expiration: int, key: string, max: nat, duration: int)
    requires expiration > 0
    ensures var run := EvictedReservations(expiration, key, max, duration);
      ClockOrdered(run) && UsedBy(run, key, max, duration, RESERVE_ONLY)
  {
    hide ServedBurst;
    ServedBurstIsRun(max, key, max, duration);
  }

  lemma EvictionBreaksReservations(expiration: int, key: string, max: int, duration: int)
    requires max > 0 && !WindowFits(expiration, duration)
    ensures var run := EvictedReservations(expiration, key, max, duration);
      && ClockOrdered(run) && UsedBy(run, key, max, duration, RESERVE_ONLY)
      && AcceptedIn(expiration, run, key, 0, duration) == max + 1
  {
    hide Exec, Accepted, CountWithin, ClockOrdered, UsedBy, Live, Served, ServedBurst, Swept;
    var burst := ServedBurst(max, key, max, duration);
    EvictedReservationsIsRun(expiration, key, max, duration);
    ServedBurstAccepted(expiration, max, key, max, duration);
    SweptIsEmpty(expiration, burst, key);
    NothingLive(Unix(expiration), duration);
    ServedIsAccepted(expiration, Swept(expiration, burst), expiration, key, max, duration);
    LiveZeros(max, duration);
    CountAppended(Zeros(max), Unix(expiration), 0, duration);
  }

  // ------------------------------------------------------ both entry points at once

  /**
   `stamps` accepted requests of `key` at time zero, and `issued` reservations, the first
   `done` of them completed.
   */
  ghost predicate Holding(s: State, key: string, stamps: nat, issued: nat, done: nat) {
    && done <= issued && |s.tokens| == issued
    && (forall t :: 0 <= t < issued ==> s.tokens[t] == Token(key, t < done))
    && s.Reserved(key) == issued - done && s.Stamps(key) == Zeros(stamps)
  }

  function Reserves(n: nat, key: string, max: int, duration: int): seq<Timed> {
    seq(n, _ => Timed(0, Reserve(key, max, duration)))
  }

  function Completions(n: nat): seq<Timed> {
    seq(n, i => Timed(0, Complete(i, true)))
  }

  lemma HoldingReserve(s: State, n: nat, key: string, max: int, duration: int)
    requires Holding(s, key, 0, n, 0) && n < max
    ensures Holding(ReserveNext(s, key, max, duration, 0), key, 0, n + 1, 0)
  {
    assert Live([], 0, duration) == [];
  }

  lemma HoldingRequest(s: State, n: nat, r: nat, key: string, max: int, duration: int)
    requires Holding(s, key, n, r, 0) && n < max && duration > 0
    ensures Holding(RequestNext(s, key, max, duration, 0), key, n + 1, r, 0) && RequestAllowed(s, key, max, duration, 0)
  {
    LiveZeros(n, duration);
    assert Zeros(n + 1) == Zeros(n) + [0];
  }

  lemma HoldingComplete(s: State, n: nat, r: nat, done: nat, key: string)
    requires Holding(s, key, n, r, done) && done < r
    ensures Holding(CompleteNext(s, done, true, 0), key, n + 1, r, done + 1) && Completes(s, done)
  {
    assert Zeros(n + 1) == Zeros(n) + [0];
  }

  lemma {:induction false} ReservesHold(expiration: int, n: nat, key: string, max: int, duration: int)
    requires n <= max
    ensures Holding(Exec(expiration, Reserves(n, key, max, duration)), key, 0, n, 0)
    ensures Accepted(expiration, Reserves(n, key, max, duration), key) == Zeros(0)
  {
    if n > 0 {
      hide Exec, Accepted, Holding, ReserveNext;
      var before, e := Reserves(n - 1, key, max, duration), Timed(0, Reserve(key, max, duration));
      ReservesHold(expiration, n - 1, key, max, duration);
      HoldingReserve(Exec(expiration, before), n - 1, key, max, duration);
      assert Reserves(n, key, max, duration) == before + [e];
      RunExtended(expiration, before, e, key);
    }
  }

  lemma {:induction false} RequestsHold(expiration: int, n: nat, key: string, max: int, duration: int)
    requires n <= max && duration > 0
    ensures var run := Reserves(max, key, max, duration) + Burst(n, key, max, duration);
      Holding(Exec(expiration, run), key, n, max, 0) && Accepted(expiration, run, key) == Zeros(n)
  {
    hide Exec, Accepted, Holding, RequestNext, RequestAllowed, Reserves;
    var reserves := Reserves(max, key, max, duration);
    if n == 0 {
      ReservesHold(expiration, max, key, max, duration);
      assert reserves + Burst(0, key, max, duration) == reserves;
    } else {
      var before, e := reserves + Burst(n - 1, key, max, duration), Timed(0, Request(key, max, duration));
      RequestsHold(expiration, n - 1, key, max, duration);
      HoldingRequest(Exec(expiration, before), n - 1, max, key, max, duration);
      assert reserves + Burst(n, key, max, duration) == before + [e];
      RunExtended(expiration, before, e, key);
      assert Zeros(n) == Zeros(n - 1) + [0];
    }
  }

  /** `max` reservations, then `max` requests, and then the completion of `n` reservations. */
  function Mixed(n: nat, key: string, max: nat, duration: int): seq<Timed> {
    Reserves(max, key, max, duration) + Burst(max, key, max, duration) + Completions(n)
  }

  lemma {:induction false} CompletionsHold(expiration: int, n: nat, key: string, max: nat, duration: int)
    requires n <= max && duration > 0
    ensures var run := Mixed(n, key, max, duration);
      Holding(Exec(expiration, run), key, max + n, max, n) && Accepted(expiration, run, key) == Zeros(max + n)
  {
    hide Exec, Accepted, Holding, CompleteNext, Reserves, Burst;
    if n == 0 {
      RequestsHold(expiration, max, key, max, duration);
      assert Mixed(0, key, max, duration) == Reserves(max, key, max, duration) + Burst(max, key, max, duration);
    } else {
      var before, e := Mixed(n - 1, key, max, duration), Timed(0, Complete(n - 1, true));
      CompletionsHold(expiration, n - 1, key, max, duration);
      var s := Exec(expiration, before);
      HoldingComplete(s, max + n - 1, max, n - 1, key);
      assert s.tokens[n - 1].key == key by { HoldingKey(s, max + n - 1, max, n - 1, key); }
      assert Completions(n) == Completions(n - 1) + [e];
      assert Mixed(n, key, max, duration) == before + [e];
      RunExtended(expiration, before, e, key);
      assert Zeros(max + n) == Zeros(max + n - 1) + [0];
    }
  }

  lemma HoldingKey(s: State, n: nat, r: nat, done: nat, key: string)
    requires Holding(s, key, n, r, done) && done < r
    ensures done < |s.tokens| && s.tokens[done].key == key
  {
  }

  lemma MixedIsRun(n: nat, key: string, max: nat, duration: int)
    ensures var run := Mixed(n, key, max, duration); ClockOrdered(run) && UsedBy(run, key, max, duration, BOTH)
  {
    var run := Mixed(n, key, max, duration);
    assert forall i :: 0 <= i < |run| ==> run[i].now == 0 && !run[i].event.Sweep?;
  }

  /** Twice the limit is accepted in one window, for every limit and window: reservations do not block requests. */
  lemma MixedUseBreaksBound(expiration: int, key: string, max: nat, duration: int)
    requires duration > 0
    ensures var run := Mixed(max, key, max, duration);
      && ClockOrdered(run) && UsedBy(run, key, max, duration, BOTH)
      && AcceptedIn(expiration, run, key, 0, duration) == 2 * max
  {
    hide Exec, Accepted, Mixed, CountWithin, ClockOrdered, UsedBy;
    MixedIsRun(max, key, max, duration);
    CompletionsHold(expiration, max, key, max, duration);
    LiveZeros(2 * max, duration);
  }

  // ------------------------------------------------------------ the exact condition

  ghost predicate Bounded(expiration: int, key: string, max: int, duration: int, use: Use, limit: int) {
    forall run, w | ClockOrdered(run) && UsedBy(run, key, max, duration, use) ::
      AcceptedIn(expiration, run, key, w, duration) <= limit
  }

  lemma BoundedByFits(expiration: int, key: string, max: int, duration: int, use: Use)
    requires WindowFits(expiration, duration)
    ensures Bounded(expiration, key, max, duration, use, Slots(max, use))
  {
    forall run, w | ClockOrdered(run) && UsedBy(run, key, max, duration, use)
      ensures AcceptedIn(expiration, run, key, w, duration) <= Slots(max, use)
    {
      WindowBound(expiration, run, key, max, duration, use, w);
    }
  }

  /**
   At most `max` requests are accepted in every window of every run exactly when the window
   fits into the key expiration and the key is used through one entry point only. (In an
   empty window nothing is.)
   */
  lemma WindowBoundExactly(expiration: int, key: string, max: int, duration: int, use: Use)
    requires max > 0 && (use.requests || use.reserves)
    ensures Bounded(expiration, key, max, duration, use, max) <==>
      WindowFits(expiration, duration) && (use != BOTH || duration <= 0)
  {
    if !WindowFits(expiration, duration) {
      var run := if use.requests then EvictedRequests(expiration, key, max, duration)
                 else EvictedReservations(expiration, key, max, duration);
      EvictionBreaksRequests(expiration, key, max, duration);
      EvictionBreaksReservations(expiration, key, max, duration);
      assert UsedBy(run, key, max, duration, use) && AcceptedIn(expiration, run, key, 0, duration) > max;
    } else if duration <= 0 {
      forall run, w ensures AcceptedIn(expiration, run, key, w, duration) <= max {
        EmptyWindow(Accepted(expiration, run, key), w, w + duration);
      }
    } else {
      BoundedByFits(expiration, key, max, duration, use);
      MixedUseBreaksBound(expiration, key, max, duration);
    }
  }

  /** With both entry points the least limit that holds for a fitting window is twice the configured one. */
  lemma MixedBoundExactly(expiration: int, key: string, max: int, duration: int, limit: int)
    requires max > 0 && duration > 0 && WindowFits(expiration, duration)
    ensures Bounded(expiration, key, max, duration, BOTH, limit) <==> 2 * max <= limit
  {
    BoundedByFits(expiration, key, max, duration, BOTH);
    MixedUseBreaksBound(expiration, key, max, duration);
  }
}
