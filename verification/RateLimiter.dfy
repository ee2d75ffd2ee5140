/**
 The limiter object: the last activity and the linked queue of every key, the list of
 keys in order of last use, and the reservation counts, all updated in place. Every
 method is proved to compute the corresponding function of module `SlidingWindow` on
 `Model()`.
 */
module RateLimiter {
  import opened SlidingWindow
  import opened RequestQueue
  import opened QueueTable

  // ---------------------------------------------------- the list of used keys

  /** The list holds each key with a bucket once. */
  ghost predicate Lists(lru: seq<string>, buckets: map<string, Bucket>) {
    && (forall i :: 0 <= i < |lru| ==> lru[i] in buckets)
    && (forall k {:trigger k in lru} :: k in buckets ==> k in lru)
    && (forall i, j :: 0 <= i < j < |lru| ==> lru[i] != lru[j])
  }

  /** The most recently active key comes first. */
  ghost predicate ByActivity(lru: seq<string>, buckets: map<string, Bucket>)
    requires Lists(lru, buckets)
  {
    forall i, j :: 0 <= i < j < |lru| ==> buckets[lru[i]].lastActive >= buckets[lru[j]].lastActive
  }

  /** Stamps are in time order and not in the future. */
  ghost predicate InTime(buckets: map<string, Bucket>, clock: int) {
    forall k :: k in buckets ==> NonDecreasing(buckets[k].stamps) && ActiveSince(buckets[k], clock)
  }

  ghost predicate Ordered(lru: seq<string>, buckets: map<string, Bucket>, clock: int) {
    Lists(lru, buckets) && ByActivity(lru, buckets) && InTime(buckets, clock)
  }

  function Touched(buckets: map<string, Bucket>, key: string, now: int): map<string, Bucket> {
    buckets[key := Bucket(now, if key in buckets then buckets[key].stamps else [])]
  }

  lemma TouchInTime(buckets: map<string, Bucket>, clock: int, key: string, now: int)
    requires InTime(buckets, clock) && clock <= now
    ensures InTime(Touched(buckets, key, now), now)
    ensures forall k :: k in buckets ==> buckets[k].lastActive <= now
  {
    assert Unix(clock) <= Unix(now);
  }

  function MovedToFront(lru: seq<string>, key: string): (r: seq<string>)
    requires key in lru
  {
    var i := IndexOf(lru, key);
    [key] + lru[..i] + lru[i + 1..]
  }

  function IndexOf(lru: seq<string>, key: string): (i: nat)
    requires key in lru
    ensures i < |lru| && lru[i] == key
  {
    if lru[0] == key then 0 else 1 + IndexOf(lru[1..], key)
  }

  lemma MovedToFrontAt(lru: seq<string>, key: string)
    requires key in lru
    ensures var r, i := MovedToFront(lru, key), IndexOf(lru, key);
      && |r| == |lru| && r[0] == key
      && (forall j :: 0 < j <= i ==> r[j] == lru[j - 1])
      && (forall j :: i < j < |lru| ==> r[j] == lru[j])
      && (forall k {:trigger k in r} :: k in lru ==> k in r)
  {
    var i := IndexOf(lru, key);
    assert lru == lru[..i] + [key] + lru[i + 1..];
  }

  function Trimmed(buckets: map<string, Bucket>, key: string, now: int, duration: int): map<string, Bucket>
    requires key in buckets
  {
    buckets[key := buckets[key].(stamps := Live(buckets[key].stamps, Unix(now), duration))]
  }

  lemma LiveInTime(b: Bucket, clock: int, duration: int)
    requires NonDecreasing(b.stamps) && ActiveSince(b, clock)
    ensures var live := b.(stamps := Live(b.stamps, Unix(clock), duration));
      NonDecreasing(live.stamps) && ActiveSince(live, clock)
  {
    LiveIsSuffix(b.stamps, Unix(clock), duration);
  }

  lemma TrimKeepsOrder(lru: seq<string>, buckets: map<string, Bucket>, clock: int, key: string, duration: int)
    requires Ordered(lru, buckets, clock) && key in buckets
    ensures Remaining(buckets[key].stamps, Unix(clock), duration) == Live(buckets[key].stamps, Unix(clock), duration)
    ensures Ordered(lru, Trimmed(buckets, key, clock, duration), clock)
  {
    RemainingIsLive(buckets[key].stamps, Unix(clock), duration);
    LiveInTime(buckets[key], clock, duration);
  }

  function Stamped(buckets: map<string, Bucket>, key: string, now: int): map<string, Bucket>
    requires key in buckets
  {
    buckets[key := Bucket(now, buckets[key].stamps + [Unix(now)])]
  }

  lemma StampKeepsOrder(lru: seq<string>, buckets: map<string, Bucket>, clock: int, key: string)
    requires Ordered(lru, buckets, clock) && key in buckets && buckets[key].lastActive == clock
    ensures Ordered(lru, Stamped(buckets, key, clock), clock)
  {
  }

  lemma MovedKeepsOrder(lru: seq<string>, buckets: map<string, Bucket>, clock: int, key: string, now: int)
    requires Ordered(lru, buckets, clock) && clock <= now && key in lru
    ensures Ordered(MovedToFront(lru, key), Touched(buckets, key, now), now)
  {
    hide MovedToFront, InTime;
    TouchInTime(buckets, clock, key, now);
    MovedToFrontAt(lru, key);
  }

  lemma PushedKeepsOrder(lru: seq<string>, buckets: map<string, Bucket>, clock: int, key: string, now: int)
    requires Ordered(lru, buckets, clock) && clock <= now && key !in lru
    ensures Ordered([key] + lru, Touched(buckets, key, now), now)
  {
    hide InTime;
    TouchInTime(buckets, clock, key, now);
  }

  /** list.PushFront for a new key and list.MoveToFront for a known one. */
  method MoveToFront(lru: seq<string>, key: string, now: int, ghost buckets: map<string, Bucket>, ghost clock: int)
    returns (moved: seq<string>)
    requires Ordered(lru, buckets, clock) && clock <= now
    ensures Ordered(moved, Touched(buckets, key, now), now)
  {
    hide Ordered;
    if key in lru {
      MovedKeepsOrder(lru, buckets, clock, key, now);
      moved := MovedToFront(lru, key);
    } else {
      PushedKeepsOrder(lru, buckets, clock, key, now);
      moved := [key] + lru;
    }
  }

  /** If the least recently used key is active, all keys are. */
  lemma OldestIsActive(lru: seq<string>, buckets: map<string, Bucket>, clock: int, expiration: int, tick: int)
    requires lru != [] && Ordered(lru, buckets, clock)
    requires !Idle(buckets[lru[|lru| - 1]], expiration, tick)
    ensures forall k :: k in buckets ==> !Idle(buckets[k], expiration, tick)
  {
    forall k | k in buckets ensures !Idle(buckets[k], expiration, tick) {
      assert k in lru;
    }
  }

  lemma NothingListed(lru: seq<string>, buckets: map<string, Bucket>, clock: int)
    requires lru == [] && Ordered(lru, buckets, clock)
    ensures buckets == map[]
  {
    assert forall k :: k in buckets ==> k in lru;
  }

  lemma OldestIsListed(lru: seq<string>, buckets: map<string, Bucket>, clock: int)
    requires lru != [] && Ordered(lru, buckets, clock)
    ensures lru[|lru| - 1] in buckets
  {
  }

  lemma DroppedInOrder(lru: seq<string>, buckets: map<string, Bucket>, clock: int)
    requires lru != [] && Ordered(lru, buckets, clock)
    ensures Ordered(lru[..|lru| - 1], buckets - {lru[|lru| - 1]}, clock)
  {
    var rest := lru[..|lru| - 1];
    forall k | k in buckets && k != lru[|lru| - 1] ensures k in rest {
      assert k in lru;
    }
  }

  // -------------------------------------------------------------- the limiter

  class Reservation {
    const limiter: Limiter
    const key: string
    var done: bool

    constructor (limiter: Limiter, key: string)
      ensures this.limiter == limiter && this.key == key && !done
    {
      this.limiter, this.key, this.done := limiter, key, false;
    }
  }

  /** The buckets are the last activities together with the queues' contents. */
  ghost predicate Matches(buckets: map<string, Bucket>, lastActive: map<string, int>, contents: map<string, seq<int>>) {
    && buckets.Keys == lastActive.Keys == contents.Keys
    && forall k :: k in buckets ==> buckets[k] == Bucket(lastActive[k], contents[k])
  }

  lemma MatchesSet(buckets: map<string, Bucket>, lastActive: map<string, int>, contents: map<string, seq<int>>,
                   key: string, stamps: seq<int>)
    requires Matches(buckets, lastActive, contents) && key in buckets
    ensures key in contents && contents[key] == buckets[key].stamps
    ensures Matches(buckets[key := buckets[key].(stamps := stamps)], lastActive, contents[key := stamps])
  {
  }

  class Limiter {
    const queues: Table
    var lastActive: map<string, int>
    /** Most recently active first. */
    var lru: seq<string>
    var reservations: map<string, int>
    const expiration: int
    /** What `lastActive` and `queues` stand for. */
    ghost var buckets: map<string, Bucket>
    /** The latest time an operation has seen. */
    ghost var clock: int
    /** The reservations handed out so far, and what is known of them. */
    ghost var issued: seq<Reservation>
    ghost var tokens: seq<Token>

    ghost predicate ValidBuckets()
      reads this, queues, queues.layout.footprint
    {
      && this !in queues.layout.footprint && queues.Valid()
      && Matches(buckets, lastActive, queues.layout.contents)
      && Ordered(lru, buckets, clock)
    }

    ghost predicate ValidIssued()
      reads this, issued, queues
    {
      && |issued| == |tokens|
      && (forall i :: 0 <= i < |issued| ==> issued[i] !in queues.layout.footprint && issued[i].limiter == this)
      && (forall i :: 0 <= i < |issued| ==> tokens[i] == Token(issued[i].key, issued[i].done))
      && (forall i, j :: 0 <= i < j < |issued| ==> issued[i] != issued[j])
    }

    ghost predicate Valid()
      reads this, issued, queues, queues.layout.footprint
    {
      ValidBuckets() && ValidIssued()
    }

    ghost function Model(): State
      reads this
    {
      State(buckets, reservations, tokens)
    }

    constructor (expiration: int, ghost now: int)
      ensures Valid() && this.expiration == expiration && Model() == INITIAL
      ensures clock == now && issued == [] && fresh(queues) && fresh(queues.layout.footprint)
    {
      queues := new Table();
      lastActive, lru, reservations := map[], [], map[];
      this.expiration := expiration;
      buckets, issued, tokens, clock := map[], [], [], now;
    }

    method EnsureQueue(key: string)
      requires queues.Valid() && Matches(buckets, lastActive, queues.layout.contents)
      modifies queues
      ensures queues.Valid() && fresh(queues.layout.footprint - old(queues.layout.footprint))
      ensures forall now :: Matches(Touched(buckets, key, now), lastActive[key := now], queues.layout.contents)
    {
      hide Table.Valid;
      if key !in lastActive {
        queues.Add(key);
      }
    }

    /** The key's bucket, created on demand, becomes the most recently active one. */
    method TouchEntry(key: string, now: int)
      requires ValidBuckets() && clock <= now
      modifies this`lastActive, this`lru, this`buckets, this`clock, queues
      ensures ValidBuckets() && fresh(queues.layout.footprint - old(queues.layout.footprint))
      ensures clock == now && buckets == Touched(old(buckets), key, now)
    {
      hide Table.Valid, Ordered, Matches;
      EnsureQueue(key);
      lru := MoveToFront(lru, key, now, buckets, clock);
      lastActive := lastActive[key := now];
      buckets, clock := Touched(buckets, key, now), now;
    }

    /** Trims the key's queue; what is left are exactly the stamps inside the window. */
    method RemoveExpired(key: string, now: int, duration: int)
      requires ValidBuckets() && key in buckets && clock == now
      modifies this`buckets, queues`layout, queues.layout.footprint
      ensures ValidBuckets() && queues.layout.footprint == old(queues.layout.footprint)
      ensures buckets == Trimmed(old(buckets), key, now, duration)
    {
      hide Table.Valid, Ordered, Matches;
      TrimKeepsOrder(lru, buckets, clock, key, duration);
      MatchesSet(buckets, lastActive, queues.layout.contents, key, Live(buckets[key].stamps, Unix(now), duration));
      queues.RemoveExpired(key, Unix(now), duration);
      buckets := Trimmed(buckets, key, now, duration);
    }

    method TouchAndTrim(key: string, now: int, duration: int) returns (length: nat)
      requires ValidBuckets() && clock <= now
      modifies this`lastActive, this`lru, this`buckets, this`clock, queues, queues.layout.footprint
      ensures ValidBuckets() && fresh(queues.layout.footprint - old(queues.layout.footprint)) && clock == now
      ensures buckets == old(buckets)[key := Bucket(now, LiveStamps(old(Model()), key, duration, now))]
      ensures length == |buckets[key].stamps|
    {
      hide Table.Valid, Ordered, Matches;
      TouchEntry(key, now);
      RemoveExpired(key, now, duration);
      MatchesSet(buckets, lastActive, queues.layout.contents, key, []);
      length := queues.Length(key);
    }

    method Append(key: string, now: int)
      requires ValidBuckets() && key in buckets && clock == now == buckets[key].lastActive
      modifies this`buckets, queues, queues.layout.footprint
      ensures ValidBuckets() && fresh(queues.layout.footprint - old(queues.layout.footprint))
      ensures buckets == old(buckets)[key := Bucket(now, old(buckets)[key].stamps + [Unix(now)])]
    {
      hide Table.Valid, Ordered, Matches;
      StampKeepsOrder(lru, buckets, clock, key);
      MatchesSet(buckets, lastActive, queues.layout.contents, key, buckets[key].stamps + [Unix(now)]);
      queues.Append(key, Unix(now));
      buckets := Stamped(buckets, key, now);
    }

    method Request(key: string, max: int, duration: int, now: int) returns (allowed: bool)
      requires Valid() && clock <= now
      modifies this`lastActive, this`lru, this`buckets, this`clock, queues, queues.layout.footprint
      ensures Valid() && fresh(queues.layout.footprint - old(queues.layout.footprint)) && clock == now
      ensures allowed == RequestAllowed(old(Model()), key, max, duration, now)
      ensures Model() == RequestNext(old(Model()), key, max, duration, now)
    {
      hide Table.Valid, Ordered, Matches;
      var length := TouchAndTrim(key, now, duration);
      allowed := length < max;
      if allowed {
        Append(key, now);
        assert buckets == old(buckets)[key := Bucket(now, LiveStamps(old(Model()), key, duration, now) + [Unix(now)])];
      }
    }

    method Reserve(key: string, max: int, duration: int, now: int) returns (r: Reservation?)
      requires Valid() && clock <= now
      modifies this, queues, queues.layout.footprint
      ensures Valid() && fresh(queues.layout.footprint - old(queues.layout.footprint)) && clock == now
      ensures r != null <==> ReserveAllowed(old(Model()), key, max, duration, now)
      ensures if r == null then issued == old(issued)
              else fresh(r) && r.limiter == this && r.key == key && !r.done && issued == old(issued) + [r]
      ensures Model() == ReserveNext(old(Model()), key, max, duration, now)
    {
      hide Table.Valid, Ordered, Matches;
      var length := TouchAndTrim(key, now, duration);
      var reserved := if key in reservations then reservations[key] else 0;
      if length + reserved >= max {
        return null;
      }
      reservations := reservations[key := reserved + 1];
      r := Issue(key);
    }

    method Issue(key: string) returns (r: Reservation)
      requires ValidIssued()
      modifies this`issued, this`tokens
      ensures ValidIssued() && fresh(r) && r.limiter == this && r.key == key && !r.done
      ensures issued == old(issued) + [r] && tokens == old(tokens) + [Token(key, false)]
    {
      hide Table.Valid, Ordered;
      r := new Reservation(this, key);
      issued, tokens := issued + [r], tokens + [Token(key, false)];
    }

    /** Drops the oldest keys, stopping at the first one that was active recently enough. */
    method DeleteExpiredEntries(tick: int)
      requires Valid()
      modifies this`lastActive, this`lru, this`buckets, queues, queues.layout.footprint
      ensures Valid() && Model() == SweepNext(old(Model()), expiration, tick)
      ensures queues.layout.footprint == old(queues.layout.footprint)
      ensures reservations == old(reservations) && tokens == old(tokens)
      ensures expiration <= 0 ==> buckets == old(buckets)
      ensures expiration > 0 ==> forall k ::
        k in buckets <==> k in old(buckets) && tick - old(buckets)[k].lastActive < expiration
      ensures forall k :: k in buckets ==> buckets[k] == old(buckets)[k]
    {
      hide Table.Valid, Ordered;
      if expiration <= 0 {
        return;
      }
      while lru != []
        invariant ValidBuckets() && queues.layout.footprint == old(queues.layout.footprint)
        invariant forall k :: k in buckets ==> k in old(buckets) && buckets[k] == old(buckets)[k]
        invariant forall k :: k in old(buckets) && k !in buckets ==> Idle(old(buckets)[k], expiration, tick)
        decreases |lru|
      {
        var oldest := lru[|lru| - 1];
        OldestIsListed(lru, buckets, clock);
        if tick - lastActive[oldest] < expiration {
          OldestIsActive(lru, buckets, clock, expiration, tick);
          return;
        }
        DropOldest();
      }
      NothingListed(lru, buckets, clock);
    }

    method DropOldest()
      requires ValidBuckets() && lru != []
      modifies this`lastActive, this`lru, this`buckets, queues, queues.layout.footprint
      ensures ValidBuckets() && queues.layout.footprint == old(queues.layout.footprint)
      ensures lru == old(lru)[..|old(lru)| - 1]
      ensures buckets == old(buckets) - {old(lru)[|old(lru)| - 1]}
    {
      hide Table.Valid, Ordered;
      var oldest := lru[|lru| - 1];
      OldestIsListed(lru, buckets, clock);
      DroppedInOrder(lru, buckets, clock);
      queues.Delete(oldest);
      lastActive, buckets := lastActive - {oldest}, buckets - {oldest};
      lru := lru[..|lru| - 1];
    }

    /** Gives back one slot of the key; a count of zero leaves the map. */
    method ReleaseSlot(key: string)
      modifies this`reservations
      ensures reservations == Release(old(Model()), key)
    {
      hide Table.Valid, Ordered;
      var reserved := (if key in reservations then reservations[key] else 0) - 1;
      reservations := reservations[key := reserved];
      if reserved == 0 {
        reservations := reservations - {key};
      }
    }

    /** Records an accepted request outside the admission check. */
    method RecordSuccess(key: string, now: int)
      requires ValidBuckets() && clock <= now
      modifies this`lastActive, this`lru, this`buckets, this`clock, queues, queues.layout.footprint
      ensures ValidBuckets() && fresh(queues.layout.footprint - old(queues.layout.footprint)) && clock == now
      ensures buckets == old(buckets)[key := Bucket(now, old(Model()).Stamps(key) + [Unix(now)])]
    {
      hide Table.Valid, Ordered;
      TouchEntry(key, now);
      Append(key, now);
    }
  }

  /** Completing a reservation; nil and already completed reservations are left alone. */
  method Complete(r: Reservation?, success: bool, now: int, ghost t: nat)
    requires r != null ==> r.limiter.Valid() && r.limiter.clock <= now
    requires r != null ==> t < |r.limiter.issued| && r.limiter.issued[t] == r
    modifies if r == null then {} else {r, r.limiter, r.limiter.queues} + r.limiter.queues.layout.footprint
    ensures r != null ==> r.limiter.Valid() && r.limiter.clock <= now && r.limiter.issued == old(r.limiter.issued)
    ensures r != null ==> r.limiter.Model() == CompleteNext(old(r.limiter.Model()), t, success, now)
    ensures r != null ==> fresh(r.limiter.queues.layout.footprint - old(r.limiter.queues.layout.footprint))
    ensures r != null ==> r.done && (!success || old(r.done) ==> r.limiter.buckets == old(r.limiter.buckets))
  {
    hide Table.Valid, Ordered;
    if r == null || r.done {
      return;
    }
    var l := r.limiter;
    r.done := true;
    l.tokens := l.tokens[t := Token(r.key, true)];
    l.ReleaseSlot(r.key);
    if success {
      l.RecordSuccess(r.key, now);
    }
  }

  // --------------------------------------------------------------- runs of the object

  /** Whether the event is admitted; completions and sweeps always are. */
  predicate Admitted(s: State, e: Timed) {
    match e.event
    case Request(key, max, duration) => RequestAllowed(s, key, max, duration, e.now)
    case Reserve(key, max, duration) => ReserveAllowed(s, key, max, duration, e.now)
    case _ => true
  }

  /** One event on a limiter; `held` are the reservations it has handed out. */
  method Perform(l: Limiter, e: Timed, held: seq<Reservation>) returns (answer: bool, now: seq<Reservation>)
    requires l.Valid() && l.clock <= e.now && held == l.issued
    modifies l, l.queues, l.queues.layout.footprint, l.issued
    ensures l.Valid() && l.clock <= e.now && now == l.issued
    ensures fresh(l.queues.layout.footprint - old(l.queues.layout.footprint))
    ensures |held| <= |now| && now[..|held|] == held && forall i :: |held| <= i < |now| ==> fresh(now[i])
    ensures l.Model() == Next(l.expiration, old(l.Model()), e) && answer == Admitted(old(l.Model()), e)
  {
    hide Table.Valid, Ordered, Matches;
    answer, now := true, held;
    match e.event
    case Request(key, max, duration) =>
      answer := l.Request(key, max, duration, e.now);
    case Reserve(key, max, duration) =>
      var r := l.Reserve(key, max, duration, e.now);
      answer := r != null;
      if r != null {
        now := held + [r];
      }
    case Complete(t, success) =>
      if 0 <= t < |held| {
        Complete(held[t], success, e.now, t);
      }
    case Sweep(tick) =>
      l.DeleteExpiredEntries(tick);
  }

  /**
   A run on a new limiter. It leaves the state that the run leaves in the model, and each
   event is answered as the model answers it after the events before.
   */
  method Play(expiration: int, start: int, run: seq<Timed>) returns (l: Limiter, answers: seq<bool>)
    requires ClockOrdered(run) && (run != [] ==> start <= run[0].now)
    ensures fresh(l) && l.Valid() && l.Model() == Exec(expiration, run)
    ensures AnswersTo(expiration, run, answers)
  {
    hide Limiter.Valid, Exec, Admitted;
    l := new Limiter(expiration, start);
    var held: seq<Reservation> := [];
    answers := [];
    assert Exec(expiration, run[..0]) == INITIAL by { StartOfRun(expiration, run); }
    for i := 0 to |run|
      invariant l.Valid() && l.expiration == expiration && held == l.issued && fresh(l) && fresh(l.queues)
      invariant fresh(l.queues.layout.footprint) && forall k :: 0 <= k < |held| ==> fresh(held[k])
      invariant i < |run| ==> l.clock <= run[i].now
      invariant l.Model() == Exec(expiration, run[..i])
      invariant |answers| == i
      invariant forall k :: 0 <= k < i ==> answers[k] == Admitted(Exec(expiration, run[..k]), run[k])
    {
      var answer;
      answer, held := Perform(l, run[i], held);
      RunExtended(expiration, run[..i], run[i], "");
      assert run[..i + 1] == run[..i] + [run[i]];
      answers := answers + [answer];
    }
    assert run[..|run|] == run;
  }

  lemma StartOfRun(expiration: int, run: seq<Timed>)
    ensures Exec(expiration, run[..0]) == INITIAL
  {
  }

  /** These are the answers that the model gives to the events of the run. */
  ghost predicate AnswersTo(expiration: int, run: seq<Timed>, answers: seq<bool>) {
    && |answers| == |run|
    && forall i :: 0 <= i < |run| ==> answers[i] == Admitted(Exec(expiration, run[..i]), run[i])
  }

  /** The seconds at which requests of `key` were answered with yes. */
  function Granted(run: seq<Timed>, answers: seq<bool>, key: string): seq<int>
    requires |answers| == |run|
  {
    if run == [] then []
    else
      var n := |run| - 1;
      var before := Granted(run[..n], answers[..n], key);
      if run[n].event.Request? && run[n].event.key == key && answers[n] then before + [Unix(run[n].now)] else before
  }

  lemma AnswersBefore(expiration: int, run: seq<Timed>, answers: seq<bool>)
    requires run != [] && AnswersTo(expiration, run, answers)
    ensures var n := |run| - 1;
      AnswersTo(expiration, run[..n], answers[..n]) && answers[n] == Admitted(Exec(expiration, run[..n]), run[n])
  {
    hide Exec, Admitted;
    var n := |run| - 1;
    assert forall i :: 0 <= i < n ==> run[..n][..i] == run[..i];
  }

  lemma {:induction false} GrantedIsAccepted(
    expiration: int, run: seq<Timed>, answers: seq<bool>, key: string, max: int, duration: int)
    requires AnswersTo(expiration, run, answers) && UsedBy(run, key, max, duration, REQUEST_ONLY)
    ensures Granted(run, answers, key) == Accepted(expiration, run, key)
  {
    if run != [] {
      hide Exec;
      var n := |run| - 1;
      AnswersBefore(expiration, run, answers);
      GrantedIsAccepted(expiration, run[..n], answers[..n], key, max, duration);
      RequestOnlyHasNoTokens(expiration, run[..n], key, max, duration);
    }
  }

  /** The limiter says yes to at most `max` requests of a key in any window of a run that is played on it. */
  lemma AnswersAreBounded(
    expiration: int, run: seq<Timed>, answers: seq<bool>, key: string, max: int, duration: int, w: int)
    requires ClockOrdered(run) && WindowFits(expiration, duration)
    requires AnswersTo(expiration, run, answers) && UsedBy(run, key, max, duration, REQUEST_ONLY)
    ensures CountWithin(Granted(run, answers, key), w, w + duration) <= AtLeastZero(max)
  {
    hide Exec, Accepted, Granted, CountWithin;
    GrantedIsAccepted(expiration, run, answers, key, max, duration);
    WindowBound(expiration, run, key, max, duration, REQUEST_ONLY, w);
  }
}
