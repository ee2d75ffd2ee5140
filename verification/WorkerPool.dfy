/**
 The bounded pool that tests channels: a producer, a few workers, a closer and a reducer
 connected by unbuffered channels, with a context that may be cancelled at any moment.
 The pool is a step system; every interleaving of its goroutines is a sequence of steps.
 */
module WorkerPool {
  import opened Wrappers

  // ----------------------------------------------------------------- summaries

  datatype Summary = Summary(tested: int, succeeded: int, failed: int, disabled: int, enabled: int)

  const ZERO := Summary(0, 0, 0, 0, 0)

  function Add(a: Summary, b: Summary): Summary {
    Summary(a.tested + b.tested, a.succeeded + b.succeeded, a.failed + b.failed,
            a.disabled + b.disabled, a.enabled + b.enabled)
  }

  /** Every test either succeeded or failed; only failed ones disable and only succeeded ones enable. */
  predicate Balanced(s: Summary) {
    && s.tested == s.succeeded + s.failed
    && 0 <= s.disabled <= s.failed && 0 <= s.enabled <= s.succeeded
  }

  /** What one health check returns: a balanced summary of at most one test. */
  predicate IsOutcome(s: Summary) {
    Balanced(s) && 0 <= s.tested <= 1
  }

  /** The result of a channel, if the reducer has it. */
  type Reply = Option<Summary>

  /** What a health check observes: the test's errors, the clock, the channel and the settings. */
  datatype Observation = Observation(
    cancelled: bool,        // ctx.Err() after the test
    channelEnabled: bool,
    channelAutoDisabled: bool,
    autoBan: bool,
    apiError: bool,
    bannedByError: bool,    // service.ShouldDisableChannel on the api error
    localError: bool,
    slow: bool,             // response time above the threshold
    allowDisable: bool,
    automaticDisable: bool,
    automaticEnable: bool
  )

  /** One health check: what it counts, and when it switches the channel off or on. */
  method HealthCheck(o: Observation) returns (outcome: Summary)
    ensures IsOutcome(outcome)
    ensures outcome.tested == (if o.cancelled then 0 else 1)
    ensures outcome.failed == 1 <==> !o.cancelled && (o.apiError || (o.automaticDisable && o.slow))
    ensures outcome.disabled == 1 <==>
      && !o.cancelled && o.channelEnabled && o.allowDisable && o.autoBan
      && ((o.apiError && o.bannedByError) || (o.automaticDisable && o.slow))
    ensures outcome.enabled == 1 <==>
      outcome.succeeded == 1 && !o.localError && !o.channelEnabled && o.channelAutoDisabled && o.automaticEnable
  {
    var summary := ZERO;
    if o.cancelled {
      return summary;
    }
    summary := summary.(tested := summary.tested + 1);
    var shouldBan, failed := false, o.apiError;
    if o.apiError {
      shouldBan := o.bannedByError;
    }
    if o.automaticDisable && !shouldBan {
      if o.slow {
        failed, shouldBan := true, true;
      }
    }
    if !failed {
      summary := summary.(succeeded := summary.succeeded + 1);
    } else {
      summary := summary.(failed := summary.failed + 1);
    }
    if o.allowDisable && o.channelEnabled && shouldBan && o.autoBan {
      summary := summary.(disabled := summary.disabled + 1);
    }
    if !o.localError && !o.channelEnabled && o.automaticEnable && !failed && o.channelAutoDisabled {
      summary := summary.(enabled := summary.enabled + 1);
    }
    return summary;
  }

  // ---------------------------------------------------------------- the system

  /** A channel is tested unless it is nil or manually disabled; `outcome` is what its test returns. */
  datatype Channel = Channel(eligible: bool, outcome: Summary)

  datatype Config = Config(channels: seq<Channel>, concurrency: int, interval: bool)

  const MAX_CONCURRENCY := 32

  function WorkerCount(cfg: Config): nat {
    var normalized := if cfg.concurrency < 1 then 1 else if cfg.concurrency > MAX_CONCURRENCY then MAX_CONCURRENCY
                      else cfg.concurrency;
    if normalized < |cfg.channels| then normalized else |cfg.channels|
  }

  datatype Worker =
    | Idle                                // at the select over jobs and cancellation
    | Got(job: nat)                       // received a job, not yet looked at the context
    | Running(job: nat)
    | Holding(job: nat, result: Summary)  // blocked sending the result
    | Pausing
    | Exited

  predicate HasJob(w: Worker) {
    w.Got? || w.Running? || w.Holding?
  }

  datatype Reducer = Receiving | Reporting | Finished

  datatype State = State(
    cancelled: bool,
    next: nat,                    // the job the producer offers next
    jobsClosed: bool,
    workers: seq<Worker>,
    resultsClosed: bool,
    reducer: Reducer,
    summary: Summary,
    processed: nat,
    reports: seq<nat>,            // the progress reported so far
    runs: seq<nat>,               // how often each channel has been tested
    results: seq<Reply> // the result the reducer received for each channel
  )

  function NoResults(n: nat): seq<Reply> {
    seq(n, _ => None)
  }

  function Init(cfg: Config): State {
    var n := |cfg.channels|;
    State(false, 0, n == 0, seq(WorkerCount(cfg), _ => Idle), n == 0,
          if n == 0 then Finished else Receiving, ZERO, 0, [0], seq(n, _ => 0), NoResults(n))
  }

  datatype Step =
    | Cancel
    | Handoff(w: nat)
    | CloseJobs
    | AbandonJobs
    | LeaveCancelled(w: nat)
    | LeaveClosed(w: nat)
    | Inspect(w: nat)
    | Complete(w: nat, result: Summary)
    | Deliver(w: nat)
    | Report
    | Wake(w: nat)
    | CloseResults
    | Finish

  predicate Enabled(cfg: Config, s: State, step: Step) {
    match step
    case Cancel => !s.cancelled
    case Handoff(w) => !s.jobsClosed && s.next < |cfg.channels| && w < |s.workers| && s.workers[w].Idle?
    case CloseJobs => !s.jobsClosed && s.next == |cfg.channels|
    case AbandonJobs => !s.jobsClosed && s.cancelled
    case LeaveCancelled(w) => s.cancelled && w < |s.workers| && (s.workers[w].Idle? || s.workers[w].Pausing?)
    case LeaveClosed(w) => s.jobsClosed && w < |s.workers| && s.workers[w].Idle?
    case Inspect(w) => w < |s.workers| && s.workers[w].Got?
    case Complete(w, r) => w < |s.workers| && s.workers[w].Running? && MayReturn(cfg, s, s.workers[w].job, r)
    case Deliver(w) => s.reducer.Receiving? && w < |s.workers| && s.workers[w].Holding?
    case Report => s.reducer.Reporting?
    case Wake(w) => w < |s.workers| && s.workers[w].Pausing?
    case CloseResults => !s.resultsClosed && forall w :: 0 <= w < |s.workers| ==> s.workers[w].Exited?
    case Finish => s.resultsClosed && s.reducer.Receiving?
  }

  /**
   A result that may stand for channel `i`: zero if the channel is not eligible, otherwise
   what its test returns; a test that overlaps the cancellation may return another outcome.
   */
  predicate Faithful(cfg: Config, cancelled: bool, i: nat, r: Summary)
    requires i < |cfg.channels|
  {
    if !cfg.channels[i].eligible then r == ZERO
    else r == cfg.channels[i].outcome || (cancelled && IsOutcome(r))
  }

  predicate MayReturn(cfg: Config, s: State, job: nat, r: Summary) {
    job < |cfg.channels| &&
    Faithful(cfg, s.cancelled, job, r)
  }

  function SetWorker(s: State, w: nat, to: Worker): State
    requires w < |s.workers|
  {
    s.(workers := s.workers[w := to])
  }

  ghost predicate Shaped(cfg: Config, s: State) {
    && |s.workers| == WorkerCount(cfg)
    && |s.runs| == |s.results| == |cfg.channels|
    && s.next <= |cfg.channels|
    && (forall w :: 0 <= w < |s.workers| && HasJob(s.workers[w]) ==> s.workers[w].job < s.next)
  }

  function Apply(cfg: Config, s: State, step: Step): State
    requires Shaped(cfg, s) && Enabled(cfg, s, step)
  {
    match step
    case Cancel => s.(cancelled := true)
    case Handoff(w) => SetWorker(s, w, Got(s.next)).(next := s.next + 1)
    case CloseJobs => s.(jobsClosed := true)
    case AbandonJobs => s.(jobsClosed := true)
    case LeaveCancelled(w) => SetWorker(s, w, Exited)
    case LeaveClosed(w) => SetWorker(s, w, Exited)
    case Inspect(w) =>
      var job := s.workers[w].job;
      if s.cancelled then SetWorker(s, w, Exited)
      else
        SetWorker(s, w, Running(job)).(
          runs := if cfg.channels[job].eligible then s.runs[job := s.runs[job] + 1] else s.runs)
    case Complete(w, r) => SetWorker(s, w, Holding(s.workers[w].job, r))
    case Deliver(w) =>
      var Holding(job, r) := s.workers[w];
      SetWorker(s, w, if cfg.interval then Pausing else Idle)
        .(reducer := Reporting, summary := Add(s.summary, r), processed := s.processed + 1,
          results := s.results[job := Some(r)])
    case Report => s.(reducer := Receiving, reports := if s.cancelled then s.reports else s.reports + [s.processed])
    case Wake(w) => SetWorker(s, w, Idle)
    case CloseResults => s.(resultsClosed := true)
    case Finish => s.(reducer := Finished)
  }

  // ---------------------------------------------------------------- invariants

  function Once(cfg: Config, i: nat): nat
    requires i < |cfg.channels|
  {
    if cfg.channels[i].eligible then 1 else 0
  }

  ghost predicate Held(workers: seq<Worker>, i: nat) {
    exists w :: 0 <= w < |workers| && HasJob(workers[w]) && workers[w].job == i
  }

  lemma HeldKept(workers: seq<Worker>, w: nat, to: Worker, i: nat)
    requires w < |workers| && Held(workers, i)
    requires HasJob(workers[w]) && workers[w].job == i ==> HasJob(to) && to.job == i
    ensures Held(workers[w := to], i)
  {
    var v :| 0 <= v < |workers| && HasJob(workers[v]) && workers[v].job == i;
    assert HasJob(workers[w := to][v]) && workers[w := to][v].job == i;
  }

  /** What a worker with a job knows about it. */
  ghost predicate WorkerKnows(cfg: Config, s: State, w: Worker)
    requires Shaped(cfg, s) && (HasJob(w) ==> w.job < s.next)
  {
    && (HasJob(w) ==> s.results[w.job].None?)
    && (w.Got? ==> s.runs[w.job] == 0)
    && (w.Running? || w.Holding? ==> s.runs[w.job] == Once(cfg, w.job))
    && (w.Holding? ==> Faithful(cfg, s.cancelled, w.job, w.result))
  }

  ghost predicate Apart(workers: seq<Worker>) {
    forall w, v :: 0 <= w < v < |workers| && HasJob(workers[w]) && HasJob(workers[v])
      ==> workers[w].job != workers[v].job
  }

  /** No two workers have the same job, and each knows how far its own has got. */
  ghost predicate JobsApart(cfg: Config, s: State)
    requires Shaped(cfg, s)
  {
    && Apart(s.workers)
    && (forall w :: 0 <= w < |s.workers| ==> WorkerKnows(cfg, s, s.workers[w]))
  }

  /** Each channel is tested at most once, before its result arrives. */
  ghost predicate ChannelKnows(cfg: Config, s: State, i: nat)
    requires Shaped(cfg, s) && i < |cfg.channels|
  {
    && s.runs[i] <= Once(cfg, i)
    && (i >= s.next ==> s.runs[i] == 0 && s.results[i].None?)
    && (s.results[i].Some? ==> s.runs[i] == Once(cfg, i) && Faithful(cfg, s.cancelled, i, s.results[i].value))
  }

  /** A started test is not lost; without cancellation no job is. */
  ghost predicate NotLost(cfg: Config, s: State, i: nat)
    requires Shaped(cfg, s) && i < |cfg.channels|
  {
    i < s.next && (s.runs[i] > 0 || !s.cancelled) ==> s.results[i].Some? || Held(s.workers, i)
  }

  ghost predicate ChannelsTracked(cfg: Config, s: State)
    requires Shaped(cfg, s)
  {
    forall i :: 0 <= i < |cfg.channels| ==> ChannelKnows(cfg, s, i) && NotLost(cfg, s, i)
  }

  /** The order in which the goroutines stop. */
  ghost predicate StopsInOrder(cfg: Config, s: State) {
    && (s.jobsClosed && !s.cancelled ==> s.next == |cfg.channels|)
    && (forall w :: 0 <= w < |s.workers| && s.workers[w].Exited? && !s.cancelled ==> s.jobsClosed)
    && (s.resultsClosed ==> forall w :: 0 <= w < |s.workers| ==> s.workers[w].Exited?)
    && (s.reducer.Finished? ==> s.resultsClosed)
  }

  /** The progress reports are 0, 1, 2, ... without gaps, and stop for good at the cancellation. */
  ghost predicate ReportsInOrder(s: State) {
    && (forall i :: 0 <= i < |s.reports| ==> s.reports[i] == i)
    && 1 <= |s.reports| <= s.processed + (if s.reducer.Reporting? then 0 else 1)
    && (!s.cancelled ==> |s.reports| == s.processed + (if s.reducer.Reporting? then 0 else 1))
  }

  function Total(results: seq<Reply>): Summary {
    if results == [] then ZERO
    else
      var rest := Total(results[..|results| - 1]);
      match results[|results| - 1]
      case None => rest
      case Some(r) => Add(rest, r)
  }

  function Received(results: seq<Reply>): nat {
    if results == [] then 0
    else Received(results[..|results| - 1]) + (if results[|results| - 1].Some? then 1 else 0)
  }

  ghost predicate Accounted(s: State) {
    s.summary == Total(s.results) && s.processed == Received(s.results)
  }

  ghost predicate Inv(cfg: Config, s: State) {
    && Shaped(cfg, s) && JobsApart(cfg, s) && ChannelsTracked(cfg, s)
    && StopsInOrder(cfg, s) && ReportsInOrder(s) && Accounted(s)
  }

  lemma {:induction false} TotalAfterResult(results: seq<Reply>, i: nat, r: Summary)
    requires i < |results| && results[i].None?
    ensures Total(results[i := Some(r)]) == Add(Total(results), r)
    ensures Received(results[i := Some(r)]) == Received(results) + 1
  {
    var last := |results| - 1;
    if i < last {
      TotalAfterResult(results[..last], i, r);
      assert results[i := Some(r)][..last] == results[..last][i := Some(r)];
    } else {
      assert results[i := Some(r)][..last] == results[..last];
    }
  }

  lemma {:induction false} NothingReceived(results: seq<Reply>)
    requires forall i :: 0 <= i < |results| ==> results[i].None?
    ensures Total(results) == ZERO && Received(results) == 0
  {
    if results != [] {
      NothingReceived(results[..|results| - 1]);
    }
  }

  lemma InitInv(cfg: Config)
    ensures Inv(cfg, Init(cfg))
  {
    NothingReceived(Init(cfg).results);
  }

  lemma StepShaped(cfg: Config, s: State, step: Step)
    requires Shaped(cfg, s) && Enabled(cfg, s, step)
    ensures Shaped(cfg, Apply(cfg, s, step))
  {
  }

  lemma SetKeepsApart(workers: seq<Worker>, w: nat, to: Worker)
    requires Apart(workers) && w < |workers|
    requires HasJob(to) ==> forall v :: 0 <= v < |workers| && v != w && HasJob(workers[v]) ==> workers[v].job != to.job
    ensures Apart(workers[w := to])
  {
  }

  lemma HandoffKeepsApart(workers: seq<Worker>, w: nat, job: nat)
    requires Apart(workers) && w < |workers|
    requires forall v :: 0 <= v < |workers| && HasJob(workers[v]) ==> workers[v].job < job
    ensures Apart(workers[w := Got(job)])
  {
    SetKeepsApart(workers, w, Got(job));
  }

  lemma StepApart(cfg: Config, s: State, step: Step)
    requires Shaped(cfg, s) && Apart(s.workers) && Enabled(cfg, s, step)
    ensures Apart(Apply(cfg, s, step).workers)
  {
    hide Apart, MayReturn;
    match step
    case Handoff(w) => HandoffKeepsApart(s.workers, w, s.next);
    case LeaveCancelled(w) => NoJobKeepsApart(s.workers, w, Exited);
    case LeaveClosed(w) => NoJobKeepsApart(s.workers, w, Exited);
    case Inspect(w) =>
      if s.cancelled {
        NoJobKeepsApart(s.workers, w, Exited);
      } else {
        SameJobKeepsApart(s.workers, w, Running(s.workers[w].job));
      }
    case Complete(w, r) => SameJobKeepsApart(s.workers, w, Holding(s.workers[w].job, r));
    case Deliver(w) => NoJobKeepsApart(s.workers, w, if cfg.interval then Pausing else Idle);
    case Wake(w) => NoJobKeepsApart(s.workers, w, Idle);
    case _ =>
  }

  lemma NoJobKeepsApart(workers: seq<Worker>, w: nat, to: Worker)
    requires Apart(workers) && w < |workers| && !HasJob(to)
    ensures Apart(workers[w := to])
  {
    SetKeepsApart(workers, w, to);
  }

  lemma SameJobKeepsApart(workers: seq<Worker>, w: nat, to: Worker)
    requires Apart(workers) && w < |workers| && HasJob(workers[w]) && HasJob(to) && to.job == workers[w].job
    ensures Apart(workers[w := to])
  {
    SetKeepsApart(workers, w, to);
  }

  /** The step is one of this worker. */
  predicate IsOf(step: Step, w: nat) {
    && (|| step.Handoff? || step.LeaveCancelled? || step.LeaveClosed? || step.Inspect?
        || step.Complete? || step.Deliver? || step.Wake?)
    && step.w == w
  }

  /** What a worker knows stays true while its job is left alone. */
  lemma StillKnows(cfg: Config, s: State, s': State, w: Worker)
    requires Shaped(cfg, s) && Shaped(cfg, s') && s.next <= s'.next && (HasJob(w) ==> w.job < s.next)
    requires WorkerKnows(cfg, s, w) && (s.cancelled ==> s'.cancelled)
    requires HasJob(w) ==> s'.results[w.job] == s.results[w.job] && s'.runs[w.job] == s.runs[w.job]
    ensures WorkerKnows(cfg, s', w)
  {
  }

  lemma StepLeavesOthers(cfg: Config, s: State, step: Step, w: nat)
    requires Shaped(cfg, s) && JobsApart(cfg, s) && Enabled(cfg, s, step)
    requires Shaped(cfg, Apply(cfg, s, step)) && w < |s.workers| && !IsOf(step, w)
    ensures var s' := Apply(cfg, s, step);
      && s'.workers[w] == s.workers[w] && s.next <= s'.next && (s.cancelled ==> s'.cancelled)
      && (HasJob(s.workers[w]) ==>
            var job := s.workers[w].job; s'.results[job] == s.results[job] && s'.runs[job] == s.runs[job])
  {
    hide WorkerKnows, MayReturn;
  }

  lemma StepOwnKnows(cfg: Config, s: State, step: Step, w: nat)
    requires Shaped(cfg, s) && JobsApart(cfg, s) && ChannelsTracked(cfg, s) && Enabled(cfg, s, step)
    requires Shaped(cfg, Apply(cfg, s, step)) && w < |s.workers| && IsOf(step, w)
    ensures WorkerKnows(cfg, Apply(cfg, s, step), Apply(cfg, s, step).workers[w])
  {
    hide IsOutcome, NotLost, Apart;
    assert WorkerKnows(cfg, s, s.workers[w]);
    if step.Handoff? {
      assert ChannelKnows(cfg, s, s.next);
    }
  }

  lemma StepWorkerKnows(cfg: Config, s: State, step: Step, w: nat)
    requires Shaped(cfg, s) && JobsApart(cfg, s) && ChannelsTracked(cfg, s) && Enabled(cfg, s, step)
    requires Shaped(cfg, Apply(cfg, s, step)) && w < |s.workers|
    ensures WorkerKnows(cfg, Apply(cfg, s, step), Apply(cfg, s, step).workers[w])
  {
    if IsOf(step, w) {
      StepOwnKnows(cfg, s, step, w);
    } else {
      hide WorkerKnows, Apply, Enabled, Apart, ChannelsTracked;
      StepLeavesOthers(cfg, s, step, w);
      StillKnows(cfg, s, Apply(cfg, s, step), s.workers[w]);
    }
  }

  lemma StepChannelKnows(cfg: Config, s: State, step: Step, i: nat)
    requires Shaped(cfg, s) && JobsApart(cfg, s) && i < |cfg.channels| && ChannelKnows(cfg, s, i)
      && Enabled(cfg, s, step)
    requires Shaped(cfg, Apply(cfg, s, step))
    ensures ChannelKnows(cfg, Apply(cfg, s, step), i)
  {
  }

  lemma StepNotLost(cfg: Config, s: State, step: Step, i: nat)
    requires Shaped(cfg, s) && JobsApart(cfg, s) && i < |cfg.channels| && ChannelKnows(cfg, s, i) && NotLost(cfg, s, i)
    requires Enabled(cfg, s, step) && Shaped(cfg, Apply(cfg, s, step))
    ensures NotLost(cfg, Apply(cfg, s, step), i)
  {
    hide Apart, Faithful, Once;
    var s' := Apply(cfg, s, step);
    if step.Handoff? && i == s.next {
      assert HasJob(s'.workers[step.w]) && s'.workers[step.w].job == i;
    } else if Held(s.workers, i) {
      match step
      case Handoff(w) => HeldKept(s.workers, w, s'.workers[w], i);
      case LeaveCancelled(w) => HeldKept(s.workers, w, s'.workers[w], i);
      case LeaveClosed(w) => HeldKept(s.workers, w, s'.workers[w], i);
      case Inspect(w) => if !s.cancelled || s.workers[w].job != i { HeldKept(s.workers, w, s'.workers[w], i); }
      case Complete(w, r) => HeldKept(s.workers, w, s'.workers[w], i);
      case Deliver(w) => if s.workers[w].job != i { HeldKept(s.workers, w, s'.workers[w], i); }
      case Wake(w) => HeldKept(s.workers, w, s'.workers[w], i);
      case _ =>
    }
  }

  lemma StepStopsInOrder(cfg: Config, s: State, step: Step)
    requires Shaped(cfg, s) && StopsInOrder(cfg, s) && Enabled(cfg, s, step)
    ensures StopsInOrder(cfg, Apply(cfg, s, step))
  {
  }

  lemma StepReportsAndAccounts(cfg: Config, s: State, step: Step)
    requires Shaped(cfg, s) && JobsApart(cfg, s) && ReportsInOrder(s) && Accounted(s) && Enabled(cfg, s, step)
    ensures ReportsInOrder(Apply(cfg, s, step)) && Accounted(Apply(cfg, s, step))
  {
    if step.Deliver? {
      var Holding(job, r) := s.workers[step.w];
      TotalAfterResult(s.results, job, r);
    }
  }

  lemma StepInv(cfg: Config, s: State, step: Step)
    requires Inv(cfg, s) && Enabled(cfg, s, step)
    ensures Inv(cfg, Apply(cfg, s, step))
  {
    StepShaped(cfg, s, step);
    StepApart(cfg, s, step);
    forall w | 0 <= w < |s.workers| ensures WorkerKnows(cfg, Apply(cfg, s, step), Apply(cfg, s, step).workers[w]) {
      StepWorkerKnows(cfg, s, step, w);
    }
    forall i | 0 <= i < |cfg.channels|
      ensures ChannelKnows(cfg, Apply(cfg, s, step), i) && NotLost(cfg, Apply(cfg, s, step), i)
    {
      StepChannelKnows(cfg, s, step, i);
      StepNotLost(cfg, s, step, i);
    }
    StepStopsInOrder(cfg, s, step);
    StepReportsAndAccounts(cfg, s, step);
  }

  // ------------------------------------------------------ progress and stopping

  /** The caller has its summary and no goroutine is left. */
  predicate Final(s: State) {
    s.reducer.Finished? && s.jobsClosed && s.resultsClosed
  }

  /** Something other than a cancellation can always happen until everything has stopped. */
  lemma NoDeadlock(cfg: Config, s: State) returns (step: Step)
    requires Inv(cfg, s) && !Final(s)
    ensures Enabled(cfg, s, step) && !step.Cancel?
  {
    if s.reducer.Reporting? {
      return Report;
    }
    if w :| 0 <= w < |s.workers| && !s.workers[w].Exited? {
      match s.workers[w]
      case Got(_) => return Inspect(w);
      case Running(job) =>
        return Complete(w, if cfg.channels[job].eligible then cfg.channels[job].outcome else ZERO);
      case Holding(_, _) => return Deliver(w);
      case Pausing => return Wake(w);
      case Idle =>
        return if s.jobsClosed then LeaveClosed(w) else if s.next < |cfg.channels| then Handoff(w) else CloseJobs;
    }
    if !s.resultsClosed {
      return CloseResults;
    }
    if s.reducer.Receiving? {
      return Finish;
    }
    assert |cfg.channels| > 0 ==> s.workers[0].Exited?;
    return if s.cancelled then AbandonJobs else CloseJobs;
  }

  function Weight(w: Worker): nat {
    match w
    case Exited => 0
    case Idle => 1
    case Pausing => 2
    case Holding(_, _) => 4
    case Running(_) => 5
    case Got(_) => 6
  }

  function Weights(workers: seq<Worker>): nat {
    if workers == [] then 0 else Weights(workers[..|workers| - 1]) + Weight(workers[|workers| - 1])
  }

  lemma {:induction false} WeightsAfter(workers: seq<Worker>, w: nat, to: Worker)
    requires w < |workers|
    ensures Weights(workers[w := to]) == Weights(workers) - Weight(workers[w]) + Weight(to)
  {
    var last := |workers| - 1;
    if w < last {
      WeightsAfter(workers[..last], w, to);
      assert workers[w := to][..last] == workers[..last][w := to];
    } else {
      assert workers[w := to][..last] == workers[..last];
    }
  }

  /** Steps the pool can still take, at most. */
  function Measure(cfg: Config, s: State): nat
    requires Shaped(cfg, s)
  {
    6 * (|cfg.channels| - s.next) + Weights(s.workers)
    + (if s.jobsClosed then 0 else 1) + (if s.resultsClosed then 0 else 1) + (if s.cancelled then 0 else 1)
    + (match s.reducer case Finished => 0 case Receiving => 1 case Reporting => 2)
  }

  lemma StepDecreasesMeasure(cfg: Config, s: State, step: Step)
    requires Shaped(cfg, s) && Enabled(cfg, s, step) && Shaped(cfg, Apply(cfg, s, step))
    ensures Measure(cfg, Apply(cfg, s, step)) < Measure(cfg, s)
  {
    var s' := Apply(cfg, s, step);
    if step.Handoff? || step.LeaveCancelled? || step.LeaveClosed? || step.Inspect?
       || step.Complete? || step.Deliver? || step.Wake? {
      WeightsAfter(s.workers, step.w, s'.workers[step.w]);
    }
  }

  // ---------------------------------------------------------------------- runs

  /** The state after a schedule; a step that is not possible when its turn comes does nothing. */
  ghost function Exec(cfg: Config, run: seq<Step>): State {
    if run == [] then Init(cfg)
    else
      var s := Exec(cfg, run[..|run| - 1]);
      if Shaped(cfg, s) && Enabled(cfg, s, run[|run| - 1]) then Apply(cfg, s, run[|run| - 1]) else s
  }

  lemma {:induction false} RunInv(cfg: Config, run: seq<Step>)
    ensures Inv(cfg, Exec(cfg, run))
  {
    if run == [] {
      InitInv(cfg);
    } else {
      RunInv(cfg, run[..|run| - 1]);
      var s := Exec(cfg, run[..|run| - 1]);
      if Enabled(cfg, s, run[|run| - 1]) {
        StepInv(cfg, s, run[|run| - 1]);
      }
    }
  }

  /** How many steps of the schedule were actually taken. */
  ghost function Taken(cfg: Config, run: seq<Step>): nat {
    if run == [] then 0
    else Taken(cfg, run[..|run| - 1]) + (if Enabled(cfg, Exec(cfg, run[..|run| - 1]), run[|run| - 1]) then 1 else 0)
  }

  /** No schedule makes the pool take more steps than this. */
  lemma {:induction false} RunIsBounded(cfg: Config, run: seq<Step>)
    ensures Taken(cfg, run) <= 6 * |cfg.channels| + WorkerCount(cfg) + 4
  {
    RunMeasure(cfg, run);
    RunInv(cfg, []);
    IdleWeights(Init(cfg).workers);
  }

  lemma {:induction false} IdleWeights(workers: seq<Worker>)
    requires forall w :: 0 <= w < |workers| ==> workers[w].Idle?
    ensures Weights(workers) == |workers|
  {
    if workers != [] { IdleWeights(workers[..|workers| - 1]); }
  }

  lemma {:induction false} RunMeasure(cfg: Config, run: seq<Step>)
    ensures Shaped(cfg, Exec(cfg, run)) && Shaped(cfg, Init(cfg))
    ensures Taken(cfg, run) + Measure(cfg, Exec(cfg, run)) <= Measure(cfg, Init(cfg))
  {
    RunInv(cfg, run);
    InitInv(cfg);
    if run != [] {
      RunMeasure(cfg, run[..|run| - 1]);
      var s := Exec(cfg, run[..|run| - 1]);
      if Enabled(cfg, s, run[|run| - 1]) {
        StepDecreasesMeasure(cfg, s, run[|run| - 1]);
      }
    }
  }

  // ------------------------------------------------------------- main theorems

  /**
   As many workers as channels, but no more than configured, and never more than 32; a
   configured number below one counts as one.
   */
  lemma RunHasWorkers(cfg: Config, run: seq<Step>)
    ensures var n := |Exec(cfg, run).workers|;
      && n <= |cfg.channels| && n <= 32 && (1 <= cfg.concurrency ==> n <= cfg.concurrency)
      && (cfg.concurrency < 1 ==> n <= 1)
      && (n == |cfg.channels| || n == 32 || n == cfg.concurrency || (cfg.concurrency < 1 && n == 1))
  {
    RunInv(cfg, run);
  }

  ghost predicate NonePauses(workers: seq<Worker>) {
    forall w :: 0 <= w < |workers| ==> !workers[w].Pausing?
  }

  /** A worker pauses after a result exactly when an interval is configured. */
  lemma StepPauses(cfg: Config, s: State, step: Step)
    requires Shaped(cfg, s) && Enabled(cfg, s, step)
    ensures !cfg.interval && NonePauses(s.workers) ==> NonePauses(Apply(cfg, s, step).workers)
    ensures step.Deliver? ==> (Apply(cfg, s, step).workers[step.w].Pausing? <==> cfg.interval)
  {
    hide MayReturn;
  }

  /** Without a configured interval no worker ever pauses. */
  lemma {:induction false} RunPauses(cfg: Config, run: seq<Step>)
    requires !cfg.interval
    ensures NonePauses(Exec(cfg, run).workers)
  {
    if run != [] {
      hide NonePauses, Apply, Enabled;
      RunPauses(cfg, run[..|run| - 1]);
      var s := Exec(cfg, run[..|run| - 1]);
      if Shaped(cfg, s) && Enabled(cfg, s, run[|run| - 1]) {
        StepPauses(cfg, s, run[|run| - 1]);
      }
    }
  }

  /** The sum of the outcomes of the channels that are to be tested. */
  function Expected(channels: seq<Channel>): Summary {
    if channels == [] then ZERO
    else
      var rest := Expected(channels[..|channels| - 1]);
      var c := channels[|channels| - 1];
      if c.eligible then Add(rest, c.outcome) else rest
  }

  function Upto(n: nat): seq<nat> {
    seq(n + 1, i => i)
  }

  lemma {:induction false} TotalIsExpected(channels: seq<Channel>, results: seq<Reply>)
    requires |channels| == |results|
    requires forall i :: 0 <= i < |results| ==> results[i].Some?
    requires forall i :: 0 <= i < |results| ==>
      results[i].value == if channels[i].eligible then channels[i].outcome else ZERO
    ensures Total(results) == Expected(channels) && Received(results) == |channels|
  {
    if results != [] {
      TotalIsExpected(channels[..|channels| - 1], results[..|results| - 1]);
    }
  }

  /** Adds up one counter. */
  function Sum(outcomes: seq<Summary>, counter: Summary -> int): int {
    if outcomes == [] then 0 else Sum(outcomes[..|outcomes| - 1], counter) + counter(outcomes[|outcomes| - 1])
  }

  /** Each counter of the summary is the sum of that counter over these outcomes. */
  ghost predicate AddsUp(summary: Summary, outcomes: seq<Summary>) {
    && summary.tested == Sum(outcomes, (o: Summary) => o.tested)
    && summary.succeeded == Sum(outcomes, (o: Summary) => o.succeeded)
    && summary.failed == Sum(outcomes, (o: Summary) => o.failed)
    && summary.disabled == Sum(outcomes, (o: Summary) => o.disabled)
    && summary.enabled == Sum(outcomes, (o: Summary) => o.enabled)
  }

  /** The outcomes of the channels that are to be tested. */
  function Outcomes(channels: seq<Channel>): seq<Summary> {
    if channels == [] then []
    else
      var rest, c := Outcomes(channels[..|channels| - 1]), channels[|channels| - 1];
      if c.eligible then rest + [c.outcome] else rest
  }

  /** The results that were received. */
  function Replies(results: seq<Reply>): seq<Summary> {
    if results == [] then []
    else
      var rest := Replies(results[..|results| - 1]);
      match results[|results| - 1]
      case Some(r) => rest + [r]
      case None => rest
  }

  lemma AddsUpNext(summary: Summary, outcomes: seq<Summary>, next: Summary)
    requires AddsUp(summary, outcomes)
    ensures AddsUp(Add(summary, next), outcomes + [next])
  {
    assert (outcomes + [next])[..|outcomes|] == outcomes;
  }

  lemma {:induction false} ExpectedAddsUp(channels: seq<Channel>)
    ensures AddsUp(Expected(channels), Outcomes(channels))
  {
    if channels != [] {
      hide AddsUp, Add;
      var front, c := channels[..|channels| - 1], channels[|channels| - 1];
      ExpectedAddsUp(front);
      AddsUpNext(Expected(front), Outcomes(front), c.outcome);
    }
  }

  lemma {:induction false} TotalAddsUp(results: seq<Reply>)
    ensures AddsUp(Total(results), Replies(results)) && |Replies(results)| == Received(results)
  {
    if results != [] {
      hide AddsUp, Add;
      var front := results[..|results| - 1];
      TotalAddsUp(front);
      if results[|results| - 1].Some? {
        AddsUpNext(Total(front), Replies(front), results[|results| - 1].value);
      }
    }
  }

  /** At every moment of every schedule each counter is the sum of that counter over the received results. */
  lemma RunAddsUp(cfg: Config, run: seq<Step>)
    ensures var s := Exec(cfg, run); AddsUp(s.summary, Replies(s.results)) && |Replies(s.results)| == s.processed
  {
    RunInv(cfg, run);
    TotalAddsUp(Exec(cfg, run).results);
  }

  /** At every moment of every schedule no channel has been tested twice, and no ineligible one at all. */
  lemma TestedAtMostOnce(cfg: Config, run: seq<Step>, i: nat)
    requires i < |cfg.channels|
    ensures |Exec(cfg, run).runs| == |cfg.channels|
    ensures Exec(cfg, run).runs[i] <= (if cfg.channels[i].eligible then 1 else 0)
  {
    RunInv(cfg, run);
    assert ChannelKnows(cfg, Exec(cfg, run), i);
  }

  /** Without cancellation every schedule that stops yields the same summary and the same reports. */
  lemma UncancelledResult(cfg: Config, run: seq<Step>)
    requires Final(Exec(cfg, run)) && !Exec(cfg, run).cancelled
    ensures var s := Exec(cfg, run);
      && s.summary == Expected(cfg.channels) && AddsUp(s.summary, Outcomes(cfg.channels))
      && s.reports == Upto(|cfg.channels|)
      && |s.runs| == |cfg.channels|
      && forall i :: 0 <= i < |cfg.channels| ==> s.runs[i] == Once(cfg, i)
  {
    var s := Exec(cfg, run);
    RunInv(cfg, run);
    forall i | 0 <= i < |cfg.channels| ensures s.results[i].Some? && ChannelKnows(cfg, s, i) {
      assert NotLost(cfg, s, i);
    }
    TotalIsExpected(cfg.channels, s.results);
    ExpectedAddsUp(cfg.channels);
  }

  /**
   Whenever the cancellation comes, the summary that the caller gets is the sum of the
   results that were received, every test that was started is among them, and the
   reports are 0, 1, ... up to some point.
   */
  lemma StoppedResult(cfg: Config, run: seq<Step>)
    requires Final(Exec(cfg, run))
    ensures var s := Exec(cfg, run);
      && s.summary == Total(s.results) && s.processed == Received(s.results) && AddsUp(s.summary, Replies(s.results))
      && |s.runs| == |s.results| == |cfg.channels|
      && (forall i :: 0 <= i < |cfg.channels| && s.runs[i] > 0 ==> s.results[i].Some?)
      && (forall i :: 0 <= i < |cfg.channels| && s.results[i].Some? ==> s.runs[i] == Once(cfg, i))
      && (forall w :: 0 <= w < |s.workers| ==> s.workers[w].Exited?)
      && exists m :: 0 <= m <= s.processed && s.reports == Upto(m)
  {
    var s := Exec(cfg, run);
    RunInv(cfg, run);
    TotalAddsUp(s.results);
    forall i | 0 <= i < |cfg.channels|
      ensures (s.runs[i] > 0 ==> s.results[i].Some?) && (s.results[i].Some? ==> s.runs[i] == Once(cfg, i))
    {
      assert ChannelKnows(cfg, s, i) && NotLost(cfg, s, i);
    }
    assert s.reports == Upto(|s.reports| - 1);
  }

  /** Sums of outcomes are balanced, and count no more tests than there are outcomes. */
  lemma {:induction false} TotalIsBalanced(results: seq<Reply>)
    requires forall i :: 0 <= i < |results| && results[i].Some? ==> IsOutcome(results[i].value)
    ensures Balanced(Total(results)) && 0 <= Total(results).tested <= Received(results) <= |results|
  {
    if results != [] {
      TotalIsBalanced(results[..|results| - 1]);
    }
  }

  /** What the tests return are outcomes of health checks. */
  ghost predicate HealthChecks(cfg: Config) {
    forall i :: 0 <= i < |cfg.channels| ==> IsOutcome(cfg.channels[i].outcome)
  }

  lemma InvIsBalanced(cfg: Config, s: State)
    requires HealthChecks(cfg) && Inv(cfg, s)
    ensures Balanced(s.summary) && 0 <= s.summary.tested <= s.processed <= |cfg.channels|
  {
    forall i | 0 <= i < |s.results| && s.results[i].Some? ensures IsOutcome(s.results[i].value) {
      assert ChannelKnows(cfg, s, i);
    }
    TotalIsBalanced(s.results);
  }

  /**
   At every moment of every schedule, cancelled or not, the summary balances: every test
   succeeded or failed, and no more channels were switched than tested, nor tested than
   processed, nor processed than there are.
   */
  lemma RunIsBalanced(cfg: Config, run: seq<Step>)
    requires HealthChecks(cfg)
    ensures var s := Exec(cfg, run);
      && Balanced(s.summary)
      && 0 <= s.summary.disabled + s.summary.enabled <= s.summary.tested <= s.processed <= |cfg.channels|
  {
    RunInv(cfg, run);
    InvIsBalanced(cfg, Exec(cfg, run));
  }

  /** Whatever enabled step the scheduler picks, the pool stops, and with the expected summary. */
  method RunChannelTestWorkers(cfg: Config, pick: State -> Step) returns (s: State)
    requires forall t :: Inv(cfg, t) && !Final(t) ==> Enabled(cfg, t, pick(t))
    ensures Final(s) && AddsUp(s.summary, Replies(s.results))
    ensures HealthChecks(cfg) ==> Balanced(s.summary)
    ensures !s.cancelled ==> AddsUp(s.summary, Outcomes(cfg.channels)) && s.reports == Upto(|cfg.channels|)
  {
    s := Init(cfg);
    InitInv(cfg);
    ghost var run := [];
    while !Final(s)
      invariant Inv(cfg, s) && s == Exec(cfg, run)
      decreases Measure(cfg, s)
    {
      var step := pick(s);
      StepInv(cfg, s, step);
      StepDecreasesMeasure(cfg, s, step);
      s := Apply(cfg, s, step);
      assert (run + [step])[..|run|] == run;
      run := run + [step];
    }
    TotalAddsUp(s.results);
    if HealthChecks(cfg) {
      InvIsBalanced(cfg, s);
    }
    if !s.cancelled {
      UncancelledResult(cfg, run);
    }
  }
}
