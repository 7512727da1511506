/**
 * The scheduler interface of the cooperative runtime (`AccessTiming`,
 * `AccessExecutorSignals`), `sleep_at_most`, and two ways of describing async code.
 *
 * Poll level: a future is a state plus a poll function; one poll reads the context
 * `Ctx` (the instant and the signals of the current executor step), may record delay
 * requests in it, and may change the shared world `W`.
 *
 * Trace level: an async function whose body loops across awaits is run against the
 * observations it makes at its first poll and at every resumption. `Drive` turns one
 * step of such a function (what it does between two suspensions) into its whole run:
 * the delay request made at each suspension and, if it got that far, its result.
 */
module AsyncLib {
  import opened Base
  import opened Milliseconds
  import opened Polling
  import opened YieldNowFuture

  /**
   * What a poll sees of the scheduler: the instant and signals of the current step
   * (`get_instant`, `get_executor_signals`), the delay requests made so far in this step
   * (`set_delay_request`), and the world shared with the host.
   */
  datatype Ctx<X, W> = Ctx(instant: InstantMillis, signals: X, requests: seq<I32>, world: W)

  /** `get_instant`: the instant passed to the latest executor step. */
  function GetInstant<X, W>(c: Ctx<X, W>): InstantMillis
  {
    c.instant
  }

  /** `get_executor_signals`: the signals passed to the latest executor step. */
  function GetExecutorSignals<X, W>(c: Ctx<X, W>): X
  {
    c.signals
  }

  /** `set_delay_request(d)`: records one more request of the current step. */
  function SetDelayRequest<X, W>(c: Ctx<X, W>, d: I32): (c': Ctx<X, W>)
    ensures c'.requests == c.requests + [d]
    ensures c'.instant == c.instant && c'.signals == c.signals && c'.world == c.world
  {
    c.(requests := c.requests + [d])
  }

  /** The error value of a wait that saw the stop signal. */
  datatype Stopped = Stopped

  // ---------------------------------------------------------------------------------
  // sleep_at_most as a poll-level state machine

  /**
   * The states of the `sleep_at_most(sys, duration)` future: not yet polled, suspended
   * in its `yield_now().await` (holding the `YieldNow` flag), or completed.
   */
  datatype SleepAtMost = Unresumed(duration: I32) | Suspended(yielder: bool) | Returned

  /** One poll of `sleep_at_most`. Polling a completed async function panics. */
  function SleepPoll<X, W>(s: SleepAtMost, c: Ctx<X, W>): (r: Stepped<SleepAtMost, Ctx<X, W>, ()>)
    requires !s.Returned?
    ensures r.env.instant == c.instant && r.env.signals == c.signals && r.env.world == c.world
  {
    match s
    case Unresumed(d) =>
      var c' := SetDelayRequest(c, d);
      var (flag, p) := YieldStep(false);
      if p.Ready? then Stepped(Returned, c', Ready(())) else Stepped(Suspended(flag), c', Pending)
    case Suspended(flag) =>
      var (flag', p) := YieldStep(flag);
      if p.Ready? then Stepped(Returned, c, Ready(())) else Stepped(Suspended(flag'), c, Pending)
  }

  /**
   * `sleep_at_most(d)` records exactly one delay request, `d`, and suspends exactly
   * once: the first poll answers `Pending` after appending `d`, the second answers
   * `Ready(())` and records nothing.
   */
  lemma SleepAtMostSuspendsOnce<X, W>(d: I32, c1: Ctx<X, W>, c2: Ctx<X, W>)
    ensures
      var r1 := SleepPoll(Unresumed(d), c1);
      r1.poll == Pending && r1.env.requests == c1.requests + [d] && !r1.state.Returned? &&
      var r2 := SleepPoll(r1.state, c2);
      r2.poll == Ready(()) && r2.env == c2 && r2.state == Returned
  {
  }

  // ---------------------------------------------------------------------------------
  // Trace level

  /** What one step of an async loop does: return a value, or suspend (requesting a
   *  maximum delay when the suspension is a `sleep_at_most`) and continue in `next`. */
  datatype Decision<S, R> = Return(value: R) | Suspend(request: Option<I32>, next: S)

  /**
   * A run against a finite list of observations: `requests[i]` is the delay request of
   * the i-th suspension (`None` for a plain `yield_now`). `Finished` after k suspensions
   * means the function returned at the poll that read observation k; `Waiting` means it
   * was still suspended when the observations ran out.
   */
  datatype Run<R> = Finished(value: R, requests: seq<Option<I32>>) | Waiting(requests: seq<Option<I32>>)

  function Prepend<R>(r: Option<I32>, run: Run<R>): (run': Run<R>)
    ensures run'.requests == [r] + run.requests
    ensures run'.Finished? == run.Finished?
    ensures run'.Finished? ==> run'.value == run.value
  {
    match run
    case Finished(v, rs) => Finished(v, [r] + rs)
    case Waiting(rs) => Waiting([r] + rs)
  }

  /** The shape of `run` over `obs`: every suspension's observation and request satisfy
   *  `susp`, and a finished run's last observation and value satisfy `end`. */
  ghost predicate RunShape<O, R>(obs: seq<O>, run: Run<R>, susp: (O, Option<I32>) -> bool, end: (O, R) -> bool)
  {
    |run.requests| <= |obs| &&
    (forall i | 0 <= i < |run.requests| :: susp(obs[i], run.requests[i])) &&
    (run.Finished? ==> |run.requests| < |obs| && end(obs[|run.requests|], run.value))
  }

  /** A run of the given shape put behind one more observation and request: its
   *  suspensions and its end keep their shape, one position later. */
  lemma RunShapeShifted<O, R>(obs: seq<O>, r: Option<I32>, run: Run<R>,
                              susp: (O, Option<I32>) -> bool, end: (O, R) -> bool)
    requires obs != [] && RunShape(obs[1..], run, susp, end)
    ensures var run' := Prepend(r, run);
      |run'.requests| <= |obs| &&
      (forall i | 1 <= i < |run'.requests| :: susp(obs[i], run'.requests[i])) &&
      (run'.Finished? ==> |run'.requests| < |obs| && end(obs[|run'.requests|], run'.value))
  {
    var run' := Prepend(r, run);
    forall i | 1 <= i < |run'.requests|
      ensures susp(obs[i], run'.requests[i])
    {
      assert obs[1..][i - 1] == obs[i];
      assert run'.requests[i] == run.requests[i - 1];
    }
    if run'.Finished? {
      assert obs[|run'.requests|] == obs[1..][|run.requests|];
    }
  }

  /** A suspension of the given shape in front of a run of that shape. */
  lemma RunShapePrepend<O, R>(obs: seq<O>, r: Option<I32>, run: Run<R>,
                              susp: (O, Option<I32>) -> bool, end: (O, R) -> bool)
    requires obs != [] && susp(obs[0], r) && RunShape(obs[1..], run, susp, end)
    ensures RunShape(obs, Prepend(r, run), susp, end)
  {
    RunShapeShifted(obs, r, run, susp, end);
  }

  /**
   * The run of an async loop whose step is `step`, started in `s`; `obs[0]` is what it
   * observes at its first poll and `obs[i]` what it observes after its i-th suspension.
   */
  function Drive<S, O, R>(step: (S, O) -> Decision<S, R>, s: S, obs: seq<O>): (run: Run<R>)
    ensures run.Waiting? ==> |run.requests| == |obs|
    ensures run.Finished? ==> |run.requests| < |obs|
    decreases |obs|
  {
    if obs == [] then Waiting([])
    else
      match step(s, obs[0])
      case Return(v) => Finished(v, [])
      case Suspend(r, s') => Prepend(r, Drive(step, s', obs[1..]))
  }

  /**
   * Reasoning principle for `Drive`: if `inv` holds initially, every suspension from an
   * `inv` state keeps `inv` and makes a request satisfying `req`, and every return from
   * an `inv` state satisfies `ret` for the observation it returned on, then every
   * request of the run satisfies `req` and a finished run's value satisfies `ret` for
   * its last observation.
   */
  lemma {:induction false} DriveInvariant<S, O, R>(
    step: (S, O) -> Decision<S, R>, s: S, obs: seq<O>,
    inv: S -> bool, req: Option<I32> -> bool, ret: (R, O) -> bool)
    requires inv(s)
    requires forall s0, o | inv(s0) && step(s0, o).Suspend? ::
      inv(step(s0, o).next) && req(step(s0, o).request)
    requires forall s0, o | inv(s0) && step(s0, o).Return? :: ret(step(s0, o).value, o)
    ensures forall i | 0 <= i < |Drive(step, s, obs).requests| :: req(Drive(step, s, obs).requests[i])
    ensures Drive(step, s, obs).Finished? ==>
      ret(Drive(step, s, obs).value, obs[|Drive(step, s, obs).requests|])
  {
    if obs != [] {
      match step(s, obs[0])
      case Return(v) =>
      case Suspend(r, s') =>
        DriveInvariant(step, s', obs[1..], inv, req, ret);
        var rest := Drive(step, s', obs[1..]);
        assert Drive(step, s, obs) == Prepend(r, rest);
        assert forall i | 1 <= i < |obs| :: obs[1..][i - 1] == obs[i];
    }
  }

  /** The states an async loop is suspended in, one per suspension of its run: what code
   *  sharing state with it can observe between its polls. */
  function Trace<S, O, R>(step: (S, O) -> Decision<S, R>, s: S, obs: seq<O>): (states: seq<S>)
    ensures |states| == |Drive(step, s, obs).requests|
    decreases |obs|
  {
    if obs == [] then []
    else
      match step(s, obs[0])
      case Return(_) => []
      case Suspend(_, s') => [s'] + Trace(step, s', obs[1..])
  }

  /** Every state of the trace satisfies an invariant that holds initially and that every
   *  suspension preserves; with it, a state of the trace is what the step made of the
   *  previous one and that suspension's observation. */
  lemma {:induction false} TraceInvariant<S, O, R>(
    step: (S, O) -> Decision<S, R>, s: S, obs: seq<O>, inv: S -> bool)
    requires inv(s)
    requires forall s0, o | inv(s0) && step(s0, o).Suspend? :: inv(step(s0, o).next)
    ensures forall i | 0 <= i < |Trace(step, s, obs)| :: inv(Trace(step, s, obs)[i])
    ensures forall i | 0 <= i < |Trace(step, s, obs)| ::
      var before := if i == 0 then s else Trace(step, s, obs)[i - 1];
      step(before, obs[i]) == Suspend(Drive(step, s, obs).requests[i], Trace(step, s, obs)[i])
    decreases |obs|
  {
    if obs != [] {
      match step(s, obs[0])
      case Return(_) =>
      case Suspend(r, s') =>
        TraceInvariant(step, s', obs[1..], inv);
        assert Trace(step, s, obs) == [s'] + Trace(step, s', obs[1..]);
        assert Drive(step, s, obs) == Prepend(r, Drive(step, s', obs[1..]));
        assert forall i | 1 <= i < |obs| :: obs[1..][i - 1] == obs[i];
    }
  }

  /** Prepends the requests of the polls already done to the run of the rest. */
  function AfterRequests<R>(rs: seq<Option<I32>>, run: Run<R>): (run': Run<R>)
    ensures run'.requests == rs + run.requests
    ensures run'.Finished? == run.Finished? && (run'.Finished? ==> run'.value == run.value)
  {
    match run
    case Finished(v, rs') => Finished(v, rs + rs')
    case Waiting(rs') => Waiting(rs + rs')
  }

  /** A poll that returns ends the run and the trace. */
  lemma DriveReturns<S, O, R>(step: (S, O) -> Decision<S, R>, s: S, obs: seq<O>, rs: seq<Option<I32>>)
    requires obs != [] && step(s, obs[0]).Return?
    ensures AfterRequests(rs, Drive(step, s, obs)) == Finished(step(s, obs[0]).value, rs)
    ensures Trace(step, s, obs) == []
  {
  }

  /** A poll that suspends moves its request and its state from the rest of the run to
   *  the part already done. */
  lemma DriveSuspends<S, O, R>(step: (S, O) -> Decision<S, R>, s: S, obs: seq<O>,
                               rs: seq<Option<I32>>, done: seq<S>)
    requires obs != [] && step(s, obs[0]).Suspend?
    ensures var d := step(s, obs[0]);
      AfterRequests(rs, Drive(step, s, obs)) == AfterRequests(rs + [d.request], Drive(step, d.next, obs[1..])) &&
      done + Trace(step, s, obs) == (done + [d.next]) + Trace(step, d.next, obs[1..])
  {
    var d := step(s, obs[0]);
    var rest := Drive(step, d.next, obs[1..]);
    assert rs + ([d.request] + rest.requests) == (rs + [d.request]) + rest.requests;
  }

  /** A loop over `obs` that started in `s0` has reached position `k` in state `cur`,
   *  having made the requests `rs` and passed through the states `done`. */
  ghost predicate RunSoFar<S, O, R>(step: (S, O) -> Decision<S, R>, s0: S, cur: S, obs: seq<O>, k: nat,
                                    rs: seq<Option<I32>>, done: seq<S>)
  {
    k <= |obs| &&
    Drive(step, s0, obs) == AfterRequests(rs, Drive(step, cur, obs[k..])) &&
    Trace(step, s0, obs) == done + Trace(step, cur, obs[k..])
  }

  /** `DriveSuspends` at position `k` of such a loop: a poll that suspends moves the loop
   *  on to position `k + 1`. */
  lemma DriveAdvances<S, O, R>(step: (S, O) -> Decision<S, R>, s0: S, cur: S, obs: seq<O>, k: nat,
                               rs: seq<Option<I32>>, done: seq<S>)
    requires RunSoFar(step, s0, cur, obs, k, rs, done)
    requires k < |obs| && step(cur, obs[k]).Suspend?
    ensures var d := step(cur, obs[k]);
      RunSoFar(step, s0, d.next, obs, k + 1, rs + [d.request], done + [d.next])
  {
    assert obs[k..][0] == obs[k] && obs[k..][1..] == obs[k + 1..];
    DriveSuspends(step, cur, obs[k..], rs, done);
  }
}
