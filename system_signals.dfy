/** The executor signal flags of the device and the waits on them. */
module SystemSignals {
  import opened Base
  import opened Milliseconds
  import opened AsyncLib

  const NUM_RELAYS: nat := 4

  /** The one kind of signal: some button changed (spurious signals are allowed). */
  datatype Signal = ButtonSignal

  type SignalFlags = set<Signal>

  /** `SignalFlags::default()`: no flag set, so a step with no signal set is the default. */
  function DefaultSignals(): (f: SignalFlags)
    ensures ButtonSignal !in f && |f| == 0
  {
    {}
  }

  /** What the waits read at a poll: the instant, the executor signals of the current
   *  step, and the stop flag. */
  datatype SysObs = SysObs(now: InstantMillis, signals: SignalFlags, stop: bool)

  datatype EventWait = Begin | Yielded

  /** `wait_event(event_signal)`: `loop { yield_now().await; if sig & event_signal != 0 {
   *  return it } }`. */
  function WaitEventStep(eventSignal: SignalFlags, s: EventWait, o: SysObs): (r: Decision<EventWait, SignalFlags>)
    ensures r.Return? ==> s == Yielded && r.value != {} && r.value <= eventSignal && r.value <= o.signals
    ensures r.Suspend? ==> r == Suspend(None, Yielded)
  {
    match s
    case Begin => Suspend(None, Yielded)
    case Yielded =>
      var inters := o.signals * eventSignal;
      if inters != {} then Return(inters) else Suspend(None, Yielded)
  }

  function WaitEvent(eventSignal: SignalFlags, obs: seq<SysObs>): Run<SignalFlags>
  {
    Drive((s, o) => WaitEventStep(eventSignal, s, o), Begin, obs)
  }

  lemma {:induction false} WaitEventFrom(eventSignal: SignalFlags, s: EventWait, obs: seq<SysObs>)
    ensures var run := Drive((s0, o) => WaitEventStep(eventSignal, s0, o), s, obs);
      (forall i | 0 <= i < |run.requests| ::
        run.requests[i].None? && (i > 0 || s == Yielded ==> obs[i].signals * eventSignal == {})) &&
      (run.Finished? ==>
        var k := |run.requests|;
        (k > 0 || s == Yielded) && run.value == obs[k].signals * eventSignal && run.value != {})
    decreases |obs|
  {
    var f := (s0, o) => WaitEventStep(eventSignal, s0, o);
    if obs != [] && f(s, obs[0]).Suspend? {
      WaitEventFrom(eventSignal, Yielded, obs[1..]);
      assert Drive(f, s, obs) == Prepend(None, Drive(f, Yielded, obs[1..]));
      assert forall i | 1 <= i < |obs| :: obs[1..][i - 1] == obs[i];
    }
  }

  /**
   * `wait_event` yields before it first looks at the signals, keeps yielding (with no
   * delay request) while none of `event_signal` is set, and returns the non-empty
   * intersection of the signals with `event_signal` at the first poll after a yield
   * that has one.
   */
  lemma WaitEventRun(eventSignal: SignalFlags, obs: seq<SysObs>)
    ensures var run := WaitEvent(eventSignal, obs);
      (forall i | 0 <= i < |run.requests| ::
        run.requests[i].None? && (i > 0 ==> obs[i].signals * eventSignal == {})) &&
      (run.Finished? ==>
        var k := |run.requests|;
        k > 0 && run.value == obs[k].signals * eventSignal && run.value != {} && run.value <= eventSignal)
  {
    WaitEventFrom(eventSignal, Begin, obs);
  }

  /** `wait_stop_or_event(stop, event_signal)`: as `wait_event`, but the stop flag is
   *  checked before every yield and ends the wait with `Err(Stopped)`. */
  function WaitStopOrEventStep(eventSignal: SignalFlags, s: EventWait, o: SysObs)
    : (r: Decision<EventWait, Result<SignalFlags, Stopped>>)
    ensures r.Return? && r.value.Ok? ==>
      s == Yielded && r.value.value != {} && r.value.value <= eventSignal && r.value.value <= o.signals
    ensures r.Return? && r.value.Err? ==> o.stop
    ensures r.Suspend? ==> r == Suspend(None, Yielded) && !o.stop
  {
    match s
    case Begin => if o.stop then Return(Err(Stopped)) else Suspend(None, Yielded)
    case Yielded =>
      var inters := o.signals * eventSignal;
      if inters != {} then Return(Ok(inters))
      else if o.stop then Return(Err(Stopped))
      else Suspend(None, Yielded)
  }

  function WaitStopOrEvent(eventSignal: SignalFlags, obs: seq<SysObs>): Run<Result<SignalFlags, Stopped>>
  {
    Drive((s, o) => WaitStopOrEventStep(eventSignal, s, o), Begin, obs)
  }

  lemma {:induction false} WaitStopOrEventFrom(eventSignal: SignalFlags, s: EventWait, obs: seq<SysObs>)
    ensures var run := Drive((s0, o) => WaitStopOrEventStep(eventSignal, s0, o), s, obs);
      (forall i | 0 <= i < |run.requests| ::
        run.requests[i].None? && !obs[i].stop &&
        (i > 0 || s == Yielded ==> obs[i].signals * eventSignal == {})) &&
      (run.Finished? ==>
        var k := |run.requests|;
        var inters := obs[k].signals * eventSignal;
        if k == 0 && s == Begin then obs[0].stop && run.value == Err(Stopped)
        else if inters != {} then run.value == Ok(inters)
        else obs[k].stop && run.value == Err(Stopped))
    decreases |obs|
  {
    var f := (s0, o) => WaitStopOrEventStep(eventSignal, s0, o);
    if obs != [] && f(s, obs[0]).Suspend? {
      WaitStopOrEventFrom(eventSignal, Yielded, obs[1..]);
      assert Drive(f, s, obs) == Prepend(None, Drive(f, Yielded, obs[1..]));
      assert forall i | 1 <= i < |obs| :: obs[1..][i - 1] == obs[i];
    }
  }

  /**
   * `wait_stop_or_event` only yields; it is stopped at once by a stop flag at the call;
   * after a yield it returns `Ok` with the non-empty intersection when there is one,
   * else `Err(Stopped)` when the stop flag is set. Every `Ok` is within `event_signal`.
   */
  lemma WaitStopOrEventRun(eventSignal: SignalFlags, obs: seq<SysObs>)
    ensures var run := WaitStopOrEvent(eventSignal, obs);
      (forall i | 0 <= i < |run.requests| ::
        run.requests[i].None? && !obs[i].stop && (i > 0 ==> obs[i].signals * eventSignal == {})) &&
      (run.Finished? ==>
        var k := |run.requests|;
        (run.value.Ok? <==> k > 0 && obs[k].signals * eventSignal != {}) &&
        (run.value.Ok? ==> run.value.value == obs[k].signals * eventSignal && run.value.value <= eventSignal) &&
        (run.value.Err? ==> obs[k].stop))
  {
    WaitStopOrEventFrom(eventSignal, Begin, obs);
  }

  /** The time left of `wait_stop_or_event_timeout`: the timeout minus the time passed
   *  since the call. */
  function TimeLeft(timeout: I32, start: InstantMillis, now: InstantMillis): I32
  {
    DurationSub(timeout, Sub(now, start))
  }

  datatype TimeoutWait = TimeoutBegin | Slept(start: InstantMillis)

  /** `wait_stop_or_event_timeout(stop, event_signal, timeout)`: sleeps the time left
   *  while the stop flag is clear; after each sleep, a matching signal gives
   *  `Ok(intersection)` and an exhausted timeout `Ok(none)`. */
  function WaitStopOrEventTimeoutStep(eventSignal: SignalFlags, timeout: I32, s: TimeoutWait, o: SysObs)
    : (r: Decision<TimeoutWait, Result<SignalFlags, Stopped>>)
    ensures r.Return? && r.value.Err? ==> o.stop
    ensures r.Return? && r.value.Ok? ==> s.Slept? && r.value.value == o.signals * eventSignal
    ensures r.Return? && r.value == Ok({}) ==> TimeLeft(timeout, s.start, o.now) <= 0
    ensures r.Suspend? ==> !o.stop && r.request.Some?
  {
    match s
    case TimeoutBegin =>
      if o.stop then Return(Err(Stopped)) else Suspend(Some(timeout), Slept(o.now))
    case Slept(start) =>
      var inters := o.signals * eventSignal;
      if inters != {} then Return(Ok(inters))
      else
        var tl := TimeLeft(timeout, start, o.now);
        if tl <= 0 then Return(Ok({}))
        else if o.stop then Return(Err(Stopped))
        else Suspend(Some(tl), Slept(start))
  }

  function WaitStopOrEventTimeout(eventSignal: SignalFlags, timeout: I32, obs: seq<SysObs>)
    : Run<Result<SignalFlags, Stopped>>
  {
    Drive((s, o) => WaitStopOrEventTimeoutStep(eventSignal, timeout, s, o), TimeoutBegin, obs)
  }

  /** A sleep of the wait at a poll that saw `o`: no matching signal, no stop, time left,
   *  and that time left requested. */
  ghost predicate SleptAgain(eventSignal: SignalFlags, timeout: I32, start: InstantMillis, o: SysObs, r: Option<I32>)
  {
    o.signals * eventSignal == {} && !o.stop && 0 < TimeLeft(timeout, start, o.now) &&
    r == Some(TimeLeft(timeout, start, o.now))
  }

  /** How the wait ends at a poll that saw `o`: the non-empty intersection, else `Ok(none)`
   *  once no time is left, else `Err(Stopped)` on the stop flag. */
  ghost predicate SleptEnd(eventSignal: SignalFlags, timeout: I32, start: InstantMillis, o: SysObs,
                           v: Result<SignalFlags, Stopped>)
  {
    var inters := o.signals * eventSignal;
    if inters != {} then v == Ok(inters)
    else if TimeLeft(timeout, start, o.now) <= 0 then v == Ok({})
    else o.stop && v == Err(Stopped)
  }

  ghost function SleptAgainAt(eventSignal: SignalFlags, timeout: I32, start: InstantMillis): (SysObs, Option<I32>) -> bool
  {
    (o, r) => SleptAgain(eventSignal, timeout, start, o, r)
  }

  ghost function SleptEndAt(eventSignal: SignalFlags, timeout: I32, start: InstantMillis)
    : (SysObs, Result<SignalFlags, Stopped>) -> bool
  {
    (o, v) => SleptEnd(eventSignal, timeout, start, o, v)
  }

  /** The run `run` of the wait after its first sleep, over `obs`. */
  ghost predicate SleptTrace(eventSignal: SignalFlags, timeout: I32, start: InstantMillis, obs: seq<SysObs>,
                             run: Run<Result<SignalFlags, Stopped>>)
  {
    RunShape(obs, run, SleptAgainAt(eventSignal, timeout, start), SleptEndAt(eventSignal, timeout, start))
  }

  lemma {:induction false} SleptRun(eventSignal: SignalFlags, timeout: I32, start: InstantMillis, obs: seq<SysObs>)
    ensures SleptTrace(eventSignal, timeout, start, obs,
      Drive((s0, o) => WaitStopOrEventTimeoutStep(eventSignal, timeout, s0, o), Slept(start), obs))
    decreases |obs|
  {
    var f := (s0, o) => WaitStopOrEventTimeoutStep(eventSignal, timeout, s0, o);
    if obs != [] && f(Slept(start), obs[0]).Suspend? {
      var r := Some(TimeLeft(timeout, start, obs[0].now));
      SleptRun(eventSignal, timeout, start, obs[1..]);
      assert Drive(f, Slept(start), obs) == Prepend(r, Drive(f, Slept(start), obs[1..]));
      assert SleptAgainAt(eventSignal, timeout, start)(obs[0], r);
      RunShapePrepend(obs, r, Drive(f, Slept(start), obs[1..]),
        SleptAgainAt(eventSignal, timeout, start), SleptEndAt(eventSignal, timeout, start));
    }
  }

  /**
   * The run of `wait_stop_or_event_timeout`: stopped at once by a stop flag at the call;
   * otherwise the first sleep requests `timeout` and every later one
   * `timeout - (now - start)` with `start` the instant of the call, which is positive.
   * After a sleep it answers `Ok` with the non-empty intersection on a matching signal,
   * `Ok(none)` once no time is left, and `Err(Stopped)` when stopped with time left.
   * Every `Ok` is within `event_signal`.
   */
  lemma WaitStopOrEventTimeoutRun(eventSignal: SignalFlags, timeout: I32, obs: seq<SysObs>)
    requires obs != []
    ensures var run := WaitStopOrEventTimeout(eventSignal, timeout, obs);
      var start := obs[0].now;
      (obs[0].stop ==> run == Finished(Err(Stopped), [])) &&
      (!obs[0].stop ==>
        run.requests[0] == Some(timeout) &&
        (forall i | 1 <= i < |run.requests| ::
          0 < TimeLeft(timeout, start, obs[i].now) &&
          run.requests[i] == Some(TimeLeft(timeout, start, obs[i].now))) &&
        (run.Finished? ==>
          var o := obs[|run.requests|];
          var inters := o.signals * eventSignal;
          (inters != {} ==> run.value == Ok(inters)) &&
          (inters == {} && TimeLeft(timeout, start, o.now) <= 0 ==> run.value == Ok({})) &&
          (run.value.Err? ==> o.stop))) &&
      (run.Finished? && run.value.Ok? ==> run.value.value <= eventSignal)
  {
    var f := (s0, o) => WaitStopOrEventTimeoutStep(eventSignal, timeout, s0, o);
    if !obs[0].stop {
      var start := obs[0].now;
      SleptRun(eventSignal, timeout, start, obs[1..]);
      assert WaitStopOrEventTimeout(eventSignal, timeout, obs) ==
        Prepend(Some(timeout), Drive(f, Slept(start), obs[1..]));
      RunShapeShifted(obs, Some(timeout), Drive(f, Slept(start), obs[1..]),
        SleptAgainAt(eventSignal, timeout, start), SleptEndAt(eventSignal, timeout, start));
    }
  }

  // ---------------------------------------------------------------------------------
  // The waits as the loops they are

  /** `wait_event` as its loop: a yield, then a look at the signals. Its run over `obs`
   *  is the run of `WaitEvent`. */
  method WaitEventLoop(eventSignal: SignalFlags, obs: seq<SysObs>) returns (run: Run<SignalFlags>)
    ensures run == WaitEvent(eventSignal, obs)
  {
    var f := (s, o) => WaitEventStep(eventSignal, s, o);
    if obs == [] {
      return Waiting([]);
    }
    DriveSuspends(f, Begin, obs, [], []);
    var requests: seq<Option<I32>> := [None];
    var k := 1;
    while k < |obs|
      invariant 1 <= k <= |obs|
      invariant WaitEvent(eventSignal, obs) == AfterRequests(requests, Drive(f, Yielded, obs[k..]))
      decreases |obs| - k
    {
      assert obs[k..][0] == obs[k];
      var inters := obs[k].signals * eventSignal;
      if inters != {} {
        DriveReturns(f, Yielded, obs[k..], requests);
        return Finished(inters, requests);
      }
      DriveSuspends(f, Yielded, obs[k..], requests, []);
      assert obs[k..][1..] == obs[k + 1..];
      requests := requests + [None];
      k := k + 1;
    }
    assert requests + [] == requests;
    run := Waiting(requests);
  }

  /** `wait_stop_or_event` as its loop: while the stop flag is clear, a yield and a look
   *  at the signals. Its run over `obs` is the run of `WaitStopOrEvent`. */
  method WaitStopOrEventLoop(eventSignal: SignalFlags, obs: seq<SysObs>) returns (run: Run<Result<SignalFlags, Stopped>>)
    ensures run == WaitStopOrEvent(eventSignal, obs)
  {
    var f := (s, o) => WaitStopOrEventStep(eventSignal, s, o);
    if obs == [] {
      return Waiting([]);
    }
    var requests: seq<Option<I32>> := [];
    var k := 0;
    while !obs[k].stop
      invariant 0 <= k < |obs|
      invariant k > 0 ==> obs[k].signals * eventSignal == {}
      invariant WaitStopOrEvent(eventSignal, obs) ==
        AfterRequests(requests, Drive(f, if k == 0 then Begin else Yielded, obs[k..]))
      decreases |obs| - k
    {
      ghost var cur := if k == 0 then Begin else Yielded;
      assert obs[k..][0] == obs[k];
      assert f(cur, obs[k]) == Suspend(None, Yielded);
      DriveSuspends(f, cur, obs[k..], requests, []);
      assert obs[k..][1..] == obs[k + 1..];
      requests := requests + [None];
      k := k + 1;
      if k == |obs| {
        assert requests + [] == requests;
        return Waiting(requests);
      }
      assert obs[k..][0] == obs[k];
      var inters := obs[k].signals * eventSignal;
      if inters != {} {
        DriveReturns(f, Yielded, obs[k..], requests);
        return Finished(Ok(inters), requests);
      }
    }
    assert obs[k..][0] == obs[k];
    DriveReturns(f, if k == 0 then Begin else Yielded, obs[k..], requests);
    run := Finished(Err(Stopped), requests);
  }

  /**
   * `wait_stop_or_event_timeout` as its loop: `startTime` is read at the call and
   * `timeLeft` starts at the timeout; while the stop flag is clear the wait sleeps at
   * most `timeLeft`, then looks at the signals and recomputes `timeLeft` from the time
   * passed since `startTime`. Its run over `obs` is the run of `WaitStopOrEventTimeout`.
   */
  method WaitStopOrEventTimeoutLoop(eventSignal: SignalFlags, timeout: I32, obs: seq<SysObs>)
    returns (run: Run<Result<SignalFlags, Stopped>>)
    ensures run == WaitStopOrEventTimeout(eventSignal, timeout, obs)
  {
    var f := (s, o) => WaitStopOrEventTimeoutStep(eventSignal, timeout, s, o);
    if obs == [] {
      return Waiting([]);
    }
    var startTime := obs[0].now;
    var timeLeft := timeout;
    var requests: seq<Option<I32>> := [];
    var k := 0;
    while !obs[k].stop
      invariant 0 <= k < |obs| && startTime == obs[0].now
      invariant k == 0 ==> timeLeft == timeout
      invariant k > 0 ==>
        obs[k].signals * eventSignal == {} && timeLeft == TimeLeft(timeout, startTime, obs[k].now) && timeLeft > 0
      invariant WaitStopOrEventTimeout(eventSignal, timeout, obs) ==
        AfterRequests(requests, Drive(f, if k == 0 then TimeoutBegin else Slept(startTime), obs[k..]))
      decreases |obs| - k
    {
      ghost var cur := if k == 0 then TimeoutBegin else Slept(startTime);
      assert obs[k..][0] == obs[k];
      assert f(cur, obs[k]) == Suspend(Some(timeLeft), Slept(startTime));
      DriveSuspends(f, cur, obs[k..], requests, []);
      assert obs[k..][1..] == obs[k + 1..];
      requests := requests + [Some(timeLeft)];
      k := k + 1;
      if k == |obs| {
        assert requests + [] == requests;
        return Waiting(requests);
      }
      assert obs[k..][0] == obs[k];
      var inters := obs[k].signals * eventSignal;
      if inters != {} {
        DriveReturns(f, Slept(startTime), obs[k..], requests);
        return Finished(Ok(inters), requests);
      }
      var timePassed := Sub(obs[k].now, startTime);
      timeLeft := DurationSub(timeout, timePassed);
      if timeLeft <= 0 {
        DriveReturns(f, Slept(startTime), obs[k..], requests);
        return Finished(Ok({}), requests);
      }
    }
    assert obs[k..][0] == obs[k];
    DriveReturns(f, if k == 0 then TimeoutBegin else Slept(startTime), obs[k..], requests);
    run := Finished(Err(Stopped), requests);
  }
}
