/**
 * The button processor: turns the raw on/off state of the buttons, read once per step
 * of its driver loop, into `Press`, `Repeat` and `Release` events, and keeps a state
 * that other code can query between events.
 *
 * Button flags are the set of buttons currently held: `is_none` is emptiness and
 * `a.contains(b)` is `b <= a`.
 */
module ButtonProcessor {
  import opened Base
  import opened Milliseconds
  import opened Polling
  import opened AsyncLib
  import opened Join

  datatype ButtonEvent<T> = NoEvent | Press(flags: set<T>) | Repeat(flags: set<T>) | Release(flags: set<T>)

  datatype ButtonState<T> =
    | Invalid
    | NoButtons
    | SomeButtons(buttonFlags: set<T>, since: InstantMillis, lastRepetition: Option<InstantMillis>)

  datatype Options = Options(repetitionStartDelay: I32, repetitionDelay: I32)

  /** The default options: the first repetition after 750 ms and the following ones
   *  every 375 ms, so repetitions speed up once they have started. */
  function DefaultOptions(): (o: Options)
    ensures o.repetitionStartDelay == 750 && o.repetitionDelay == 375
    ensures 0 < o.repetitionDelay < o.repetitionStartDelay
    ensures o.repetitionStartDelay == 2 * o.repetitionDelay
  {
    Options(750, 375)
  }

  /** How a step of the processor suspends: wait for a button signal or the stop flag,
   *  the same with a timeout, an unconditional `sleep_at_most`, or one `yield_now`. */
  datatype Await = AwaitButton | AwaitButtonOrTimeout(timeout: I32) | AwaitSleep(duration: I32) | AwaitYield

  /** The effect of one `button_processor_step` before it awaits: the new state, the
   *  event it sets (`NoEvent` when it sets none), and what it awaits. */
  datatype StepOutcome<T> = StepOutcome(state: ButtonState<T>, event: ButtonEvent<T>, await: Await)

  /** The repetition rule for unchanged flags: the time until the next `Repeat`, measured
   *  from the last repetition if there was one and from `since` otherwise. */
  function TimeUntilRepeat(since: InstantMillis, lastRepetition: Option<InstantMillis>, now: InstantMillis, opt: Options): I32
  {
    match lastRepetition
    case Some(rep) => DurationSub(opt.repetitionDelay, Sub(now, rep))
    case None => DurationSub(opt.repetitionStartDelay, Sub(now, since))
  }

  /**
   * `button_processor_step` on the raw flags `flags` read at `now`. For a held
   * combination the comparison is ordered: equal flags, then a superset, then no
   * buttons, then anything else.
   */
  function ProcessorStep<T>(s: ButtonState<T>, flags: set<T>, now: InstantMillis, opt: Options): (r: StepOutcome<T>)
    ensures r.event.NoEvent? <==> r.await.AwaitButton? || r.await.AwaitButtonOrTimeout?
    ensures r.event.Press? ==> r.event.flags == flags && r.state == SomeButtons(flags, now, None)
    ensures r.event.Release? ==> s.SomeButtons? && r.event.flags == s.buttonFlags && r.state != s
  {
    match s
    case Invalid =>
      StepOutcome(if flags == {} then NoButtons else Invalid, NoEvent, AwaitButton)
    case NoButtons =>
      if flags == {} then StepOutcome(NoButtons, NoEvent, AwaitButton)
      else StepOutcome(SomeButtons(flags, now, None), Press(flags), AwaitSleep(opt.repetitionStartDelay))
    case SomeButtons(prev, since, last) =>
      if flags == prev then
        var t := TimeUntilRepeat(since, last, now, opt);
        if t <= 0 then StepOutcome(SomeButtons(flags, since, Some(now)), Repeat(flags), AwaitSleep(opt.repetitionDelay))
        else StepOutcome(s, NoEvent, AwaitButtonOrTimeout(t))
      else if prev <= flags then
        StepOutcome(SomeButtons(flags, now, None), Press(flags), AwaitSleep(opt.repetitionStartDelay))
      else if flags == {} then
        StepOutcome(NoButtons, Release(prev), AwaitYield)
      else
        StepOutcome(Invalid, Release(prev), AwaitYield)
  }

  // ---------------------------------------------------------------------------------
  // Properties of one step

  /** In `Invalid`, no event is ever emitted: no buttons lead to `NoButtons`, anything
   *  else keeps `Invalid`; either way the processor waits for a signal or stop. */
  lemma InvalidStep<T>(flags: set<T>, now: InstantMillis, opt: Options)
    ensures var out := ProcessorStep(Invalid, flags, now, opt);
      out.event == NoEvent && out.await == AwaitButton &&
      (out.state == NoButtons <==> flags == {}) && (out.state == Invalid <==> flags != {})
  {
  }

  /** In `NoButtons`, pressed buttons give `Press(flags)`, a fresh combination held since
   *  `now`, and a sleep of the start delay; no buttons change nothing. */
  lemma NoButtonsStep<T>(flags: set<T>, now: InstantMillis, opt: Options)
    ensures var out := ProcessorStep(NoButtons, flags, now, opt);
      (flags == {} ==> out == StepOutcome(NoButtons, NoEvent, AwaitButton)) &&
      (flags != {} ==> out.event == Press(flags) && out.state == SomeButtons(flags, now, None) &&
                       out.await == AwaitSleep(opt.repetitionStartDelay))
  {
  }

  /**
   * Unchanged flags: a `Repeat` fires exactly when the time until repetition (from the
   * last repetition, or from `since` before the first one) is used up; it records `now`
   * as the last repetition, keeps `since`, and sleeps the repetition delay. Otherwise
   * nothing changes and the processor waits the remaining time.
   */
  lemma UnchangedFlagsStep<T>(flags: set<T>, since: InstantMillis, last: Option<InstantMillis>,
                              now: InstantMillis, opt: Options)
    ensures var out := ProcessorStep(SomeButtons(flags, since, last), flags, now, opt);
      var t := TimeUntilRepeat(since, last, now, opt);
      (out.event.Repeat? <==> t <= 0) &&
      (t <= 0 ==> out.event == Repeat(flags) && out.state == SomeButtons(flags, since, Some(now)) &&
                  out.await == AwaitSleep(opt.repetitionDelay)) &&
      (t > 0 ==> out.event == NoEvent && out.state == SomeButtons(flags, since, last) &&
                 out.await == AwaitButtonOrTimeout(t))
  {
  }

  /** The two-way dispatch on `last_repetition`: before the first repetition the start
   *  delay counts from `since`; afterwards the repetition delay counts from the last
   *  repetition, and `since` no longer matters. */
  lemma RepeatDispatch(since: InstantMillis, since': InstantMillis, rep: InstantMillis, now: InstantMillis, opt: Options)
    requires IsI32(opt.repetitionStartDelay - Sub(now, since))
    requires IsI32(opt.repetitionDelay - Sub(now, rep))
    ensures TimeUntilRepeat(since, None, now, opt) == opt.repetitionStartDelay - Sub(now, since)
    ensures TimeUntilRepeat(since, Some(rep), now, opt) == opt.repetitionDelay - Sub(now, rep)
    ensures TimeUntilRepeat(since, Some(rep), now, opt) == TimeUntilRepeat(since', Some(rep), now, opt)
  {
  }

  /** A strict superset of the held combination is a new combination: `Press(flags)`,
   *  held since `now`, no repetition yet, and a sleep of the start delay. */
  lemma SupersetStep<T>(prev: set<T>, flags: set<T>, since: InstantMillis, last: Option<InstantMillis>,
                        now: InstantMillis, opt: Options)
    requires prev < flags
    ensures ProcessorStep(SomeButtons(prev, since, last), flags, now, opt) ==
      StepOutcome(SomeButtons(flags, now, None), Press(flags), AwaitSleep(opt.repetitionStartDelay))
  {
  }

  /** Any other change of a held combination releases it: to `NoButtons` when no button
   *  is held any more, to `Invalid` otherwise; both yield exactly once. */
  lemma ReleaseStep<T>(prev: set<T>, flags: set<T>, since: InstantMillis, last: Option<InstantMillis>,
                       now: InstantMillis, opt: Options)
    requires !(prev <= flags)
    ensures var out := ProcessorStep(SomeButtons(prev, since, last), flags, now, opt);
      out.event == Release(prev) && out.await == AwaitYield &&
      out.state == (if flags == {} then NoButtons else Invalid)
  {
  }

  /** A state the processor can reach: a held combination is never empty. */
  predicate Reachable<T>(s: ButtonState<T>)
  {
    s.SomeButtons? ==> s.buttonFlags != {}
  }

  /**
   * The step keeps the processor in reachable states, and its events tell the truth: a
   * `Press` or `Repeat` carries the combination now held (a `Repeat` records `now` as its
   * repetition), and a `Release` carries the combination that was held before.
   */
  lemma StepEventsAgreeWithState<T>(s: ButtonState<T>, flags: set<T>, now: InstantMillis, opt: Options)
    requires Reachable(s)
    ensures var out := ProcessorStep(s, flags, now, opt);
      Reachable(out.state) &&
      (out.event.Press? ==> out.state == SomeButtons(flags, now, None) && flags != {}) &&
      (out.event.Repeat? ==> s.SomeButtons? && out.state == SomeButtons(flags, s.since, Some(now)) && flags == s.buttonFlags) &&
      (out.event.Release? ==> s.SomeButtons? && out.event.flags == s.buttonFlags && !(s.buttonFlags <= flags)) &&
      (out.event == NoEvent ==> out.state.SomeButtons? ==> out.state == s)
  {
  }

  // ---------------------------------------------------------------------------------
  // Consecutive steps

  /** The events of consecutive steps on the readings `(flags, now)`. */
  function StepEvents<T>(s: ButtonState<T>, readings: seq<(set<T>, InstantMillis)>, opt: Options)
    : (r: (seq<ButtonEvent<T>>, ButtonState<T>))
    ensures |r.0| == |readings|
    decreases |readings|
  {
    if readings == [] then ([], s)
    else
      var out := ProcessorStep(s, readings[0].0, readings[0].1, opt);
      var rest := StepEvents(out.state, readings[1..], opt);
      ([out.event] + rest.0, rest.1)
  }

  /** One step of `StepEvents`, for unfolding a concrete list of readings. */
  lemma StepEventsCons<T>(s: ButtonState<T>, flags: set<T>, now: InstantMillis,
                          rest: seq<(set<T>, InstantMillis)>, opt: Options)
    ensures var out := ProcessorStep(s, flags, now, opt);
      var r := StepEvents(out.state, rest, opt);
      StepEvents(s, [(flags, now)] + rest, opt) == ([out.event] + r.0, r.1)
  {
    assert ([(flags, now)] + rest)[1..] == rest;
  }

  /** Consecutive steps compose: the readings `a + b` give the events of `a`, then the
   *  events of `b` from the state `a` left. */
  lemma {:induction false} StepEventsAppend<T>(s: ButtonState<T>, a: seq<(set<T>, InstantMillis)>,
                                               b: seq<(set<T>, InstantMillis)>, opt: Options)
    ensures var ra := StepEvents(s, a, opt);
      var rb := StepEvents(ra.1, b, opt);
      StepEvents(s, a + b, opt) == (ra.0 + rb.0, rb.1)
    decreases |a|
  {
    if a == [] {
      assert a + b == b;
      assert StepEvents(s, a, opt).0 + StepEvents(s, b, opt).0 == StepEvents(s, b, opt).0;
    } else {
      var out := ProcessorStep(s, a[0].0, a[0].1, opt);
      StepEventsAppend(out.state, a[1..], b, opt);
      assert (a + b)[1..] == a[1..] + b;
      var ra := StepEvents(out.state, a[1..], opt);
      var rb := StepEvents(ra.1, b, opt);
      assert [out.event] + (ra.0 + rb.0) == ([out.event] + ra.0) + rb.0;
    }
  }

  /**
   * After a partial release the processor is `Invalid`, and it then suppresses every
   * event until the flags read empty: as long as some button is held it emits nothing
   * and stays `Invalid`.
   */
  lemma {:induction false} InvalidUntilAllReleased<T>(readings: seq<(set<T>, InstantMillis)>, opt: Options)
    requires forall i | 0 <= i < |readings| :: readings[i].0 != {}
    ensures var r := StepEvents(Invalid, readings, opt);
      r.1 == Invalid && forall i | 0 <= i < |r.0| :: r.0[i] == NoEvent
    decreases |readings|
  {
    if readings != [] {
      InvalidUntilAllReleased(readings[1..], opt);
      assert forall i | 1 <= i < |readings| :: readings[1..][i - 1] == readings[i];
    }
  }

  // ---------------------------------------------------------------------------------
  // The wait helpers

  /** What the driver reads at one poll: the instant, the raw flags, whether a button
   *  signal came with this step, and the stop flag. */
  datatype Obs<T> = Obs(now: InstantMillis, flags: set<T>, buttonSignal: bool, stop: bool)

  datatype WaitButton = WaitBegin | Yielded

  /** `wait_stop_or_button`: `while !stop { yield_now().await; if signal { return Ok } }`,
   *  then `Err(Stopped)`. */
  function WaitStopOrButtonStep<T>(s: WaitButton, o: Obs<T>): (r: Decision<WaitButton, Result<(), Stopped>>)
    ensures r.Return? ==> (r.value.Ok? <==> s == Yielded && o.buttonSignal)
    ensures r.Return? && r.value.Err? ==> o.stop
    ensures r.Suspend? ==> r == Suspend(None, Yielded) && !o.stop
  {
    match s
    case WaitBegin => if o.stop then Return(Err(Stopped)) else Suspend(None, Yielded)
    case Yielded =>
      if o.buttonSignal then Return(Ok(()))
      else if o.stop then Return(Err(Stopped))
      else Suspend(None, Yielded)
  }

  function WaitStopOrButton<T>(obs: seq<Obs<T>>): Run<Result<(), Stopped>>
  {
    Drive((s, o) => WaitStopOrButtonStep(s, o), WaitBegin, obs)
  }

  lemma {:induction false} WaitStopOrButtonFrom<T>(s: WaitButton, obs: seq<Obs<T>>)
    ensures var run := Drive((s0, o) => WaitStopOrButtonStep(s0, o), s, obs);
      (forall i | 0 <= i < |run.requests| ::
        run.requests[i].None? && !obs[i].stop && (i > 0 || s == Yielded ==> !obs[i].buttonSignal)) &&
      (run.Finished? ==>
        var k := |run.requests|;
        if k == 0 && s == WaitBegin then obs[0].stop && run.value.Err?
        else if obs[k].buttonSignal then run.value.Ok?
        else obs[k].stop && run.value.Err?)
    decreases |obs|
  {
    var f := (s0, o) => WaitStopOrButtonStep(s0, o);
    if obs != [] && f(s, obs[0]).Suspend? {
      WaitStopOrButtonFrom(Yielded, obs[1..]);
      assert Drive(f, s, obs) == Prepend(None, Drive(f, Yielded, obs[1..]));
      assert forall i | 1 <= i < |obs| :: obs[1..][i - 1] == obs[i];
    }
  }

  /**
   * The run of `wait_stop_or_button`: it only ever yields (no delay request); it keeps
   * waiting while the stop flag is clear and no signal arrives after a yield; it returns
   * `Ok` on a signal seen after a yield (never before the first one), and
   * `Err(Stopped)` on a stop flag with no signal.
   */
  lemma WaitStopOrButtonRun<T>(obs: seq<Obs<T>>)
    ensures var run := WaitStopOrButton(obs);
      (forall i | 0 <= i < |run.requests| ::
        run.requests[i].None? && !obs[i].stop && (i > 0 ==> !obs[i].buttonSignal)) &&
      (run.Finished? ==>
        var k := |run.requests|;
        (run.value.Ok? <==> k > 0 && obs[k].buttonSignal) &&
        (run.value.Err? ==> obs[k].stop))
  {
    WaitStopOrButtonFrom(WaitBegin, obs);
  }

  datatype WaitTimeout = TimeoutBegin | Slept(start: InstantMillis)

  /** The time left of `wait_stop_or_button_or_timeout`: the timeout minus the time passed
   *  since the wait began. */
  function WaitTimeLeft(timeout: I32, start: InstantMillis, now: InstantMillis): I32
  {
    DurationSub(timeout, Sub(now, start))
  }

  /** `wait_stop_or_button_or_timeout(timeout)`: sleeps the time left while the stop flag
   *  is clear; after each sleep, a signal gives `Ok(true)` and an exhausted timeout gives
   *  `Ok(false)`. */
  function WaitTimeoutStep<T>(timeout: I32, s: WaitTimeout, o: Obs<T>): (r: Decision<WaitTimeout, Result<bool, Stopped>>)
    ensures r.Return? && r.value.Err? ==> o.stop
    ensures r.Return? && r.value == Ok(true) <==> s.Slept? && o.buttonSignal
    ensures r.Return? && r.value == Ok(false) ==> s.Slept? && WaitTimeLeft(timeout, s.start, o.now) <= 0
    ensures r.Suspend? ==> !o.stop && r.request.Some?
  {
    match s
    case TimeoutBegin =>
      if o.stop then Return(Err(Stopped)) else Suspend(Some(timeout), Slept(o.now))
    case Slept(start) =>
      if o.buttonSignal then Return(Ok(true))
      else
        var tl := WaitTimeLeft(timeout, start, o.now);
        if tl <= 0 then Return(Ok(false))
        else if o.stop then Return(Err(Stopped))
        else Suspend(Some(tl), Slept(start))
  }

  function WaitStopOrButtonOrTimeout<T>(timeout: I32, obs: seq<Obs<T>>): Run<Result<bool, Stopped>>
  {
    Drive((s, o) => WaitTimeoutStep(timeout, s, o), TimeoutBegin, obs)
  }

  /** A suspension of the wait at a poll that saw `o`: no signal, no stop, time left, and
   *  that time left requested. */
  ghost predicate SleptAgain<T>(timeout: I32, start: InstantMillis, o: Obs<T>, r: Option<I32>)
  {
    !o.buttonSignal && !o.stop && 0 < WaitTimeLeft(timeout, start, o.now) &&
    r == Some(WaitTimeLeft(timeout, start, o.now))
  }

  /** How the wait ends at a poll that saw `o`: `Ok(true)` on a signal, `Ok(false)` once no
   *  time is left, `Err` when stopped with time left. */
  ghost predicate TimeoutEnd<T>(timeout: I32, start: InstantMillis, o: Obs<T>, v: Result<bool, Stopped>)
  {
    (v == Ok(true) <==> o.buttonSignal) &&
    (v == Ok(false) <==> !o.buttonSignal && WaitTimeLeft(timeout, start, o.now) <= 0) &&
    (v.Err? <==> !o.buttonSignal && WaitTimeLeft(timeout, start, o.now) > 0 && o.stop)
  }

  ghost function SleptAgainAt<T>(timeout: I32, start: InstantMillis): (Obs<T>, Option<I32>) -> bool
  {
    (o, r) => SleptAgain(timeout, start, o, r)
  }

  ghost function TimeoutEndAt<T>(timeout: I32, start: InstantMillis): (Obs<T>, Result<bool, Stopped>) -> bool
  {
    (o, v) => TimeoutEnd(timeout, start, o, v)
  }

  /** The run `run` of the wait after its first sleep, over `obs`. */
  ghost predicate TimeoutTrace<T>(timeout: I32, start: InstantMillis, obs: seq<Obs<T>>, run: Run<Result<bool, Stopped>>)
  {
    RunShape(obs, run, SleptAgainAt(timeout, start), TimeoutEndAt(timeout, start))
  }

  lemma {:induction false} WaitTimeoutFrom<T>(timeout: I32, start: InstantMillis, obs: seq<Obs<T>>)
    ensures TimeoutTrace(timeout, start, obs, Drive((s0, o) => WaitTimeoutStep(timeout, s0, o), Slept(start), obs))
    decreases |obs|
  {
    var f := (s0, o) => WaitTimeoutStep(timeout, s0, o);
    if obs != [] && f(Slept(start), obs[0]).Suspend? {
      var r := Some(WaitTimeLeft(timeout, start, obs[0].now));
      WaitTimeoutFrom(timeout, start, obs[1..]);
      assert Drive(f, Slept(start), obs) == Prepend(r, Drive(f, Slept(start), obs[1..]));
      assert SleptAgainAt(timeout, start)(obs[0], r);
      RunShapePrepend(obs, r, Drive(f, Slept(start), obs[1..]), SleptAgainAt(timeout, start), TimeoutEndAt(timeout, start));
    }
  }

  /** The first sleep requests the whole timeout; the trace after it follows. */
  lemma TimeoutStarted<T>(timeout: I32, start: InstantMillis, obs: seq<Obs<T>>, inner: Run<Result<bool, Stopped>>)
    requires obs != []
    requires TimeoutTrace(timeout, start, obs[1..], inner)
    ensures var run := Prepend(Some(timeout), inner);
      run.requests[0] == Some(timeout) &&
      (forall i | 1 <= i < |run.requests| :: SleptAgain(timeout, start, obs[i], run.requests[i])) &&
      (run.Finished? ==> |run.requests| < |obs| && TimeoutEnd(timeout, start, obs[|run.requests|], run.value))
  {
    RunShapeShifted(obs, Some(timeout), inner, SleptAgainAt(timeout, start), TimeoutEndAt(timeout, start));
  }

  /**
   * The run of `wait_stop_or_button_or_timeout(timeout)`: a stop flag at the call gives
   * `Err(Stopped)` at once; otherwise it sleeps `timeout` first and then, after each
   * sleep with no signal and time left, the time left measured from the call. After a
   * sleep it returns `Ok(true)` on a signal, `Ok(false)` once no time is left, and
   * `Err(Stopped)` when stopped with time left.
   */
  lemma WaitStopOrButtonOrTimeoutRun<T>(timeout: I32, obs: seq<Obs<T>>)
    requires obs != []
    ensures var run := WaitStopOrButtonOrTimeout(timeout, obs);
      var start := obs[0].now;
      (obs[0].stop ==> run == Finished(Err(Stopped), [])) &&
      (!obs[0].stop ==>
        run.requests[0] == Some(timeout) &&
        (forall i | 1 <= i < |run.requests| ::
          0 < WaitTimeLeft(timeout, start, obs[i].now) &&
          run.requests[i] == Some(WaitTimeLeft(timeout, start, obs[i].now))) &&
        (run.Finished? ==>
          var o := obs[|run.requests|];
          (run.value == Ok(true) <==> o.buttonSignal) &&
          (run.value == Ok(false) <==> !o.buttonSignal && WaitTimeLeft(timeout, start, o.now) <= 0) &&
          (run.value.Err? ==> o.stop)))
  {
    var f := (s0, o) => WaitTimeoutStep(timeout, s0, o);
    if !obs[0].stop {
      var start := obs[0].now;
      WaitTimeoutFrom(timeout, start, obs[1..]);
      assert WaitStopOrButtonOrTimeout(timeout, obs) == Prepend(Some(timeout), Drive(f, Slept(start), obs[1..]));
      TimeoutStarted(timeout, start, obs, Drive(f, Slept(start), obs[1..]));
    }
  }

  /** `wait_stop_or_button` as its loop: while the stop flag is clear, a yield and a look
   *  at the button signal. Its run over `obs` is the run of `WaitStopOrButton`. */
  method WaitStopOrButtonLoop<T>(obs: seq<Obs<T>>) returns (run: Run<Result<(), Stopped>>)
    ensures run == WaitStopOrButton(obs)
  {
    var f := (s, o) => WaitStopOrButtonStep(s, o);
    if obs == [] {
      return Waiting([]);
    }
    var requests: seq<Option<I32>> := [];
    var k := 0;
    while !obs[k].stop
      invariant 0 <= k < |obs|
      invariant k > 0 ==> !obs[k].buttonSignal
      invariant WaitStopOrButton(obs) == AfterRequests(requests, Drive(f, if k == 0 then WaitBegin else Yielded, obs[k..]))
      decreases |obs| - k
    {
      ghost var cur := if k == 0 then WaitBegin else Yielded;
      assert obs[k..][0] == obs[k];
      assert f(cur, obs[k]) == Suspend(None, Yielded);
      DriveSuspends(f, cur, obs[k..], requests, []);
      assert obs[k..][1..] == obs[k + 1..];
      requests := requests + [None];
      k := k + 1;
      if k == |obs| {
        assert requests + [] == requests;
        return Waiting(requests);
      }
      assert obs[k..][0] == obs[k];
      if obs[k].buttonSignal {
        DriveReturns(f, Yielded, obs[k..], requests);
        return Finished(Ok(()), requests);
      }
    }
    assert obs[k..][0] == obs[k];
    DriveReturns(f, if k == 0 then WaitBegin else Yielded, obs[k..], requests);
    run := Finished(Err(Stopped), requests);
  }

  /**
   * `wait_stop_or_button_or_timeout` as its loop: `startTime` is read at the call and
   * `timeLeft` starts at the timeout; while the stop flag is clear the wait sleeps at
   * most `timeLeft`, then looks at the button signal and recomputes `timeLeft`. Its run
   * over `obs` is the run of `WaitStopOrButtonOrTimeout`.
   */
  method WaitStopOrButtonOrTimeoutLoop<T>(timeout: I32, obs: seq<Obs<T>>) returns (run: Run<Result<bool, Stopped>>)
    ensures run == WaitStopOrButtonOrTimeout(timeout, obs)
  {
    var f := (s, o) => WaitTimeoutStep(timeout, s, o);
    if obs == [] {
      return Waiting([]);
    }
    var startTime := obs[0].now;
    var timeLeft := timeout;
    var requests: seq<Option<I32>> := [];
    var k := 0;
    while !obs[k].stop
      invariant 0 <= k < |obs| && startTime == obs[0].now
      invariant k == 0 ==> timeLeft == timeout
      invariant k > 0 ==>
        !obs[k].buttonSignal && timeLeft == WaitTimeLeft(timeout, startTime, obs[k].now) && timeLeft > 0
      invariant WaitStopOrButtonOrTimeout(timeout, obs) ==
        AfterRequests(requests, Drive(f, if k == 0 then TimeoutBegin else Slept(startTime), obs[k..]))
      decreases |obs| - k
    {
      ghost var cur := if k == 0 then TimeoutBegin else Slept(startTime);
      assert obs[k..][0] == obs[k];
      assert f(cur, obs[k]) == Suspend(Some(timeLeft), Slept(startTime));
      DriveSuspends(f, cur, obs[k..], requests, []);
      assert obs[k..][1..] == obs[k + 1..];
      requests := requests + [Some(timeLeft)];
      k := k + 1;
      if k == |obs| {
        assert requests + [] == requests;
        return Waiting(requests);
      }
      assert obs[k..][0] == obs[k];
      if obs[k].buttonSignal {
        DriveReturns(f, Slept(startTime), obs[k..], requests);
        return Finished(Ok(true), requests);
      }
      var timePassed := Sub(obs[k].now, startTime);
      timeLeft := DurationSub(timeout, timePassed);
      if timeLeft <= 0 {
        DriveReturns(f, Slept(startTime), obs[k..], requests);
        return Finished(Ok(false), requests);
      }
    }
    assert obs[k..][0] == obs[k];
    DriveReturns(f, if k == 0 then TimeoutBegin else Slept(startTime), obs[k..], requests);
    run := Finished(Err(Stopped), requests);
  }

  // ---------------------------------------------------------------------------------
  // The driver loop `button_processor_task`

  /** Where the driver is suspended: inside one of the two waits, inside the
   *  `sleep_at_most` after an event, inside the `yield_now` after a release, or (before
   *  its first poll) at the top of its loop. */
  datatype Resume = Top | InWait(w: WaitButton) | InWaitTimeout(timeout: I32, wt: WaitTimeout) | InSleep | InYield

  /** The processor's two cells together with where its driver is suspended. */
  datatype Driver<T> = Driver(state: ButtonState<T>, event: ButtonEvent<T>, resume: Resume)

  /** One pass through the loop `while !stop { event = None; step().await? }` up to its
   *  first suspension; the awaits begin in the same poll. */
  function LoopTop<T>(opt: Options, d: Driver<T>, o: Obs<T>): Decision<Driver<T>, ()>
  {
    if o.stop then Return(())
    else
      var out := ProcessorStep(d.state, o.flags, o.now, opt);
      var d' := d.(state := out.state, event := out.event);
      match out.await
      case AwaitButton =>
        (match WaitStopOrButtonStep(WaitBegin, o)
         case Return(_) => Return(())
         case Suspend(r, w) => Suspend(r, d'.(resume := InWait(w))))
      case AwaitButtonOrTimeout(t) =>
        (match WaitTimeoutStep(t, TimeoutBegin, o)
         case Return(_) => Return(())
         case Suspend(r, w) => Suspend(r, d'.(resume := InWaitTimeout(t, w))))
      case AwaitSleep(dur) => Suspend(Some(dur), d'.(resume := InSleep))
      case AwaitYield => Suspend(None, d'.(resume := InYield))
  }

  /** One poll of the driver: resume the pending await; when it completes with `Ok` (or
   *  was a sleep or a yield), go round the loop; on `Err(Stopped)`, break out. */
  function DriverStep<T>(opt: Options, d: Driver<T>, o: Obs<T>): Decision<Driver<T>, ()>
  {
    match d.resume
    case InWait(w) =>
      (match WaitStopOrButtonStep(w, o)
       case Return(res) => if res.Ok? then LoopTop(opt, d, o) else Return(())
       case Suspend(r, w') => Suspend(r, d.(resume := InWait(w'))))
    case InWaitTimeout(t, w) =>
      (match WaitTimeoutStep(t, w, o)
       case Return(res) => if res.Ok? then LoopTop(opt, d, o) else Return(())
       case Suspend(r, w') => Suspend(r, d.(resume := InWaitTimeout(t, w'))))
    case _ => LoopTop(opt, d, o)
  }

  function DriverLoop<T>(opt: Options): (Driver<T>, Obs<T>) -> Decision<Driver<T>, ()>
  {
    (d, o) => DriverStep(opt, d, o)
  }

  /**
   * What holds of the driver between any two polls: the state is reachable; an event is
   * set only while the driver sleeps or yields right after setting it; a `Press` means
   * the pressed combination is held with no repetition yet, a `Repeat` that it is held
   * and repeating, a `Release` that no combination is held; and a pending wait has
   * already suspended once.
   */
  predicate DriverInv<T>(d: Driver<T>)
  {
    Reachable(d.state) &&
    (d.event != NoEvent ==> d.resume == InSleep || d.resume == InYield) &&
    (d.event.Press? ==> d.state.SomeButtons? && d.state.buttonFlags == d.event.flags && d.state.lastRepetition.None?) &&
    (d.event.Repeat? ==> d.state.SomeButtons? && d.state.buttonFlags == d.event.flags && d.state.lastRepetition.Some?) &&
    (d.event.Release? ==> !d.state.SomeButtons?) &&
    (d.resume.InWait? ==> d.resume.w == Yielded) &&
    (d.resume.InWaitTimeout? ==> d.resume.wt.Slept?)
  }

  /** The driver stops exactly at a poll that reads the stop flag, from wherever it is
   *  suspended. */
  lemma DriverStopsIffStop<T>(opt: Options, d: Driver<T>, o: Obs<T>)
    requires DriverInv(d)
    ensures DriverStep(opt, d, o).Return? <==> o.stop
  {
  }

  /** One poll keeps the invariant; and an event visible after the poll was set by that
   *  poll's `button_processor_step`, together with the state it left. */
  lemma DriverStepKeepsInv<T>(opt: Options, d: Driver<T>, o: Obs<T>)
    requires DriverInv(d)
    requires DriverStep(opt, d, o).Suspend?
    ensures var n := DriverStep(opt, d, o).next;
      DriverInv(n) &&
      (n.event != NoEvent ==>
        var out := ProcessorStep(d.state, o.flags, o.now, opt);
        n.event == out.event && n.state == out.state)
  {
    StepEventsAgreeWithState(d.state, o.flags, o.now, opt);
  }

  /** An event lasts exactly one poll: the next poll either stops the driver or goes
   *  around the loop, which clears the event before the step may set a new one. */
  lemma EventLastsOnePoll<T>(opt: Options, d: Driver<T>, o: Obs<T>)
    requires DriverInv(d) && d.event != NoEvent
    ensures DriverStep(opt, d, o) == LoopTop(opt, d, o)
    ensures DriverStep(opt, d, o).Suspend? ==>
      DriverStep(opt, d, o).next.event == ProcessorStep(d.state, o.flags, o.now, opt).event
  {
  }

  /**
   * The run of the driver from a reachable state at the top of its loop: it finishes
   * exactly at the first poll that reads the stop flag; after every poll before that,
   * the invariant holds, and an event visible after poll i was set by the step of poll i
   * from the state left by poll i - 1, at instant `obs[i].now`.
   */
  lemma DriverRun<T>(opt: Options, s: ButtonState<T>, e: ButtonEvent<T>, obs: seq<Obs<T>>)
    requires DriverInv(Driver(s, e, Top))
    ensures var d0 := Driver(s, e, Top);
      var run := Drive(DriverLoop(opt), d0, obs);
      var tr := Trace(DriverLoop(opt), d0, obs);
      (forall i | 0 <= i < |run.requests| :: !obs[i].stop) &&
      (run.Finished? ==> obs[|run.requests|].stop) &&
      (forall i | 0 <= i < |tr| :: DriverInv(tr[i])) &&
      (forall i | 0 <= i < |tr| :: tr[i].event != NoEvent ==>
        var before := if i == 0 then s else tr[i - 1].state;
        var out := ProcessorStep(before, obs[i].flags, obs[i].now, opt);
        tr[i].event == out.event && tr[i].state == out.state)
  {
    var f := DriverLoop<T>(opt);
    var d0 := Driver(s, e, Top);
    DriverLoopKeepsInv<T>(opt);
    TraceInvariant(f, d0, obs, DriverInv);
    DriverLoopReturnsOnStop<T>(opt);
    DriveInvariant(f, d0, obs, DriverInv, (r: Option<I32>) => true, (v: (), o: Obs<T>) => o.stop);
    var run := Drive(f, d0, obs);
    var tr := Trace(f, d0, obs);
    forall i | 0 <= i < |run.requests|
      ensures !obs[i].stop && (tr[i].event != NoEvent ==>
        var before := if i == 0 then s else tr[i - 1].state;
        var out := ProcessorStep(before, obs[i].flags, obs[i].now, opt);
        tr[i].event == out.event && tr[i].state == out.state)
    {
      var before := if i == 0 then d0 else tr[i - 1];
      SuspendedPoll(opt, before, obs[i], run.requests[i], tr[i]);
    }
  }

  /** Every poll that suspends keeps the invariant. */
  lemma DriverLoopKeepsInv<T>(opt: Options)
    ensures forall d: Driver<T>, o: Obs<T> | DriverInv(d) && DriverLoop(opt)(d, o).Suspend? ::
      DriverInv(DriverLoop(opt)(d, o).next)
  {
    forall d: Driver<T>, o: Obs<T> | DriverInv(d) && DriverLoop(opt)(d, o).Suspend?
      ensures DriverInv(DriverLoop(opt)(d, o).next)
    {
      DriverStepKeepsInv(opt, d, o);
    }
  }

  /** Every poll that finishes read the stop flag. */
  lemma DriverLoopReturnsOnStop<T>(opt: Options)
    ensures forall d: Driver<T>, o: Obs<T> | DriverInv(d) && DriverLoop(opt)(d, o).Return? :: o.stop
  {
    forall d: Driver<T>, o: Obs<T> | DriverInv(d) && DriverLoop(opt)(d, o).Return?
      ensures o.stop
    {
      DriverStopsIffStop(opt, d, o);
    }
  }

  /** A poll that suspends did not read the stop flag, and an event it leaves visible was
   *  set by the step of that poll. */
  lemma SuspendedPoll<T>(opt: Options, d: Driver<T>, o: Obs<T>, r: Option<I32>, n: Driver<T>)
    requires DriverInv(d) && DriverLoop(opt)(d, o) == Suspend(r, n)
    ensures !o.stop
    ensures n.event != NoEvent ==>
      var out := ProcessorStep(d.state, o.flags, o.now, opt);
      n.event == out.event && n.state == out.state
  {
    DriverStopsIffStop(opt, d, o);
    DriverStepKeepsInv(opt, d, o);
  }

  /** What a task using the processor sees at one of its polls: the instant and the
   *  processor's `state()` and `event()`. */
  datatype View<T> = View(now: InstantMillis, state: ButtonState<T>, event: ButtonEvent<T>)

  // ---------------------------------------------------------------------------------
  // `run`: the driver joined with the task that uses the processor

  /** What the two branches of `run` share during one poll: the system's readings for
   *  this step, the `stop_signal` cell of `run`, the processor's two cells, and the delay
   *  requests made so far. */
  datatype RunEnv<T> = RunEnv(now: InstantMillis, flags: set<T>, buttonSignal: bool, stop: bool,
                              state: ButtonState<T>, event: ButtonEvent<T>, requests: seq<I32>)

  function ObsOf<T>(e: RunEnv<T>): Obs<T>
  {
    Obs(e.now, e.flags, e.buttonSignal, e.stop)
  }

  /** The first branch: one poll of `button_processor_task`, reading and writing the
   *  processor's cells; a `sleep_at_most` records its delay request. */
  function DriverPoll<T>(opt: Options, resume: Resume, e: RunEnv<T>): Stepped<Resume, RunEnv<T>, ()>
  {
    match DriverStep(opt, Driver(e.state, e.event, resume), ObsOf(e))
    case Return(_) => Stepped(resume, e, Ready(()))
    case Suspend(r, d) =>
      var requests := if r.Some? then e.requests + [r.value] else e.requests;
      Stepped(d.resume, e.(state := d.state, event := d.event, requests := requests), Pending)
  }

  /** The second branch: `fut`, which sets the stop flag once it has its output. */
  function ConsumerPoll<F, T, U>(fut: (F, RunEnv<T>) -> Stepped<F, RunEnv<T>, U>, f: F, e: RunEnv<T>)
    : Stepped<F, RunEnv<T>, U>
  {
    var s := fut(f, e);
    if s.poll.Ready? then s.(env := s.env.(stop := true)) else s
  }

  /** One poll of `run`: `join2` of the two branches, answering the output of `fut`. */
  function RunPoll<F, T, U>(opt: Options, fut: (F, RunEnv<T>) -> Stepped<F, RunEnv<T>, U>,
                            j: JoinState<Resume, F, (), U>, e: RunEnv<T>)
    : Stepped<JoinState<Resume, F, (), U>, RunEnv<T>, U>
  {
    var r := JoinStep(j, (d, e0) => DriverPoll(opt, d, e0), (f, e0) => ConsumerPoll(fut, f, e0), e);
    Stepped(r.state, r.env, if r.poll.Ready? then Ready(r.poll.value.1) else Pending)
  }

  /** While the stop flag is clear, the driver branch never completes, so `run` is
   *  pending at every poll that starts with the stop flag clear. */
  lemma RunPendingWhileNotStopped<F, T, U>(opt: Options, fut: (F, RunEnv<T>) -> Stepped<F, RunEnv<T>, U>,
                                           j: JoinState<Resume, F, (), U>, e: RunEnv<T>)
    requires j.retval1.None? && DriverInv(Driver(e.state, e.event, j.future1))
    requires !e.stop
    ensures RunPoll(opt, fut, j, e).poll == Pending
    ensures RunPoll(opt, fut, j, e).state.retval1.None?
  {
    DriverStopsIffStop(opt, Driver(e.state, e.event, j.future1), ObsOf(e));
  }

  /** At the poll where `fut` completes, its output is stored and the stop flag set. */
  lemma RunStoresOutputAndStops<F, T, U>(opt: Options, fut: (F, RunEnv<T>) -> Stepped<F, RunEnv<T>, U>,
                                         j: JoinState<Resume, F, (), U>, e: RunEnv<T>)
    requires j.retval1.None? && j.retval2.None? && DriverInv(Driver(e.state, e.event, j.future1))
    requires !e.stop
    requires var e1 := DriverPoll(opt, j.future1, e).env; fut(j.future2, e1).poll.Ready?
    ensures var e1 := DriverPoll(opt, j.future1, e).env;
      var r := RunPoll(opt, fut, j, e);
      r.env.stop && r.state.retval2 == Some(fut(j.future2, e1).poll.value)
  {
    DriverStopsIffStop(opt, Driver(e.state, e.event, j.future1), ObsOf(e));
  }

  /** At the next poll, which reads the stop flag, the driver ends and `run` answers the
   *  stored output of `fut`, leaving the shared cells as they were. */
  lemma RunAnswersOutputAfterStop<F, T, U>(opt: Options, fut: (F, RunEnv<T>) -> Stepped<F, RunEnv<T>, U>,
                                           j: JoinState<Resume, F, (), U>, e: RunEnv<T>, v: U)
    requires j.retval1.None? && j.retval2 == Some(v) && DriverInv(Driver(e.state, e.event, j.future1))
    requires e.stop
    ensures RunPoll(opt, fut, j, e).poll == Ready(v)
    ensures RunPoll(opt, fut, j, e).env == e
  {
    DriverStopsIffStop(opt, Driver(e.state, e.event, j.future1), ObsOf(e));
  }

  // ---------------------------------------------------------------------------------
  // The processor object

  class Processor<T(==)> {
    var event: ButtonEvent<T>
    var state: ButtonState<T>
    const options: Options

    /** `ButtonProcessor::new`: no event, and `Invalid` until all buttons read released. */
    constructor (options: Options)
      ensures event == NoEvent && state == Invalid && this.options == options
    {
      event := NoEvent;
      state := Invalid;
      this.options := options;
    }

    /** `button_processor_step` up to its await, which it returns. */
    method Step(flags: set<T>, now: InstantMillis) returns (aw: Await)
      modifies this
      ensures var out := ProcessorStep(old(state), flags, now, options);
        state == out.state && aw == out.await &&
        event == (if out.event == NoEvent then old(event) else out.event)
    {
      match state
      case Invalid =>
        if flags == {} {
          state := NoButtons;
        }
        aw := AwaitButton;
      case NoButtons =>
        if flags == {} {
          aw := AwaitButton;
        } else {
          event := Press(flags);
          state := SomeButtons(flags, now, None);
          aw := AwaitSleep(options.repetitionStartDelay);
        }
      case SomeButtons(prev, since, last) =>
        if flags == prev {
          var t := TimeUntilRepeat(since, last, now, options);
          if t <= 0 {
            event := Repeat(flags);
            state := SomeButtons(flags, since, Some(now));
            aw := AwaitSleep(options.repetitionDelay);
          } else {
            aw := AwaitButtonOrTimeout(t);
          }
        } else if prev <= flags {
          event := Press(flags);
          state := SomeButtons(flags, now, None);
          aw := AwaitSleep(options.repetitionStartDelay);
        } else if flags == {} {
          event := Release(prev);
          state := NoButtons;
          aw := AwaitYield;
        } else {
          event := Release(prev);
          state := Invalid;
          aw := AwaitYield;
        }
    }

    /** One poll of the driver suspended at `resume`. */
    method Poll(resume: Resume, o: Obs<T>) returns (finished: bool, request: Option<I32>, next: Resume)
      modifies this
      ensures DriverStep(options, Driver(old(state), old(event), resume), o) ==
        if finished then Return(()) else Suspend(request, Driver(state, event, next))
      ensures finished ==> state == old(state) && event == old(event)
    {
      match resume {
        case InWait(w) =>
          var dec := WaitStopOrButtonStep(w, o);
          if dec.Suspend? {
            return false, dec.request, InWait(dec.next);
          } else if dec.value.Err? {
            return true, None, Top;
          }
        case InWaitTimeout(t, w) =>
          var dec := WaitTimeoutStep(t, w, o);
          if dec.Suspend? {
            return false, dec.request, InWaitTimeout(t, dec.next);
          } else if dec.value.Err? {
            return true, None, Top;
          }
        case _ =>
      }
      if o.stop {
        return true, None, Top;
      }
      event := NoEvent;
      var aw := Step(o.flags, o.now);
      finished := false;
      match aw {
        case AwaitButton =>
          var dec := WaitStopOrButtonStep(WaitBegin, o);
          request, next := dec.request, InWait(dec.next);
        case AwaitButtonOrTimeout(t) =>
          var dec := WaitTimeoutStep(t, TimeoutBegin, o);
          request, next := dec.request, InWaitTimeout(t, dec.next);
        case AwaitSleep(dur) =>
          request, next := Some(dur), InSleep;
        case AwaitYield =>
          request, next := None, InYield;
      }
    }

    /**
     * `button_processor_task` over the observations `obs`: its run, and the driver after
     * each of its suspensions, which is what the task sharing the processor sees.
     */
    method Task(obs: seq<Obs<T>>) returns (run: Run<()>, timeline: seq<Driver<T>>)
      modifies this
      ensures run == Drive(DriverLoop(options), Driver(old(state), old(event), Top), obs)
      ensures timeline == Trace(DriverLoop(options), Driver(old(state), old(event), Top), obs)
      ensures timeline == [] ==> state == old(state) && event == old(event)
      ensures timeline != [] ==>
        state == timeline[|timeline| - 1].state && event == timeline[|timeline| - 1].event
    {
      var f := DriverLoop<T>(options);
      ghost var d0 := Driver(state, event, Top);
      var resume := Top;
      var requests: seq<Option<I32>> := [];
      timeline := [];
      var k := 0;
      while k < |obs|
        invariant 0 <= k <= |obs| && |requests| == k && |timeline| == k
        invariant Drive(f, d0, obs) == AfterRequests(requests, Drive(f, Driver(state, event, resume), obs[k..]))
        invariant Trace(f, d0, obs) == timeline + Trace(f, Driver(state, event, resume), obs[k..])
        invariant timeline == [] ==> Driver(state, event, resume) == d0
        invariant timeline != [] ==> Driver(state, event, resume) == timeline[k - 1]
        decreases |obs| - k
      {
        ghost var cur := Driver(state, event, resume);
        var finished, request, next := Poll(resume, obs[k]);
        assert obs[k..][1..] == obs[k + 1..];
        if finished {
          assert f(cur, obs[k..][0]) == Return(());
          DriveReturns(f, cur, obs[k..], requests);
          run := Finished((), requests);
          return;
        }
        assert f(cur, obs[k..][0]) == Suspend(request, Driver(state, event, next));
        DriveSuspends(f, cur, obs[k..], requests, timeline);
        requests := requests + [request];
        timeline := timeline + [Driver(state, event, next)];
        resume := next;
        k := k + 1;
      }
      run := Waiting(requests);
    }
  }
}
