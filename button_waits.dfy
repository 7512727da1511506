/** Waiting for a button event that ends the wait, up to a timeout:
 *  `wait_button_press_or_timeout` ends on a `Press` or a `Repeat`; the same loop with
 *  another choice of events is `wait_button_press2_or_timeout` (module `Buttons`). */
module ButtonWaits {
  import opened Base
  import opened Milliseconds
  import opened AsyncLib
  import Timer
  import opened ButtonProcessor

  /** Before the first poll, or waiting with the timer started at the first poll. */
  datatype PressWait = Start | Armed(timer: Timer.Timer)

  /** The loop condition `timer.yield_if_time_left().await`: leave the loop once no time
   *  is left, otherwise sleep the time left. */
  function Round<T>(t: Timer.Timer, v: View<T>): Decision<PressWait, ()>
  {
    var tl := Timer.TimeLeft(t, v.now);
    if tl <= 0 then Return(()) else Suspend(Some(tl), Armed(t))
  }

  /** One poll: the timer starts at the call; after each sleep the event is examined
   *  first, and an event satisfying `ends` ends the wait. */
  function WaitForStep<T>(ends: ButtonEvent<T> -> bool, timeout: I32, s: PressWait, v: View<T>): (r: Decision<PressWait, ()>)
    ensures r.Suspend? ==> r.next.Armed? && Timer.TimeLeft(r.next.timer, v.now) > 0 &&
                           r.request == Some(Timer.TimeLeft(r.next.timer, v.now))
    ensures s.Armed? && r.Suspend? ==> r.next == s && !ends(v.event)
    ensures s.Armed? && r.Return? ==> ends(v.event) || Timer.TimeLeft(s.timer, v.now) <= 0
  {
    match s
    case Start => Round(Timer.New(v.now, timeout), v)
    case Armed(t) => if ends(v.event) then Return(()) else Round(t, v)
  }

  function WaitFor<T>(ends: ButtonEvent<T> -> bool, timeout: I32, obs: seq<View<T>>): Run<()>
  {
    Drive((s, v) => WaitForStep(ends, timeout, s, v), Start, obs)
  }

  /** What the wait does once armed with timer `t`, as `run` over `obs`: each suspension
   *  happened at a poll with no ending event and time left, and requested that time left;
   *  the poll that finished saw an ending event or no time left. */
  /** A suspension at a poll that saw `v`: no ending event, time left, and that time
   *  left requested. */
  ghost predicate SuspendedAt<T>(ends: ButtonEvent<T> -> bool, t: Timer.Timer, v: View<T>, r: Option<I32>)
  {
    !ends(v.event) && Timer.TimeLeft(t, v.now) > 0 && r == Some(Timer.TimeLeft(t, v.now))
  }

  ghost predicate ArmedTrace<T>(ends: ButtonEvent<T> -> bool, t: Timer.Timer, obs: seq<View<T>>, run: Run<()>)
  {
    |run.requests| <= |obs| &&
    (forall i | 0 <= i < |run.requests| :: SuspendedAt(ends, t, obs[i], run.requests[i])) &&
    (run.Finished? ==>
      |run.requests| < |obs| &&
      var v := obs[|run.requests|];
      ends(v.event) || Timer.TimeLeft(t, v.now) <= 0)
  }

  /** One more suspension in front of an armed trace. */
  lemma ArmedTracePrepend<T>(ends: ButtonEvent<T> -> bool, t: Timer.Timer, obs: seq<View<T>>, run: Run<()>)
    requires obs != [] && !ends(obs[0].event) && Timer.TimeLeft(t, obs[0].now) > 0
    requires ArmedTrace(ends, t, obs[1..], run)
    ensures ArmedTrace(ends, t, obs, Prepend(Some(Timer.TimeLeft(t, obs[0].now)), run))
  {
    var run' := Prepend(Some(Timer.TimeLeft(t, obs[0].now)), run);
    forall i | 1 <= i < |run'.requests|
      ensures SuspendedAt(ends, t, obs[i], run'.requests[i])
    {
      assert obs[1..][i - 1] == obs[i];
      assert run'.requests[i] == run.requests[i - 1];
    }
    if run'.Finished? {
      assert obs[|run'.requests|] == obs[1..][|run.requests|];
    }
  }

  lemma {:induction false} ArmedRun<T>(ends: ButtonEvent<T> -> bool, timeout: I32, t: Timer.Timer, obs: seq<View<T>>)
    ensures ArmedTrace(ends, t, obs, Drive((s, v) => WaitForStep(ends, timeout, s, v), Armed(t), obs))
    decreases |obs|
  {
    var f := (s, v) => WaitForStep(ends, timeout, s, v);
    if obs != [] && f(Armed(t), obs[0]).Suspend? {
      ArmedRun(ends, timeout, t, obs[1..]);
      assert Drive(f, Armed(t), obs) == Prepend(Some(Timer.TimeLeft(t, obs[0].now)), Drive(f, Armed(t), obs[1..]));
      ArmedTracePrepend(ends, t, obs, Drive(f, Armed(t), obs[1..]));
    }
  }

  /** The first suspension requests the whole timeout; the armed trace follows it. */
  lemma StartedTrace<T>(ends: ButtonEvent<T> -> bool, t: Timer.Timer, timeout: I32, obs: seq<View<T>>, inner: Run<()>)
    requires obs != []
    requires ArmedTrace(ends, t, obs[1..], inner)
    ensures var run := Prepend(Some(timeout), inner);
      run.requests[0] == Some(timeout) &&
      (forall i | 1 <= i < |run.requests| :: SuspendedAt(ends, t, obs[i], run.requests[i])) &&
      (run.Finished? ==>
        |run.requests| < |obs| &&
        var v := obs[|run.requests|];
        |run.requests| > 0 && (ends(v.event) || Timer.TimeLeft(t, v.now) <= 0))
  {
    var run := Prepend(Some(timeout), inner);
    forall i | 1 <= i < |run.requests|
      ensures SuspendedAt(ends, t, obs[i], run.requests[i])
    {
      assert obs[1..][i - 1] == obs[i];
      assert run.requests[i] == inner.requests[i - 1];
    }
    if run.Finished? {
      assert obs[|run.requests|] == obs[1..][|inner.requests|];
    }
  }

  /**
   * The run of the wait, with the timer started at the first poll: the event of the
   * first poll is never examined, so only a non-positive timeout ends the wait there;
   * afterwards each sleep requests the timer's time left, and the wait ends at the first
   * later poll whose event satisfies `ends`, or at which no time is left.
   */
  lemma WaitForRun<T>(ends: ButtonEvent<T> -> bool, timeout: I32, obs: seq<View<T>>)
    requires obs != []
    ensures var run := WaitFor(ends, timeout, obs);
      var t := Timer.New(obs[0].now, timeout);
      (timeout <= 0 <==> run == Finished((), [])) &&
      (timeout > 0 ==>
        run.requests[0] == Some(timeout) &&
        (forall i | 1 <= i < |run.requests| ::
          !ends(obs[i].event) && Timer.TimeLeft(t, obs[i].now) > 0 &&
          run.requests[i] == Some(Timer.TimeLeft(t, obs[i].now))) &&
        (run.Finished? ==>
          var v := obs[|run.requests|];
          |run.requests| > 0 && (ends(v.event) || Timer.TimeLeft(t, v.now) <= 0)))
  {
    var f := (s, v) => WaitForStep(ends, timeout, s, v);
    var t := Timer.New(obs[0].now, timeout);
    Timer.TimeLeftAtStart(t);
    if timeout > 0 {
      ArmedRun(ends, timeout, t, obs[1..]);
      assert WaitFor(ends, timeout, obs) == Prepend(Some(timeout), Drive(f, Armed(t), obs[1..]));
      StartedTrace(ends, t, timeout, obs, Drive(f, Armed(t), obs[1..]));
    }
  }

  /** The events that end `wait_button_press_or_timeout`: any `Press` or `Repeat`;
   *  `NoEvent` and `Release` are ignored. */
  predicate PressOrRepeat<T>(e: ButtonEvent<T>)
  {
    e.Press? || e.Repeat?
  }

  function WaitButtonPressOrTimeout<T>(timeout: I32, obs: seq<View<T>>): Run<()>
  {
    WaitFor(PressOrRepeat, timeout, obs)
  }

  /** `wait_button_press_or_timeout(timeout)` ends at the first poll after a suspension
   *  that sees a `Press` or a `Repeat`, or once its timer has no time left. */
  lemma WaitButtonPressOrTimeoutRun<T>(timeout: I32, obs: seq<View<T>>)
    requires obs != []
    ensures var run := WaitButtonPressOrTimeout(timeout, obs);
      var t := Timer.New(obs[0].now, timeout);
      (timeout <= 0 <==> run == Finished((), [])) &&
      (forall i | 1 <= i < |run.requests| :: !obs[i].event.Press? && !obs[i].event.Repeat?) &&
      (run.Finished? && timeout > 0 ==>
        var v := obs[|run.requests|];
        v.event.Press? || v.event.Repeat? || Timer.TimeLeft(t, v.now) <= 0)
  {
    WaitForRun(PressOrRepeat, timeout, obs);
  }

  /**
   * The loop of the waits as it is: the timer is created at the call; while
   * `yield_if_time_left` finds time left it sleeps that long, and after each sleep an
   * event satisfying `ends` breaks the loop. Its run over `obs` is the run of `WaitFor`.
   */
  method WaitForLoop<T>(ends: ButtonEvent<T> -> bool, timeout: I32, obs: seq<View<T>>) returns (run: Run<()>)
    ensures run == WaitFor(ends, timeout, obs)
  {
    var f := (s, v) => WaitForStep(ends, timeout, s, v);
    if obs == [] {
      return Waiting([]);
    }
    var timeoutTimer := Timer.New(obs[0].now, timeout);
    var requests: seq<Option<I32>> := [];
    var k := 0;
    while Timer.TimeLeft(timeoutTimer, obs[k].now) > 0
      invariant 0 <= k < |obs| && timeoutTimer == Timer.New(obs[0].now, timeout)
      invariant k > 0 ==> !ends(obs[k].event)
      invariant WaitFor(ends, timeout, obs) ==
        AfterRequests(requests, Drive(f, if k == 0 then Start else Armed(timeoutTimer), obs[k..]))
      decreases |obs| - k
    {
      ghost var cur := if k == 0 then Start else Armed(timeoutTimer);
      assert obs[k..][0] == obs[k];
      assert f(cur, obs[k]) == Suspend(Some(Timer.TimeLeft(timeoutTimer, obs[k].now)), Armed(timeoutTimer));
      DriveSuspends(f, cur, obs[k..], requests, []);
      assert obs[k..][1..] == obs[k + 1..];
      requests := requests + [Some(Timer.TimeLeft(timeoutTimer, obs[k].now))];
      k := k + 1;
      if k == |obs| {
        assert requests + [] == requests;
        return Waiting(requests);
      }
      assert obs[k..][0] == obs[k];
      if ends(obs[k].event) {
        DriveReturns(f, Armed(timeoutTimer), obs[k..], requests);
        return Finished((), requests);
      }
    }
    assert obs[k..][0] == obs[k];
    DriveReturns(f, if k == 0 then Start else Armed(timeoutTimer), obs[k..], requests);
    run := Finished((), requests);
  }
}
