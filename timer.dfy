/** `Timer`: waiting until a duration has passed since the timer was created. */
module Timer {
  import opened Base
  import opened Milliseconds
  import opened AsyncLib

  datatype Timer = Timer(startTime: InstantMillis, duration: I32)

  /** `Timer::new(sys, duration)`: the start is the instant current at the call. */
  function New(now: InstantMillis, duration: I32): (t: Timer)
    ensures StartTime(t) == now && t.duration == duration
  {
    Timer(now, duration)
  }

  /** `start_time()`. */
  function StartTime(t: Timer): InstantMillis
  {
    t.startTime
  }

  /**
   * `time_left()`: the requested duration minus the time passed since the start, as
   * computed at the instant `now`; negative once the duration has been surpassed.
   */
  function TimeLeft(t: Timer, now: InstantMillis): (r: I32)
    ensures IsI32(t.duration - Sub(now, t.startTime)) ==> r == t.duration - Sub(now, t.startTime)
  {
    DurationSub(t.duration, Sub(now, t.startTime))
  }

  /** The time left is the whole duration at the start instant. */
  lemma TimeLeftAtStart(t: Timer)
    ensures TimeLeft(t, t.startTime) == t.duration
  {
  }

  // ---------------------------------------------------------------------------------
  // yield_if_time_left

  datatype YieldIfTimeLeftState = Begin | Resumed

  /** `yield_if_time_left()`: with no time left it returns `false` at once; otherwise it
   *  calls `sleep_at_most(time_left)` and, once resumed, returns `true`. */
  function YieldIfTimeLeftStep(t: Timer, s: YieldIfTimeLeftState, now: InstantMillis)
    : (r: Decision<YieldIfTimeLeftState, bool>)
    ensures r.Return? && !r.value ==> s == Begin && TimeLeft(t, now) <= 0
    ensures r.Return? && r.value <==> s == Resumed
    ensures r.Suspend? ==> r.next == Resumed && r.request == Some(TimeLeft(t, now)) && TimeLeft(t, now) > 0
  {
    match s
    case Begin =>
      var tl := TimeLeft(t, now);
      if tl <= 0 then Return(false) else Suspend(Some(tl), Resumed)
    case Resumed => Return(true)
  }

  function YieldIfTimeLeft(t: Timer, obs: seq<InstantMillis>): Run<bool>
  {
    Drive((s, now) => YieldIfTimeLeftStep(t, s, now), Begin, obs)
  }

  /**
   * With no time left at the call, `yield_if_time_left` returns `false` without
   * suspending or requesting a delay; otherwise it requests exactly the time left,
   * suspends once and returns `true`.
   */
  lemma YieldIfTimeLeftRun(t: Timer, obs: seq<InstantMillis>)
    requires obs != []
    ensures TimeLeft(t, obs[0]) <= 0 ==> YieldIfTimeLeft(t, obs) == Finished(false, [])
    ensures TimeLeft(t, obs[0]) > 0 && |obs| >= 2 ==>
      YieldIfTimeLeft(t, obs) == Finished(true, [Some(TimeLeft(t, obs[0]))])
    ensures TimeLeft(t, obs[0]) > 0 && |obs| == 1 ==>
      YieldIfTimeLeft(t, obs) == Waiting([Some(TimeLeft(t, obs[0]))])
  {
    var f := (s, now) => YieldIfTimeLeftStep(t, s, now);
    if TimeLeft(t, obs[0]) > 0 && |obs| >= 2 {
      assert Drive(f, Resumed, obs[1..]) == Finished(true, []);
    }
  }

  // ---------------------------------------------------------------------------------
  // wait

  /** One round of `while self.yield_if_time_left().await {}`: the loop ends when no time
   *  is left, and otherwise sleeps for the time left. */
  function WaitStep(t: Timer, now: InstantMillis): (r: Decision<(), ()>)
    ensures r.Return? <==> TimeLeft(t, now) <= 0
    ensures r.Suspend? ==> r.request.Some? && r.request.value > 0
  {
    var tl := TimeLeft(t, now);
    if tl <= 0 then Return(()) else Suspend(Some(tl), ())
  }

  /** `wait()`: runs until an observation with no time left. */
  function Wait(t: Timer, obs: seq<InstantMillis>): Run<()>
  {
    Drive((u: (), now) => WaitStep(t, now), (), obs)
  }

  /**
   * The run of `wait()`: at each suspension it requested the time left at that
   * observation, which was positive; it returns only at an observation with no time
   * left, and is still waiting only if every observation had time left.
   */
  lemma {:induction false} WaitRun(t: Timer, obs: seq<InstantMillis>)
    ensures var run := Wait(t, obs);
      (forall i | 0 <= i < |run.requests| ::
        TimeLeft(t, obs[i]) > 0 && run.requests[i] == Some(TimeLeft(t, obs[i]))) &&
      (run.Finished? ==> TimeLeft(t, obs[|run.requests|]) <= 0)
    decreases |obs|
  {
    var f := (u: (), now) => WaitStep(t, now);
    if obs != [] && TimeLeft(t, obs[0]) > 0 {
      WaitRun(t, obs[1..]);
      assert Wait(t, obs) == Prepend(Some(TimeLeft(t, obs[0])), Wait(t, obs[1..]));
      assert forall i | 1 <= i < |obs| :: obs[1..][i - 1] == obs[i];
    }
  }

  /**
   * Every delay `wait()` requests is positive, and it is at most the timer's duration as
   * long as no observed instant lies before the start.
   */
  lemma WaitRequestsBounded(t: Timer, obs: seq<InstantMillis>)
    requires forall i | 0 <= i < |obs| :: Sub(obs[i], t.startTime) >= 0
    requires forall i | 0 <= i < |obs| :: IsI32(t.duration - Sub(obs[i], t.startTime))
    ensures var run := Wait(t, obs);
      forall i | 0 <= i < |run.requests| ::
        run.requests[i].Some? && 0 < run.requests[i].value <= t.duration
  {
    WaitRun(t, obs);
  }

  /** `wait()` as its loop: `while self.yield_if_time_left().await {}`. Its run over `obs`
   *  is the run of `Wait`. */
  method WaitLoop(t: Timer, obs: seq<InstantMillis>) returns (run: Run<()>)
    ensures run == Wait(t, obs)
  {
    var f := (u: (), now) => WaitStep(t, now);
    var requests: seq<Option<I32>> := [];
    var k := 0;
    while k < |obs|
      invariant 0 <= k <= |obs|
      invariant Wait(t, obs) == AfterRequests(requests, Drive(f, (), obs[k..]))
      decreases |obs| - k
    {
      assert obs[k..][0] == obs[k];
      var timeLeft := TimeLeft(t, obs[k]);
      if timeLeft <= 0 {
        DriveReturns(f, (), obs[k..], requests);
        return Finished((), requests);
      }
      DriveSuspends(f, (), obs[k..], requests, []);
      assert obs[k..][1..] == obs[k + 1..];
      requests := requests + [Some(timeLeft)];
      k := k + 1;
    }
    assert requests + [] == requests;
    run := Waiting(requests);
  }
}
