/** `CheckHoldButton`: watching whether the user keeps holding the combination that is
 *  held when the check is created, for a given duration. */
module CheckHoldButton {
  import opened Base
  import opened Milliseconds
  import opened AsyncLib
  import opened ButtonProcessor

  datatype HoldResult = Other | ReleaseEarly | Hold

  /** The captured combination, the instant since when it is held, and the duration. */
  datatype CheckHold<T> = CheckHold(duration: I32, since: InstantMillis, buttonFlags: set<T>)

  /** `CheckHoldButton::new`: the processor must hold some combination (otherwise the
   *  source panics); the check captures that combination and the instant since when it
   *  is held, not the instant of the call. */
  function New<T>(state: ButtonState<T>, duration: I32): (c: CheckHold<T>)
    requires state.SomeButtons?
    ensures c.buttonFlags == state.buttonFlags && StartTime(c) == state.since && c.duration == duration
  {
    CheckHold(duration, state.since, state.buttonFlags)
  }

  /** `start_time()`. */
  function StartTime<T>(c: CheckHold<T>): InstantMillis
  {
    c.since
  }

  /** `time_left()`: the duration minus the time the combination has been held; negative
   *  once the duration is surpassed. */
  function TimeLeft<T>(c: CheckHold<T>, now: InstantMillis): (r: I32)
    ensures IsI32(c.duration - Sub(now, c.since)) ==> r == c.duration - Sub(now, c.since)
  {
    DurationSub(c.duration, Sub(now, c.since))
  }

  /** The verdict of `yield_if_time_left` on one view, or `None` when it goes to sleep. */
  function Check<T(==)>(c: CheckHold<T>, v: View<T>): Option<HoldResult>
  {
    if v.event == Release(c.buttonFlags) then Some(ReleaseEarly)
    else if !v.state.SomeButtons? then Some(Other)
    else if v.state.buttonFlags != c.buttonFlags then Some(Other)
    else if TimeLeft(c, v.now) <= 0 then Some(Hold)
    else None
  }

  /**
   * The verdicts in both directions: `ReleaseEarly` exactly on a release of the captured
   * combination, whatever the state; `Other` exactly when there is no such release and
   * the processor holds nothing or something else; `Hold` exactly when the captured
   * combination is still held and no time is left; and no verdict otherwise.
   */
  lemma CheckVerdicts<T>(c: CheckHold<T>, v: View<T>)
    ensures Check(c, v) == Some(ReleaseEarly) <==> v.event == Release(c.buttonFlags)
    ensures Check(c, v) == Some(Other) <==>
      v.event != Release(c.buttonFlags) && !(v.state.SomeButtons? && v.state.buttonFlags == c.buttonFlags)
    ensures Check(c, v) == Some(Hold) <==>
      v.event != Release(c.buttonFlags) && v.state.SomeButtons? && v.state.buttonFlags == c.buttonFlags &&
      TimeLeft(c, v.now) <= 0
    ensures Check(c, v) == None <==>
      v.event != Release(c.buttonFlags) && v.state.SomeButtons? && v.state.buttonFlags == c.buttonFlags &&
      TimeLeft(c, v.now) > 0
  {
  }

  datatype YieldState = Begin | Resumed

  /** `yield_if_time_left()`: a verdict at once, or a sleep of the time left followed by
   *  `None`. */
  function YieldIfTimeLeftStep<T(==)>(c: CheckHold<T>, s: YieldState, v: View<T>): (r: Decision<YieldState, Option<HoldResult>>)
    ensures r.Return? && r.value.Some? ==> s == Begin && r.value == Check(c, v)
    ensures r.Return? && r.value.None? <==> s == Resumed
    ensures r.Suspend? ==> s == Begin && r.next == Resumed && r.request.Some? && r.request.value > 0
  {
    match s
    case Begin =>
      (match Check(c, v)
       case Some(r) => Return(Some(r))
       case None => Suspend(Some(TimeLeft(c, v.now)), Resumed))
    case Resumed => Return(None)
  }

  function YieldIfTimeLeft<T(==)>(c: CheckHold<T>, obs: seq<View<T>>): Run<Option<HoldResult>>
  {
    Drive((s, v) => YieldIfTimeLeftStep(c, s, v), Begin, obs)
  }

  /** `yield_if_time_left` gives its verdict without suspending when there is one, and
   *  otherwise requests the (positive) time left, suspends once and returns `None`. */
  lemma YieldIfTimeLeftRun<T>(c: CheckHold<T>, obs: seq<View<T>>)
    requires obs != []
    ensures Check(c, obs[0]).Some? ==> YieldIfTimeLeft(c, obs) == Finished(Check(c, obs[0]), [])
    ensures Check(c, obs[0]).None? ==> TimeLeft(c, obs[0].now) > 0
    ensures Check(c, obs[0]).None? && |obs| >= 2 ==>
      YieldIfTimeLeft(c, obs) == Finished(None, [Some(TimeLeft(c, obs[0].now))])
    ensures Check(c, obs[0]).None? && |obs| == 1 ==>
      YieldIfTimeLeft(c, obs) == Waiting([Some(TimeLeft(c, obs[0].now))])
  {
    var f := (s, v) => YieldIfTimeLeftStep(c, s, v);
    if Check(c, obs[0]).None? && |obs| >= 2 {
      assert Drive(f, Resumed, obs[1..]) == Finished(None, []);
    }
  }

  /** One round of `loop { if let Some(r) = yield_if_time_left().await { return r } }`:
   *  after a sleep, the next call checks again at the same poll. */
  function WaitStep<T(==)>(c: CheckHold<T>, v: View<T>): (r: Decision<(), HoldResult>)
    ensures r.Return? ==> Check(c, v) == Some(r.value)
    ensures r.Suspend? ==> Check(c, v).None? && r.request.Some? && r.request.value > 0
  {
    match Check(c, v)
    case Some(r) => Return(r)
    case None => Suspend(Some(TimeLeft(c, v.now)), ())
  }

  function Wait<T(==)>(c: CheckHold<T>, obs: seq<View<T>>): Run<HoldResult>
  {
    Drive((u: (), v) => WaitStep(c, v), (), obs)
  }

  /**
   * The run of `wait()`: it checks at every poll; while there is no verdict it sleeps
   * the time left, which is positive; it returns the first verdict.
   */
  lemma {:induction false} WaitRun<T>(c: CheckHold<T>, obs: seq<View<T>>)
    ensures var run := Wait(c, obs);
      (forall i | 0 <= i < |run.requests| ::
        Check(c, obs[i]).None? && TimeLeft(c, obs[i].now) > 0 &&
        run.requests[i] == Some(TimeLeft(c, obs[i].now))) &&
      (run.Finished? ==> Check(c, obs[|run.requests|]) == Some(run.value))
    decreases |obs|
  {
    var f := (u: (), v) => WaitStep(c, v);
    if obs != [] && Check(c, obs[0]).None? {
      WaitRun(c, obs[1..]);
      assert Wait(c, obs) == Prepend(Some(TimeLeft(c, obs[0].now)), Wait(c, obs[1..]));
      assert forall i | 1 <= i < |obs| :: obs[1..][i - 1] == obs[i];
    }
  }

  /** A `Hold` verdict from `wait()` means the captured combination was still held and
   *  its whole duration had passed when the verdict was given. */
  lemma WaitHoldMeansHeld<T>(c: CheckHold<T>, obs: seq<View<T>>)
    requires Wait(c, obs).Finished? && Wait(c, obs).value == Hold
    ensures var v := obs[|Wait(c, obs).requests|];
      v.state.SomeButtons? && v.state.buttonFlags == c.buttonFlags && TimeLeft(c, v.now) <= 0
  {
    WaitRun(c, obs);
    CheckVerdicts(c, obs[|Wait(c, obs).requests|]);
  }

  /** `wait()` as its loop: `yield_if_time_left` at every poll until it gives a verdict.
   *  Its run over `obs` is the run of `Wait`. */
  method WaitLoop<T(==)>(c: CheckHold<T>, obs: seq<View<T>>) returns (run: Run<HoldResult>)
    ensures run == Wait(c, obs)
  {
    var f := (u: (), v) => WaitStep(c, v);
    var requests: seq<Option<I32>> := [];
    var k := 0;
    while k < |obs|
      invariant 0 <= k <= |obs|
      invariant Wait(c, obs) == AfterRequests(requests, Drive(f, (), obs[k..]))
      decreases |obs| - k
    {
      assert obs[k..][0] == obs[k];
      var result := Check(c, obs[k]);
      if result.Some? {
        DriveReturns(f, (), obs[k..], requests);
        return Finished(result.value, requests);
      }
      DriveSuspends(f, (), obs[k..], requests, []);
      assert obs[k..][1..] == obs[k + 1..];
      requests := requests + [Some(TimeLeft(c, obs[k].now))];
      k := k + 1;
    }
    assert requests + [] == requests;
    run := Waiting(requests);
  }
}
