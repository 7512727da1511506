/** The dialog that sets a time of day: first the hour, then the minute, each changed
 *  with the arrow buttons. */
module ChooseTime {
  import opened Base
  import opened AsyncLib
  import opened ButtonProcessor
  import opened Buttons
  import opened UiEvents

  /** `Prev` on the hour: one hour back, from 0 round to 23. */
  function HourPrev(h: U8): (r: U8)
    ensures h < 24 ==> r < 24 && (r + 1) % 24 == h
  {
    if h > 0 then h - 1 else 23
  }

  /** `Next` on the hour: one hour on, from 23 round to 0. */
  function HourNext(h: U8): (r: U8)
    ensures h < 24 ==> r < 24 && r == (h + 1) % 24
  {
    if h < 23 then h + 1 else 0
  }

  /** `Press(Prev)` on the minute: one minute back, from 0 round to 59. */
  function MinutePrev(m: U8): (r: U8)
    ensures m < 60 ==> r < 60 && (r + 1) % 60 == m
  {
    if m > 0 then m - 1 else 59
  }

  /** `Press(Next)` on the minute: one minute on, from 59 round to 0. */
  function MinuteNext(m: U8): (r: U8)
    ensures m < 60 ==> r < 60 && r == (m + 1) % 60
  {
    if m < 59 then m + 1 else 0
  }

  /** `Repeat(Prev)` on the minute: down to the previous multiple of ten strictly below,
   *  and from 0 to 50. */
  function MinuteRepeatPrev(m: U8): (r: U8)
    ensures r % 10 == 0
    ensures m > 0 ==> r < m <= r + 10
    ensures m == 0 ==> r == 50
  {
    if m > 0 then ((m - 1) / 10) * 10 else 50
  }

  /** `Repeat(Next)` on the minute: up to the next multiple of ten strictly above while
   *  that is below 60, otherwise 0. */
  function MinuteRepeatNext(m: U8): (r: U8)
    ensures r % 10 == 0
    ensures m < 50 ==> m < r <= m + 10 && r < 60
    ensures m >= 50 ==> r == 0
  {
    if m < 50 then ((m + 10) / 10) * 10 else 0
  }

  /** The hour and minute moves are inverse to each other on valid times of day. */
  lemma HourMinuteMovesInverse(h: U8, m: U8)
    requires h < 24 && m < 60
    ensures HourNext(HourPrev(h)) == h && HourPrev(HourNext(h)) == h
    ensures MinuteNext(MinutePrev(m)) == m && MinutePrev(MinuteNext(m)) == m
  {
  }

  /** The phases of `choose_time`: choosing the hour, choosing the minute, and blinking
   *  to confirm the new time. */
  datatype TimeDialog = Hour(h: U8, m: U8) | Minute(h: U8, m: U8) | Confirm(h: U8, m: U8)

  /**
   * One pass of `choose_time(hour, minute)` after a wait: `choose_hour`'s loop in the
   * hour phase, `choose_minute`'s loop in the minute phase. The result is the response
   * and the caller's hour and minute after the call.
   */
  function ChooseTimeStep(hour: U8, minute: U8, d: TimeDialog, o: UiObs)
    : (r: Decision<TimeDialog, (SelectionResponse, U8, U8)>)
    ensures r.Return? && r.value.0 != SelectionResponse.Ok ==> (r.value.1, r.value.2) == (hour, minute)
    ensures r.Return? && r.value.0 == SelectionResponse.Ok <==> d.Confirm?
    ensures !d.Confirm? ==> (r.Return? <==> o.event.NoEvent? || (d.Hour? && IsPress(o.event, Escape)))
    ensures r.Suspend? ==> (r.next.Confirm? <==> d.Minute? && IsPress(o.event, Enter))
    ensures r.Suspend? ==> r.request == (if r.next.Confirm? then CONFIRM_WAIT else MENU_WAIT)
  {
    var e := o.event;
    match d
    case Hour(h, m) =>
      if e.NoEvent? then Return((SelectionResponse.Timeout, hour, minute))
      else if IsPress(e, Escape) then Return((SelectionResponse.Back, hour, minute))
      else if IsPressOrRepeat(e, Prev) then Suspend(MENU_WAIT, Hour(HourPrev(h), m))
      else if IsPressOrRepeat(e, Next) then Suspend(MENU_WAIT, Hour(HourNext(h), m))
      else if IsPress(e, Enter) then Suspend(MENU_WAIT, Minute(h, m))
      else Suspend(MENU_WAIT, d)
    case Minute(h, m) =>
      if e.NoEvent? then Return((SelectionResponse.Timeout, hour, minute))
      else if IsPress(e, Escape) then Suspend(MENU_WAIT, Hour(h, m))
      else if IsPress(e, Prev) then Suspend(MENU_WAIT, Minute(h, MinutePrev(m)))
      else if e == Repeat({Prev}) then Suspend(MENU_WAIT, Minute(h, MinuteRepeatPrev(m)))
      else if IsPress(e, Next) then Suspend(MENU_WAIT, Minute(h, MinuteNext(m)))
      else if e == Repeat({Next}) then Suspend(MENU_WAIT, Minute(h, MinuteRepeatNext(m)))
      else if IsPress(e, Enter) then Suspend(CONFIRM_WAIT, Confirm(h, m))
      else Suspend(MENU_WAIT, d)
    case Confirm(h, m) => Return((SelectionResponse.Ok, h, m))
  }

  /** The loop of `choose_time(hour, minute)` as a step function. */
  function ChooseTimeSteps(hour: U8, minute: U8): (TimeDialog, UiObs) -> Decision<TimeDialog, (SelectionResponse, U8, U8)>
  {
    (d, o) => ChooseTimeStep(hour, minute, d, o)
  }

  function RunChooseTime(hour: U8, minute: U8, obs: seq<UiObs>): Run<(SelectionResponse, U8, U8)>
  {
    Drive(ChooseTimeSteps(hour, minute), Hour(hour, minute), obs)
  }

  /** `Enter` in the hour phase goes on to the minute; `Escape` in the minute phase goes
   *  back to the hour, keeping both values; `Escape` in the hour phase ends with `Back`
   *  and a timeout in either phase with `Timeout`. */
  lemma ChooseTimePhases(hour: U8, minute: U8, h: U8, m: U8, now: Milliseconds.InstantMillis)
    ensures ChooseTimeStep(hour, minute, Hour(h, m), UiObs(Press({Enter}), now)) == Suspend(MENU_WAIT, Minute(h, m))
    ensures ChooseTimeStep(hour, minute, Minute(h, m), UiObs(Press({Escape}), now)) == Suspend(MENU_WAIT, Hour(h, m))
    ensures ChooseTimeStep(hour, minute, Hour(h, m), UiObs(Press({Escape}), now)).value.0 == SelectionResponse.Back
    ensures ChooseTimeStep(hour, minute, Hour(h, m), UiObs(NoEvent, now)).value.0 == SelectionResponse.Timeout
    ensures ChooseTimeStep(hour, minute, Minute(h, m), UiObs(NoEvent, now)).value.0 == SelectionResponse.Timeout
  {
    assert Press({Enter}) != Press({Escape}) by { assert Enter !in {Escape}; }
    assert Press({Enter}) != Press({Prev}) && Press({Enter}) != Press({Next}) by {
      assert Enter !in {Prev} && Enter !in {Next};
    }
  }

  /**
   * The outcome of `choose_time(hour, minute)`: the caller's hour and minute change only
   * when the dialog answers `Ok`, which it does only after confirming the minute; and a
   * valid time of day stays valid. Every wait is a button wait of `MENU_TIMEOUT` but the
   * last one of an `Ok`, which is the confirming blink.
   */
  lemma ChooseTimeRun(hour: U8, minute: U8, obs: seq<UiObs>)
    ensures var run := RunChooseTime(hour, minute, obs);
      run.Finished? ==>
        (run.value.0 != SelectionResponse.Ok ==> run.value.1 == hour && run.value.2 == minute) &&
        (run.value.0 == SelectionResponse.Timeout <==>
          (obs[|run.requests|].event.NoEvent? && run.value.0 != SelectionResponse.Ok)) &&
        (hour < 24 && minute < 60 ==> run.value.1 < 24 && run.value.2 < 60)
    ensures var run := RunChooseTime(hour, minute, obs);
      (run.Finished? ==> MenuWaits(run.requests, run.value.0 == SelectionResponse.Ok)) &&
      (run.Waiting? ==> MenuWaits(run.requests, false) || MenuWaits(run.requests, true))
  {
    ChooseTimeWaitsFrom(hour, minute, Hour(hour, minute), obs);
    var f := ChooseTimeSteps(hour, minute);
    var valid := hour < 24 && minute < 60;
    DriveInvariant(f, Hour(hour, minute), obs,
      (d: TimeDialog) => valid ==> d.h < 24 && d.m < 60,
      (r: Option<I32>) => true,
      (v: (SelectionResponse, U8, U8), o: UiObs) =>
        (v.0 != SelectionResponse.Ok ==> v.1 == hour && v.2 == minute) &&
        (v.0 == SelectionResponse.Timeout <==> (o.event.NoEvent? && v.0 != SelectionResponse.Ok)) &&
        (valid ==> v.1 < 24 && v.2 < 60));
  }

  /** From the hour or the minute phase, the waits of the dialog are button waits of
   *  `MENU_TIMEOUT`, but for the confirming blink, which is the last of an `Ok`. */
  lemma {:induction false} ChooseTimeWaitsFrom(hour: U8, minute: U8, d: TimeDialog, obs: seq<UiObs>)
    requires !d.Confirm?
    ensures var run := Drive(ChooseTimeSteps(hour, minute), d, obs);
      (run.Finished? ==> MenuWaits(run.requests, run.value.0 == SelectionResponse.Ok)) &&
      (run.Waiting? ==> MenuWaits(run.requests, false) || MenuWaits(run.requests, true))
    decreases |obs|
  {
    var f := ChooseTimeSteps(hour, minute);
    if obs != [] {
      match f(d, obs[0])
      case Return(v) =>
      case Suspend(r, d') =>
        assert Drive(f, d, obs) == Prepend(r, Drive(f, d', obs[1..]));
        if d'.Confirm? {
          if obs[1..] != [] {
            assert Drive(f, d', obs[1..]) == Finished((SelectionResponse.Ok, d'.h, d'.m), []);
          }
          assert MenuWaits([CONFIRM_WAIT], true);
        } else {
          ChooseTimeWaitsFrom(hour, minute, d', obs[1..]);
          var rest := Drive(f, d', obs[1..]);
          if rest.Finished? {
            MenuWaitsPrepend(rest.requests, rest.value.0 == SelectionResponse.Ok);
          } else if MenuWaits(rest.requests, false) {
            MenuWaitsPrepend(rest.requests, false);
          } else {
            MenuWaitsPrepend(rest.requests, true);
          }
        }
    }
  }

  /** The match arms of `choose_hour` that change `*hour` in place. */
  method HourMove(hour: U8, e: Event) returns (h: U8)
    ensures IsPressOrRepeat(e, Prev) ==> h == HourPrev(hour)
    ensures !IsPressOrRepeat(e, Prev) && IsPressOrRepeat(e, Next) ==> h == HourNext(hour)
    ensures !IsPressOrRepeat(e, Prev) && !IsPressOrRepeat(e, Next) ==> h == hour
  {
    h := hour;
    if IsPressOrRepeat(e, Prev) {
      if h > 0 { h := h - 1; } else { h := 23; }
    } else if IsPressOrRepeat(e, Next) {
      if h < 23 { h := h + 1; } else { h := 0; }
    }
  }

  /** The match arms of `choose_minute` that change `*minute` in place. */
  method MinuteMove(minute: U8, e: Event) returns (m: U8)
    ensures IsPress(e, Prev) ==> m == MinutePrev(minute)
    ensures e == Repeat({Prev}) ==> m == MinuteRepeatPrev(minute)
    ensures IsPress(e, Next) ==> m == MinuteNext(minute)
    ensures e == Repeat({Next}) ==> m == MinuteRepeatNext(minute)
    ensures !IsPressOrRepeat(e, Prev) && !IsPressOrRepeat(e, Next) ==> m == minute
  {
    m := minute;
    if IsPress(e, Prev) {
      if m > 0 { m := m - 1; } else { m := 59; }
    } else if e == Repeat({Prev}) {
      if m > 0 { m := m - 1; m := (m / 10) * 10; } else { m := 50; }
    } else if IsPress(e, Next) {
      if m < 59 { m := m + 1; } else { m := 0; }
    } else if e == Repeat({Next}) {
      if m < 50 { m := m + 10; m := (m / 10) * 10; } else { m := 0; }
    }
  }

  /** An event other than a timeout, `Escape` or `Enter` in the hour phase moves the hour
   *  as `HourMove` does and stays in the phase. */
  lemma HourRoundStep(hour: U8, minute: U8, h: U8, h': U8, m: U8, o: UiObs)
    requires !o.event.NoEvent? && !IsPress(o.event, Escape) && !IsPress(o.event, Enter)
    requires IsPressOrRepeat(o.event, Prev) ==> h' == HourPrev(h)
    requires !IsPressOrRepeat(o.event, Prev) && IsPressOrRepeat(o.event, Next) ==> h' == HourNext(h)
    requires !IsPressOrRepeat(o.event, Prev) && !IsPressOrRepeat(o.event, Next) ==> h' == h
    ensures ChooseTimeStep(hour, minute, Hour(h, m), o) == Suspend(MENU_WAIT, Hour(h', m))
  {
  }

  /** An event other than a timeout, `Escape` or `Enter` in the minute phase moves the
   *  minute as `MinuteMove` does and stays in the phase. */
  lemma MinuteRoundStep(hour: U8, minute: U8, h: U8, m: U8, m': U8, o: UiObs)
    requires !o.event.NoEvent? && !IsPress(o.event, Escape) && !IsPress(o.event, Enter)
    requires IsPress(o.event, Prev) ==> m' == MinutePrev(m)
    requires o.event == Repeat({Prev}) ==> m' == MinuteRepeatPrev(m)
    requires IsPress(o.event, Next) ==> m' == MinuteNext(m)
    requires o.event == Repeat({Next}) ==> m' == MinuteRepeatNext(m)
    requires !IsPressOrRepeat(o.event, Prev) && !IsPressOrRepeat(o.event, Next) ==> m' == m
    ensures ChooseTimeStep(hour, minute, Minute(h, m), o) == Suspend(MENU_WAIT, Minute(h, m'))
  {
  }

  /** The confirming blink ends the dialog with `Ok` and the chosen time at the next
   *  poll. */
  lemma ConfirmEnds(hour: U8, minute: U8, h: U8, m: U8, obs: seq<UiObs>, rs: seq<Option<I32>>)
    requires obs != []
    ensures AfterRequests(rs, Drive(ChooseTimeSteps(hour, minute), Confirm(h, m), obs)) ==
      Finished((SelectionResponse.Ok, h, m), rs)
  {
    DriveReturns(ChooseTimeSteps(hour, minute), Confirm(h, m), obs, rs);
  }

  /** The phase variable of `choose_time`. */
  datatype Phase = HourPhase | MinutePhase

  /** The dialog state a phase and the two in-place values stand for. */
  function PhaseDialog(phase: Phase, h: U8, m: U8): (d: TimeDialog)
    ensures d.h == h && d.m == m && (d.Hour? <==> phase == HourPhase) && !d.Confirm?
  {
    if phase == HourPhase then Hour(h, m) else Minute(h, m)
  }

  /** How one pass of the `choose_hour` or `choose_minute` loop ends. */
  datatype RoundEnd = Continue | Ends(value: (SelectionResponse, U8, U8)) | Confirmed

  /**
   * One pass of the loop of `choose_hour` or `choose_minute` on the event after a wait:
   * a timeout, or `Escape` in the hour phase, ends the dialog; `Enter` moves from the
   * hour to the minute phase and from the minute phase to the confirming blink; `Escape`
   * in the minute phase goes back to the hours; the arrows move the value in place. It
   * is the pass `ChooseTimeStep` describes from the same state.
   */
  method TimeRound(hour: U8, minute: U8, phase: Phase, h: U8, m: U8, o: UiObs)
    returns (outcome: RoundEnd, phase': Phase, h': U8, m': U8)
    ensures var d := ChooseTimeStep(hour, minute, PhaseDialog(phase, h, m), o);
      match outcome
      case Continue => d == Suspend(MENU_WAIT, PhaseDialog(phase', h', m'))
      case Ends(v) => d == Return(v)
      case Confirmed => d == Suspend(CONFIRM_WAIT, Confirm(h, m))
  {
    var e := o.event;
    SingleButtonsDiffer(e);
    outcome, phase', h', m' := Continue, phase, h, m;
    if e.NoEvent? {
      outcome := Ends((SelectionResponse.Timeout, hour, minute));
    } else if phase == HourPhase {
      if IsPress(e, Escape) {
        outcome := Ends((SelectionResponse.Back, hour, minute));
      } else if IsPress(e, Enter) {
        phase' := MinutePhase;
      } else {
        h' := HourMove(h, e);
        HourRoundStep(hour, minute, h, h', m, o);
      }
    } else {
      if IsPress(e, Escape) {
        phase' := HourPhase;
      } else if IsPress(e, Enter) {
        outcome := Confirmed;
      } else {
        m' := MinuteMove(m, e);
        MinuteRoundStep(hour, minute, h, m, m', o);
      }
    }
  }

  /**
   * `choose_time(hour, minute)` as the loops it is made of: `hourState` and
   * `minuteState` start at the caller's values and are changed in place by the arrow
   * events of `choose_hour` and `choose_minute`; after `Enter` on the minute and the
   * confirming blink they become the caller's values. Its run over `obs` is the run of
   * `RunChooseTime`.
   */
  method ChooseTimeLoop(hour: U8, minute: U8, obs: seq<UiObs>) returns (run: Run<(SelectionResponse, U8, U8)>)
    ensures run == RunChooseTime(hour, minute, obs)
  {
    var f := ChooseTimeSteps(hour, minute);
    var hourState: U8 := hour;
    var minuteState: U8 := minute;
    var phase := HourPhase;
    var requests: seq<Option<I32>> := [];
    ghost var s0 := Hour(hour, minute);
    ghost var timeline: seq<TimeDialog> := [];
    var k := 0;
    while k < |obs|
      invariant 0 <= k <= |obs|
      invariant RunSoFar(f, s0, PhaseDialog(phase, hourState, minuteState), obs, k, requests, timeline)
      decreases |obs| - k
    {
      ghost var cur := PhaseDialog(phase, hourState, minuteState);
      var outcome, phase', h', m' := TimeRound(hour, minute, phase, hourState, minuteState, obs[k]);
      assert obs[k..][0] == obs[k];
      match outcome
      case Ends(v) =>
        DriveReturns(f, cur, obs[k..], requests);
        return Finished(v, requests);
      case Confirmed =>
        // the confirming blink, then the caller's values are overwritten
        DriveAdvances(f, s0, cur, obs, k, requests, timeline);
        requests := requests + [CONFIRM_WAIT];
        if k + 1 == |obs| {
          assert requests + [] == requests;
          return Waiting(requests);
        }
        ConfirmEnds(hour, minute, hourState, minuteState, obs[k + 1..], requests);
        return Finished((SelectionResponse.Ok, hourState, minuteState), requests);
      case Continue =>
        DriveAdvances(f, s0, cur, obs, k, requests, timeline);
        requests := requests + [MENU_WAIT];
        timeline := timeline + [PhaseDialog(phase', h', m')];
        phase, hourState, minuteState := phase', h', m';
        k := k + 1;
    }
    assert requests + [] == requests;
    run := Waiting(requests);
  }
}
