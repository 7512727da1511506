/** The menu of the immediate timer of one relay: shows the time left and lets the user
 *  choose a new duration starting now. */
module ImmediateOutMenu {
  import opened Base
  import opened Milliseconds
  import opened AsyncLib
  import opened ButtonProcessor
  import opened Buttons
  import opened UiEvents
  import opened Relays
  import opened DurationMenu

  /** `get_time_left`: the time an immediate timer has left, never negative, and 0 when
   *  there is no timer. */
  function GetTimeLeft(entry: Option<ImmediateOutEntry>, now: InstantMillis): (r: I32)
    ensures r >= 0
    ensures entry.None? ==> r == 0
    ensures entry.Some? ==> r == Max(0, ImmediateTimeLeft(entry.value, now))
  {
    match entry
    case None => 0
    case Some(e) =>
      var timeLeft := ImmediateTimeLeft(e, now);
      if 0 >= timeLeft then 0 else timeLeft
  }

  /** The menu and the relay task agree: the menu shows time left exactly when the relay
   *  task keeps the timer, and then it shows the normalized timer's duration. */
  lemma GetTimeLeftAgreesWithNormalize(entry: Option<ImmediateOutEntry>, now: InstantMillis)
    ensures GetTimeLeft(entry, now) > 0 <==> NormalizeImmediateOutEntry(entry, now).Some?
    ensures NormalizeImmediateOutEntry(entry, now).Some? ==>
      GetTimeLeft(entry, now) == NormalizeImmediateOutEntry(entry, now).value.duration
  {
  }

  /** Showing the time left until a button ends the wait, or choosing a new duration
   *  that started from `duration`. */
  datatype ImmediateMenu = Showing | InDuration(duration: I32, dialog: DurationDialog)

  /** The setting after `choose_duration` returns with `duration` at `now`. */
  function NewSetting(duration: I32, now: InstantMillis): (r: Option<ImmediateOutEntry>)
    ensures r.None? <==> duration == 0
    ensures r.Some? ==> r.value.start == now && r.value.duration == duration
  {
    if duration == 0 then None else Some(ImmediateOutEntry(now, duration))
  }

  /**
   * One pass of `menu_immediate_out(setting)` after a wait; the result is the returned
   * flag (true: leave all menus) and the setting after the call.
   */
  function ImmediateOutStep(setting: Option<ImmediateOutEntry>, s: ImmediateMenu, o: UiObs)
    : (r: Decision<ImmediateMenu, (bool, Option<ImmediateOutEntry>)>)
    ensures r.Return? && s.Showing? ==> r.value == (o.event.NoEvent?, setting)
    ensures r.Return? && s.InDuration? ==> r.value.1.None? || r.value.1.value.start == o.now
    ensures r.Suspend? ==>
      r.request == (if r.next.InDuration? && r.next.dialog.Confirming? then CONFIRM_WAIT else MENU_WAIT)
  {
    match s
    case Showing =>
      var e := o.event;
      if e.NoEvent? then Return((true, setting))
      else if IsPress(e, Escape) then Return((false, setting))
      else if IsPress(e, Enter) then
        var duration := GetTimeLeft(setting, o.now);
        Suspend(MENU_WAIT, InDuration(duration, Choosing(duration)))
      else Suspend(MENU_WAIT, Showing)
    case InDuration(duration, d) =>
      match ChooseDurationStep(duration, d, o)
      case Suspend(r, d') => Suspend(r, InDuration(duration, d'))
      case Return((isSet, chosen)) => Return((isSet, NewSetting(chosen, o.now)))
  }

  /** The loop of `menu_immediate_out(setting)` as a step function. */
  function ImmediateOutSteps(setting: Option<ImmediateOutEntry>)
    : (ImmediateMenu, UiObs) -> Decision<ImmediateMenu, (bool, Option<ImmediateOutEntry>)>
  {
    (s, o) => ImmediateOutStep(setting, s, o)
  }

  function MenuImmediateOut(setting: Option<ImmediateOutEntry>, obs: seq<UiObs>)
    : Run<(bool, Option<ImmediateOutEntry>)>
  {
    Drive(ImmediateOutSteps(setting), Showing, obs)
  }

  /** The choices of the menu: a timeout leaves all menus and `Escape` goes back, both
   *  keeping the setting; `Enter` opens the duration dialog on the time left. */
  lemma ImmediateOutChoices(setting: Option<ImmediateOutEntry>, now: InstantMillis)
    ensures ImmediateOutStep(setting, Showing, UiObs(NoEvent, now)) == Return((true, setting))
    ensures ImmediateOutStep(setting, Showing, UiObs(Press({Escape}), now)) == Return((false, setting))
    ensures ImmediateOutStep(setting, Showing, UiObs(Press({Enter}), now)) ==
      Suspend(MENU_WAIT, InDuration(GetTimeLeft(setting, now), Choosing(GetTimeLeft(setting, now))))
  {
    assert Press({Enter}) != Press({Escape}) by { assert Enter !in {Escape}; }
  }

  /** While choosing, the dialog started from a time left of `setting`, and it shows
   *  that duration or a table entry. */
  ghost predicate GoodMenu(setting: Option<ImmediateOutEntry>, s: ImmediateMenu)
  {
    s.InDuration? ==>
      (exists t: InstantMillis :: s.duration == GetTimeLeft(setting, t)) &&
      (s.dialog.menuState == s.duration || s.dialog.menuState in SELECTABLE_DURATIONS)
  }

  /** The setting after the menu: unchanged, deleted, or started at `o.now` with a positive
   *  duration that is a table entry or a time left of `setting`. */
  ghost predicate GoodOutcome(setting: Option<ImmediateOutEntry>, v: (bool, Option<ImmediateOutEntry>), o: UiObs)
  {
    v.1 == setting || v.1.None? ||
    (v.1.value.start == o.now && v.1.value.duration > 0 &&
     (v.1.value.duration in SELECTABLE_DURATIONS ||
      exists t: InstantMillis :: v.1.value.duration == GetTimeLeft(setting, t)))
  }

  lemma ImmediateStepReturnsGood(setting: Option<ImmediateOutEntry>, s: ImmediateMenu, o: UiObs)
    requires GoodMenu(setting, s) && ImmediateOutStep(setting, s, o).Return?
    ensures GoodOutcome(setting, ImmediateOutStep(setting, s, o).value, o)
  {
    if s.InDuration? {
      var v := ChooseDurationStep(s.duration, s.dialog, o).value;
      assert v.1 == s.duration || v.1 == s.dialog.menuState;
    }
  }

  lemma ImmediateStepKeepsGood(setting: Option<ImmediateOutEntry>, s: ImmediateMenu, o: UiObs)
    requires GoodMenu(setting, s) && ImmediateOutStep(setting, s, o).Suspend?
    ensures GoodMenu(setting, ImmediateOutStep(setting, s, o).next)
  {
    if s.Showing? && IsPress(o.event, Enter) {
      assert ImmediateOutStep(setting, s, o).next.duration == GetTimeLeft(setting, o.now);
    }
  }

  /** Inside the duration dialog the menu runs as `choose_duration` from the time left
   *  `d`, makes the same requests, and ends when it ends: with its flag, and with the
   *  setting that its chosen duration gives at the instant it returns. */
  lemma {:induction false} InDurationRun(setting: Option<ImmediateOutEntry>, d: I32, dd: DurationDialog, obs: seq<UiObs>)
    ensures var run := Drive(ImmediateOutSteps(setting), InDuration(d, dd), obs);
      var inner := Drive(ChooseDurationSteps(d), dd, obs);
      run.requests == inner.requests && run.Finished? == inner.Finished? &&
      (run.Finished? ==> run.value == (inner.value.0, NewSetting(inner.value.1, obs[|run.requests|].now)))
    decreases |obs|
  {
    var f := ImmediateOutSteps(setting);
    var g := ChooseDurationSteps(d);
    if obs != [] {
      match ChooseDurationStep(d, dd, obs[0])
      case Return(v) =>
      case Suspend(r, dd') =>
        InDurationRun(setting, d, dd', obs[1..]);
        assert Drive(f, InDuration(d, dd), obs) == Prepend(r, Drive(f, InDuration(d, dd'), obs[1..]));
        assert Drive(g, dd, obs) == Prepend(r, Drive(g, dd', obs[1..]));
        if Drive(g, dd, obs).Finished? {
          assert obs[|Drive(g, dd, obs).requests|] == obs[1..][|Drive(g, dd', obs[1..]).requests|];
        }
    }
  }

  /** The menu's run met no `Enter`: each event before its end was ignored and followed
   *  by another button wait of `MENU_TIMEOUT`, and a finished run met a timeout or
   *  `Escape`, returning true or false and the setting unchanged. */
  ghost predicate ShowingOnly(setting: Option<ImmediateOutEntry>, obs: seq<UiObs>,
                              run: Run<(bool, Option<ImmediateOutEntry>)>)
  {
    var k := |run.requests|;
    k <= |obs| &&
    (forall i | 0 <= i < k :: !EndsChoosing(obs[i].event) && run.requests[i] == MENU_WAIT) &&
    (run.Finished? ==>
      k < |obs| && (obs[k].event.NoEvent? || IsPress(obs[k].event, Escape)) &&
      run.value == (obs[k].event.NoEvent?, setting))
  }

  /** The menu's first `Enter` came at observation `j`, after ignored events that were
   *  each followed by a button wait, and opened the duration dialog on the time left
   *  then. From there the menu made the requests of that dialog's run over the later
   *  observations and ended where it did, returning its flag and the setting its chosen
   *  duration gives at that instant. */
  ghost predicate AfterEnter(setting: Option<ImmediateOutEntry>, obs: seq<UiObs>,
                             run: Run<(bool, Option<ImmediateOutEntry>)>, j: int)
  {
    var k := |run.requests|;
    0 <= j < k <= |obs| &&
    (forall i | 0 <= i < j :: !EndsChoosing(obs[i].event) && run.requests[i] == MENU_WAIT) &&
    IsPress(obs[j].event, Enter) && run.requests[j] == MENU_WAIT &&
    var inner := ChooseDuration(GetTimeLeft(setting, obs[j].now), obs[j + 1..]);
    run.requests[j + 1..] == inner.requests && run.Finished? == inner.Finished? &&
    (run.Finished? ==> k < |obs| && run.value == (inner.value.0, NewSetting(inner.value.1, obs[k].now)))
  }

  /**
   * The run `run` of the menu over `obs`: either it met no `Enter` (`ShowingOnly`), or
   * it opened the duration dialog at its first `Enter` and went on as that dialog did
   * (`AfterEnter`).
   */
  ghost predicate ImmediateTrace(setting: Option<ImmediateOutEntry>, obs: seq<UiObs>,
                                 run: Run<(bool, Option<ImmediateOutEntry>)>)
  {
    ShowingOnly(setting, obs, run) || exists j :: AfterEnter(setting, obs, run, j)
  }

  /** An ignored event in front of a run that met no `Enter`. */
  lemma ShowingOnlyPrepend(setting: Option<ImmediateOutEntry>, obs: seq<UiObs>,
                           run: Run<(bool, Option<ImmediateOutEntry>)>)
    requires obs != [] && !EndsChoosing(obs[0].event)
    requires ShowingOnly(setting, obs[1..], run)
    ensures ShowingOnly(setting, obs, Prepend(MENU_WAIT, run))
  {
    var run' := Prepend(MENU_WAIT, run);
    var k := |run'.requests|;
    forall i | 1 <= i < k
      ensures !EndsChoosing(obs[i].event) && run'.requests[i] == MENU_WAIT
    {
      assert run'.requests[i] == run.requests[i - 1];
      assert obs[1..][i - 1] == obs[i];
    }
    if run'.Finished? {
      assert obs[k] == obs[1..][k - 1];
    }
  }

  /** An ignored event in front of a run that opened the dialog at `j`. */
  lemma AfterEnterPrepend(setting: Option<ImmediateOutEntry>, obs: seq<UiObs>,
                          run: Run<(bool, Option<ImmediateOutEntry>)>, j: int)
    requires obs != [] && !EndsChoosing(obs[0].event)
    requires AfterEnter(setting, obs[1..], run, j)
    ensures AfterEnter(setting, obs, Prepend(MENU_WAIT, run), j + 1)
  {
    var run' := Prepend(MENU_WAIT, run);
    var k := |run'.requests|;
    forall i | 1 <= i < j + 1
      ensures !EndsChoosing(obs[i].event) && run'.requests[i] == MENU_WAIT
    {
      assert run'.requests[i] == run.requests[i - 1];
      assert obs[1..][i - 1] == obs[i];
    }
    assert obs[1..][j] == obs[j + 1];
    assert obs[1..][j + 1..] == obs[j + 2..];
    assert run'.requests[j + 2..] == run.requests[j + 1..];
    if run'.Finished? {
      assert obs[k] == obs[1..][k - 1];
    }
  }

  /** An ignored event in front of a trace of the menu. */
  lemma ImmediateTracePrepend(setting: Option<ImmediateOutEntry>, obs: seq<UiObs>,
                              run: Run<(bool, Option<ImmediateOutEntry>)>)
    requires obs != [] && !EndsChoosing(obs[0].event)
    requires ImmediateTrace(setting, obs[1..], run)
    ensures ImmediateTrace(setting, obs, Prepend(MENU_WAIT, run))
  {
    if ShowingOnly(setting, obs[1..], run) {
      ShowingOnlyPrepend(setting, obs, run);
    } else {
      var j :| AfterEnter(setting, obs[1..], run, j);
      AfterEnterPrepend(setting, obs, run, j);
    }
  }

  /** The run after the `Enter` that opened the dialog at the first observation. */
  lemma EnterFirst(setting: Option<ImmediateOutEntry>, obs: seq<UiObs>)
    requires obs != [] && IsPress(obs[0].event, Enter)
    ensures AfterEnter(setting, obs, MenuImmediateOut(setting, obs), 0)
  {
    var f := ImmediateOutSteps(setting);
    var d := GetTimeLeft(setting, obs[0].now);
    ImmediateOutChoices(setting, obs[0].now);
    assert obs[0] == UiObs(Press({Enter}), obs[0].now);
    assert Drive(f, Showing, obs) == Prepend(MENU_WAIT, Drive(f, InDuration(d, Choosing(d)), obs[1..]));
    InDurationRun(setting, d, Choosing(d), obs[1..]);
    var run := MenuImmediateOut(setting, obs);
    assert run.requests[1..] == Drive(f, InDuration(d, Choosing(d)), obs[1..]).requests;
    if run.Finished? {
      assert obs[1..][|run.requests| - 1] == obs[|run.requests|];
    }
  }

  lemma {:induction false} ShowingFrom(setting: Option<ImmediateOutEntry>, obs: seq<UiObs>)
    ensures ImmediateTrace(setting, obs, MenuImmediateOut(setting, obs))
    decreases |obs|
  {
    var f := ImmediateOutSteps(setting);
    if obs != [] {
      var e := obs[0].event;
      if IsPress(e, Enter) {
        EnterFirst(setting, obs);
      } else if !EndsChoosing(e) {
        assert f(Showing, obs[0]) == Suspend(MENU_WAIT, Showing);
        ShowingFrom(setting, obs[1..]);
        assert Drive(f, Showing, obs) == Prepend(MENU_WAIT, Drive(f, Showing, obs[1..]));
        ImmediateTracePrepend(setting, obs, Drive(f, Showing, obs[1..]));
      } else {
        assert ShowingOnly(setting, obs, MenuImmediateOut(setting, obs));
      }
    } else {
      assert ShowingOnly(setting, obs, MenuImmediateOut(setting, obs));
    }
  }

  /**
   * The outcome of `menu_immediate_out`: the setting is either unchanged (the menu ended
   * on a timeout or `Escape` before `Enter`), or deleted (a duration of 0 was left
   * chosen), or a timer starting at the instant the duration dialog ended, with a
   * positive duration that is the time left at `Enter` or a table entry. (It is
   * rewritten after `Enter` even when the dialog returns false.) Exactly: the run is an
   * `ImmediateTrace`, and after `Enter` its flag and setting come from `choose_duration`
   * run on the time left, whose run `DurationMenu.ChooseDurationRun` describes.
   */
  lemma MenuImmediateOutRun(setting: Option<ImmediateOutEntry>, obs: seq<UiObs>)
    ensures var run := MenuImmediateOut(setting, obs);
      run.Finished? ==>
        var o := obs[|run.requests|];
        run.value.1 == setting || run.value.1.None? ||
        (run.value.1.value.start == o.now && run.value.1.value.duration > 0 &&
         (run.value.1.value.duration in SELECTABLE_DURATIONS ||
          exists t: InstantMillis :: run.value.1.value.duration == GetTimeLeft(setting, t)))
    ensures ImmediateTrace(setting, obs, MenuImmediateOut(setting, obs))
  {
    ShowingFrom(setting, obs);
    var f := ImmediateOutSteps(setting);
    var inv := (s: ImmediateMenu) => GoodMenu(setting, s);
    var ret := (v: (bool, Option<ImmediateOutEntry>), o: UiObs) => GoodOutcome(setting, v, o);
    forall s, o | inv(s) && f(s, o).Return?
      ensures ret(f(s, o).value, o)
    {
      ImmediateStepReturnsGood(setting, s, o);
    }
    forall s, o | inv(s) && f(s, o).Suspend?
      ensures inv(f(s, o).next)
    {
      ImmediateStepKeepsGood(setting, s, o);
    }
    DriveInvariant(f, Showing, obs, inv, (r: Option<I32>) => true, ret);
  }
}
