/** How a duration is shown on the display, and the dialog that changes a duration by
 *  stepping through a table of selectable durations. */
module DurationMenu {
  import opened Base
  import opened AsyncLib
  import opened ButtonProcessor
  import opened Buttons
  import opened UiEvents

  /** The unit a duration is shown in, with its one-letter code. */
  datatype Unit = NoUnit | Seconds | Minutes | Hours | Days

  function UnitCode(u: Unit): string
  {
    match u
    case NoUnit => ""
    case Seconds => "S"
    case Minutes => "M"
    case Hours => "H"
    case Days => "D"
  }

  function UnitMillis(u: Unit): nat
  {
    match u
    case NoUnit => 1
    case Seconds => 1000
    case Minutes => 60 * 1000
    case Hours => 60 * 60 * 1000
    case Days => 24 * 60 * 60 * 1000
  }

  /**
   * The number and unit `print_duration` shows: nothing but 0 for a duration that is not
   * positive; otherwise the first of seconds, minutes and hours that gives a number
   * below 100, else days; the number is the duration in that unit, rounded down. For
   * every `i32` the number has at most two digits.
   */
  function PrintDuration(duration: I32): (r: (int, Unit))
    ensures 0 <= r.0 < 100
    ensures r.1 == NoUnit <==> duration <= 0
    ensures r.1 == NoUnit ==> r.0 == 0
    ensures r.1 == Seconds <==> 0 < duration < 100 * UnitMillis(Seconds)
    ensures r.1 == Minutes <==> 100 * UnitMillis(Seconds) <= duration < 100 * UnitMillis(Minutes)
    ensures r.1 == Hours <==> 100 * UnitMillis(Minutes) <= duration < 100 * UnitMillis(Hours)
    ensures r.1 == Days <==> 100 * UnitMillis(Hours) <= duration
  {
    if duration <= 0 then (0, NoUnit)
    else if duration < 100 * 1000 then
      (duration / 1000, Seconds)
    else if duration < 100 * 60 * 1000 then
      (duration / (60 * 1000), Minutes)
    else if duration < 100 * 60 * 60 * 1000 then
      (duration / (60 * 60 * 1000), Hours)
    else
      assert duration / (24 * 60 * 60 * 1000) <= 24;
      (duration / (24 * 60 * 60 * 1000), Days)
  }

  /** The printed number is the duration in the printed unit, rounded down. */
  lemma PrintDurationRoundsDown(duration: I32)
    ensures var r := PrintDuration(duration);
      r.1 != NoUnit ==> r.0 * UnitMillis(r.1) <= duration < (r.0 + 1) * UnitMillis(r.1)
  {
    var r := PrintDuration(duration);
    match r.1
    case NoUnit =>
    case Seconds =>
      assert r.0 == duration / 1000;
    case Minutes =>
      assert r.0 == duration / (60 * 1000);
    case Hours =>
      assert r.0 == duration / (60 * 60 * 1000);
    case Days =>
      assert r.0 == duration / (24 * 60 * 60 * 1000);
  }


  /** The durations the dialog offers: off, 30 s, 1, 2, 3, 5, 10, 30 min, 1, 2, 3, 6, 12,
   *  18 and 24 h. */
  const SELECTABLE_DURATIONS: seq<int> := [
    0,
    1000 * 30,
    1000 * 60,
    1000 * 60 * 2,
    1000 * 60 * 3,
    1000 * 60 * 5,
    1000 * 60 * 10,
    1000 * 60 * 30,
    1000 * 60 * 60,
    1000 * 60 * 60 * 2,
    1000 * 60 * 60 * 3,
    1000 * 60 * 60 * 6,
    1000 * 60 * 60 * 12,
    1000 * 60 * 60 * 18,
    1000 * 60 * 60 * 24
  ]

  /** The table has 15 strictly increasing entries, from off to one day. */
  lemma SelectableDurationsIncreasing()
    ensures |SELECTABLE_DURATIONS| == 15
    ensures SELECTABLE_DURATIONS[0] == 0 && SELECTABLE_DURATIONS[14] == 24 * 60 * 60 * 1000
    ensures forall i, j | 0 <= i < j < 15 :: SELECTABLE_DURATIONS[i] < SELECTABLE_DURATIONS[j]
  {
    var t := SELECTABLE_DURATIONS;
    forall i | 0 <= i < 14
      ensures t[i] < t[i + 1]
    {
    }
    forall i, j | 0 <= i < j < 15
      ensures t[i] < t[j]
    {
      var k := i;
      while k < j
        invariant i <= k <= j && t[i] <= t[k]
        invariant k > i ==> t[i] < t[k]
      {
        k := k + 1;
      }
    }
  }

  /** The scan of the `Prev` branch from table index `i` on, `found` being the entry
   *  below the menu state seen last. */
  function ScanBelow(m: int, i: nat, found: int): int
    requires i <= 15
    decreases 15 - i
  {
    if i == 15 then found
    else if SELECTABLE_DURATIONS[i] < m then ScanBelow(m, i + 1, SELECTABLE_DURATIONS[i])
    else found
  }

  /** The scan of the `Next` branch from table index `i` on, `found` being the entry seen
   *  last. */
  function ScanAbove(m: int, i: nat, found: int): int
    requires i <= 15
    decreases 15 - i
  {
    if i == 15 then found
    else if SELECTABLE_DURATIONS[i] > m then SELECTABLE_DURATIONS[i]
    else ScanAbove(m, i + 1, SELECTABLE_DURATIONS[i])
  }


  lemma {:induction false} ScanBelowFinds(m: int, i: nat, found: int)
    requires i <= 15
    requires forall k | 0 <= k < i :: SELECTABLE_DURATIONS[k] < m
    requires i == 0 ==> found == 0
    requires i > 0 ==> found == SELECTABLE_DURATIONS[i - 1]
    ensures var r := ScanBelow(m, i, found);
      (r == 0 && forall k | 0 <= k < 15 :: SELECTABLE_DURATIONS[k] >= m) ||
      (r in SELECTABLE_DURATIONS && r < m &&
       forall k | 0 <= k < 15 && SELECTABLE_DURATIONS[k] < m :: SELECTABLE_DURATIONS[k] <= r)
    decreases 15 - i
  {
    SelectableDurationsIncreasing();
    if i < 15 && SELECTABLE_DURATIONS[i] < m {
      ScanBelowFinds(m, i + 1, SELECTABLE_DURATIONS[i]);
    } else if i > 0 {
      assert found in SELECTABLE_DURATIONS;
    }
  }

  lemma {:induction false} ScanAboveFinds(m: int, i: nat, found: int)
    requires i <= 15
    requires forall k | 0 <= k < i :: SELECTABLE_DURATIONS[k] <= m
    requires i > 0 ==> found == SELECTABLE_DURATIONS[i - 1]
    requires i == 0 ==> found == 0
    ensures var r := ScanAbove(m, i, found);
      (r == SELECTABLE_DURATIONS[14] && forall k | 0 <= k < 15 :: SELECTABLE_DURATIONS[k] <= m) ||
      (r in SELECTABLE_DURATIONS && r > m &&
       forall k | 0 <= k < 15 && SELECTABLE_DURATIONS[k] > m :: r <= SELECTABLE_DURATIONS[k])
    decreases 15 - i
  {
    SelectableDurationsIncreasing();
    if i < 15 && SELECTABLE_DURATIONS[i] <= m {
      ScanAboveFinds(m, i + 1, SELECTABLE_DURATIONS[i]);
    } else if i < 15 {
      assert SELECTABLE_DURATIONS[i] in SELECTABLE_DURATIONS;
    }
  }

  /** The new menu state on `Prev`: always a table entry. */
  function SmallerDuration(m: int): (r: I32)
    ensures r in SELECTABLE_DURATIONS
  {
    ScanBelowFinds(m, 0, 0);
    assert SELECTABLE_DURATIONS[0] == 0;
    TableEntriesAreI32(ScanBelow(m, 0, 0));
    ScanBelow(m, 0, 0)
  }

  /** The new menu state on `Next`: always a table entry. */
  function LargerDuration(m: int): (r: I32)
    ensures r in SELECTABLE_DURATIONS
  {
    ScanAboveFinds(m, 0, 0);
    TableEntriesAreI32(ScanAbove(m, 0, 0));
    ScanAbove(m, 0, 0)
  }

  lemma TableEntriesAreI32(x: int)
    requires x in SELECTABLE_DURATIONS
    ensures IsI32(x)
  {
  }

  /** `Prev` picks the largest table entry strictly below the menu state, or 0 when there
   *  is none. */
  lemma SmallerDurationIsLargestBelow(m: int)
    ensures var r := SmallerDuration(m);
      ((exists k | 0 <= k < 15 :: SELECTABLE_DURATIONS[k] < m) ==>
        r in SELECTABLE_DURATIONS && r < m &&
        forall k | 0 <= k < 15 && SELECTABLE_DURATIONS[k] < m :: SELECTABLE_DURATIONS[k] <= r) &&
      ((forall k | 0 <= k < 15 :: SELECTABLE_DURATIONS[k] >= m) ==> r == 0)
  {
    ScanBelowFinds(m, 0, 0);
  }

  /** `Next` picks the smallest table entry strictly above the menu state, or the last
   *  entry when there is none. */
  lemma LargerDurationIsSmallestAbove(m: int)
    ensures var r := LargerDuration(m);
      ((exists k | 0 <= k < 15 :: SELECTABLE_DURATIONS[k] > m) ==>
        r in SELECTABLE_DURATIONS && r > m &&
        forall k | 0 <= k < 15 && SELECTABLE_DURATIONS[k] > m :: r <= SELECTABLE_DURATIONS[k]) &&
      ((forall k | 0 <= k < 15 :: SELECTABLE_DURATIONS[k] <= m) ==> r == SELECTABLE_DURATIONS[14])
  {
    ScanAboveFinds(m, 0, 0);
  }

  /** The `for` loop of the `Prev` branch. */
  method FindSmallerDuration(menuState: int) returns (foundDur: int)
    ensures foundDur == SmallerDuration(menuState)
  {
    foundDur := 0;
    for i := 0 to 15
      invariant ScanBelow(menuState, i, foundDur) == SmallerDuration(menuState)
    {
      if SELECTABLE_DURATIONS[i] < menuState {
        foundDur := SELECTABLE_DURATIONS[i];
      } else {
        break;
      }
    }
  }

  /** The `for` loop of the `Next` branch. */
  method FindLargerDuration(menuState: int) returns (foundDur: int)
    ensures foundDur == LargerDuration(menuState)
  {
    foundDur := 0;
    for i := 0 to 15
      invariant ScanAbove(menuState, i, foundDur) == LargerDuration(menuState)
    {
      foundDur := SELECTABLE_DURATIONS[i];
      if SELECTABLE_DURATIONS[i] > menuState {
        break;
      }
    }
  }

  /** `choose_duration` is either choosing (showing the menu state) or blinking to confirm
   *  the chosen one. */
  datatype DurationDialog = Choosing(menuState: I32) | Confirming(menuState: I32)

  /** One pass of the loop of `choose_duration(setting)`; the result is the returned flag
   *  and the setting after the call. */
  function ChooseDurationStep(setting: I32, d: DurationDialog, o: UiObs): (r: Decision<DurationDialog, (bool, I32)>)
    ensures r.Return? <==> d.Confirming? || o.event.NoEvent? || IsPress(o.event, Escape)
    ensures r.Return? && d.Choosing? ==> r.value == (o.event.NoEvent?, setting)
    ensures r.Return? && d.Confirming? ==> r.value == (true, d.menuState)
    ensures r.Suspend? ==> (r.next.Confirming? <==> IsPress(o.event, Enter))
    ensures r.Suspend? ==> r.request == (if r.next.Confirming? then CONFIRM_WAIT else MENU_WAIT)
  {
    match d
    case Confirming(m) => Return((true, m))
    case Choosing(m) =>
      var e := o.event;
      if e.NoEvent? then Return((true, setting))
      else if IsPress(e, Escape) then Return((false, setting))
      else if IsPressOrRepeat(e, Prev) then Suspend(MENU_WAIT, Choosing(SmallerDuration(m)))
      else if IsPressOrRepeat(e, Next) then Suspend(MENU_WAIT, Choosing(LargerDuration(m)))
      else if IsPress(e, Enter) then Suspend(CONFIRM_WAIT, Confirming(m))
      else Suspend(MENU_WAIT, Choosing(m))
  }

  /** The loop of `choose_duration(setting)` as a step function. */
  function ChooseDurationSteps(setting: I32): (DurationDialog, UiObs) -> Decision<DurationDialog, (bool, I32)>
  {
    (d, o) => ChooseDurationStep(setting, d, o)
  }

  function ChooseDuration(setting: I32, obs: seq<UiObs>): Run<(bool, I32)>
  {
    Drive(ChooseDurationSteps(setting), Choosing(setting), obs)
  }

  /** A timeout, `Press(Escape)` and `Press(Enter)` end the choosing. */
  predicate EndsChoosing(e: Event)
  {
    e.NoEvent? || IsPress(e, Escape) || IsPress(e, Enter)
  }

  /** The move of an event that does not end the choosing: `Prev` and `Next`, pressed or
   *  repeated, step down or up the table; any other event keeps the menu state. */
  function DurationMove(m: I32, e: Event): I32
  {
    if IsPressOrRepeat(e, Prev) then SmallerDuration(m)
    else if IsPressOrRepeat(e, Next) then LargerDuration(m)
    else m
  }

  /** The menu state after the given events, one move each. */
  function DurationAfter(m: I32, es: seq<Event>): I32
    decreases |es|
  {
    if es == [] then m else DurationAfter(DurationMove(m, es[0]), es[1..])
  }

  /** The passes of the dialog, one per kind of event: a timeout returns true and
   *  `Escape` false, both with the setting as it was; `Enter` starts the confirming
   *  blink, which then returns true with the chosen state; any other event makes its
   *  move and waits for the next button. */
  lemma ChooseDurationChoices(setting: I32, m: I32, o: UiObs)
    ensures o.event.NoEvent? ==> ChooseDurationStep(setting, Choosing(m), o) == Return((true, setting))
    ensures IsPress(o.event, Escape) ==> ChooseDurationStep(setting, Choosing(m), o) == Return((false, setting))
    ensures IsPress(o.event, Enter) ==> ChooseDurationStep(setting, Choosing(m), o) == Suspend(CONFIRM_WAIT, Confirming(m))
    ensures !EndsChoosing(o.event) ==>
      ChooseDurationStep(setting, Choosing(m), o) == Suspend(MENU_WAIT, Choosing(DurationMove(m, o.event)))
    ensures ChooseDurationStep(setting, Confirming(m), o) == Return((true, m))
  {
    assert Press({Enter}) != Press({Escape}) by { assert Enter !in {Escape}; }
    assert Press({Enter}) != Press({Prev}) by { assert Enter !in {Prev}; }
    assert Press({Enter}) != Press({Next}) by { assert Enter !in {Next}; }
  }

  /** The wait after an event that does not end the dialog: the confirming blink after
   *  `Enter`, a button wait otherwise. */
  function DurationRequest(e: Event): Option<I32>
  {
    if IsPress(e, Enter) then CONFIRM_WAIT else MENU_WAIT
  }

  /**
   * The run `run` of the dialog choosing from menu state `m`, over `obs`: each
   * suspension is the confirming blink when its event was `Enter` and a button wait of
   * `MENU_TIMEOUT` otherwise. It finishes either on a timeout or `Escape` that comes before
   * any `Enter`, returning true or false and the setting as it was, or one pass after the
   * first `Enter`, returning true and the menu state moved by the events before it.
   */
  ghost predicate DurationTrace(setting: I32, m: I32, obs: seq<UiObs>, run: Run<(bool, I32)>)
  {
    var k := |run.requests|;
    k <= |obs| &&
    (forall i | 0 <= i < k :: run.requests[i] == DurationRequest(obs[i].event)) &&
    (run.Finished? ==>
      k < |obs| &&
      (((forall i | 0 <= i < k :: !EndsChoosing(obs[i].event)) &&
        (obs[k].event.NoEvent? || IsPress(obs[k].event, Escape)) &&
        run.value == (obs[k].event.NoEvent?, setting)) ||
       (0 < k && (forall i | 0 <= i < k - 1 :: !EndsChoosing(obs[i].event)) &&
        IsPress(obs[k - 1].event, Enter) &&
        run.value == (true, DurationAfter(m, Events(obs[..k - 1]))))))
  }

  /** The button wait of a move in front of the waits of the rest. */
  lemma DurationRequestsPrepend(obs: seq<UiObs>, rs: seq<Option<I32>>)
    requires obs != [] && !EndsChoosing(obs[0].event) && |rs| < |obs|
    requires forall i | 0 <= i < |rs| :: rs[i] == DurationRequest(obs[1..][i].event)
    ensures forall i | 0 <= i < |rs| + 1 :: ([MENU_WAIT] + rs)[i] == DurationRequest(obs[i].event)
  {
    forall i | 1 <= i < |rs| + 1
      ensures ([MENU_WAIT] + rs)[i] == DurationRequest(obs[i].event)
    {
      assert obs[1..][i - 1] == obs[i];
    }
  }

  /** A move in front of a trace of the dialog. */
  lemma DurationTracePrepend(setting: I32, m: I32, obs: seq<UiObs>, run: Run<(bool, I32)>)
    requires obs != [] && !EndsChoosing(obs[0].event)
    requires DurationTrace(setting, DurationMove(m, obs[0].event), obs[1..], run)
    ensures DurationTrace(setting, m, obs, Prepend(MENU_WAIT, run))
  {
    var run' := Prepend(MENU_WAIT, run);
    var k := |run'.requests|;
    DurationRequestsPrepend(obs, run.requests);
    if run'.Finished? {
      assert obs[k] == obs[1..][k - 1];
      assert forall i | 1 <= i < k :: obs[1..][i - 1] == obs[i];
      if k > 1 {
        EventsCons(obs, k - 1);
      }
    }
  }

  /** The confirmation returns true with the chosen state at its first pass. */
  lemma ConfirmingReturns(setting: I32, m: I32, obs: seq<UiObs>)
    requires obs != []
    ensures Drive(ChooseDurationSteps(setting), Confirming(m), obs) == Finished((true, m), [])
  {
    ChooseDurationChoices(setting, m, obs[0]);
  }

  lemma {:induction false} ChooseDurationFrom(setting: I32, m: I32, obs: seq<UiObs>)
    ensures DurationTrace(setting, m, obs, Drive(ChooseDurationSteps(setting), Choosing(m), obs))
    decreases |obs|
  {
    var f := ChooseDurationSteps(setting);
    if obs != [] {
      var e := obs[0].event;
      ChooseDurationChoices(setting, m, obs[0]);
      if IsPress(e, Enter) {
        assert Drive(f, Choosing(m), obs) == Prepend(CONFIRM_WAIT, Drive(f, Confirming(m), obs[1..]));
        if |obs| > 1 {
          ConfirmingReturns(setting, m, obs[1..]);
          assert Events(obs[..0]) == [];
        }
      } else if !EndsChoosing(e) {
        ChooseDurationFrom(setting, DurationMove(m, e), obs[1..]);
        assert Drive(f, Choosing(m), obs) == Prepend(MENU_WAIT, Drive(f, Choosing(DurationMove(m, e)), obs[1..]));
        DurationTracePrepend(setting, m, obs, Drive(f, Choosing(DurationMove(m, e)), obs[1..]));
      }
    }
  }

  /**
   * The outcome of `choose_duration(setting)`: the dialog returns false only on `Escape`
   * and then, like on a timeout (which returns true), leaves the setting as it was; a
   * setting that changed is a table entry, written after `Enter` and its confirmation,
   * and the call then returns true. The arrow buttons step through the table. Exactly:
   * the run is a `DurationTrace` from the setting.
   */
  lemma ChooseDurationRun(setting: I32, obs: seq<UiObs>)
    ensures var run := ChooseDuration(setting, obs);
      run.Finished? ==>
        var o := obs[|run.requests|];
        (!run.value.0 ==> run.value.1 == setting && IsPress(o.event, Escape)) &&
        (run.value.1 != setting ==> run.value.0 && run.value.1 in SELECTABLE_DURATIONS)
    ensures DurationTrace(setting, setting, obs, ChooseDuration(setting, obs))
  {
    ChooseDurationFrom(setting, setting, obs);
    ChooseDurationOutcome(setting, obs);
  }

  /** The first half of `ChooseDurationRun`, by the invariant that the menu state is the
   *  setting or a table entry. */
  lemma ChooseDurationOutcome(setting: I32, obs: seq<UiObs>)
    ensures var run := ChooseDuration(setting, obs);
      run.Finished? ==>
        var o := obs[|run.requests|];
        (!run.value.0 ==> run.value.1 == setting && IsPress(o.event, Escape)) &&
        (run.value.1 != setting ==> run.value.0 && run.value.1 in SELECTABLE_DURATIONS)
  {
    var f := ChooseDurationSteps(setting);
    var inv := (d: DurationDialog) => d.menuState == setting || d.menuState in SELECTABLE_DURATIONS;
    DriveInvariant(f, Choosing(setting), obs, inv, (r: Option<I32>) => true,
      (v: (bool, I32), o: UiObs) =>
        (!v.0 ==> v.1 == setting && IsPress(o.event, Escape)) &&
        (v.1 != setting ==> v.0 && v.1 in SELECTABLE_DURATIONS));
  }

  /**
   * `choose_duration(setting)` as the loop it is: `menuState` starts at the setting and
   * is replaced by the table search of `FindSmallerDuration` or `FindLargerDuration` on
   * each arrow event; after `Enter` and the confirming blink the setting becomes
   * `menuState`. Its run over `obs` is the run of `ChooseDuration`.
   */
  method ChooseDurationLoop(setting: I32, obs: seq<UiObs>) returns (run: Run<(bool, I32)>)
    ensures run == ChooseDuration(setting, obs)
  {
    var f := ChooseDurationSteps(setting);
    var menuState: I32 := setting;
    var requests: seq<Option<I32>> := [];
    var k := 0;
    while k < |obs|
      invariant 0 <= k <= |obs|
      invariant ChooseDuration(setting, obs) == AfterRequests(requests, Drive(f, Choosing(menuState), obs[k..]))
      decreases |obs| - k
    {
      ghost var cur := Choosing(menuState);
      var e := obs[k].event;
      assert obs[k..][0] == obs[k];
      assert obs[k..][1..] == obs[k + 1..];
      ChooseDurationChoices(setting, menuState, obs[k]);
      SingleButtonsDiffer(e);
      if e.NoEvent? || IsPress(e, Escape) {
        DriveReturns(f, cur, obs[k..], requests);
        run := Finished((e.NoEvent?, setting), requests);
        return;
      } else if IsPress(e, Enter) {
        DriveSuspends(f, cur, obs[k..], requests, []);
        requests := requests + [CONFIRM_WAIT];
        if k + 1 == |obs| {
          assert requests + [] == requests;
          run := Waiting(requests);
        } else {
          assert obs[k + 1..][0] == obs[k + 1];
          ChooseDurationChoices(setting, menuState, obs[k + 1]);
          DriveReturns(f, Confirming(menuState), obs[k + 1..], requests);
          run := Finished((true, menuState), requests);
        }
        return;
      }
      if IsPressOrRepeat(e, Prev) {
        menuState := FindSmallerDuration(menuState);
      } else if IsPressOrRepeat(e, Next) {
        menuState := FindLargerDuration(menuState);
      }
      assert menuState == DurationMove(cur.menuState, e);
      DriveSuspends(f, cur, obs[k..], requests, []);
      requests := requests + [MENU_WAIT];
      k := k + 1;
    }
    assert requests + [] == requests;
    run := Waiting(requests);
  }
}
