/** The menu of one scheduled timer entry: choose between its duration and its daily
 *  start time, and change the one chosen. */
module ScheduledEntryMenu {
  import opened Base
  import opened AsyncLib
  import opened ButtonProcessor
  import opened Buttons
  import opened UiEvents
  import opened Relays
  import opened DurationMenu
  import opened ChooseTime
  import opened Selection

  /** The two items of the menu, `Duration` first. */
  datatype MenuState = Duration | StartTime

  function DefaultMenuState(): MenuState
  {
    Duration
  }

  /** `next_cycle` on the two items. */
  function MenuNext(s: MenuState): (r: (MenuState, bool))
    ensures r.0 != s && r.1
  {
    match s
    case Duration => (StartTime, true)
    case StartTime => (Duration, true)
  }

  /** `previous_cycle` on the two items. */
  function MenuPrevious(s: MenuState): (r: (MenuState, bool))
    ensures r.0 != s && r.1
  {
    match s
    case Duration => (StartTime, true)
    case StartTime => (Duration, true)
  }

  function EntryMoves(): Moves<MenuState>
  {
    Moves(MenuNext, MenuPrevious)
  }

  /** The selection state of the menu, which `next` and `previous` overwrite in place. */
  class EntryCursor {
    var state: MenuState

    /** `MenuState::default()`: the duration. */
    constructor ()
      ensures state == DefaultMenuState()
    {
      state := Duration;
    }

    /** `next(&mut self)`: `next_cycle` always yields a new value, which replaces the
     *  state. */
    method Next() returns (changed: bool)
      modifies this
      ensures (state, changed) == MenuNext(old(state))
    {
      var newValue := if state == Duration then StartTime else Duration;
      state := newValue;
      changed := true;
    }

    /** `previous(&mut self)`: `previous_cycle` always yields a new value, which replaces
     *  the state. */
    method Previous() returns (changed: bool)
      modifies this
      ensures (state, changed) == MenuPrevious(old(state))
    {
      var newValue := if state == StartTime then Duration else StartTime;
      state := newValue;
      changed := true;
    }
  }

  /** The items form a cycle: each move changes the item and reports it, and previous
   *  undoes next. */
  lemma EntryMovesCycle(s: MenuState)
    ensures HonestMoves(EntryMoves())
    ensures MenuPrevious(MenuNext(s).0).0 == s && MenuNext(MenuPrevious(s).0).0 == s
  {
  }

  /** Selecting an item, or in the duration dialog, or in the time dialog. */
  datatype EntryMenu =
    Selecting(item: MenuState) | InDuration(durationDialog: DurationDialog) | InTime(timeDialog: TimeDialog)

  /** The menu with the entry as it currently stands. */
  datatype EntryState = EntryState(entry: ScheduledOutEntry, menu: EntryMenu)

  /**
   * One pass of `menu_scheduled_entry(entry)` after a wait; the result is the returned
   * flag (true: leave all menus) and the entry after the call. The entry is written by
   * the dialogs as they return. Each wait is a button wait of `MENU_TIMEOUT` or, inside
   * a dialog, its confirming blink.
   */
  function ScheduledEntryStep(s: EntryState, o: UiObs): (r: Decision<EntryState, (bool, ScheduledOutEntry)>)
    ensures r.Return? && !r.value.0 ==> s.menu.Selecting? && IsPress(o.event, Escape)
    ensures r.Return? && s.menu.Selecting? ==> r.value.1 == s.entry
    ensures r.Suspend? && s.menu.Selecting? ==> r.next.entry == s.entry
    ensures r.Suspend? ==> r.request == MENU_WAIT || r.request == CONFIRM_WAIT
  {
    var entry := s.entry;
    match s.menu
    case Selecting(item) =>
      (match SelectionStep(EntryMoves(), item, o)
       case Suspend(r, item') => Suspend(r, EntryState(entry, Selecting(item')))
       case Return((item', e)) =>
         if e.NoEvent? then Return((true, entry))
         else if IsPress(e, Escape) then Return((false, entry))
         else if IsPress(e, Enter) then
           (match item'
            case Duration => Suspend(MENU_WAIT, EntryState(entry, InDuration(Choosing(entry.duration))))
            case StartTime => Suspend(MENU_WAIT, EntryState(entry, InTime(Hour(entry.startHour, entry.startMinute)))))
         else Suspend(MENU_WAIT, EntryState(entry, Selecting(item'))))
    case InDuration(d) =>
      (match ChooseDurationStep(entry.duration, d, o)
       case Suspend(r, d') => Suspend(r, EntryState(entry, InDuration(d')))
       case Return((isSet, duration)) =>
         var entry' := entry.(duration := duration);
         if isSet then Return((true, entry')) else Suspend(MENU_WAIT, EntryState(entry', Selecting(Duration))))
    case InTime(t) =>
      match ChooseTimeStep(entry.startHour, entry.startMinute, t, o)
      case Suspend(r, t') => Suspend(r, EntryState(entry, InTime(t')))
      case Return((response, hour, minute)) =>
        var entry' := entry.(startHour := hour, startMinute := minute);
        if response == SelectionResponse.Back then Suspend(MENU_WAIT, EntryState(entry', Selecting(StartTime)))
        else Return((true, entry'))
  }

  function MenuScheduledEntry(entry: ScheduledOutEntry, obs: seq<UiObs>): Run<(bool, ScheduledOutEntry)>
  {
    Drive(ScheduledEntryStep, EntryState(entry, Selecting(DefaultMenuState())), obs)
  }

  /** The exits of the selection: a timeout leaves all menus, `Escape` goes back. */
  lemma ScheduledEntryExits(entry: ScheduledOutEntry, item: MenuState, now: Milliseconds.InstantMillis)
    ensures ScheduledEntryStep(EntryState(entry, Selecting(item)), UiObs(NoEvent, now)) == Return((true, entry))
    ensures ScheduledEntryStep(EntryState(entry, Selecting(item)), UiObs(Press({Escape}), now)) == Return((false, entry))
  {
  }

  /** Leaving the duration dialog with false (`Escape`) returns to the selection, with
   *  true ends the menu with true; leaving the time dialog with `Back` returns to the
   *  selection, with any other response ends the menu with true. */
  lemma ScheduledEntryDialogsReturn(s: EntryState, o: UiObs)
    requires !s.menu.Selecting? && ScheduledEntryStep(s, o).Return?
    ensures ScheduledEntryStep(s, o).value.0
    ensures s.menu.InDuration? ==> ChooseDurationStep(s.entry.duration, s.menu.durationDialog, o).value.0
    ensures s.menu.InTime? ==>
      ChooseTimeStep(s.entry.startHour, s.entry.startMinute, s.menu.timeDialog, o).value.0 != SelectionResponse.Back
  {
  }

  /** The entry's duration is the original one or a table entry, and its start time is a
   *  valid time of day when the original one was. */
  predicate GoodEntry(orig: ScheduledOutEntry, e: ScheduledOutEntry)
  {
    (e.duration == orig.duration || e.duration in SELECTABLE_DURATIONS) &&
    (orig.startHour < 24 && orig.startMinute < 60 ==> e.startHour < 24 && e.startMinute < 60)
  }

  /** The entry is good, and so is what an open dialog would write into it. */
  predicate GoodEntryState(orig: ScheduledOutEntry, s: EntryState)
  {
    GoodEntry(orig, s.entry) &&
    (s.menu.InDuration? ==> s.menu.durationDialog.menuState == s.entry.duration ||
                            s.menu.durationDialog.menuState in SELECTABLE_DURATIONS) &&
    (s.menu.InTime? && orig.startHour < 24 && orig.startMinute < 60 ==>
       s.menu.timeDialog.h < 24 && s.menu.timeDialog.m < 60)
  }

  lemma EntryStepKeepsGood(orig: ScheduledOutEntry, s: EntryState, o: UiObs)
    requires GoodEntryState(orig, s)
    ensures ScheduledEntryStep(s, o).Suspend? ==> GoodEntryState(orig, ScheduledEntryStep(s, o).next)
    ensures ScheduledEntryStep(s, o).Return? ==> GoodEntry(orig, ScheduledEntryStep(s, o).value.1)
  {
    match s.menu
    case Selecting(_) =>
    case InDuration(dialog) =>
      var d := ChooseDurationStep(s.entry.duration, dialog, o);
      if d.Return? {
        assert d.value.1 == s.entry.duration || d.value.1 == dialog.menuState;
      }
    case InTime(dialog) =>
      var t := ChooseTimeStep(s.entry.startHour, s.entry.startMinute, dialog, o);
      if t.Return? {
        assert (t.value.1, t.value.2) == (s.entry.startHour, s.entry.startMinute) ||
               (t.value.1, t.value.2) == (dialog.h, dialog.m);
      }
  }

  /**
   * The entry after the menu: the duration is the old one or a table entry, and the
   * start time, when the old one is a valid time of day, stays one. Each wait is a
   * button wait of `MENU_TIMEOUT` or a confirming blink.
   */
  lemma MenuScheduledEntryRun(entry: ScheduledOutEntry, obs: seq<UiObs>)
    ensures var run := MenuScheduledEntry(entry, obs);
      run.Finished? ==>
        (run.value.1.duration == entry.duration || run.value.1.duration in SELECTABLE_DURATIONS) &&
        (entry.startHour < 24 && entry.startMinute < 60 ==>
          run.value.1.startHour < 24 && run.value.1.startMinute < 60)
    ensures var run := MenuScheduledEntry(entry, obs);
      forall i | 0 <= i < |run.requests| :: run.requests[i] == MENU_WAIT || run.requests[i] == CONFIRM_WAIT
  {
    var inv := (s: EntryState) => GoodEntryState(entry, s);
    var ret := (v: (bool, ScheduledOutEntry), o: UiObs) => GoodEntry(entry, v.1);
    forall s, o | inv(s)
      ensures ScheduledEntryStep(s, o).Suspend? ==> inv(ScheduledEntryStep(s, o).next)
      ensures ScheduledEntryStep(s, o).Return? ==> ret(ScheduledEntryStep(s, o).value, o)
    {
      EntryStepKeepsGood(entry, s, o);
    }
    DriveInvariant(ScheduledEntryStep, EntryState(entry, Selecting(DefaultMenuState())), obs,
      inv, (r: Option<I32>) => r == MENU_WAIT || r == CONFIRM_WAIT, ret);
  }
}
