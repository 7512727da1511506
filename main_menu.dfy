/** The main menu: one item per immediate timer and per scheduled entry of every relay,
 *  each opening the menu of that setting. */
module MainMenu {
  import opened Base
  import opened AsyncLib
  import opened ButtonProcessor
  import opened Buttons
  import opened UiEvents
  import opened Relays
  import opened Selection
  import opened ImmediateOutMenu
  import opened ScheduledEntryMenu

  datatype MainMenuItem = ImmediateOut(channel: nat) | ScheduledOut(channel: nat, iEntry: nat)

  predicate ValidItem(it: MainMenuItem)
  {
    match it
    case ImmediateOut(c) => c < NUM_RELAYS
    case ScheduledOut(c, i) => c < NUM_RELAYS && i < MAX_SCHEDULED_ENTRIES
  }

  /** `next`: the immediate timers in channel order, then the scheduled entries channel by
   *  channel, then round to the first immediate timer. Always reports a change. */
  function ItemNext(it: MainMenuItem): (r: (MainMenuItem, bool))
    ensures r.1 && (ValidItem(it) ==> ValidItem(r.0))
  {
    match it
    case ImmediateOut(c) =>
      if c < NUM_RELAYS - 1 then (ImmediateOut(c + 1), true)
      else (ScheduledOut(0, 0), true)
    case ScheduledOut(c, i) =>
      if i < MAX_SCHEDULED_ENTRIES - 1 then (ScheduledOut(c, i + 1), true)
      else if c < NUM_RELAYS - 1 then (ScheduledOut(c + 1, 0), true)
      else (ImmediateOut(0), true)
  }

  /** `previous` as written: on the scheduled entries of channel 0 it goes straight to the
   *  last immediate timer, whatever the entry. Always reports a change. */
  function ItemPrevious(it: MainMenuItem): (r: (MainMenuItem, bool))
    ensures r.1 && (ValidItem(it) ==> ValidItem(r.0))
  {
    match it
    case ImmediateOut(c) =>
      if c != 0 then (ImmediateOut(c - 1), true)
      else (ScheduledOut(NUM_RELAYS - 1, MAX_SCHEDULED_ENTRIES - 1), true)
    case ScheduledOut(c, i) =>
      if c != 0 then
        if i != 0 then (ScheduledOut(c, i - 1), true)
        else (ScheduledOut(c - 1, MAX_SCHEDULED_ENTRIES - 1), true)
      else (ImmediateOut(NUM_RELAYS - 1), true)
  }

  function MainMoves(): Moves<MainMenuItem>
  {
    Moves(ItemNext, ItemPrevious)
  }

  /** The selection state of the main menu, which `next` and `previous` overwrite in
   *  place. */
  class MainMenuCursor {
    var item: MainMenuItem

    /** The main menu starts at the first immediate timer. */
    constructor ()
      ensures item == ImmediateOut(0)
    {
      item := ImmediateOut(0);
    }

    /** `next(&mut self)`: the item becomes `ItemNext` of the old one. */
    method Next() returns (changed: bool)
      modifies this
      ensures (item, changed) == ItemNext(old(item))
      ensures ValidItem(old(item)) ==> ValidItem(item)
    {
      match item {
        case ImmediateOut(channel) =>
          if channel < NUM_RELAYS - 1 {
            item := ImmediateOut(channel + 1);
          } else {
            item := ScheduledOut(0, 0);
          }
        case ScheduledOut(channel, iEntry) =>
          if iEntry < MAX_SCHEDULED_ENTRIES - 1 {
            item := ScheduledOut(channel, iEntry + 1);
          } else if channel < NUM_RELAYS - 1 {
            item := ScheduledOut(channel + 1, 0);
          } else {
            item := ImmediateOut(0);
          }
      }
      changed := true;
    }

    /** `previous(&mut self)`: the item becomes `ItemPrevious` of the old one. */
    method Previous() returns (changed: bool)
      modifies this
      ensures (item, changed) == ItemPrevious(old(item))
      ensures ValidItem(old(item)) ==> ValidItem(item)
    {
      match item {
        case ImmediateOut(channel) =>
          if channel != 0 {
            item := ImmediateOut(channel - 1);
          } else {
            item := ScheduledOut(NUM_RELAYS - 1, MAX_SCHEDULED_ENTRIES - 1);
          }
        case ScheduledOut(channel, iEntry) =>
          if channel != 0 {
            if iEntry != 0 {
              item := ScheduledOut(channel, iEntry - 1);
            } else {
              item := ScheduledOut(channel - 1, MAX_SCHEDULED_ENTRIES - 1);
            }
          } else {
            item := ImmediateOut(NUM_RELAYS - 1);
          }
      }
      changed := true;
    }
  }

  /** The position of an item in the order of `next`. */
  function Index(it: MainMenuItem): nat
  {
    match it
    case ImmediateOut(c) => c
    case ScheduledOut(c, i) => NUM_RELAYS + c * MAX_SCHEDULED_ENTRIES + i
  }

  /** `next` walks through all 16 items in a cycle: it moves every valid item one place on,
   *  modulo the number of items, and each move changes the item. */
  lemma ItemNextCycles(it: MainMenuItem)
    requires ValidItem(it)
    ensures Index(it) < 16
    ensures Index(ItemNext(it).0) == (Index(it) + 1) % 16
    ensures ItemNext(it).0 != it && ItemPrevious(it).0 != it
  {
  }

  /** Valid items are told apart by their position. */
  lemma IndexInjective(a: MainMenuItem, b: MainMenuItem)
    requires ValidItem(a) && ValidItem(b) && Index(a) == Index(b)
    ensures a == b
  {
  }

  /** `previous` undoes `next` on every valid item except the first two scheduled entries
   *  of channel 0: from entry 1 or 2 of channel 0, `previous` jumps to the last immediate
   *  timer instead of going back one entry. */
  lemma ItemPreviousUndoesNext(it: MainMenuItem)
    requires ValidItem(it)
    ensures ItemPrevious(ItemNext(it).0).0 == it <==> !(it.ScheduledOut? && it.channel == 0 && it.iEntry < 2)
    ensures ItemPrevious(ScheduledOut(0, 1)).0 == ImmediateOut(3) && ItemNext(ScheduledOut(0, 0)).0 == ScheduledOut(0, 1)
  {
  }

  /** In the selection, at one of the settings menus. */
  datatype MainMode =
    | Selecting(item: MainMenuItem)
    | InImmediate(channel: nat, immediate: ImmediateMenu)
    | InScheduled(channel: nat, iEntry: nat, entry: EntryState)

  /** The main menu with its working copy of the settings. */
  datatype MainState = MainState(settings: Settings, mode: MainMode)

  /**
   * One pass of `menu_main(settings)` after a wait. `Escape` in the selection leaves the
   * menu; `Enter` opens the menu of the selected setting; a timeout of the selection
   * starts the selection again. A settings menu returning true leaves the main menu
   * too, returning false goes back to the selection at the same item. Each wait is a
   * button wait of `MENU_TIMEOUT` or, inside a dialog, its confirming blink.
   */
  function MainStep(s: MainState, o: UiObs): (r: Decision<MainState, Settings>)
    ensures r.Return? && s.mode.Selecting? ==> r.value == s.settings
    ensures r.Return? ==> |r.value.immediateOut| == |s.settings.immediateOut| &&
                          |r.value.scheduledOut| == |s.settings.scheduledOut|
    ensures r.Suspend? && s.mode.Selecting? ==> r.next.settings == s.settings
    ensures r.Suspend? ==> r.request == MENU_WAIT || r.request == CONFIRM_WAIT
  {
    var settings := s.settings;
    match s.mode
    case Selecting(item) =>
      (match SelectionStep(MainMoves(), item, o)
       case Suspend(r, item') => Suspend(r, MainState(settings, MainMode.Selecting(item')))
       case Return((item', e)) =>
         if IsPress(e, Escape) then Return(settings)
         else if IsPress(e, Enter) then
           (match item'
            case ImmediateOut(c) => Suspend(MENU_WAIT, MainState(settings, InImmediate(c, Showing)))
            case ScheduledOut(c, i) =>
              if c < |settings.scheduledOut| && i < |settings.scheduledOut[c]| then
                Suspend(MENU_WAIT, MainState(settings, InScheduled(c, i,
                  EntryState(settings.scheduledOut[c][i], ScheduledEntryMenu.Selecting(DefaultMenuState())))))
              else Return(settings))
         else Suspend(MENU_WAIT, MainState(settings, MainMode.Selecting(item'))))
    case InImmediate(c, m) =>
      if c < |settings.immediateOut| then
        (match ImmediateOutStep(settings.immediateOut[c], m, o)
         case Suspend(r, m') => Suspend(r, MainState(settings, InImmediate(c, m')))
         case Return((leave, entry)) =>
           var settings' := settings.(immediateOut := settings.immediateOut[c := entry]);
           if leave then Return(settings') else Suspend(MENU_WAIT, MainState(settings', MainMode.Selecting(ImmediateOut(c)))))
      else Return(settings)
    case InScheduled(c, i, es) =>
      if c < |settings.scheduledOut| && i < |settings.scheduledOut[c]| then
        (match ScheduledEntryStep(es, o)
         case Suspend(r, es') => Suspend(r, MainState(settings, InScheduled(c, i, es')))
         case Return((leave, entry)) =>
           var settings' := settings.(scheduledOut := settings.scheduledOut[c := settings.scheduledOut[c][i := entry]]);
           if leave then Return(settings') else Suspend(MENU_WAIT, MainState(settings', MainMode.Selecting(ScheduledOut(c, i)))))
      else Return(settings)
  }

  /** `menu_main` starts at the first immediate timer. */
  function MenuMain(settings: Settings, obs: seq<UiObs>): Run<Settings>
  {
    Drive(MainStep, MainState(settings, MainMode.Selecting(ImmediateOut(0))), obs)
  }

  predicate ValidMain(s: MainState)
  {
    WellFormed(s.settings) &&
    match s.mode
    case Selecting(item) => ValidItem(item)
    case InImmediate(c, _) => c < NUM_RELAYS
    case InScheduled(c, i, _) => c < NUM_RELAYS && i < MAX_SCHEDULED_ENTRIES
  }

  /** The main menu ignores a timeout of its own selection: it shows the selection again
   *  at the same item instead of leaving. */
  lemma MainMenuIgnoresTimeout(settings: Settings, item: MainMenuItem, now: Milliseconds.InstantMillis)
    ensures MainStep(MainState(settings, MainMode.Selecting(item)), UiObs(NoEvent, now)) ==
      Suspend(MENU_WAIT, MainState(settings, MainMode.Selecting(item)))
  {
  }

  /** From its selection the main menu leaves only on `Escape`, with the settings it
   *  holds; `Enter` on a valid item opens that item's menu. */
  lemma MainSelectionExits(s: MainState, o: UiObs)
    requires ValidMain(s) && s.mode.Selecting?
    ensures var d := SelectionStep(MainMoves(), s.mode.item, o);
      MainStep(s, o).Return? <==> d.Return? && IsPress(d.value.1, Escape)
    ensures MainStep(s, o).Return? ==> MainStep(s, o).value == s.settings
    ensures var d := SelectionStep(MainMoves(), s.mode.item, o);
      d.Return? && IsPress(d.value.1, Enter) ==>
        MainStep(s, o).Suspend? && !MainStep(s, o).next.mode.Selecting?
  {
    var d := SelectionStep(MainMoves(), s.mode.item, o);
    if d.Return? {
      SelectionKeepsValid(s.mode.item, o);
    }
  }

  /** The selection only ever moves between valid items. */
  lemma SelectionKeepsValid(item: MainMenuItem, o: UiObs)
    requires ValidItem(item)
    ensures var d := SelectionStep(MainMoves(), item, o);
      ValidItem(if d.Return? then d.value.0 else d.next)
  {
  }

  /** A settings menu that returns true leaves the main menu with its entry written into
   *  the settings; one that returns false writes its entry and goes back to the
   *  selection at the same item. */
  lemma MainSubmenuReturns(s: MainState, o: UiObs)
    requires ValidMain(s) && !s.mode.Selecting?
    ensures s.mode.InImmediate? ==>
      var d := ImmediateOutStep(s.settings.immediateOut[s.mode.channel], s.mode.immediate, o);
      (MainStep(s, o).Return? <==> d.Return? && d.value.0) &&
      (d.Return? ==>
        var settings' := s.settings.(immediateOut := s.settings.immediateOut[s.mode.channel := d.value.1]);
        MainStep(s, o) == if d.value.0 then Return(settings')
          else Suspend(MENU_WAIT, MainState(settings', MainMode.Selecting(ImmediateOut(s.mode.channel)))))
    ensures s.mode.InScheduled? ==>
      var c := s.mode.channel; var i := s.mode.iEntry;
      var d := ScheduledEntryStep(s.mode.entry, o);
      (MainStep(s, o).Return? <==> d.Return? && d.value.0) &&
      (d.Return? ==>
        var settings' := s.settings.(scheduledOut := s.settings.scheduledOut[c := s.settings.scheduledOut[c][i := d.value.1]]);
        MainStep(s, o) == if d.value.0 then Return(settings')
          else Suspend(MENU_WAIT, MainState(settings', MainMode.Selecting(ScheduledOut(c, i)))))
  {
  }

  /** A pass of the main menu that suspends keeps its state valid. */
  lemma MainStepKeepsValid(s: MainState, o: UiObs)
    requires ValidMain(s) && MainStep(s, o).Suspend?
    ensures ValidMain(MainStep(s, o).next)
  {
    match s.mode
    case Selecting(item) =>
      var d := SelectionStep(MainMoves(), item, o);
      if d.Suspend? {
        assert d.next == item || d.next == ItemNext(item).0 || d.next == ItemPrevious(item).0;
      }
    case InImmediate(c, m) =>
    case InScheduled(c, i, es) =>
      var settings := s.settings;
      var d := ScheduledEntryStep(es, o);
      if d.Return? {
        var s' := settings.(scheduledOut := settings.scheduledOut[c := settings.scheduledOut[c][i := d.value.1]]);
        assert forall k | 0 <= k < NUM_RELAYS :: |s'.scheduledOut[k]| == MAX_SCHEDULED_ENTRIES;
      }
  }

  /** A pass of the main menu that returns gives well-formed settings. */
  lemma MainStepReturnsWellFormed(s: MainState, o: UiObs)
    requires ValidMain(s) && MainStep(s, o).Return?
    ensures WellFormed(MainStep(s, o).value)
  {
    match s.mode
    case Selecting(item) =>
    case InImmediate(c, m) =>
    case InScheduled(c, i, es) =>
      var settings := s.settings;
      var d := ScheduledEntryStep(es, o);
      if d.Return? {
        var s' := settings.(scheduledOut := settings.scheduledOut[c := settings.scheduledOut[c][i := d.value.1]]);
        assert forall k | 0 <= k < NUM_RELAYS :: |s'.scheduledOut[k]| == MAX_SCHEDULED_ENTRIES;
      }
  }

  /**
   * The main menu keeps the settings well formed and its item valid, and it leaves only
   * through `Escape` in its selection or a settings menu that returns true (the menu
   * of the item selected when `Enter` was pressed); what it returns are the settings
   * as these menus left them. Each wait is a button wait of `MENU_TIMEOUT` or a
   * confirming blink.
   */
  lemma MenuMainRun(settings: Settings, obs: seq<UiObs>)
    requires WellFormed(settings)
    ensures var run := MenuMain(settings, obs);
      run.Finished? ==> WellFormed(run.value)
    ensures var f := MainStep; var s0 := MainState(settings, MainMode.Selecting(ImmediateOut(0)));
      forall i | 0 <= i < |Trace(f, s0, obs)| :: ValidMain(Trace(f, s0, obs)[i])
    ensures var run := MenuMain(settings, obs);
      forall i | 0 <= i < |run.requests| :: run.requests[i] == MENU_WAIT || run.requests[i] == CONFIRM_WAIT
  {
    var s0 := MainState(settings, MainMode.Selecting(ImmediateOut(0)));
    forall s, o | ValidMain(s) && MainStep(s, o).Suspend?
      ensures ValidMain(MainStep(s, o).next)
    {
      MainStepKeepsValid(s, o);
    }
    forall s, o | ValidMain(s) && MainStep(s, o).Return?
      ensures WellFormed(MainStep(s, o).value)
    {
      MainStepReturnsWellFormed(s, o);
    }
    DriveInvariant(MainStep, s0, obs, ValidMain, (r: Option<I32>) => r == MENU_WAIT || r == CONFIRM_WAIT,
      (v: Settings, o: UiObs) => WellFormed(v));
    TraceInvariant(MainStep, s0, obs, ValidMain);
  }
}
