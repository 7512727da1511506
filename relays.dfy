/**
 * The settings of the device and the task that switches its output relays: immediate
 * timers (on from now for a duration) and daily scheduled timers (on from a time of day
 * for a duration).
 */
module Relays {
  import opened Base
  import opened Milliseconds
  import SystemSignals

  const NUM_RELAYS: nat := SystemSignals.NUM_RELAYS
  const MAX_SCHEDULED_ENTRIES: nat := 3
  /** How often the relay task looks at the settings. */
  const OUTPUT_UPDATE_DELAY: I32 := 2000

  /** A time of day from the real-time clock. */
  datatype RtcTime = RtcTime(hour: U8, minute: U8, second: U8)

  /** A timer that was set at `start` and runs for `duration`. */
  datatype ImmediateOutEntry = ImmediateOutEntry(start: InstantMillis, duration: I32)

  /** A timer that starts daily at `startHour:startMinute` and runs for `duration`. */
  datatype ScheduledOutEntry = ScheduledOutEntry(startHour: U8, startMinute: U8, duration: I32)

  datatype Settings = Settings(
    immediateOut: seq<Option<ImmediateOutEntry>>,
    scheduledOut: seq<seq<ScheduledOutEntry>>)

  /** The fixed array sizes: one immediate entry per relay, three scheduled per relay. */
  predicate WellFormed(s: Settings)
  {
    |s.immediateOut| == NUM_RELAYS &&
    |s.scheduledOut| == NUM_RELAYS &&
    forall i | 0 <= i < NUM_RELAYS :: |s.scheduledOut[i]| == MAX_SCHEDULED_ENTRIES
  }

  /** `Settings::default()`: no immediate timer, every scheduled entry at 00:00 for 0 ms. */
  function DefaultSettings(): (s: Settings)
    ensures WellFormed(s)
    ensures forall i | 0 <= i < NUM_RELAYS :: s.immediateOut[i].None?
    ensures forall i, j | 0 <= i < NUM_RELAYS && 0 <= j < MAX_SCHEDULED_ENTRIES ::
      s.scheduledOut[i][j].duration == 0
  {
    Settings(seq(NUM_RELAYS, _ => None),
             seq(NUM_RELAYS, _ => seq(MAX_SCHEDULED_ENTRIES, _ => ScheduledOutEntry(0, 0, 0))))
  }

  /** The time an immediate timer has left at `now`. */
  function ImmediateTimeLeft(e: ImmediateOutEntry, now: InstantMillis): I32
  {
    DurationSub(e.duration, Sub(now, e.start))
  }

  /**
   * `normalize_immediate_out_entry`: an absent timer stays absent, an expired one is
   * dropped, and a running one is restarted at `now` with the time it has left, which
   * keeps its end instant.
   */
  function NormalizeImmediateOutEntry(entry: Option<ImmediateOutEntry>, now: InstantMillis)
    : (r: Option<ImmediateOutEntry>)
    ensures entry.None? ==> r.None?
    ensures entry.Some? ==> (r.None? <==> ImmediateTimeLeft(entry.value, now) <= 0)
    ensures r.Some? ==>
      r.value.start == now && r.value.duration > 0 &&
      Add(r.value.start, r.value.duration) == Add(entry.value.start, entry.value.duration)
  {
    match entry
    case None => None
    case Some(e) =>
      var timeLeft := ImmediateTimeLeft(e, now);
      if timeLeft <= 0 then None
      else
        EndInstantKept(e.start, now, e.duration);
        Some(ImmediateOutEntry(now, timeLeft))
  }

  /** What the relay task leaves in one immediate setting: expired timers are deleted,
   *  every other entry is kept as it was (not normalized). */
  function PrunedEntry(entry: Option<ImmediateOutEntry>, now: InstantMillis): (r: Option<ImmediateOutEntry>)
    ensures r == entry || r.None?
    ensures r.None? <==> NormalizeImmediateOutEntry(entry, now).None?
  {
    if NormalizeImmediateOutEntry(entry, now).None? then None else entry
  }

  function PruneImmediate(entries: seq<Option<ImmediateOutEntry>>, now: InstantMillis)
    : (r: seq<Option<ImmediateOutEntry>>)
    ensures |r| == |entries|
  {
    seq(|entries|, i requires 0 <= i < |entries| => PrunedEntry(entries[i], now))
  }

  /** A scheduled entry fires when it has a positive duration and the clock shows its
   *  hour and minute. */
  predicate Fires(e: ScheduledOutEntry, rtc: RtcTime)
  {
    e.duration > 0 && e.startHour == rtc.hour && e.startMinute == rtc.minute
  }

  /**
   * One scheduled slot at one round: its new pending stop instant and whether it keeps
   * its relay on. A pending stop keeps the relay on while it is not in the past and is
   * cleared otherwise; with no pending stop a firing entry records `now + duration`.
   */
  function SlotStep(stop: Option<InstantMillis>, e: ScheduledOutEntry, rtc: RtcTime, now: InstantMillis)
    : (r: (Option<InstantMillis>, bool))
    ensures r.1 <==> r.0.Some?
    ensures stop.Some? ==> r.0 == stop || r.0.None?
    ensures stop.None? ==> (r.1 <==> Fires(e, rtc))
  {
    match stop
    case Some(stopInstant) =>
      if Sub(stopInstant, now) >= 0 then (stop, true) else (None, false)
    case None =>
      if Fires(e, rtc) then (Some(Add(now, e.duration)), true) else (None, false)
  }

  predicate StopsShape(stops: seq<seq<Option<InstantMillis>>>)
  {
    |stops| == NUM_RELAYS && forall i | 0 <= i < NUM_RELAYS :: |stops[i]| == MAX_SCHEDULED_ENTRIES
  }

  function NoStops(): (stops: seq<seq<Option<InstantMillis>>>)
    ensures StopsShape(stops)
  {
    seq(NUM_RELAYS, _ => seq(MAX_SCHEDULED_ENTRIES, _ => None))
  }

  /** The pending stop instants of one relay's slots after one round. */
  function NextRow(row: seq<Option<InstantMillis>>, entries: seq<ScheduledOutEntry>,
                   rtc: RtcTime, now: InstantMillis): (r: seq<Option<InstantMillis>>)
    requires |entries| == |row|
    ensures |r| == |row|
  {
    seq(|row|, j requires 0 <= j < |row| => SlotStep(row[j], entries[j], rtc, now).0)
  }

  /** The pending stop instants after one round. */
  function NextStops(stops: seq<seq<Option<InstantMillis>>>, entries: seq<seq<ScheduledOutEntry>>,
                     rtc: RtcTime, now: InstantMillis): (r: seq<seq<Option<InstantMillis>>>)
    requires StopsShape(stops) && |entries| == NUM_RELAYS
    requires forall i | 0 <= i < NUM_RELAYS :: |entries[i]| == MAX_SCHEDULED_ENTRIES
    ensures StopsShape(r)
  {
    seq(NUM_RELAYS, i requires 0 <= i < NUM_RELAYS => NextRow(stops[i], entries[i], rtc, now))
  }

  /** Whether any of the first `n` scheduled slots of a relay keeps it on. */
  predicate SlotsOn(row: seq<Option<InstantMillis>>, entries: seq<ScheduledOutEntry>,
                    rtc: RtcTime, now: InstantMillis, n: nat)
    requires n <= |row| && n <= |entries|
  {
    exists j | 0 <= j < n :: SlotStep(row[j], entries[j], rtc, now).1
  }

  /** The relay states of one round. */
  function RelaysState(s: Settings, stops: seq<seq<Option<InstantMillis>>>, rtc: RtcTime, now: InstantMillis)
    : (r: seq<bool>)
    requires WellFormed(s) && StopsShape(stops)
    ensures |r| == NUM_RELAYS
  {
    seq(NUM_RELAYS, i requires 0 <= i < NUM_RELAYS =>
      NormalizeImmediateOutEntry(s.immediateOut[i], now).Some? ||
      SlotsOn(stops[i], s.scheduledOut[i], rtc, now, MAX_SCHEDULED_ENTRIES))
  }

  /**
   * Relay `i` is on in a round exactly when its immediate timer has time left, or one
   * of its scheduled slots either has a stop instant that is not in the past, or has no
   * stop instant and fires now.
   */
  lemma RelayOnIff(s: Settings, stops: seq<seq<Option<InstantMillis>>>, rtc: RtcTime, now: InstantMillis, i: nat)
    requires WellFormed(s) && StopsShape(stops) && i < NUM_RELAYS
    ensures RelaysState(s, stops, rtc, now)[i] <==>
      (s.immediateOut[i].Some? && ImmediateTimeLeft(s.immediateOut[i].value, now) > 0) ||
      (exists j | 0 <= j < MAX_SCHEDULED_ENTRIES ::
        (stops[i][j].Some? && Sub(stops[i][j].value, now) >= 0) ||
        (stops[i][j].None? && Fires(s.scheduledOut[i][j], rtc)))
  {
    var on := RelaysState(s, stops, rtc, now)[i];
    var rhs := exists j | 0 <= j < MAX_SCHEDULED_ENTRIES ::
        (stops[i][j].Some? && Sub(stops[i][j].value, now) >= 0) ||
        (stops[i][j].None? && Fires(s.scheduledOut[i][j], rtc));
    assert SlotsOn(stops[i], s.scheduledOut[i], rtc, now, MAX_SCHEDULED_ENTRIES) <==> rhs by {
      forall j | 0 <= j < MAX_SCHEDULED_ENTRIES
        ensures SlotStep(stops[i][j], s.scheduledOut[i][j], rtc, now).1 <==>
          (stops[i][j].Some? && Sub(stops[i][j].value, now) >= 0) ||
          (stops[i][j].None? && Fires(s.scheduledOut[i][j], rtc))
      {
      }
    }
  }

  /** Expired immediate timers are deleted and every other setting is kept unchanged. */
  lemma PruneKeepsRunningTimers(entries: seq<Option<ImmediateOutEntry>>, now: InstantMillis, i: nat)
    requires i < |entries|
    ensures var r := PruneImmediate(entries, now)[i];
      (entries[i].Some? && ImmediateTimeLeft(entries[i].value, now) <= 0 ==> r.None?) &&
      (entries[i].None? || ImmediateTimeLeft(entries[i].value, now) > 0 ==> r == entries[i])
  {
  }

  /**
   * The slot rules across rounds: a slot that fires at `now` with duration `d` records
   * the stop `now + d`; that stop keeps the relay on at every instant `now + k` with
   * `0 <= k <= d`, and is cleared at `now + k` for `d < k` (while `k - d` fits in an i32).
   */
  lemma ScheduledRunsForDuration(e: ScheduledOutEntry, e': ScheduledOutEntry, rtc: RtcTime, rtc': RtcTime,
                                 now: InstantMillis, k: I32)
    requires Fires(e, rtc) && 0 <= k
    ensures SlotStep(None, e, rtc, now) == (Some(Add(now, e.duration)), true)
    ensures k <= e.duration ==>
      SlotStep(Some(Add(now, e.duration)), e', rtc', Add(now, k)) == (Some(Add(now, e.duration)), true)
    ensures e.duration < k ==>
      SlotStep(Some(Add(now, e.duration)), e', rtc', Add(now, k)) == (None, false)
  {
    SubOfOffsets(now, e.duration, k);
  }

  /**
   * An immediate timer set at `start` for `d > 0` keeps its relay on at `start + k`
   * for `0 <= k < d` and is deleted at `start + k` for `k >= d` (while `k` fits in an i32).
   */
  lemma ImmediateRunsForDuration(start: InstantMillis, d: I32, k: I32)
    requires 0 < d && 0 <= k
    ensures var e := Some(ImmediateOutEntry(start, d));
      (k < d ==> NormalizeImmediateOutEntry(e, Add(start, k)).Some? &&
                 PrunedEntry(e, Add(start, k)) == e) &&
      (d <= k ==> NormalizeImmediateOutEntry(e, Add(start, k)).None? &&
                  PrunedEntry(e, Add(start, k)) == None)
  {
    AddThenSub(start, k);
  }

  /** With the default settings and no pending stops every relay is off. */
  lemma DefaultSettingsAllOff(rtc: RtcTime, now: InstantMillis)
    ensures RelaysState(DefaultSettings(), NoStops(), rtc, now) == seq(NUM_RELAYS, _ => false)
  {
    var r := RelaysState(DefaultSettings(), NoStops(), rtc, now);
    forall i | 0 <= i < NUM_RELAYS
      ensures !r[i]
    {
      assert !SlotsOn(NoStops()[i], DefaultSettings().scheduledOut[i], rtc, now, MAX_SCHEDULED_ENTRIES);
    }
  }

  /**
   * The local state of `watch_output` across rounds, with the shared settings: the relay
   * states last sent and the pending stop instants of the scheduled entries.
   */
  class OutputWatcher {
    /** The settings shared with the user interface; the interface may replace them
     *  between rounds. */
    var settings: Settings
    var oldRelaysState: seq<bool>
    var scheduledOutStop: seq<seq<Option<InstantMillis>>>

    ghost predicate Valid()
      reads this
    {
      WellFormed(settings) && |oldRelaysState| == NUM_RELAYS && StopsShape(scheduledOutStop)
    }

    /** The start of `watch_output`: all relays last sent off, no pending stop. */
    constructor (settings: Settings)
      requires WellFormed(settings)
      ensures Valid()
      ensures this.settings == settings
      ensures oldRelaysState == seq(NUM_RELAYS, _ => false)
      ensures scheduledOutStop == NoStops()
    {
      this.settings := settings;
      oldRelaysState := seq(NUM_RELAYS, _ => false);
      scheduledOutStop := NoStops();
    }

    /**
     * One round of the `watch_output` loop at instant `now` with clock time `rtc`:
     * immediate timers first (their relay is on when the normalized copy is present,
     * expired ones are deleted from the settings), then every scheduled slot; the new
     * relay states are sent (`sent`) only when they differ from the last ones sent.
     */
    method Round(now: InstantMillis, rtc: RtcTime) returns (sent: Option<seq<bool>>)
      requires Valid()
      modifies this
      ensures Valid()
      ensures settings == old(settings).(immediateOut := PruneImmediate(old(settings).immediateOut, now))
      ensures scheduledOutStop == NextStops(old(scheduledOutStop), settings.scheduledOut, rtc, now)
      ensures oldRelaysState == RelaysState(old(settings), old(scheduledOutStop), rtc, now)
      ensures sent == if old(oldRelaysState) != oldRelaysState then Some(oldRelaysState) else None
    {
      var newRelaysState := new bool[NUM_RELAYS](_ => false);
      var entries := CheckImmediate(settings.immediateOut, now, newRelaysState);
      ghost var immediateOn := newRelaysState[..];
      settings := settings.(immediateOut := entries);

      var scheduled := settings.scheduledOut;
      var stops := scheduledOutStop;
      var r := 0;
      while r < NUM_RELAYS
        invariant 0 <= r <= NUM_RELAYS && StopsShape(stops)
        invariant forall k | 0 <= k < r ::
          stops[k] == NextRow(old(scheduledOutStop)[k], scheduled[k], rtc, now) &&
          newRelaysState[k] == RelaysState(old(settings), old(scheduledOutStop), rtc, now)[k]
        invariant forall k | r <= k < NUM_RELAYS ::
          stops[k] == old(scheduledOutStop)[k] && newRelaysState[k] == immediateOn[k]
        modifies newRelaysState
      {
        var row := CheckScheduled(stops[r], scheduled[r], rtc, now, newRelaysState, r);
        stops := stops[r := row];
        r := r + 1;
      }
      scheduledOutStop := stops;
      var newState := newRelaysState[..];
      assert newState == RelaysState(old(settings), old(scheduledOutStop), rtc, now);
      assert stops == NextStops(old(scheduledOutStop), scheduled, rtc, now);
      if oldRelaysState != newState {
        sent := Some(newState);
        oldRelaysState := newState;
      } else {
        sent := None;
      }
    }
  }

  /** The immediate timers of one round: the relay flag is set when the normalized copy of
   *  the entry is present, and an entry whose copy is absent is deleted. */
  method CheckImmediate(entries: seq<Option<ImmediateOutEntry>>, now: InstantMillis, newRelaysState: array<bool>)
    returns (entries': seq<Option<ImmediateOutEntry>>)
    requires newRelaysState.Length == |entries|
    modifies newRelaysState
    ensures entries' == PruneImmediate(entries, now)
    ensures forall k | 0 <= k < |entries| ::
      newRelaysState[k] == (old(newRelaysState[k]) || NormalizeImmediateOutEntry(entries[k], now).Some?)
  {
    entries' := entries;
    var i := 0;
    while i < |entries|
      invariant 0 <= i <= |entries| && |entries'| == |entries|
      invariant forall k | 0 <= k < i ::
        entries'[k] == PrunedEntry(entries[k], now) &&
        newRelaysState[k] == (old(newRelaysState[k]) || NormalizeImmediateOutEntry(entries[k], now).Some?)
      invariant forall k | i <= k < |entries| ::
        entries'[k] == entries[k] && newRelaysState[k] == old(newRelaysState[k])
    {
      var entryCopy := NormalizeImmediateOutEntry(entries'[i], now);
      newRelaysState[i] := newRelaysState[i] || entryCopy.Some?;
      if entryCopy.None? {
        entries' := entries'[i := None];
      }
      i := i + 1;
    }
  }

  /** The scheduled slots of relay `r` in one round: returns the new pending stops of its
   *  slots and sets its flag when one of them keeps it on. */
  method CheckScheduled(row: seq<Option<InstantMillis>>, entries: seq<ScheduledOutEntry>,
                        rtc: RtcTime, now: InstantMillis, newRelaysState: array<bool>, r: nat)
    returns (row': seq<Option<InstantMillis>>)
    requires |entries| == |row| && r < newRelaysState.Length
    modifies newRelaysState
    ensures row' == NextRow(row, entries, rtc, now)
    ensures newRelaysState[r] == (old(newRelaysState[r]) || SlotsOn(row, entries, rtc, now, |row|))
    ensures forall k | 0 <= k < newRelaysState.Length && k != r :: newRelaysState[k] == old(newRelaysState[k])
  {
    row' := row;
    var j := 0;
    while j < |row|
      invariant 0 <= j <= |row| && |row'| == |row|
      invariant forall m | 0 <= m < j :: row'[m] == SlotStep(row[m], entries[m], rtc, now).0
      invariant forall m | j <= m < |row| :: row'[m] == row[m]
      invariant newRelaysState[r] == (old(newRelaysState[r]) || SlotsOn(row, entries, rtc, now, j))
      invariant forall k | 0 <= k < newRelaysState.Length && k != r :: newRelaysState[k] == old(newRelaysState[k])
    {
      match row'[j] {
        case Some(stopInstant) =>
          var timeLeft := Sub(stopInstant, now);
          if timeLeft >= 0 {
            newRelaysState[r] := true;
          } else {
            row' := row'[j := None];
          }
        case None =>
          var entry := entries[j];
          if entry.duration > 0 && entry.startHour == rtc.hour && entry.startMinute == rtc.minute {
            row' := row'[j := Some(Add(now, entry.duration))];
            newRelaysState[r] := true;
          }
      }
      assert SlotsOn(row, entries, rtc, now, j + 1) <==>
        SlotsOn(row, entries, rtc, now, j) || SlotStep(row[j], entries[j], rtc, now).1;
      j := j + 1;
    }
  }
}
