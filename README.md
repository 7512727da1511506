# greaheisl relay controller — a Dafny model

greaheisl is firmware for a small relay controller. It has four push buttons, a 12×8 LED
matrix, a real-time clock and four relay outputs. The Rust code is organised as follows.

- The runtime (`greaheisl_async`) is a cooperative single-task async runtime. It has a
  32-bit wrapping millisecond clock, the suspension primitives `yield_now`, `join2` and
  `sleep_at_most`, timers, and a mini executor. Each `step` of the executor polls the root
  task once and tells the host how long it may sleep.
- The button processor (`greaheisl_button_processor`) turns raw button flags into `Press`,
  `Repeat` and `Release` events. It also recognises buttons held for a given time.
- The application (`greaheisl_lib`) provides:
  - the relay timer rules (immediate outputs and scheduled daily entries);
  - the menus (main menu, immediate output, scheduled entry, duration and time choosers,
    idle display);
  - the generic selection loop.
- `greaheisl_typeset` typesets text along a direction, and `greaheisl_bitvecimg` provides
  bit images and the 3×5 "fitzl" font.
- The terminal emulator (`greaheisl_emu`) has the helpers that convert clock times, map
  keys and draw the matrix.

This project restates each of these pieces in Dafny and proves its properties.

- Arithmetic on the clock wraps modulo 2^32. Durations are `i32` values.
- A poll of a future is a pure step `(state, environment) -> (state, environment, Pending |
  Ready)`. Objects whose fields the Rust code updates in place are Dafny classes. Their
  methods are proved against these step functions.
- An `async fn` that loops across `.await` points is a step function `Drive`.
  - It is run against what the function observes at its call and at each resumption
    (instant, executor signals, button state, stop flag).
  - The outcome (`Run`) is either `Finished(value, requests)` or `Waiting(requests)`, where
    `requests` lists the delay request made before each suspension.
  - `Trace` lists the states passed through.
  - `DriveInvariant`/`TraceInvariant` carry an invariant of the step through a whole run.
- The menus are such step functions over the stream of button events that the wait loop
  delivers (`UiEvents`).
  - A menu's suspension records the delay of the wait that follows it: `MENU_WAIT`
    (`MENU_TIMEOUT`, 10000 ms) for a button wait, `CONFIRM_WAIT`
    (`BLINK_DELAY_CONFIRM_VALUE * 5`, 1000 ms) for the confirming blink.
  - The wait before a dialog's first event is recorded by the suspension of its caller
    that opened the dialog.
- The bit images are flat `array<bool>` buffers with views (offset, frame width, width,
  height). Pixels are copied in place.

## Model

| member | source | states |
|---|---|---|
| Milliseconds.WrapU32 | lib_rs/greaheisl_async/src/milliseconds.rs:40-43 | the wrapped value is congruent to its argument modulo 2^32 |
| Milliseconds.AsI32 | lib_rs/greaheisl_async/src/milliseconds.rs:42-43 | the `as i32` reinterpretation is negative exactly when the unsigned value is at least 2^31, and it is congruent modulo 2^32 |
| Milliseconds.Sub | lib_rs/greaheisl_async/src/milliseconds.rs:37-45 | `t - t == 0`; the difference is congruent to the real difference modulo 2^32; it is negative exactly when the wrapped unsigned difference is at least 2^31 |
| Milliseconds.DurationSub | lib_rs/greaheisl_async/src/timer.rs:28-31 | an `i32` subtraction equals the real difference whenever that fits in `i32`; otherwise it is the difference wrapped modulo 2^32, as in a release build (a debug build panics) |
| Milliseconds.Add | lib_rs/greaheisl_async/src/milliseconds.rs:51-53 | `t + d` is `t.inner + d` modulo 2^32 |
| Milliseconds.AddAssign | lib_rs/greaheisl_async/src/milliseconds.rs:57-59 | `t += d` leaves `t` equal to `t + d` |
| Milliseconds.FromAbsolute | lib_rs/greaheisl_async/src/milliseconds.rs:67-69 | the instant holds the given millisecond count |
| Milliseconds.IntoInner | lib_rs/greaheisl_async/src/milliseconds.rs:71-73 | `from_absolute(into_inner(t)) == t` |
| Milliseconds.WrapCongruent | lib_rs/greaheisl_async/src/milliseconds.rs:38-44 | two congruent integers wrap to the same `u32` |
| Milliseconds.AsI32OfWrap | lib_rs/greaheisl_async/src/milliseconds.rs:42-43 | `(d as u32) as i32 == d` for every `i32` d |
| Milliseconds.AddThenSub | lib_rs/greaheisl_async/src/milliseconds.rs:38-53 | `(t + d) - t == d` for every instant and every `i32` duration |
| Milliseconds.SubThenAdd | lib_rs/greaheisl_async/src/milliseconds.rs:38-53 | `b + (a - b) == a` for all instants |
| Milliseconds.SubIsRealDifference | lib_rs/greaheisl_async/src/milliseconds.rs:37-45 | within the ±2^31 window, `a - b` is the plain difference of the counts |
| Milliseconds.SubOfOffsets | lib_rs/greaheisl_async/src/milliseconds.rs:38-53 | `(t + x) - (t + y) == x - y` when that fits in `i32` |
| Milliseconds.MultiplesClosed | lib_rs/greaheisl_async/src/milliseconds.rs:38-44 | sums and differences of multiples of 2^32 are multiples of 2^32 |
| Milliseconds.CongruenceChain | lib_rs/greaheisl_async/src/milliseconds.rs:38-44 | elapsed time since the start plus the time left equals the start plus the duration, modulo 2^32 |
| Milliseconds.EndInstantKept | lib_rs/greaheisl_lib/src/lib.rs:158-163 | restarting a timer at `now` with `duration - (now - start)` keeps its end instant `start + duration` |
| YieldNowFuture.YieldStep | lib_rs/greaheisl_async/src/basic_futures/yield_now.rs:25-33 | after any poll the flag is set |
| YieldNowFuture.PollTimes | lib_rs/greaheisl_async/src/basic_futures/yield_now.rs:25-33 | n polls give n answers |
| YieldNowFuture.PollTimesAfterFirst | lib_rs/greaheisl_async/src/basic_futures/yield_now.rs:30-31 | once the flag is set, every poll returns `Ready(())` |
| YieldNowFuture.YieldSuspendsExactlyOnce | lib_rs/greaheisl_async/src/basic_futures/yield_now.rs:16-33 | a fresh `yield_now()` answers `Pending` on its first poll and `Ready(())` on every later one |
| YieldNowFuture.YieldNow.constructor | lib_rs/greaheisl_async/src/basic_futures/yield_now.rs:16-18 | starts with the flag clear and no wake-up requested |
| YieldNowFuture.YieldNow.Poll | lib_rs/greaheisl_async/src/basic_futures/yield_now.rs:25-33 | answers `Pending` exactly when the flag was clear; then it sets the flag and calls `wake_by_ref` once |
| Join.JoinNew | lib_rs/greaheisl_async/src/basic_futures/join.rs:18-23 | neither branch result is stored initially |
| Join.CollectedBranchNotPolled | lib_rs/greaheisl_async/src/basic_futures/join.rs:42-53 | a branch whose result is stored is not polled: its future and the environment it would see stay untouched |
| Join.BothPolledLeftFirst | lib_rs/greaheisl_async/src/basic_futures/join.rs:42-53 | with no result stored, future1 is polled first and future2 sees the environment future1 left behind |
| Join.JoinReadyIffBoth | lib_rs/greaheisl_async/src/basic_futures/join.rs:42-60 | the join is `Ready` iff both results are now stored; the pair is the two branch values, and both slots are emptied; otherwise the results so far are kept |
| Join.StoredResultKept | lib_rs/greaheisl_async/src/basic_futures/join.rs:44-57 | a stored result stays stored while Pending and is the value returned on Ready |
| Join.Join2.constructor | lib_rs/greaheisl_async/src/basic_futures/join.rs:18-23 | the object starts in the state `JoinNew` |
| Join.Join2.Poll | lib_rs/greaheisl_async/src/basic_futures/join.rs:40-61 | one in-place poll performs exactly the step `JoinStep` on its state |
| Join.JoinStep | lib_rs/greaheisl_async/src/basic_futures/join.rs:40-61 | one poll of `join2` is ready only with both results and then clears the stored ones; while it is pending, a result already stored is kept and at least one result is still missing |
| AsyncLib.SetDelayRequest | lib_rs/greaheisl_async/src/lib.rs:34-45 | a delay request appends to the step's request log and changes nothing else |
| AsyncLib.SleepPoll | lib_rs/greaheisl_async/src/lib.rs:51-54 | polling `sleep_at_most` does not change instant, signals or the outside world |
| AsyncLib.SleepAtMostSuspendsOnce | lib_rs/greaheisl_async/src/lib.rs:51-54 | `sleep_at_most(d)` records exactly `d`, then suspends once; the next poll is `Ready(())` with no further effect |
| AsyncLib.Prepend | lib_rs/greaheisl_async/src/lib.rs:51-54 | prefixing one suspension keeps the outcome and adds its request in front |
| AsyncLib.Drive | lib_rs/greaheisl_async/src/lib.rs:51-54 | a run has one request per suspension: as many as observations while waiting, fewer once finished |
| AsyncLib.DriveInvariant | lib_rs/greaheisl_async/src/lib.rs:51-54 | an invariant kept by every suspension holds for every request, and the value returned meets the return condition for the observation it was made at |
| AsyncLib.Trace | lib_rs/greaheisl_async/src/lib.rs:51-54 | there is one state per suspension |
| AsyncLib.TraceInvariant | lib_rs/greaheisl_async/src/lib.rs:51-54 | every traced state satisfies the invariant, and each arises from its predecessor by one suspending step |
| AsyncLib.AfterRequests | lib_rs/greaheisl_async/src/lib.rs:51-54 | prefixing earlier requests keeps the outcome |
| AsyncLib.DriveReturns | lib_rs/greaheisl_async/src/lib.rs:51-54 | a step that returns ends the run with its value and nothing traced |
| AsyncLib.DriveSuspends | lib_rs/greaheisl_async/src/lib.rs:51-54 | a step that suspends contributes one request and one traced state, and the rest of the run continues from its next state |
| AsyncLib.DriveAdvances | lib_rs/greaheisl_async/src/lib.rs:51-54 | a suspending poll at position k of a loop over the observations carries the run so far (its requests and the states passed through) on to position k + 1 |
| Base.MinOf | lib_rs/greaheisl_async/src/executor.rs:37-46 | the minimum is an element of the sequence and no element is smaller |
| Executor.MinOfAppend | lib_rs/greaheisl_async/src/executor.rs:37-46 | the minimum of `s + [d]` is the smaller of `min s` and `d` |
| Executor.MiniScheduler.constructor | lib_rs/greaheisl_async/src/executor.rs:94-101 | no delay request; the instant is the start time; the signals are the default |
| Executor.MiniScheduler.SetDelayRequest | lib_rs/greaheisl_async/src/executor.rs:37-46 | the first request is stored as is, and each later one keeps the minimum; the invariant `delay_request == Some(min of requests)` is preserved |
| Executor.New | lib_rs/greaheisl_async/src/executor.rs:94-101 | a fresh scheduler with no delay request, `instant = start_time` and default signals |
| Executor.PendingAnswer | lib_rs/greaheisl_async/src/executor.rs:135-140 | the answer for a pending task is `0` with no request, and otherwise the least request of the step |
| Executor.MiniExecutor.Build | lib_rs/greaheisl_async/src/executor.rs:77-86 | the executor holds the root task and shares the scheduler |
| Executor.MiniExecutor.Step | lib_rs/greaheisl_async/src/executor.rs:120-141 | instant and signals are overwritten and the request log is cleared before polling. A finished task gives `None` without polling. A task that completes is dropped and gives `None`. A pending task gives `Some(0)` or `Some(min of this step's requests)` |
| Timer.New | lib_rs/greaheisl_async/src/timer.rs:13-19 | the timer starts at the current instant, which `start_time()` returns |
| Timer.TimeLeft | lib_rs/greaheisl_async/src/timer.rs:28-31 | `duration - (now - start)` whenever that fits in `i32` |
| Timer.TimeLeftAtStart | lib_rs/greaheisl_async/src/timer.rs:28-31 | at the start instant the whole duration is left |
| Timer.YieldIfTimeLeftRun | lib_rs/greaheisl_async/src/timer.rs:35-42 | with no time left it returns false at once with no request; otherwise it requests exactly the time left, suspends once and returns true |
| Timer.WaitRun | lib_rs/greaheisl_async/src/timer.rs:50-52 | each suspension of `wait` requests the positive time left, and `wait` returns only after observing no time left |
| Timer.WaitRequestsBounded | lib_rs/greaheisl_async/src/timer.rs:28-41 | while the clock never goes back before the start, each requested delay is positive and at most `duration` |
| Timer.YieldIfTimeLeftStep | lib_rs/greaheisl_async/src/timer.rs:35-42 | `yield_if_time_left` returns false only at the call and only with no time left, returns true exactly after its sleep, and sleeps exactly the positive time left |
| Timer.WaitStep | lib_rs/greaheisl_async/src/timer.rs:50-52 | one round of `wait` ends exactly when no time is left and otherwise sleeps a positive time |
| Timer.WaitLoop | lib_rs/greaheisl_async/src/timer.rs:50-52 | the `while` loop of `wait`, run over the polls, has exactly the run of `Wait` |
| SimpleTest.ScriptPush | lib_rs/greaheisl_async/tests/simple.rs:5-13 | a `push` statement appends its value and moves on within the same poll |
| SimpleTest.ScriptSleepStarts | lib_rs/greaheisl_async/tests/simple.rs:7 | a `sleep_at_most` statement records its delay and suspends |
| SimpleTest.ScriptSleepResumes | lib_rs/greaheisl_async/tests/simple.rs:7 | a resumed sleep finishes and continues with the next statement |
| SimpleTest.ScriptEnds | lib_rs/greaheisl_async/tests/simple.rs:5-26 | a script past its last statement is `Ready` |
| SimpleTest.ScriptPushThenSleep | lib_rs/greaheisl_async/tests/simple.rs:6-7 | a push followed by a sleep gives one suspension with both effects |
| SimpleTest.JoinStarts | lib_rs/greaheisl_async/tests/simple.rs:14-25 | the first poll of the `join2` pushes -10 then -100 and requests 100 then 99 |
| SimpleTest.JoinContinues | lib_rs/greaheisl_async/tests/simple.rs:14-25 | the second poll pushes -20 then -200 with the same requests |
| SimpleTest.PollInIteration | lib_rs/greaheisl_async/tests/simple.rs:37-42 | the root task's poll in each host iteration, as a concrete state transition |
| SimpleTest.PollInIterationEarly | lib_rs/greaheisl_async/tests/simple.rs:37-42 | in host iterations 0 and 1 the task pushes one value and requests 100 ms |
| SimpleTest.PollInIterationMiddle | lib_rs/greaheisl_async/tests/simple.rs:37-42 | in host iterations 2 and 3 the task resumes, pushes one value and requests 100 ms |
| SimpleTest.PollInIterationJoin | lib_rs/greaheisl_async/tests/simple.rs:37-42 | in host iterations 4 and 5 the `join2` pushes two values and requests 100 then 99 ms |
| SimpleTest.HostIteration | lib_rs/greaheisl_async/tests/simple.rs:38-40 | the host advances the clock by the step's answer and pushes the new time |
| SimpleTest.SimpleTestRun | lib_rs/greaheisl_async/tests/simple.rs:29-44 | the host loop over the real executor, scheduler and task objects records exactly `[10,-1,120,-2,220,-3,320,-4,420,-10,-100,519,-20,-200,618]` |
| ButtonProcessor.DefaultOptions | lib_rs/greaheisl_button_processor/src/button_processor.rs:63-70 | the default repetition start delay is 750 ms and the repeat delay is 375 ms: positive, with the start delay twice the repeat delay |
| ButtonProcessor.ProcessorStep | lib_rs/greaheisl_button_processor/src/button_processor.rs:188-310 | `button_processor_step` sets an event exactly when it then sleeps or yields, and sets none when it waits for a signal; a `Press` carries the new flags and starts a combination held since now, with no repetition; a `Release` carries the combination that was held and leaves that state |
| ButtonProcessor.InvalidStep | lib_rs/greaheisl_button_processor/src/button_processor.rs:196-204 | in Invalid, empty flags move to NoButtons and non-empty flags stay Invalid; no event is emitted, and the step waits for a button signal or stop |
| ButtonProcessor.NoButtonsStep | lib_rs/greaheisl_button_processor/src/button_processor.rs:205-221 | in NoButtons, empty flags change nothing. Non-empty flags emit `Press(flags)`, record `SomeButtons{flags, since = now, no repetition}` and sleep for the start delay |
| ButtonProcessor.UnchangedFlagsStep | lib_rs/greaheisl_button_processor/src/button_processor.rs:228-277 | with unchanged flags, Repeat fires exactly when the time until repeating is not positive. It then records `last_repetition = now`, keeps `since` and sleeps for the repeat delay; otherwise it waits for the remaining time |
| ButtonProcessor.RepeatDispatch | lib_rs/greaheisl_button_processor/src/button_processor.rs:232-255 | before the first repetition the time until firing is counted from `since` with the start delay; afterwards it is counted from the last repetition with the repeat delay, whatever `since` is |
| ButtonProcessor.SupersetStep | lib_rs/greaheisl_button_processor/src/button_processor.rs:278-289 | a strict superset of the held flags emits `Press(current)`, restarts `since` and clears the repetition |
| ButtonProcessor.ReleaseStep | lib_rs/greaheisl_button_processor/src/button_processor.rs:290-306 | flags that are not a superset emit `Release(previous)`: empty ones go to NoButtons and others to Invalid, and both yield once |
| ButtonProcessor.StepEventsAgreeWithState | lib_rs/greaheisl_button_processor/src/button_processor.rs:194-310 | every event agrees with the new state: a Press holds the current non-empty flags since now; a Repeat keeps the flags and `since` and records now; a Release names the previous flags; with no event a held state is unchanged. Reachable states stay reachable |
| ButtonProcessor.StepEvents | lib_rs/greaheisl_button_processor/src/button_processor.rs:188-310 | one event per reading |
| ButtonProcessor.StepEventsCons | lib_rs/greaheisl_button_processor/src/button_processor.rs:188-310 | a sequence of readings is processed one step after the other |
| ButtonProcessor.StepEventsAppend | lib_rs/greaheisl_button_processor/src/button_processor.rs:188-310 | processing `a + b` is processing `a`, then `b` from the state `a` left |
| ButtonProcessor.InvalidUntilAllReleased | lib_rs/greaheisl_button_processor/src/button_processor.rs:196-204 | after an invalid state, no event occurs and the state stays Invalid until all buttons have been released |
| ButtonProcessor.WaitStopOrButtonFrom | lib_rs/greaheisl_button_processor/src/button_processor.rs:320-331 | from any loop state, `wait_stop_or_button` yields with no delay request while not stopped and without a button signal; it ends with Ok on a button signal after a yield and with Err on stop |
| ButtonProcessor.WaitStopOrButtonRun | lib_rs/greaheisl_button_processor/src/button_processor.rs:320-331 | the stop flag is checked before each yield and the signal after it; Ok exactly when a button signal is seen after at least one yield; Err only when stopped |
| ButtonProcessor.WaitStopOrButtonStep | lib_rs/greaheisl_button_processor/src/button_processor.rs:320-331 | one poll of `wait_stop_or_button` gives `Ok` exactly on a signal seen after a yield and `Err(Stopped)` only with the stop flag set; otherwise it yields, with the stop flag clear |
| ButtonProcessor.WaitStopOrButtonLoop | lib_rs/greaheisl_button_processor/src/button_processor.rs:320-331 | the `while !stop` loop, run over the polls, has exactly the run of `WaitStopOrButton` |
| ButtonProcessor.WaitTimeoutFrom | lib_rs/greaheisl_button_processor/src/button_processor.rs:347-359 | after each sleep: Ok(true) iff a button signal; Ok(false) iff no signal and no time left; Err iff neither and stopped. Each further sleep requests `timeout - (now - start)` |
| ButtonProcessor.WaitStopOrButtonOrTimeoutRun | lib_rs/greaheisl_button_processor/src/button_processor.rs:341-360 | a stop before the first sleep gives Err at once; otherwise the first sleep requests the whole timeout and each later one the positive remaining time, with the same three outcomes |
| ButtonProcessor.WaitTimeoutStep | lib_rs/greaheisl_button_processor/src/button_processor.rs:341-360 | one poll of `wait_stop_or_button_or_timeout` gives `Err(Stopped)` only on the stop flag, `Ok(true)` exactly on a signal after a sleep, and `Ok(false)` only after a sleep with no time left; it suspends only with the stop flag clear, and always with a delay request |
| ButtonProcessor.WaitStopOrButtonOrTimeoutLoop | lib_rs/greaheisl_button_processor/src/button_processor.rs:341-360 | the loop with its mutable `time_left`, run over the polls, has exactly the run of `WaitStopOrButtonOrTimeout` |
| ButtonProcessor.DriverStep | lib_rs/greaheisl_button_processor/src/button_processor.rs:175-187 | one poll of the driver task: it resumes the pending wait, sleep or yield and goes round `while !stop`; that it stops exactly on the stop flag and keeps `DriverInv` is stated by `DriverStopsIffStop` and `DriverStepKeepsInv` |
| ButtonProcessor.DriverStopsIffStop | lib_rs/greaheisl_button_processor/src/button_processor.rs:175-187 | the driver loop ends at a poll exactly when the stop flag is set |
| ButtonProcessor.DriverStepKeepsInv | lib_rs/greaheisl_button_processor/src/button_processor.rs:175-187 | each suspension of the driver keeps its invariant, and a new event together with its state is exactly what one processor step produced |
| ButtonProcessor.EventLastsOnePoll | lib_rs/greaheisl_button_processor/src/button_processor.rs:180-182 | an event is visible for one poll only: the next poll clears it to None before it steps again |
| ButtonProcessor.DriverRun | lib_rs/greaheisl_button_processor/src/button_processor.rs:175-187 | over a whole run the driver suspends only while not stopped and finishes only on stop; whenever it publishes an event, event and state are those of one processor step from the previous state |
| ButtonProcessor.DriverLoopKeepsInv | lib_rs/greaheisl_button_processor/src/button_processor.rs:175-187 | every poll of the driver loop that suspends keeps the driver invariant |
| ButtonProcessor.DriverLoopReturnsOnStop | lib_rs/greaheisl_button_processor/src/button_processor.rs:175-187 | a poll of the driver loop that finishes has seen the stop flag |
| ButtonProcessor.SuspendedPoll | lib_rs/greaheisl_button_processor/src/button_processor.rs:175-187 | a poll that suspends has not seen the stop flag, and an event it leaves set is the event and state of this poll's processor step |
| ButtonProcessor.RunPendingWhileNotStopped | lib_rs/greaheisl_button_processor/src/button_processor.rs:160-174 | `run` stays Pending while the stop flag is clear |
| ButtonProcessor.RunStoresOutputAndStops | lib_rs/greaheisl_button_processor/src/button_processor.rs:165-171 | when the user future finishes, its output is stored and the stop flag is set |
| ButtonProcessor.RunAnswersOutputAfterStop | lib_rs/greaheisl_button_processor/src/button_processor.rs:160-174 | once stopped, the driver finishes at its next poll and `run` returns the stored output of the user future |
| ButtonProcessor.Processor.constructor | lib_rs/greaheisl_button_processor/src/button_processor.rs:124-130 | a new processor has state Invalid, event None and the given options |
| ButtonProcessor.Processor.Step | lib_rs/greaheisl_button_processor/src/button_processor.rs:188-311 | updates the state cell and, when it emits one, the event cell in place, exactly as one processor step prescribes; it returns the step's kind of suspension |
| ButtonProcessor.Processor.Poll | lib_rs/greaheisl_button_processor/src/button_processor.rs:175-187 | one in-place poll of the driver task is one driver step, and finishing leaves both cells unchanged |
| ButtonProcessor.Processor.Task | lib_rs/greaheisl_button_processor/src/button_processor.rs:175-187 | the driver loop over its cells produces the run and the states of the driver model; the cells end in the last traced state |
| CheckHoldButton.New | lib_rs/greaheisl_button_processor/src/check_hold_button.rs:34-50 | requires SomeButtons; captures its flags and its `since`, not the instant of construction |
| CheckHoldButton.TimeLeft | lib_rs/greaheisl_button_processor/src/check_hold_button.rs:55-58 | `duration - (now - since)` when that fits in `i32` |
| CheckHoldButton.CheckVerdicts | lib_rs/greaheisl_button_processor/src/check_hold_button.rs:67-91 | each verdict, with both directions: ReleaseEarly iff the event is the release of the captured flags (checked first); Other iff not and the state holds no flags or different ones; Hold iff the captured flags are still held and no time is left; no verdict otherwise |
| CheckHoldButton.Check | lib_rs/greaheisl_button_processor/src/check_hold_button.rs:67-91 | the verdict of `yield_if_time_left` on one view; `CheckVerdicts` states each of its cases in both directions |
| CheckHoldButton.YieldIfTimeLeftStep | lib_rs/greaheisl_button_processor/src/check_hold_button.rs:67-91 | a verdict comes only at the call and is the one `Check` gives; `None` comes exactly after the sleep; the sleep requests a positive time |
| CheckHoldButton.YieldIfTimeLeftRun | lib_rs/greaheisl_button_processor/src/check_hold_button.rs:67-91 | a verdict returns at once with no request; otherwise the call requests exactly the time left, suspends once and returns None |
| CheckHoldButton.WaitRun | lib_rs/greaheisl_button_processor/src/check_hold_button.rs:95-101 | `wait` suspends only without a verdict, each time requesting the positive time left, and returns the first verdict observed |
| CheckHoldButton.WaitStep | lib_rs/greaheisl_button_processor/src/check_hold_button.rs:95-101 | one round of `wait` returns exactly the verdict `Check` gives, and sleeps a positive time only when there is none |
| CheckHoldButton.WaitLoop | lib_rs/greaheisl_button_processor/src/check_hold_button.rs:95-101 | the `loop` of `wait`, run over the polls, has exactly the run of `Wait` |
| CheckHoldButton.WaitHoldMeansHeld | lib_rs/greaheisl_button_processor/src/check_hold_button.rs:85-88 | a Hold result means the captured flags were still held with no time left when `wait` returned |
| ButtonWaits.ArmedRun | lib_rs/greaheisl_button_processor/src/lib.rs:35-41 | after the first sleep, each suspension happens while the event does not end the wait and time is left, and requests exactly the time left; the loop ends on an ending event or when no time is left |
| ButtonWaits.WaitForRun | lib_rs/greaheisl_button_processor/src/lib.rs:34-41 | the timer starts at the call; a non-positive timeout returns at once; otherwise the first request is the whole timeout and the event is examined only after a suspension |
| ButtonWaits.WaitButtonPressOrTimeoutRun | lib_rs/greaheisl_button_processor/src/lib.rs:29-42 | the wait ends on the first `Press` or `Repeat` seen after a suspension, or when the timer started at the call has expired; None and Release are ignored |
| ButtonWaits.WaitForStep | lib_rs/greaheisl_button_processor/src/lib.rs:29-42 | a suspension leaves the timer armed and requests its positive time left; once armed, the wait returns only on an ending event or with no time left, and suspends only without an ending event and with the same timer |
| ButtonWaits.WaitForLoop | lib_rs/greaheisl_button_processor/src/lib.rs:29-42 | the `while` loop with its timer, run over the polls, has exactly the run of `WaitFor` |
| Buttons.FromMask | lib_rs/greaheisl_lib/src/system/buttons.rs:13-23 | a button is in the decoded set iff its bit is set |
| Buttons.FourButtons | lib_rs/greaheisl_lib/src/system/buttons.rs:13-30 | there are exactly four buttons, and the full mask has `NUM_BUTTONS == 4` bits set |
| Buttons.ToMaskBit | lib_rs/greaheisl_lib/src/system/buttons.rs:13-23 | a button's bit is set in the mask iff the button is in the set |
| Buttons.MaskRoundTrip | lib_rs/greaheisl_lib/src/system/buttons.rs:13-23 | decoding an encoded set gives it back, and encoding a decoded mask keeps its four low bits |
| Buttons.IsNoneForwards | lib_rs/greaheisl_lib/src/system/buttons.rs:33-35 | `is_none` on the mask is emptiness of the set |
| Buttons.ContainsForwards | lib_rs/greaheisl_lib/src/system/buttons.rs:37-39 | `contains` on the mask is the superset relation |
| Buttons.Press2IgnoresOtherRepeats | lib_rs/greaheisl_lib/src/system/buttons.rs:68-73 | a Repeat ends the wait iff its flags are exactly `{Next}` or exactly `{Prev}`; `{Prev,Next}`, `{Enter}`, releases and None do not |
| Buttons.WaitButtonPress2OrTimeoutRun | lib_rs/greaheisl_lib/src/system/buttons.rs:60-75 | the wait ends on any Press or on a Repeat of one arrow alone after a suspension, or once the timer started at the call has expired |
| Buttons.ScenarioPressReleaseA | lib_rs/greaheisl_button_processor/src/button_processor.rs:196-221 | from Invalid, empty readings reach NoButtons, then holding Escape emits one Press and nothing while it is held for less than the start delay |
| Buttons.ScenarioPressReleaseB | lib_rs/greaheisl_button_processor/src/button_processor.rs:228-297 | releasing Escape emits one Release and returns to NoButtons |
| Buttons.ScenarioPressReleaseEnter | lib_rs/greaheisl_button_processor/src/button_processor.rs:205-297 | pressing Enter at 800 ms and releasing it at 900 ms emits Press then Release and returns to NoButtons |
| Buttons.ScenarioPressReleasePrev | lib_rs/greaheisl_button_processor/src/button_processor.rs:205-306 | Prev at 1000 ms, then Next alone at 1100 ms, then nothing: Press(Prev), Release(Prev) and no event, ending in NoButtons through Invalid |
| Buttons.ScenarioPressReleaseC | lib_rs/greaheisl_button_processor/src/button_processor.rs:205-297 | short presses of Enter and Prev emit Press/Release pairs; changing from Prev to Next directly releases Prev and makes the state Invalid |
| Buttons.ScenarioPressRelease | lib_rs/greaheisl_button_processor/src/button_processor.rs:188-310 | the whole 13-reading sequence gives the events Press/Release for Escape, Enter and Prev in order |
| Buttons.ScenarioRepeat | lib_rs/greaheisl_button_processor/src/button_processor.rs:228-277 | holding Enter gives no Repeat at 740 ms, the first at 750 ms, then one each 375 ms |
| Buttons.ScenarioRepeatFirst | lib_rs/greaheisl_button_processor/src/button_processor.rs:252-266 | with Enter held since 0 ms and no repetition yet, the reading at 750 ms emits the first Repeat and records 750 as the last repetition |
| Buttons.ScenarioRepeatLater | lib_rs/greaheisl_button_processor/src/button_processor.rs:232-246 | after a repetition at 750 ms, the readings at 1125 ms and 1500 ms each emit a Repeat, 375 ms apart |
| Buttons.ScenarioRepeatHeld | lib_rs/greaheisl_button_processor/src/button_processor.rs:228-277 | Enter held from 0 ms gives a Repeat at 750, 1125 and 1500 ms |
| Buttons.ScenarioPartialRelease | lib_rs/greaheisl_button_processor/src/button_processor.rs:196-306 | releasing one of two buttons makes the state Invalid; nothing more is emitted until all are released, and the next press is seen again |
| Buttons.ScenarioPartialReleaseBoth | lib_rs/greaheisl_button_processor/src/button_processor.rs:205-306 | pressing Prev and Next together emits one Press; releasing Prev emits Release of both and makes the state Invalid, after which Next alone emits nothing |
| Buttons.ScenarioPartialReleaseNext | lib_rs/greaheisl_button_processor/src/button_processor.rs:196-221 | from Invalid, readings with buttons emit nothing until an empty one reaches NoButtons; the next press of Next emits Press(Next) |
| SystemSignals.DefaultSignals | lib_rs/greaheisl_lib/src/system/mod.rs:81-85 | the default signal set is empty |
| SystemSignals.WaitEventFrom | lib_rs/greaheisl_lib/src/system/mod.rs:94-101 | from any loop state, each suspension is a yield with no request, taken while the intersection is empty; the result is the non-empty intersection `signals & event_signal` |
| SystemSignals.WaitEventRun | lib_rs/greaheisl_lib/src/system/mod.rs:90-102 | `wait_event` yields before its first check and returns the first non-empty intersection, a subset of `event_signal` |
| SystemSignals.WaitEventStep | lib_rs/greaheisl_lib/src/system/mod.rs:90-102 | a poll of `wait_event` returns only after a yield, with a non-empty set of signals that were both raised and awaited; otherwise it yields |
| SystemSignals.WaitEventLoop | lib_rs/greaheisl_lib/src/system/mod.rs:90-102 | the `loop`, run over the polls, has exactly the run of `WaitEvent` |
| SystemSignals.WaitStopOrEventFrom | lib_rs/greaheisl_lib/src/system/mod.rs:115-123 | the stop flag is checked before each yield; it ends with Ok(intersection) after a yield or with Err(Stopped) |
| SystemSignals.WaitStopOrEventRun | lib_rs/greaheisl_lib/src/system/mod.rs:110-124 | Ok exactly when a non-empty intersection is seen after a yield, and then it is that subset of `event_signal`; Err only when stopped |
| SystemSignals.WaitStopOrEventStep | lib_rs/greaheisl_lib/src/system/mod.rs:110-124 | a poll of `wait_stop_or_event` gives `Ok` only after a yield, with a non-empty set of raised and awaited signals, and `Err(Stopped)` only on the stop flag; otherwise it yields, with the stop flag clear |
| SystemSignals.WaitStopOrEventLoop | lib_rs/greaheisl_lib/src/system/mod.rs:110-124 | the `while !stop` loop, run over the polls, has exactly the run of `WaitStopOrEvent` |
| SystemSignals.SleptRun | lib_rs/greaheisl_lib/src/system/mod.rs:142-155 | after each sleep: Ok(intersection) on a match, Ok(empty) once no time is left, Err(Stopped) on stop; each further sleep requests the positive `timeout - (now - start)` |
| SystemSignals.WaitStopOrEventTimeoutRun | lib_rs/greaheisl_lib/src/system/mod.rs:134-156 | a stop at the call gives Err; the first sleep requests the whole timeout and later ones the time left; every Ok result is a subset of `event_signal` |
| SystemSignals.WaitStopOrEventTimeoutStep | lib_rs/greaheisl_lib/src/system/mod.rs:134-156 | a poll of `wait_stop_or_event_timeout` gives `Err(Stopped)` only on the stop flag, and `Ok` only after a sleep, with the raised awaited signals; `Ok` of no signals only with no time left; it suspends only with the stop flag clear, and always with a delay request |
| SystemSignals.WaitStopOrEventTimeoutLoop | lib_rs/greaheisl_lib/src/system/mod.rs:134-156 | the loop with its mutable `time_left`, run over the polls, has exactly the run of `WaitStopOrEventTimeout` |
| Relays.DefaultSettings | lib_rs/greaheisl_lib/src/lib.rs:51-78 | the default settings are well formed, with no immediate timer and every scheduled duration 0 |
| Relays.NormalizeImmediateOutEntry | lib_rs/greaheisl_lib/src/lib.rs:151-164 | None stays None; an entry with no time left becomes None; otherwise it restarts at `now` with the positive time left, so its end instant is unchanged |
| Relays.PruneImmediate | lib_rs/greaheisl_lib/src/lib.rs:104-114 | there is one entry per relay |
| Relays.PrunedEntry | lib_rs/greaheisl_lib/src/lib.rs:106-114 | an immediate setting is kept as it is or deleted, and it is deleted exactly when normalizing it finds no time left |
| Relays.NoStops | lib_rs/greaheisl_lib/src/lib.rs:99-100 | the stop table has one slot per relay and scheduled entry |
| Relays.Fires | lib_rs/greaheisl_lib/src/lib.rs:131-133 | the firing condition of a scheduled entry; `ScheduledRunsForDuration` states what a firing entry does |
| Relays.SlotStep | lib_rs/greaheisl_lib/src/lib.rs:121-140 | in one round a slot keeps its relay on exactly when a stop instant stays pending; a pending stop is kept or cleared and never moved; with none pending, the relay goes on exactly when the entry fires |
| Relays.NextRow | lib_rs/greaheisl_lib/src/lib.rs:121-140 | the updated stop row has one slot per scheduled entry |
| Relays.NextStops | lib_rs/greaheisl_lib/src/lib.rs:117-142 | the updated stop table keeps its shape |
| Relays.RelaysState | lib_rs/greaheisl_lib/src/lib.rs:102-142 | there is one relay state per relay |
| Relays.RelayOnIff | lib_rs/greaheisl_lib/src/lib.rs:102-142 | relay i is on iff its immediate timer has time left, or one of its scheduled slots has a pending stop not yet passed (`stop - now >= 0`) or fires now (duration > 0, matching hour and minute, no pending stop) |
| Relays.PruneKeepsRunningTimers | lib_rs/greaheisl_lib/src/lib.rs:106-114 | expired immediate entries are deleted from the settings; running ones stay untouched, not replaced by their normalized copy |
| Relays.ScheduledRunsForDuration | lib_rs/greaheisl_lib/src/lib.rs:122-139 | a slot that fires records `stop = now + duration` and turns its relay on; the relay stays on for the next `duration` ms whatever the clock and entry then say, and afterwards the stop is cleared |
| Relays.ImmediateRunsForDuration | lib_rs/greaheisl_lib/src/lib.rs:104-114 | an immediate timer of duration d keeps its relay on and its entry intact for the first d ms after its start and is deleted from then on |
| Relays.DefaultSettingsAllOff | lib_rs/greaheisl_lib/src/lib.rs:86-100 | with the default settings and no stops, every relay is off |
| Relays.OutputWatcher.constructor | lib_rs/greaheisl_lib/src/lib.rs:98-100 | the watcher starts with every relay recorded off and no stop pending |
| Relays.OutputWatcher.Round | lib_rs/greaheisl_lib/src/lib.rs:101-146 | one round of `watch_output`: expired immediate entries are pruned, the stop table advances, the new relay states are those `RelayOnIff` characterises, and they are sent iff they differ from the last ones sent |
| Relays.CheckImmediate | lib_rs/greaheisl_lib/src/lib.rs:104-115 | the loop over immediate entries marks relay k on iff its normalized entry is Some, and prunes the settings |
| Relays.CheckScheduled | lib_rs/greaheisl_lib/src/lib.rs:121-140 | the loop over one relay's scheduled slots updates the stop row and turns on only that relay |
| ImmediateOutMenu.GetTimeLeft | lib_rs/greaheisl_lib/src/ui/menus/immediate_out.rs:68-74 | `get_time_left(None) == 0`; otherwise `max(0, duration - (now - start))`, never negative |
| ImmediateOutMenu.GetTimeLeftAgreesWithNormalize | lib_rs/greaheisl_lib/src/ui/menus/immediate_out.rs:68-74 | the menu shows a positive time exactly when the relay rule keeps the entry, and that time is the normalized duration |
| ImmediateOutMenu.ImmediateOutChoices | lib_rs/greaheisl_lib/src/ui/menus/immediate_out.rs:47-52 | a timeout returns true and Escape returns false, both leaving the setting alone; Enter opens the duration chooser at the time left |
| ImmediateOutMenu.NewSetting | lib_rs/greaheisl_lib/src/ui/menus/immediate_out.rs:53-60 | a chosen duration of 0 deletes the setting; any other starts a timer of that duration at the current instant |
| ImmediateOutMenu.ImmediateOutStep | lib_rs/greaheisl_lib/src/ui/menus/immediate_out.rs:47-62 | leaving before `Enter` keeps the setting and returns true exactly on a timeout; leaving the duration dialog writes a setting that is deleted or starts at the current instant; the wait after a pass is the confirming blink of `BLINK_DELAY_CONFIRM_VALUE * 5` when the duration dialog has just been confirmed, and a button wait of `MENU_TIMEOUT` otherwise |
| ImmediateOutMenu.InDurationRun | lib_rs/greaheisl_lib/src/ui/menus/immediate_out.rs:50-61 | once in the duration dialog, the menu makes the requests of `choose_duration` and returns its flag with `NewSetting` of its duration |
| ImmediateOutMenu.ShowingFrom | lib_rs/greaheisl_lib/src/ui/menus/immediate_out.rs:47-62 | every run from the showing state is an `ImmediateTrace` |
| ImmediateOutMenu.MenuImmediateOutRun | lib_rs/greaheisl_lib/src/ui/menus/immediate_out.rs:47-62 | the menu leaves the setting unchanged, clears it, or sets it to `{start: now, duration}` with a positive duration that is a table entry or a time left. Exactly (`ImmediateTrace`): the menu ends on the first timeout or `Escape` before any `Enter`, with `(timeout, setting)`, every earlier event being followed by a button wait of `MENU_TIMEOUT`; or, after the first `Enter` (also followed by such a wait), it makes the waits of `choose_duration` run on the time left at that instant and returns its flag and `NewSetting` of the duration it returns |
| ImmediateOutMenu.ImmediateStepReturnsGood | lib_rs/greaheisl_lib/src/ui/menus/immediate_out.rs:47-62 | a pass of the menu that ends leaves the setting unchanged, deleted, or started now with a positive table duration or a time left of the setting |
| ImmediateOutMenu.ImmediateStepKeepsGood | lib_rs/greaheisl_lib/src/ui/menus/immediate_out.rs:47-62 | a pass that suspends keeps the duration chooser started from a time left of the setting and showing that duration or a table entry |
| DurationMenu.PrintDuration | lib_rs/greaheisl_lib/src/ui/components/duration.rs:14-36 | the unit choice, in both directions: `<= 0` gives 0 with no unit, then S below 100 s, M below 100 min, H below 100 h, else D. The shown number lies in 0..99 |
| DurationMenu.PrintDurationRoundsDown | lib_rs/greaheisl_lib/src/ui/components/duration.rs:14-36 | the shown number is the duration in the shown unit rounded down: number × unit <= duration < (number + 1) × unit |
| DurationMenu.SelectableDurationsIncreasing | lib_rs/greaheisl_lib/src/ui/components/duration.rs:38-54 | there are 15 strictly increasing entries, from 0 to 24 h |
| DurationMenu.ScanBelowFinds | lib_rs/greaheisl_lib/src/ui/components/duration.rs:83-91 | the scan for Prev finds the largest entry below the value, or 0 if none |
| DurationMenu.ScanAboveFinds | lib_rs/greaheisl_lib/src/ui/components/duration.rs:95-102 | the scan for Next finds the smallest entry above the value, or the last entry if none |
| DurationMenu.SmallerDuration | lib_rs/greaheisl_lib/src/ui/components/duration.rs:81-92 | the step down gives a table entry |
| DurationMenu.LargerDuration | lib_rs/greaheisl_lib/src/ui/components/duration.rs:93-103 | the step up gives a table entry |
| DurationMenu.TableEntriesAreI32 | lib_rs/greaheisl_lib/src/ui/components/duration.rs:38-54 | every table entry fits in `i32` |
| DurationMenu.SmallerDurationIsLargestBelow | lib_rs/greaheisl_lib/src/ui/components/duration.rs:81-92 | Prev selects the largest entry strictly below the value, or 0 if there is none |
| DurationMenu.LargerDurationIsSmallestAbove | lib_rs/greaheisl_lib/src/ui/components/duration.rs:93-103 | Next selects the smallest entry strictly above the value, or the last entry if there is none |
| DurationMenu.FindSmallerDuration | lib_rs/greaheisl_lib/src/ui/components/duration.rs:83-91 | the scanning loop for Prev returns `SmallerDuration` |
| DurationMenu.FindLargerDuration | lib_rs/greaheisl_lib/src/ui/components/duration.rs:95-102 | the scanning loop for Next returns `LargerDuration` |
| DurationMenu.ChooseDurationStep | lib_rs/greaheisl_lib/src/ui/components/duration.rs:56-115 | a pass of the loop ends the call exactly after the confirmation, on a timeout or on `Escape`; before `Enter` it returns the setting with true exactly on a timeout; after the confirmation it returns true with the chosen state; it goes to the confirmation exactly on `Enter`, and waits then for the blink of `BLINK_DELAY_CONFIRM_VALUE * 5`; every other pass that stays waits for a button with `MENU_TIMEOUT` |
| DurationMenu.ChooseDurationChoices | lib_rs/greaheisl_lib/src/ui/components/duration.rs:78-113 | each arm of the `match`: a timeout gives `(true, setting)`, `Escape` gives `(false, setting)`, `Enter` goes on to the confirmation, an arrow moves the state through the table, and anything else keeps it; the confirmation gives `(true, state)` |
| DurationMenu.ChooseDuration | lib_rs/greaheisl_lib/src/ui/components/duration.rs:56-115 | the run of `choose_duration(setting)` from the setting; `ChooseDurationRun` states its outcome |
| DurationMenu.ChooseDurationFrom | lib_rs/greaheisl_lib/src/ui/components/duration.rs:62-114 | every run from a choosing state is a `DurationTrace` from that state |
| DurationMenu.ChooseDurationRun | lib_rs/greaheisl_lib/src/ui/components/duration.rs:56-115 | a false result comes only from Escape and leaves the setting unchanged; a changed setting is a table entry and comes with true. Exactly (`DurationTrace`): the call ends on the first timeout or `Escape` before any `Enter`, with `(timeout, setting)`, or right after the first `Enter`, with true and the state reached from the setting by the arrow events before it; each event before the end is followed by a button wait of `MENU_TIMEOUT`, but `Enter`, which is followed by the confirming blink of `BLINK_DELAY_CONFIRM_VALUE * 5` |
| DurationMenu.ChooseDurationOutcome | lib_rs/greaheisl_lib/src/ui/components/duration.rs:56-115 | a false result comes only from Escape and leaves the setting unchanged; a changed setting is a table entry and comes with true |
| DurationMenu.ChooseDurationLoop | lib_rs/greaheisl_lib/src/ui/components/duration.rs:56-115 | the loop with its mutable `menu_state` and the two table searches, run over the polls, has exactly the run of `ChooseDuration` |
| ChooseTime.HourPrev | lib_rs/greaheisl_lib/src/ui/components/choose_time.rs:86-92 | Prev decrements the hour with 0 wrapping to 23, staying in 0..23 |
| ChooseTime.HourNext | lib_rs/greaheisl_lib/src/ui/components/choose_time.rs:93-99 | Next increments the hour with 23 wrapping to 0 |
| ChooseTime.MinutePrev | lib_rs/greaheisl_lib/src/ui/components/choose_time.rs:130-136 | Press Prev decrements the minute with 0 wrapping to 59 |
| ChooseTime.MinuteNext | lib_rs/greaheisl_lib/src/ui/components/choose_time.rs:145-151 | Press Next increments the minute with 59 wrapping to 0 |
| ChooseTime.MinuteRepeatPrev | lib_rs/greaheisl_lib/src/ui/components/choose_time.rs:137-144 | Repeat Prev gives the multiple of 10 just below the minute, and 50 from 0 |
| ChooseTime.MinuteRepeatNext | lib_rs/greaheisl_lib/src/ui/components/choose_time.rs:152-159 | Repeat Next gives the next multiple of 10 above the minute below 50, and 0 from 50 on |
| ChooseTime.HourMinuteMovesInverse | lib_rs/greaheisl_lib/src/ui/components/choose_time.rs:86-151 | the single steps Prev and Next undo each other on valid hours and minutes |
| ChooseTime.ChooseTimeStep | lib_rs/greaheisl_lib/src/ui/components/choose_time.rs:21-160 | a pass returns `Ok` exactly after the confirmation, and any other response leaves the caller's hour and minute as they were; before the confirmation it returns exactly on a timeout, or on `Escape` in the hour phase; it goes to the confirmation exactly on `Enter` in the minute phase, and waits then for the blink of `BLINK_DELAY_CONFIRM_VALUE * 5`; every other pass that stays waits for a button with `MENU_TIMEOUT` |
| ChooseTime.HourMove | lib_rs/greaheisl_lib/src/ui/components/choose_time.rs:86-99 | the arrow arms of `choose_hour`: Prev or Next, pressed or repeated, step the hour back or on cyclically; any other event keeps it |
| ChooseTime.MinuteMove | lib_rs/greaheisl_lib/src/ui/components/choose_time.rs:130-159 | the arrow arms of `choose_minute`: a press steps the minute by one and a repeat jumps to the neighbouring multiple of ten, both wrapping round the hour; any other event keeps it |
| ChooseTime.HourRoundStep | lib_rs/greaheisl_lib/src/ui/components/choose_time.rs:64-106 | a pass of the hour loop on an event that does not end it stays in the hour phase with the moved hour |
| ChooseTime.MinuteRoundStep | lib_rs/greaheisl_lib/src/ui/components/choose_time.rs:108-160 | a pass of the minute loop on an event that does not end it stays in the minute phase with the moved minute |
| ChooseTime.ConfirmEnds | lib_rs/greaheisl_lib/src/ui/components/choose_time.rs:49-61 | after the confirming blink the call returns `Ok` with the chosen hour and minute, and requests nothing more |
| ChooseTime.ChooseTimePhases | lib_rs/greaheisl_lib/src/ui/components/choose_time.rs:30-48 | Hour + Ok goes to Minute and Minute + Back goes back to Hour; Back in the hour phase and timeouts return their response |
| ChooseTime.ChooseTimeRun | lib_rs/greaheisl_lib/src/ui/components/choose_time.rs:21-62 | the caller's hour and minute change only on the Ok path; Timeout exactly on a None event; valid times stay valid; every wait is a button wait of `MENU_TIMEOUT` but the last wait of an `Ok` run, which is the confirming blink of `BLINK_DELAY_CONFIRM_VALUE * 5` (`MenuWaits`) |
| ChooseTime.ChooseTimeWaitsFrom | lib_rs/greaheisl_lib/src/ui/components/choose_time.rs:21-160 | from the hour or the minute phase, the waits are button waits of `MENU_TIMEOUT`, with the confirming blink only as the last wait, and there exactly when the run returns `Ok` |
| ChooseTime.ChooseTimeLoop | lib_rs/greaheisl_lib/src/ui/components/choose_time.rs:21-62 | the loop with its mutable `hour_state`, `minute_state` and `phase`, run over the polls, has exactly the run of `RunChooseTime` |
| ChooseTime.TimeRound | lib_rs/greaheisl_lib/src/ui/components/choose_time.rs:64-160 | one pass of the `choose_hour` or `choose_minute` loop on an event is the pass `ChooseTimeStep` makes from the same phase and values: an end with the same result, the confirmation, or the next phase and moved values after a button wait |
| MainMenu.ItemNext | lib_rs/greaheisl_lib/src/ui/menus/main.rs:46-83 | `next` returns true and keeps `channel < 4` and `i_entry < 3` |
| MainMenu.ItemPrevious | lib_rs/greaheisl_lib/src/ui/menus/main.rs:85-125 | `previous` returns true and keeps `channel < 4` and `i_entry < 3` |
| MainMenu.MainMenuCursor.constructor | lib_rs/greaheisl_lib/src/ui/menus/main.rs:133 | the cursor starts at the first immediate timer |
| MainMenu.MainMenuCursor.Next | lib_rs/greaheisl_lib/src/ui/menus/main.rs:46-83 | `next(&mut self)` moves the cursor as `ItemNext` does and reports the change; it keeps a valid item valid |
| MainMenu.MainMenuCursor.Previous | lib_rs/greaheisl_lib/src/ui/menus/main.rs:85-125 | `previous(&mut self)` moves the cursor as `ItemPrevious` does and reports the change; it keeps a valid item valid |
| MainMenu.ItemNextCycles | lib_rs/greaheisl_lib/src/ui/menus/main.rs:46-83 | `next` walks the 16 items in a cycle: ImmediateOut 0..3, then ScheduledOut channel by channel and entry by entry, then back |
| MainMenu.IndexInjective | lib_rs/greaheisl_lib/src/ui/menus/main.rs:46-83 | distinct valid items have distinct positions in that cycle |
| MainMenu.ItemPreviousUndoesNext | lib_rs/greaheisl_lib/src/ui/menus/main.rs:118-122 | `previous` undoes `next` everywhere except channel 0's first two scheduled entries, which jump to `ImmediateOut{3}`; for instance `previous(ScheduledOut{0,1}) == ImmediateOut{3}` |
| MainMenu.MainMenuIgnoresTimeout | lib_rs/greaheisl_lib/src/ui/menus/main.rs:158 | a timeout of the selection does not leave the main menu |
| MainMenu.MainSelectionExits | lib_rs/greaheisl_lib/src/ui/menus/main.rs:134-140 | the menu exits iff the selection ends on Press(Escape), returning the settings; Enter opens a submenu |
| MainMenu.SelectionKeepsValid | lib_rs/greaheisl_lib/src/ui/menus/main.rs:135 | selecting keeps an item valid |
| MainMenu.MainSubmenuReturns | lib_rs/greaheisl_lib/src/ui/menus/main.rs:140-157 | a submenu edits exactly its own settings slot; its true result leaves the main menu and a false one resumes selection at the same item |
| MainMenu.MainStep | lib_rs/greaheisl_lib/src/ui/menus/main.rs:128-161 | leaving from the selection returns the settings unchanged; the selection does not change them; every return keeps the number of relays of each kind of setting; every wait is a button wait of `MENU_TIMEOUT` or a confirming blink |
| MainMenu.MenuMainRun | lib_rs/greaheisl_lib/src/ui/menus/main.rs:128-161 | starting at `ImmediateOut{0}`, every state is valid and the settings stay well formed; every wait the menu records is a button wait of `MENU_TIMEOUT` or a confirming blink |
| MainMenu.MainStepKeepsValid | lib_rs/greaheisl_lib/src/ui/menus/main.rs:128-161 | a pass of the main menu that suspends keeps its state valid: well-formed settings and a valid item, relay and entry index |
| MainMenu.MainStepReturnsWellFormed | lib_rs/greaheisl_lib/src/ui/menus/main.rs:128-161 | a pass that leaves the main menu returns well-formed settings |
| ScheduledEntryMenu.MenuNext | lib_rs/greaheisl_lib/src/ui/menus/scheduled_entry.rs:30-36 | `next` switches to the other item and returns true |
| ScheduledEntryMenu.MenuPrevious | lib_rs/greaheisl_lib/src/ui/menus/scheduled_entry.rs:38-44 | `previous` switches to the other item and returns true |
| ScheduledEntryMenu.EntryCursor.constructor | lib_rs/greaheisl_lib/src/ui/menus/scheduled_entry.rs:16-21 | the cursor starts at the duration |
| ScheduledEntryMenu.EntryCursor.Next | lib_rs/greaheisl_lib/src/ui/menus/scheduled_entry.rs:30-36 | `next(&mut self)` replaces the item by `MenuNext` of it and reports a change |
| ScheduledEntryMenu.EntryCursor.Previous | lib_rs/greaheisl_lib/src/ui/menus/scheduled_entry.rs:38-44 | `previous(&mut self)` replaces the item by `MenuPrevious` of it and reports a change |
| ScheduledEntryMenu.EntryMovesCycle | lib_rs/greaheisl_lib/src/ui/menus/scheduled_entry.rs:16-44 | the moves obey the selection contract (false iff no change) and `previous` undoes `next` |
| ScheduledEntryMenu.ScheduledEntryExits | lib_rs/greaheisl_lib/src/ui/menus/scheduled_entry.rs:69-71 | a timeout returns true and Escape returns false, both leaving the entry alone |
| ScheduledEntryMenu.ScheduledEntryDialogsReturn | lib_rs/greaheisl_lib/src/ui/menus/scheduled_entry.rs:72-89 | a dialog ends the menu only with true: the duration chooser when it returns true, the time chooser on any response other than Back |
| ScheduledEntryMenu.ScheduledEntryStep | lib_rs/greaheisl_lib/src/ui/menus/scheduled_entry.rs:61-94 | the menu returns false only on `Escape` in the selection; leaving the selection returns the entry unchanged, and the selection does not change it; every wait is a button wait of `MENU_TIMEOUT` or a confirming blink |
| ScheduledEntryMenu.MenuScheduledEntryRun | lib_rs/greaheisl_lib/src/ui/menus/scheduled_entry.rs:61-94 | an edited duration is a table entry, and a valid start time stays valid; every wait the menu records is a button wait of `MENU_TIMEOUT` or a confirming blink |
| ScheduledEntryMenu.EntryStepKeepsGood | lib_rs/greaheisl_lib/src/ui/menus/scheduled_entry.rs:61-94 | a pass of the entry menu keeps its duration a table entry or the original one and a valid start time valid, and returns such an entry |
| IdleDisplay.NextScene | lib_rs/greaheisl_lib/src/ui/idle_display.rs:106 | the next scene is the other one |
| IdleDisplay.PreviousScene | lib_rs/greaheisl_lib/src/ui/idle_display.rs:102 | the previous scene is the other one |
| IdleDisplay.SceneMovesInverse | lib_rs/greaheisl_lib/src/ui/idle_display.rs:101-108 | moving to the previous scene undoes moving to the next, and vice versa |
| IdleDisplay.SceneTimeout | lib_rs/greaheisl_lib/src/ui/idle_display.rs:17-63 | the clock waits 5000 ms if `longer` and 20000 ms if not; the flower 1000 ms and 5000 ms |
| IdleDisplay.SceneAfter | lib_rs/greaheisl_lib/src/ui/idle_display.rs:100-117 | the run ends exactly on Press(Enter); a scene that changes becomes the next or the previous one |
| IdleDisplay.SceneMove | lib_rs/greaheisl_lib/src/ui/idle_display.rs:100-117 | the `match` on the event leaves exactly on Press(Enter), with the scene unchanged, and otherwise sets the scene and `longer` that `SceneAfter` gives |
| IdleDisplay.IdleStep | lib_rs/greaheisl_lib/src/ui/idle_display.rs:89-119 | a pass returns exactly on Press(Enter) after a wait; every wait shows a scene and requests that scene's timeout |
| IdleDisplay.SceneRules | lib_rs/greaheisl_lib/src/ui/idle_display.rs:100-117 | Prev and Next move scene with `longer = true`; a timeout moves to the next scene with `longer = false`; the loop ends iff Press(Enter); other events change nothing |
| IdleDisplay.IdleRun | lib_rs/greaheisl_lib/src/ui/idle_display.rs:89-119 | each pass waits the timeout of the scene shown; `run` ends exactly on the first Press(Enter) |
| IdleDisplay.IdleDisplay.constructor | lib_rs/greaheisl_lib/src/ui/idle_display.rs:79-83 | the display starts on the Clock scene |
| IdleDisplay.IdleDisplay.Run | lib_rs/greaheisl_lib/src/ui/idle_display.rs:89-119 | the loop over the scene field produces the run of the scene model and leaves the field at the last scene shown |
| Selection.ApplyMovesCons | lib_rs/greaheisl_lib/src/ui/components/selection.rs:30-41 | events change the state one after the other, through `previous` and `next` only |
| Selection.SelectionFrom | lib_rs/greaheisl_lib/src/ui/components/selection.rs:25-42 | the loop suspends while no exit event occurs; at an exit its state is the earlier events applied through `previous`/`next` |
| Selection.SelectionRun | lib_rs/greaheisl_lib/src/ui/components/selection.rs:20-43 | the selection finishes iff None, Press(Escape) or Press(Enter) occurs, at the first one; Press(Prev) and Press(Next) move once, and other events are ignored; each event before the end is followed by a button wait of `MENU_TIMEOUT` |
| Selection.SelectionStep | lib_rs/greaheisl_lib/src/ui/components/selection.rs:25-42 | a pass returns exactly on a timeout, `Escape` or `Enter`, with the state and that event; every pass that stays waits for a button with `MENU_TIMEOUT` |
| Selection.SelectionLoop | lib_rs/greaheisl_lib/src/ui/components/selection.rs:20-43 | the loop that moves the state in place on Prev and Next, run over the polls, has exactly the run of `RunSelection` |
| UiEvents.Events | lib_rs/greaheisl_lib/src/ui/components/selection.rs:29-30 | the events read after each wait are the observed ones, in order |
| Directions.Axis | lib_rs/greaheisl_typeset/src/directions.rs:20-28 | `PlusX` and `MinusX` lie on the X axis, the other two directions on the Y axis |
| Directions.IsPositive | lib_rs/greaheisl_typeset/src/directions.rs:29-37 | exactly `PlusX` and `PlusY` point in the positive sense |
| Directions.Opposite | lib_rs/greaheisl_typeset/src/directions.rs:38-46 | the opposite direction keeps the axis and flips the sense |
| Directions.Rot90 | lib_rs/greaheisl_typeset/src/directions.rs:47-55 | a quarter turn always changes the axis |
| Directions.TurnsCompose | lib_rs/greaheisl_typeset/src/directions.rs:38-55 | `opposite` is an involution without fixed points, two quarter turns make the opposite and four make the identity |
| Directions.RotateUnrotate | lib_rs/greaheisl_typeset/src/directions.rs:65-86 | `rotate_vec` and `unrotate_vec` are inverse to each other, in both orders |
| Directions.RotateVecTurns | lib_rs/greaheisl_typeset/src/directions.rs:47-86 | rotating into the quarter-turned (or opposite) direction is rotating into the direction and then turning by `PlusY` (or `MinusX`) |
| Directions.AsVector | lib_rs/greaheisl_typeset/src/directions.rs:56-64 | the vector of a direction is the unrotated vector (length, 0) turned into that direction |
| Directions.AxisAsVector | lib_rs/greaheisl_typeset/src/directions.rs:88-95 | the vector has the length on its own axis and 0 on the other, as the positive direction of that axis |
| Typeset.NewLayout | lib_rs/greaheisl_typeset/src/lib.rs:78-84 | a fresh typesetter has its pen at the initial position, the given writing direction and no previous margin |
| Typeset.Gap | lib_rs/greaheisl_typeset/src/lib.rs:86-90 | the first glyph gets no gap; later glyphs are separated by the larger of the previous glyph's trailing margin and the new glyph's leading margin |
| Typeset.PlaceGlyph | lib_rs/greaheisl_typeset/src/lib.rs:85-101 | placing a glyph keeps the line (the cross coordinate), advances the pen by the gap plus the glyph's extent along the line, and remembers its trailing margin |
| Typeset.Advance | lib_rs/greaheisl_typeset/src/lib.rs:108-110 | skipping moves the pen along the line by the width and keeps direction and margin |
| Typeset.BasePointOnLine | lib_rs/greaheisl_typeset/src/lib.rs:85-101 | the glyph is placed so that its base point lands on the base line, after the gap |
| Typeset.GlyphSpacing | lib_rs/greaheisl_typeset/src/lib.rs:85-110 | between two glyphs with a skip in between, the free space along the line is the skip plus the larger of the two facing margins |
| Typeset.LineTypesetter.constructor | lib_rs/greaheisl_typeset/src/lib.rs:78-84 | the new object's state is the fresh layout |
| Typeset.LineTypesetter.TypesetGlyph | lib_rs/greaheisl_typeset/src/lib.rs:85-101 | the fields are updated and the position returned exactly as the glyph placement prescribes |
| Typeset.LineTypesetter.Skip | lib_rs/greaheisl_typeset/src/lib.rs:108-110 | the fields are updated as skipping prescribes |
| Typeset.IsControl | lib_rs/greaheisl_typeset/src/lib.rs:337 | `char::is_control`, used by `HandleNonPrintable` |
| Typeset.HandleNonPrintable | lib_rs/greaheisl_typeset/src/lib.rs:331-346 | a character the font has no glyph for fails iff it is a control character (`UnsupportedControlChar`) or the font has no notdef glyph (`GlyphNotDefined`); otherwise the notdef glyph is used |
| Typeset.DrawGlyph | lib_rs/greaheisl_typeset/src/lib.rs:322-330 | the glyph is drawn at the placed position and the layout advances as placement prescribes |
| Typeset.GlyphFor | lib_rs/greaheisl_typeset/src/lib.rs:354-366 | the glyph `print_char` draws, or its error; `PrintCharPage` and `Printable` state how it is used |
| Typeset.PrintCharPage | lib_rs/greaheisl_typeset/src/lib.rs:354-366 | a character fails exactly when it has no glyph and no substitute, and then nothing changes; otherwise its glyph is drawn |
| Typeset.Printable | lib_rs/greaheisl_typeset/src/lib.rs:367-383 | the length of the longest prefix of printable characters: all before it have glyphs, the one at it has none |
| Typeset.PrintStrPage | lib_rs/greaheisl_typeset/src/lib.rs:367-383 | `print_str` with the page it leaves; `PrintStrStopsAtFirstError` and `PrintStrAppend` state what it draws |
| Typeset.PrintStrStopsAtFirstError | lib_rs/greaheisl_typeset/src/lib.rs:367-383 | printing a string draws the glyphs of the printable prefix, keeps what was drawn before, and fails with the error of the first unprintable character if there is one |
| Typeset.PrintStrAppend | lib_rs/greaheisl_typeset/src/lib.rs:367-383 | printing `a + b` is printing `a` and then `b` on the result, when `a` prints without error |
| Typeset.DivRem | lib_rs/greaheisl_typeset/src/lib.rs:385-397 | the remainder of the division is below the divisor |
| Typeset.DivRemSpec | lib_rs/greaheisl_typeset/src/lib.rs:385-397 | quotient times divisor plus remainder gives back the dividend |
| Typeset.Digits | lib_rs/greaheisl_typeset/src/lib.rs:385-397 | `n` digits, each below the base |
| Typeset.Pow | lib_rs/greaheisl_typeset/src/lib.rs:385-397 | a power of a positive base is positive |
| Typeset.DigitsSplit | lib_rs/greaheisl_typeset/src/lib.rs:385-397 | the digits are the low part of the number: the number is the remaining quotient times base^n plus the digits' value, and that value is below base^n |
| Typeset.DigitsValue | lib_rs/greaheisl_typeset/src/lib.rs:385-397 | the digits written read back as the number modulo base^n, most significant digit first |
| Typeset.IntToDigits | lib_rs/greaheisl_typeset/src/lib.rs:385-397 | the loop fills the buffer from the back with the digits of the number |
| Typeset.DigitChar | lib_rs/greaheisl_typeset/src/lib.rs:209-214 | a digit below 10 becomes the ASCII character with that value |
| Typeset.DigitChars | lib_rs/greaheisl_typeset/src/lib.rs:215-230 | each digit becomes its character, in order |
| Typeset.TextLinePrinter.constructor | lib_rs/greaheisl_typeset/src/lib.rs:301-314 | the pen starts on the font's base line (the base line offset along the line-feed axis) in the font's writing direction, with nothing drawn |
| Typeset.TextLinePrinter.PrintGlyph | lib_rs/greaheisl_typeset/src/lib.rs:315-330 | the glyph is placed by the typesetter and drawn at that position |
| Typeset.TextLinePrinter.Skip | lib_rs/greaheisl_typeset/src/lib.rs:318-320 | the pen skips along the line and nothing is drawn |
| Typeset.TextLinePrinter.PrintChar | lib_rs/greaheisl_typeset/src/lib.rs:354-366 | the result and new state are those of printing the character on the page |
| Typeset.TextLinePrinter.PrintStr | lib_rs/greaheisl_typeset/src/lib.rs:367-383 | the loop prints the string as the page model does and stops at the first error |
| Typeset.TextLinePrinter.PrintDigit | lib_rs/greaheisl_typeset/src/lib.rs:209-214 | a digit is printed as its character |
| Typeset.TextLinePrinter.PrintUint | lib_rs/greaheisl_typeset/src/lib.rs:215-230 | the `n` lowest decimal digits, with leading zeros, are printed like the string of them |
| Canvas.Copied | lib_rs/greaheisl_typeset/src/canvas.rs:49-60 | the back sheet gets at most the draws made to the front sheet |
| Canvas.CopiedAppend | lib_rs/greaheisl_typeset/src/canvas.rs:49-60 | what is copied of two batches of draws is what is copied of each, with the glyph count carried on |
| Canvas.CopiedExtremes | lib_rs/greaheisl_typeset/src/canvas.rs:49-60 | with no blinking glyph everything is copied; with only blinking glyphs, or past the end of the blink mask, nothing is |
| Canvas.CarbonCopyCanvas.constructor | lib_rs/greaheisl_typeset/src/canvas.rs:29-35 | a new canvas holds the two sheets and the mask and starts at glyph 0 |
| Canvas.CarbonCopyCanvas.DrawGlyph | lib_rs/greaheisl_typeset/src/canvas.rs:49-60 | every glyph goes to the front sheet, and to the back sheet unless the mask marks it blinking; the glyph count goes up by one |
| Canvas.CarbonCopyCanvas.IntoSheets | lib_rs/greaheisl_typeset/src/canvas.rs:38-42 | the canvas gives back its front and back sheet, in that order |
| BitImage.CellInData | lib_rs/greaheisl_bitvecimg/src/lib.rs:13-17 | every pixel of a view lies inside the view's data range |
| BitImage.CellRowOrder | lib_rs/greaheisl_bitvecimg/src/lib.rs:13-17 | every pixel of an earlier row comes before every pixel of a later row |
| BitImage.InRowsCell | lib_rs/greaheisl_bitvecimg/src/lib.rs:13-17 | a pixel lies in the first `rows` rows of the view iff its row is below `rows` |
| BitImage.RegionDataRange | lib_rs/greaheisl_bitvecimg/src/lib.rs:130-147 | the data range of a region is a well-formed range |
| BitImage.RegionDataRangeTight | lib_rs/greaheisl_bitvecimg/src/lib.rs:130-147 | the range starts at the region's first pixel, ends just past its last one, and holds every pixel of the region |
| BitImage.AsRegionCovers | lib_rs/greaheisl_bitvecimg/src/lib.rs:186-189 | the view of a whole `w` by `h` image has frame width `w`, covers all `w*h` bits and puts pixel (x, y) at bit `y*w + x` |
| BitImage.Region | lib_rs/greaheisl_bitvecimg/src/lib.rs:18-22 | a sub-region has the requested size, shares the frame width, stays inside the parent's data, and its pixel (x', y') is the parent's pixel (x + x', y + y') |
| BitImage.SubRectFits | lib_rs/greaheisl_bitvecimg/src/lib.rs:18-22 | a rectangle inside the view's width and height is a region that can be cut out |
| BitImage.CopyFrom | lib_rs/greaheisl_bitvecimg/src/lib.rs:38-45 | with equal sizes, every pixel of the destination view becomes the source's pixel, and no bit outside the destination view changes |
| BitImage.Merge | lib_rs/greaheisl_bitvecimg/src/lib.rs:95-107 | two drawings are unclipped together iff both are unclipped, hidden together iff both are hidden, and partly clipped otherwise |
| BitImage.MergeLaws | lib_rs/greaheisl_bitvecimg/src/lib.rs:95-107 | merging is commutative, associative and idempotent |
| BitImage.ClipRange | lib_rs/greaheisl_bitvecimg/src/lib.rs:256-267 | as written: the start is clamped to 0 and the source offset is how much is cut off, but the length is only cut at the right window edge |
| BitImage.ClipRangeFixed | lib_rs/greaheisl_bitvecimg/src/lib.rs:256-267 | corrected: the clipped range is exactly the intersection of the range with the window, read at the matching source offset |
| BitImage.ClipRangesAgree | lib_rs/greaheisl_bitvecimg/src/lib.rs:256-267 | both versions agree for a non-negative start; for a negative start they share start and offset and the written one is longer |
| BitImage.PasteInfoMeaning | lib_rs/greaheisl_bitvecimg/src/lib.rs:77-83 | the result is `Hidden` iff the image misses the window along some axis, and `NoClipping` iff it lies wholly inside |
| BitImage.AsWrittenPastePanics | lib_rs/greaheisl_bitvecimg/src/lib.rs:64-84 | as written, pasting a 3 by 5 glyph into a 12 by 8 image at x = -2, at x = 50, or at y = 8 slices out of range |
| BitImage.PasteAndClip | lib_rs/greaheisl_bitvecimg/src/lib.rs:64-84 | corrected: each covered pixel gets the source pixel under it, nothing outside the target region changes, and the clipping information is the meaning above |
| FitzlFont.ImageSize | lib_rs/greaheisl_bitvecimg/src/font/fitzl_font.rs:85-321 | every glyph image is 5 high and 1 to 3 wide |
| FitzlFont.GlyphMetrics | lib_rs/greaheisl_bitvecimg/src/font/mod.rs:15-37 | a glyph's metrics are its image size, its base point and its four margins |
| FitzlFont.GetFontSpec | lib_rs/greaheisl_bitvecimg/src/font/fitzl_font.rs:16-24 | only lines fed along Y have metrics: base line offset 4, line distance 6 |
| FitzlFont.CharToGlyph | lib_rs/greaheisl_bitvecimg/src/font/fitzl_font.rs:34-53 | exactly the ASCII digits, the capital letters and the space have glyphs, with their base points and unit margins; any other character is handed back |
| FitzlFont.CharToGlyphInverse | lib_rs/greaheisl_bitvecimg/src/font/fitzl_font.rs:34-53 | the glyph of a character determines the character; the notdef glyph stands for none |
| FitzlFont.DefaultNotdefGlyph | lib_rs/greaheisl_bitvecimg/src/font/fitzl_font.rs:68-74 | the font has a notdef glyph, with base point (4, 1) and unit margins |
| FitzlFont.FitzlGlyphs | lib_rs/greaheisl_typeset/src/lib.rs:331-346 | with this font, a character fails iff it is a control character; every other glyph is 5 high with unit margins, and characters without their own glyph get the notdef glyph |
| FitzlFont.FitzlPrinterStart | lib_rs/greaheisl_typeset/src/lib.rs:301-314 | a printer with this font can be built; it starts at (0, 4) and writes along +X |
| FitzlFont.PrintTwelve | lib_rs/greaheisl_typeset/src/lib.rs:367-383 | printing "12" from the start draws the two digit glyphs at (0, 0) and (3, 0) |
| Emulator.DaytimeToSeconds | lib_rs/greaheisl_emu/src/main.rs:94-96 | the seconds since midnight of a time of day |
| Emulator.TruncDiv | lib_rs/greaheisl_emu/src/main.rs:98-103 | division rounds toward zero, like `div_rem` on `i32` |
| Emulator.TruncRem | lib_rs/greaheisl_emu/src/main.rs:98-103 | the remainder completes the truncating division and has the sign of the dividend |
| Emulator.SecondsToDaytimeNonNegative | lib_rs/greaheisl_emu/src/main.rs:98-103 | for a non-negative count the result is hours modulo 24, minutes and seconds |
| Emulator.DaytimeRoundTrip | lib_rs/greaheisl_emu/src/main.rs:94-103 | converting a valid time of day to seconds and back gives the same time |
| Emulator.SecondsToDaytimeNegative | lib_rs/greaheisl_emu/src/main.rs:98-103 | as written, -1 gives (0, 0, 255), and a clock shifted back over midnight gives (235, 226, 0) where (2, 30, 0) is meant |
| Emulator.SecondsToDaytimeWrapped | lib_rs/greaheisl_emu/src/main.rs:98-103 | corrected: always a valid time of day, the one whose seconds are the count modulo one day |
| Emulator.SecondsToDaytime | lib_rs/greaheisl_emu/src/main.rs:98-103 | `seconds_to_daytime` as written; `SecondsToDaytimeNonNegative` and `SecondsToDaytimeNegative` state what it computes |
| Emulator.WrappedAgrees | lib_rs/greaheisl_emu/src/main.rs:98-103 | the correction agrees with the code within one day, and a day's shift does not change it |
| Emulator.WrappedRoundTrip | lib_rs/greaheisl_emu/src/main.rs:94-103 | the corrected conversion also inverts `daytime_to_seconds` |
| Emulator.MapKeyCodes | lib_rs/greaheisl_emu/src/main.rs:166-175 | exactly the four arrow keys map, each to a single button: Up to Prev, Down to Next, Left to Escape, Right to Enter |
| Emulator.CellChar | lib_rs/greaheisl_emu/src/main.rs:59-73 | the block character of a cell shows its two pixels (top, bottom) |
| Emulator.Cells | lib_rs/greaheisl_emu/src/main.rs:59-73 | one character per cell of the line |
| Emulator.LineText | lib_rs/greaheisl_emu/src/main.rs:54-76 | a text line is 16 characters: the two borders, 12 cells, and the line end |
| Emulator.LinesText | lib_rs/greaheisl_emu/src/main.rs:53-77 | `n` text lines of 16 characters each |
| Emulator.LinesTextCell | lib_rs/greaheisl_emu/src/main.rs:53-77 | character j of text line `line` shows pixels j of matrix rows `2*line` and `2*line + 1` |
| Emulator.MatrixText | lib_rs/greaheisl_emu/src/main.rs:48-80 | the picture of the matrix: a frame line, four text lines and a frame line; `MatrixTextDecodes` states that each character shows its two pixels |
| Emulator.MatrixTextDecodes | lib_rs/greaheisl_emu/src/main.rs:48-80 | the frame is 96 characters and each cell inside reads back the two pixels it stands for |
| Emulator.WriteMatrix | lib_rs/greaheisl_emu/src/main.rs:48-80 | the loop writes the framed matrix text |
| Emulator.WriteCells | lib_rs/greaheisl_emu/src/main.rs:55-73 | the inner loop writes one block character per column, chosen by the two pixel rows of the text line |
| Emulator.NextDelay | lib_rs/greaheisl_emu/src/main.rs:279-282 | the loop stops when the executor is done; otherwise the delay is the request capped at 2000 ms |

## Left out

- The poll machinery of Rust (`Waker`, `Context`, `Pin`, `pin_project`) is left out. A poll is a pure step function, and a wake-up request is a flag in the environment.
- `greaheisl_lib/src/interface_c.rs` and `delegating_alloc.rs` are not part of this model. They hold the C interface and the allocator, which are foreign calls and memory management.
- The emulator's `run`, `main`, the `CliCallbacks` glue (terminal, mutexes, wall clock) and `build.rs` are I/O. Only the pure helpers and the delay rule of the loop are modelled.
- Of `ui/display.rs`, `ui/mod.rs` and `ui/components/mod.rs`, only the constants and the relay-count bounds used by the modelled menus are kept. The drawing of each screen is not modelled.
- The bit-level `Msb0` storage of the `u32` words and the pixel patterns of the font glyphs are not modelled. Images are `bool` buffers, and a glyph image is named by what it shows.
- `greaheisl_lib/src/tests.rs` is not part of this model. `greaheisl_async/tests/simple.rs` is restated as a scripted run.
- The timer helpers `wait_cond`, `delay`, `wait_cond_timeout`, `wait_avail` and `wait_avail_timeout` (timer.rs:61-142) are not modelled. They are only re-exported, and no modelled code calls them.
- `paste` (bitvecimg lib.rs:49-60) has no member of its own. Its work, cutting out a region and copying into it, is the second half of `BitImage.PasteAndClip`.
- The stop signal of the button processor (`ReceiveBool`) is one boolean observation per resumption.
- Copying an image whose size does not match the target, an out-of-range region, `CheckHoldButton::new` with no button pressed, `print_digit` with a value of 10 or more, a font with no spec for its default line-feed axis (the `get_font_spec(...).unwrap()` of typeset lib.rs:304, a precondition of `Typeset.TextLinePrinter.constructor`), and resuming a finished `async fn` all panic in Rust. Each is a precondition here.
- `Milliseconds.DurationSub`, `Timer.TimeLeft` and `CheckHoldButton.TimeLeft`: the `i32` subtraction `duration - elapsed` panics on overflow in a debug build of Rust. The model wraps it modulo 2^32, as a release build does. The result is the real difference whenever that fits in `i32`.
- The coordinates of `Typeset` and `Directions` are unbounded integers. The `checked_add`/`checked_sub`/`checked_neg` panics on `i32` overflow are not modelled.
- Errors of `fmt::Write` while the emulator draws the matrix are not modelled. The writer is a `String`, whose writes cannot fail.
- Canvases are logs of the glyphs drawn and their positions, not pixel images. The drawing of a glyph into a bit image is modelled separately by `BitImage.PasteAndClip`.
- A menu wait is one request in the model. The sleeps inside one button wait (its repeated `sleep_at_most`) are stated by `ButtonWaits`, and the button wait that `menu_main` makes before its first event comes before any observation of `MainMenu.MenuMain`, so no modelled run records it.
- The 1000 ms refresh timer of the immediate-output screen and the blink timers of `run_blinking_led_matrix` during a wait are drawing only. They are not modelled.
- The idle display's clock refresh (the `join2` with `show_clock`) and the redraw loop of the immediate-output screen are drawing only. They are not modelled.
- The 2000 ms wait of `watch_output` between two rounds is not composed with the round itself. `Relays.OutputWatcher.Round` is one round.
- `clip_range` updates its `&mut` arguments. Here it returns them in a `Clip` value.
- The loops of `menu_main`, `menu_scheduled_entry` and `menu_immediate_out` stay step functions run by `Drive` (`MainMenu.MenuMain`, `ScheduledEntryMenu.MenuScheduledEntry`, `ImmediateOutMenu.MenuImmediateOut`). Each of them chains dialogs across awaits, so the locals they update in place (`current_item`, the entry and the setting) are fields of the step state rather than method variables. The `&mut self` updaters they call (`MainMenu.MainMenuCursor`, `ScheduledEntryMenu.EntryCursor`), the selection loop and the dialogs and waits below them are methods proved equal to their step functions.
- `ButtonProcessor.DriverStep`, `CheckHoldButton.Check`, `DurationMenu.ChooseDuration`, `Relays.Fires`, `Emulator.SecondsToDaytime`, `Emulator.MatrixText`, `Typeset.IsControl`, `Typeset.GlyphFor` and `Typeset.PrintStrPage` carry no contract of their own. Their properties are the lemmas named in their rows.
- `ButtonProcessor.StepEvents`: the driver loop is summarised as one button reading per poll. The real number of readings depends on the host's wake-ups.
- `Relays.PruneImmediate`, `Relays.NoStops`, `Relays.NextRow`, `Relays.NextStops` and `Relays.RelaysState` state only the shape of their results. Their meaning is stated by `Relays.RelayOnIff`, `Relays.PruneKeepsRunningTimers` and `Relays.ScheduledRunsForDuration`.
- `Typeset.Digits` and `Typeset.DivRem` state only bounds. Their meaning is `Typeset.DigitsValue` and `Typeset.DivRemSpec`.
- `Canvas.Copied` states only a length bound. Its meaning is `Canvas.CopiedAppend` and `Canvas.CopiedExtremes`.
- `BitImage.RegionDataRange` states only that its range is well formed. Its meaning is `BitImage.RegionDataRangeTight`.
- `Emulator.Cells`, `Emulator.LineText` and `Emulator.LinesText` state only lengths. Their meaning is `Emulator.LinesTextCell` and `Emulator.MatrixTextDecodes`.
- `executor.rs:117-119` documents that `step` returns `None` when no delay was requested. The code at lines 136-137 returns `Some(0)`. The model follows the code.
- Choosing `previous` in the main menu on any scheduled entry of channel 0 goes to the immediate-output item of channel 3 (main.rs:118-122). This is modelled as written.
- The main menu ignores a timeout of its selection (main.rs:158). This is modelled as written in `MainMenu.MainMenuIgnoresTimeout`.
- After Enter, the immediate-output menu rewrites the timer setting even when the duration chooser returned false (immediate_out.rs:50-61). This is modelled as written.

## Findings

| source | as written | input that shows it | evidently intended | confidence | as-written member | corrected member |
|---|---|---|---|---|---|---|
| lib_rs/greaheisl_bitvecimg/src/lib.rs:64-84 | `clip_range` does not shorten the length by the part cut off on the left or top. The paste is also done before the hidden check. | A 3×5 glyph pasted into the 12×8 matrix at x = -2 takes a source region at column 2 of width 3, which passes the glyph's right edge. At x = 50 the target region starts at column 50 of 12, and at x = 1, y = 8 the empty target region starts at bit 97 of 96: all three panic. | The visible part of a partly or wholly off-screen glyph is pasted, and a hidden one is skipped. | not executed | BitImage.AsWrittenPastePanics | BitImage.PasteAndClip |
| lib_rs/greaheisl_emu/src/main.rs:98-103 | `seconds_to_daytime` uses the truncating `div_rem` of `i32` and `%`, so a negative second count gives negative fields, which `as u8` wraps. | Clock set to 00:30:00 at a real time of 22:00:00 (time shift -77400 s), then read at real midnight: -77400 seconds gives (235, 226, 0) instead of 02:30:00. -1 gives (0, 0, 255). | The time of day of the second count modulo 86400. | not executed | Emulator.SecondsToDaytimeNegative | Emulator.SecondsToDaytimeWrapped |
