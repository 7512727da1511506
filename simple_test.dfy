/**
 * The regression scenario of the runtime's test suite: a root task that records
 * markers in a shared result list and sleeps, first in sequence and then in two
 * `join2` branches, driven by a host loop that steps the executor six times and
 * advances its clock by whatever the executor answers.
 */
module SimpleTest {
  import opened Base
  import opened Milliseconds
  import opened Polling
  import opened AsyncLib
  import opened Join
  import opened Executor

  /** The statements of the task's async blocks: push a marker, or `sleep_at_most(d).await`. */
  datatype Op = Push(v: int) | Sleep(d: I32)

  /** An async block made of `Op`s: the next statement and the sleep it is suspended in. */
  datatype ScriptState = ScriptState(pc: nat, current: Option<SleepAtMost>)

  type Env = Ctx<(), seq<int>>

  const START: ScriptState := ScriptState(0, None)

  /** One poll of a straight-line async block: runs statements until a sleep suspends
   *  or the block ends. */
  function ScriptPoll(ops: seq<Op>, st: ScriptState, c: Env): Stepped<ScriptState, Env, ()>
    decreases |ops| - st.pc
  {
    if st.pc >= |ops| then Stepped(st, c, Ready(()))
    else
      match ops[st.pc]
      case Push(v) => ScriptPoll(ops, ScriptState(st.pc + 1, None), c.(world := c.world + [v]))
      case Sleep(d) =>
        var fut := st.current.GetOr(Unresumed(d));
        if fut.Returned? then ScriptPoll(ops, ScriptState(st.pc + 1, None), c)
        else
          var s := SleepPoll(fut, c);
          if s.poll.Ready? then ScriptPoll(ops, ScriptState(st.pc + 1, None), s.env)
          else Stepped(ScriptState(st.pc, Some(s.state)), s.env, Pending)
  }

  const PREFIX: seq<Op> :=
    [Push(-1), Sleep(100), Push(-2), Sleep(100), Push(-3), Sleep(100), Push(-4), Sleep(100)]
  const BRANCH1: seq<Op> := [Push(-10), Sleep(100), Push(-20), Sleep(100)]
  const BRANCH2: seq<Op> := [Push(-100), Sleep(99), Push(-200), Sleep(99)]

  function Branch1Poll(s: ScriptState, c: Env): Stepped<ScriptState, Env, ()>
  {
    ScriptPoll(BRANCH1, s, c)
  }

  function Branch2Poll(s: ScriptState, c: Env): Stepped<ScriptState, Env, ()>
  {
    ScriptPoll(BRANCH2, s, c)
  }

  /** The root task `my_main_task`: the sequential prefix, then the `join2` of the two
   *  branches. `Done` is never polled: the executor drops a completed task. */
  datatype MainTask = Prefix(s: ScriptState) | Joining(j: JoinState<ScriptState, ScriptState, (), ()>) | Done

  function JoinPhase(j: JoinState<ScriptState, ScriptState, (), ()>, c: Env): Stepped<MainTask, Env, ()>
  {
    var r := JoinStep(j, Branch1Poll, Branch2Poll, c);
    if r.poll.Ready? then Stepped(Done, r.env, Ready(())) else Stepped(Joining(r.state), r.env, Pending)
  }

  function MainPoll(m: MainTask, c: Env): Stepped<MainTask, Env, ()>
  {
    match m
    case Prefix(s) =>
      var r := ScriptPoll(PREFIX, s, c);
      if r.poll.Ready? then JoinPhase(JoinNew(START, START), r.env)
      else Stepped(Prefix(r.state), r.env, Pending)
    case Joining(j) => JoinPhase(j, c)
    case Done => Stepped(Done, c, Ready(()))
  }

  /** The root task as the executor polls it: a fresh context per step. */
  function RootPoll(m: MainTask, instant: InstantMillis, x: (), w: seq<int>): TaskPoll<MainTask, seq<int>>
  {
    var r := MainPoll(m, Ctx(instant, x, [], w));
    TaskPoll(r.state, r.env.requests, r.env.world, r.poll.Ready?)
  }

  const EXPECTED: seq<int> := [10, -1, 120, -2, 220, -3, 320, -4, 420, -10, -100, 519, -20, -200, 618]

  const SLEPT: SleepAtMost := Suspended(true)

  /** The task before host iteration `i`. */
  function TaskBefore(i: nat): MainTask
    requires i <= 6
  {
    if i == 0 then Prefix(START)
    else if i <= 4 then Prefix(ScriptState(2 * i - 1, Some(SLEPT)))
    else
      var s := ScriptState(2 * i - 9, Some(SLEPT));
      Joining(JoinState(s, s, None, None))
  }

  function TimeBefore(i: nat): U32
    requires i <= 6
  {
    [20, 120, 220, 320, 420, 519, 618][i]
  }

  function ResultBefore(i: nat): seq<int>
    requires i <= 6
  {
    EXPECTED[..[1, 3, 5, 7, 9, 12, 15][i]]
  }

  /** A push runs and the block continues in the same poll. */
  lemma ScriptPush(ops: seq<Op>, st: ScriptState, c: Env)
    requires st.pc < |ops| && ops[st.pc].Push?
    ensures ScriptPoll(ops, st, c) ==
      ScriptPoll(ops, ScriptState(st.pc + 1, None), c.(world := c.world + [ops[st.pc].v]))
  {
  }

  /** A sleep reached for the first time records its request and suspends the block. */
  lemma ScriptSleepStarts(ops: seq<Op>, pc: nat, c: Env)
    requires pc < |ops| && ops[pc].Sleep?
    ensures ScriptPoll(ops, ScriptState(pc, None), c) ==
      Stepped(ScriptState(pc, Some(SLEPT)), c.(requests := c.requests + [ops[pc].d]), Pending)
  {
  }

  /** A suspended sleep completes on the next poll and the block carries on. */
  lemma ScriptSleepResumes(ops: seq<Op>, pc: nat, c: Env)
    requires pc < |ops| && ops[pc].Sleep?
    ensures ScriptPoll(ops, ScriptState(pc, Some(SLEPT)), c) == ScriptPoll(ops, ScriptState(pc + 1, None), c)
  {
  }

  /** The block has ended: it answers `Ready` and changes nothing. */
  lemma ScriptEnds(ops: seq<Op>, c: Env)
    ensures ScriptPoll(ops, ScriptState(|ops|, None), c) == Stepped(ScriptState(|ops|, None), c, Ready(()))
  {
  }

  /** A block suspended before `[Push(v), Sleep(d)]`, or at its start: one poll pushes `v`
   *  and suspends in the sleep. */
  lemma ScriptPushThenSleep(ops: seq<Op>, pc: nat, c: Env)
    requires pc + 1 < |ops| && ops[pc].Push? && ops[pc + 1].Sleep?
    ensures ScriptPoll(ops, ScriptState(pc, None), c) ==
      Stepped(ScriptState(pc + 1, Some(SLEPT)),
              c.(world := c.world + [ops[pc].v], requests := c.requests + [ops[pc + 1].d]), Pending)
  {
    ScriptPush(ops, ScriptState(pc, None), c);
    ScriptSleepStarts(ops, pc + 1, c.(world := c.world + [ops[pc].v]));
  }

  /** The poll of host iteration 4: the prefix ends and both branches start. */
  lemma JoinStarts(c: Env)
    requires c.requests == []
    ensures MainPoll(TaskBefore(4), c) ==
      Stepped(TaskBefore(5), c.(world := c.world + [-10, -100], requests := [100, 99]), Pending)
  {
    ScriptSleepResumes(PREFIX, 7, c);
    ScriptEnds(PREFIX, c);
    assert BRANCH1[0] == Push(-10) && BRANCH1[1] == Sleep(100);
    assert BRANCH2[0] == Push(-100) && BRANCH2[1] == Sleep(99);
    assert c.requests + [100] == [100];
    ScriptPushThenSleep(BRANCH1, 0, c);
    var b1 := Branch1Poll(START, c);
    assert b1 == Stepped(ScriptState(1, Some(SLEPT)), c.(world := c.world + [-10], requests := [100]), Pending);
    ScriptPushThenSleep(BRANCH2, 0, b1.env);
    var b2 := Branch2Poll(START, b1.env);
    assert [100] + [99] == [100, 99] && c.world + [-10] + [-100] == c.world + [-10, -100];
    assert b2.env == c.(world := c.world + [-10, -100], requests := [100, 99]);
    assert ScriptPoll(PREFIX, ScriptState(7, Some(SLEPT)), c) == Stepped(ScriptState(8, None), c, Ready(()));
    assert JoinStep(JoinNew(START, START), Branch1Poll, Branch2Poll, c) ==
      Stepped(JoinState(ScriptState(1, Some(SLEPT)), ScriptState(1, Some(SLEPT)), None, None), b2.env, Pending);
  }

  /** The poll of host iteration 5: both branches resume, push and sleep again. */
  lemma JoinContinues(c: Env)
    requires c.requests == []
    ensures MainPoll(TaskBefore(5), c) ==
      Stepped(TaskBefore(6), c.(world := c.world + [-20, -200], requests := [100, 99]), Pending)
  {
    var s := ScriptState(1, Some(SLEPT));
    ScriptSleepResumes(BRANCH1, 1, c);
    assert BRANCH1[2] == Push(-20) && BRANCH1[3] == Sleep(100);
    assert BRANCH2[2] == Push(-200) && BRANCH2[3] == Sleep(99);
    assert c.requests + [100] == [100];
    ScriptPushThenSleep(BRANCH1, 2, c);
    var b1 := Branch1Poll(s, c);
    assert b1 == Stepped(ScriptState(3, Some(SLEPT)), c.(world := c.world + [-20], requests := [100]), Pending);
    ScriptSleepResumes(BRANCH2, 1, b1.env);
    ScriptPushThenSleep(BRANCH2, 2, b1.env);
    var b2 := Branch2Poll(s, b1.env);
    assert [100] + [99] == [100, 99] && c.world + [-20] + [-200] == c.world + [-20, -200];
    assert b2.env == c.(world := c.world + [-20, -200], requests := [100, 99]);
    assert JoinStep(JoinState(s, s, None, None), Branch1Poll, Branch2Poll, c) ==
      Stepped(JoinState(ScriptState(3, Some(SLEPT)), ScriptState(3, Some(SLEPT)), None, None), b2.env, Pending);
  }

  /** The delay requests the task makes in host iteration `i`. */
  function RequestsIn(i: nat): seq<I32>
  {
    if i < 4 then [100] else [100, 99]
  }

  /** The iterations in which the task pushes and then sleeps: 0 and 1, then 2 and 3. */
  lemma PollInIterationEarly(i: nat)
    requires i < 2
    ensures RootPoll(TaskBefore(i), FromAbsolute(TimeBefore(i)), (), ResultBefore(i)) ==
      TaskPoll(TaskBefore(i + 1), RequestsIn(i),
               ResultBefore(i + 1)[..|ResultBefore(i + 1)| - 1], false)
  {
    var c := Ctx(FromAbsolute(TimeBefore(i)), (), [], ResultBefore(i));
    if i == 0 {
      assert ResultBefore(1)[..2] == ResultBefore(0) + [-1];
      ScriptPushThenSleep(PREFIX, 0, c);
    } else {
      assert ResultBefore(2)[..4] == ResultBefore(1) + [-2];
      ScriptSleepResumes(PREFIX, 1, c);
      ScriptPushThenSleep(PREFIX, 2, c);
    }
  }

  lemma PollInIterationMiddle(i: nat)
    requires 2 <= i < 4
    ensures RootPoll(TaskBefore(i), FromAbsolute(TimeBefore(i)), (), ResultBefore(i)) ==
      TaskPoll(TaskBefore(i + 1), RequestsIn(i),
               ResultBefore(i + 1)[..|ResultBefore(i + 1)| - 1], false)
  {
    var c := Ctx(FromAbsolute(TimeBefore(i)), (), [], ResultBefore(i));
    if i == 2 {
      assert ResultBefore(3)[..6] == ResultBefore(2) + [-3];
      ScriptSleepResumes(PREFIX, 3, c);
      ScriptPushThenSleep(PREFIX, 4, c);
    } else {
      assert ResultBefore(4)[..8] == ResultBefore(3) + [-4];
      ScriptSleepResumes(PREFIX, 5, c);
      ScriptPushThenSleep(PREFIX, 6, c);
    }
  }

  /** The iterations of the `join2`: 4 and 5. */
  lemma PollInIterationJoin(i: nat)
    requires 4 <= i < 6
    ensures RootPoll(TaskBefore(i), FromAbsolute(TimeBefore(i)), (), ResultBefore(i)) ==
      TaskPoll(TaskBefore(i + 1), RequestsIn(i),
               ResultBefore(i + 1)[..|ResultBefore(i + 1)| - 1], false)
  {
    var c := Ctx(FromAbsolute(TimeBefore(i)), (), [], ResultBefore(i));
    if i == 4 {
      assert ResultBefore(5)[..11] == ResultBefore(4) + [-10, -100];
      JoinStarts(c);
    } else {
      assert ResultBefore(6)[..14] == ResultBefore(5) + [-20, -200];
      JoinContinues(c);
    }
  }

  /** What the executor's poll of the task does in host iteration `i`. */
  lemma PollInIteration(i: nat)
    requires i < 6
    ensures RootPoll(TaskBefore(i), FromAbsolute(TimeBefore(i)), (), ResultBefore(i)) ==
      TaskPoll(TaskBefore(i + 1), RequestsIn(i),
               ResultBefore(i + 1)[..|ResultBefore(i + 1)| - 1], false)
  {
    if i < 2 {
      PollInIterationEarly(i);
    } else if i < 4 {
      PollInIterationMiddle(i);
    } else {
      PollInIterationJoin(i);
    }
  }

  /** Host iteration `i`: the executor's answer advances the clock to the next step's
   *  instant, and the host's record completes the list for the next round. */
  lemma HostIteration(i: nat)
    requires i < 6
    ensures Add(FromAbsolute(TimeBefore(i)), PendingAnswer(RequestsIn(i))) == FromAbsolute(TimeBefore(i + 1))
    ensures var r := ResultBefore(i + 1);
      r[..|r| - 1] + [AsI32(IntoInner(FromAbsolute(TimeBefore(i + 1))))] == r
  {
    assert PendingAnswer(RequestsIn(i)) == if i < 4 then 100 else 99;
    var r := ResultBefore(i + 1);
    assert r[|r| - 1] == TimeBefore(i + 1);
    assert r[..|r| - 1] + [r[|r| - 1]] == r;
  }

  /**
   * `simple_test`: the host records the start time, steps the executor six times at
   * the instants it computes from the executor's answers, and records each new
   * instant; the recorded list is exactly the expected trace.
   */
  method SimpleTestRun() returns (result: seq<int>)
    ensures result == EXPECTED
  {
    var time := FromAbsolute(10);
    var scheduler := New(time, ());
    var executor := new MiniExecutor.Build(scheduler, TaskBefore(0), RootPoll);
    result := [AsI32(IntoInner(time))];
    time := AddAssign(time, 10);
    for i := 0 to 6
      invariant executor.poll == RootPoll
      invariant executor.task == Some(TaskBefore(i))
      invariant time == FromAbsolute(TimeBefore(i))
      invariant result == ResultBefore(i)
    {
      PollInIteration(i);
      HostIteration(i);
      ghost var tp := RootPoll(TaskBefore(i), time, (), result);
      var maxWait;
      maxWait, result := executor.Step(time, (), result);
      assert maxWait == Some(PendingAnswer(tp.requests)) && result == tp.world;
      if maxWait.Some? {
        time := AddAssign(time, maxWait.value);
        result := result + [AsI32(IntoInner(time))];
      }
    }
    assert ResultBefore(6) == EXPECTED;
  }
}
