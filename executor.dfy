/**
 * `MiniExecutor`: runs one root task, one poll per `step`, and reports how long the
 * host may wait before the next step; `MiniScheduler` is the state shared with the
 * task (current instant, executor signals, minimum delay request of the step).
 */
module Executor {
  import opened Base
  import opened Milliseconds

  /** The minimum of the delay requests of one step, merged as they arrive. */
  lemma {:induction false} MinOfAppend(s: seq<int>, d: int)
    requires s != []
    ensures MinOf(s + [d]) == Min(MinOf(s), d)
  {
    if |s| == 1 {
      assert (s + [d])[1..] == [d];
    } else {
      assert (s + [d])[1..] == s[1..] + [d];
      MinOfAppend(s[1..], d);
    }
  }

  /** Shared scheduler state; `requests` records the `set_delay_request` calls of the
   *  current step, which `delay_request` summarises. */
  class MiniScheduler<X> {
    var delayRequest: Option<I32>
    var instant: InstantMillis
    var executorSignals: X
    ghost var requests: seq<I32>

    ghost predicate Valid()
      reads this
    {
      delayRequest == (if requests == [] then None else Some(MinOf(requests)))
    }

    /** The scheduler created by `MiniExecutor::new`: no request, the start instant, and
     *  the default signals. */
    constructor (startTime: InstantMillis, defaultSignals: X)
      ensures Valid()
      ensures delayRequest == None && requests == []
      ensures instant == startTime && executorSignals == defaultSignals
    {
      delayRequest := None;
      instant := startTime;
      executorSignals := defaultSignals;
      requests := [];
    }

    /** `get_instant`. */
    function GetInstant(): InstantMillis
      reads this
    {
      instant
    }

    /** `get_executor_signals`. */
    function GetExecutorSignals(): X
      reads this
    {
      executorSignals
    }

    /**
     * `set_delay_request(d)`: the first request of a step is stored as is, a later one
     * only if it is smaller; the stored value is always the minimum of the step's
     * requests.
     */
    method SetDelayRequest(d: I32)
      requires Valid()
      modifies this
      ensures Valid()
      ensures requests == old(requests) + [d]
      ensures delayRequest == Some(if old(delayRequest).Some? then Min(old(delayRequest).value, d) else d)
      ensures instant == old(instant) && executorSignals == old(executorSignals)
    {
      if delayRequest.Some? {
        if delayRequest.value > d {
          delayRequest := Some(d);
        }
      } else {
        delayRequest := Some(d);
      }
      if requests != [] {
        MinOfAppend(requests, d);
      }
      requests := requests + [d];
    }
  }

  /**
   * The answer of one poll of the root task `S`: its next state, the delay requests it
   * made (in order), the world it leaves, and whether it completed.
   */
  datatype TaskPoll<S, W> = TaskPoll(next: S, requests: seq<I32>, world: W, ready: bool)

  /** `MiniExecutor::new(start_time)` returns a builder holding a fresh scheduler. */
  method New<X>(startTime: InstantMillis, defaultSignals: X) returns (scheduler: MiniScheduler<X>)
    ensures fresh(scheduler) && scheduler.Valid()
    ensures scheduler.delayRequest == None && scheduler.requests == []
    ensures scheduler.instant == startTime && scheduler.executorSignals == defaultSignals
  {
    scheduler := new MiniScheduler(startTime, defaultSignals);
  }

  /** The value `step` returns for a task that is still pending. */
  function PendingAnswer(requests: seq<I32>): (r: I32)
    ensures requests == [] ==> r == 0
    ensures requests != [] ==> r in requests && forall i | 0 <= i < |requests| :: r <= requests[i]
  {
    if requests == [] then 0 else MinOf(requests)
  }

  class MiniExecutor<S, X, W> {
    var task: Option<S>
    const scheduler: MiniScheduler<X>
    /** The poll function of the root task; it sees the step's instant and signals. */
    const poll: (S, InstantMillis, X, W) -> TaskPoll<S, W>

    /** `build(fut)`: the second stage of initialisation stores the root task. */
    constructor Build(sched: MiniScheduler<X>, fut: S, taskPoll: (S, InstantMillis, X, W) -> TaskPoll<S, W>)
      ensures task == Some(fut) && scheduler == sched && poll == taskPoll
    {
      task := Some(fut);
      scheduler := sched;
      poll := taskPoll;
    }

    /**
     * `step(instant, executor_signals)`: overwrites the scheduler's instant and signals
     * and clears its delay request; without a task returns `None` without polling;
     * otherwise polls the task once. A completed task is dropped and `None` returned;
     * a pending one gives `Some(0)` if it made no delay request and `Some(minimum
     * request of this step)` otherwise.
     */
    method Step(instant: InstantMillis, signals: X, world: W) returns (r: Option<I32>, world': W)
      modifies this, scheduler
      ensures scheduler.Valid()
      ensures scheduler.GetInstant() == instant && scheduler.GetExecutorSignals() == signals
      ensures old(task).None? ==> r.None? && task.None? && world' == world && scheduler.requests == []
      ensures old(task).Some? ==>
        var tp := poll(old(task).value, instant, signals, world);
        world' == tp.world && scheduler.requests == tp.requests &&
        (tp.ready ==> r.None? && task.None?) &&
        (!tp.ready ==> task == Some(tp.next) && r == Some(PendingAnswer(tp.requests)))
    {
      scheduler.instant := instant;
      scheduler.executorSignals := signals;
      scheduler.delayRequest := None;
      scheduler.requests := [];
      world' := world;
      if task.None? {
        return None, world';
      }
      var tp := poll(task.value, instant, signals, world);
      world' := tp.world;
      // The requests the task made during the poll reach the scheduler in order.
      for i := 0 to |tp.requests|
        invariant scheduler.Valid()
        invariant scheduler.requests == tp.requests[..i]
        invariant scheduler.instant == instant && scheduler.executorSignals == signals
      {
        scheduler.SetDelayRequest(tp.requests[i]);
      }
      assert tp.requests[..|tp.requests|] == tp.requests;
      if tp.ready {
        task := None;
        return None, world';
      }
      task := Some(tp.next);
      match scheduler.delayRequest
      case None =>
        r := Some(0);
      case Some(d) =>
        r := Some(d);
    }
  }
}
