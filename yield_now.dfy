/** `yield_now()`: the one primitive that suspends, exactly once. */
module YieldNowFuture {
  import opened Polling

  /**
   * One poll of the `YieldNow(flag)` future: the next flag and the answer.
   * The first poll (flag false) flips the flag and reports `Pending`; every later
   * poll reports `Ready(())`.
   */
  function YieldStep(flag: bool): (r: (bool, Poll<()>))
    ensures r.0
  {
    if !flag then (true, Pending) else (true, Ready(()))
  }

  /** The answers of `n` successive polls of a `YieldNow` future whose flag is `flag`. */
  function PollTimes(flag: bool, n: nat): (answers: seq<Poll<()>>)
    ensures |answers| == n
    decreases n
  {
    if n == 0 then []
    else
      var (flag', p) := YieldStep(flag);
      [p] + PollTimes(flag', n - 1)
  }

  /** A polled-out future keeps answering `Ready(())`. */
  lemma {:induction false} PollTimesAfterFirst(n: nat)
    ensures forall i | 0 <= i < n :: PollTimes(true, n)[i] == Ready(())
  {
    if n > 0 {
      PollTimesAfterFirst(n - 1);
      assert PollTimes(true, n) == [Ready(())] + PollTimes(true, n - 1);
    }
  }

  /**
   * `yield_now().await` suspends its caller exactly once: of any number of polls of
   * a fresh `YieldNow(false)`, only the first answers `Pending`.
   */
  lemma YieldSuspendsExactlyOnce(n: nat)
    requires n >= 1
    ensures PollTimes(false, n)[0] == Pending
    ensures forall i | 1 <= i < n :: PollTimes(false, n)[i] == Ready(())
  {
    PollTimesAfterFirst(n - 1);
    assert PollTimes(false, n) == [Pending] + PollTimes(true, n - 1);
  }

  /** The `YieldNow` future; `flag` is the field `self.0`. */
  class YieldNow {
    var flag: bool
    /** Calls of `wake_by_ref` on the context's waker (a no-op in this executor). */
    ghost var wakeCalls: nat

    /** `YieldNow(false)`, as created by `yield_now()`. */
    constructor ()
      ensures !flag && wakeCalls == 0
    {
      flag := false;
      wakeCalls := 0;
    }

    method Poll() returns (p: Poll<()>)
      modifies this
      ensures (flag, p) == YieldStep(old(flag))
      ensures p.Pending? <==> !old(flag)
      ensures wakeCalls == old(wakeCalls) + (if old(flag) then 0 else 1)
    {
      if !flag {
        flag := true;
        wakeCalls := wakeCalls + 1;
        p := Pending;
      } else {
        p := Ready(());
      }
    }
  }
}
