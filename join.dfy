/**
 * `join2(future1, future2)`: runs two futures "in parallel" by polling, on every poll
 * of the pair, first `future1` and then `future2`, each only while its result has not
 * been collected, until both results are in.
 *
 * A branch future is given by a poll function over its state; the environment `E`
 * (whatever the branches read and change) is threaded through the first branch and
 * then the second.
 */
module Join {
  import opened Base
  import opened Polling

  /** The fields of the `Join2` struct. */
  datatype JoinState<S1, S2, T, U> =
    JoinState(future1: S1, future2: S2, retval1: Option<T>, retval2: Option<U>)

  /** `join2` before its first poll: no result collected. */
  function JoinNew<S1, S2, T, U>(f1: S1, f2: S2): (j: JoinState<S1, S2, T, U>)
    ensures j.retval1 == None && j.retval2 == None
    ensures j.future1 == f1 && j.future2 == f2
  {
    JoinState(f1, f2, None, None)
  }

  /** Polls one branch unless its result is already stored. */
  function PollBranch<S, T, E>(f: S, retval: Option<T>, poll: (S, E) -> Stepped<S, E, T>, e: E)
    : (r: (S, Option<T>, E))
  {
    if retval.None? then
      var s := poll(f, e);
      (s.state, if s.poll.Ready? then Some(s.poll.value) else None, s.env)
    else (f, retval, e)
  }

  /** One poll of `Join2`. */
  function JoinStep<S1, S2, T, U, E>(
    j: JoinState<S1, S2, T, U>,
    poll1: (S1, E) -> Stepped<S1, E, T>,
    poll2: (S2, E) -> Stepped<S2, E, U>,
    e: E): (r: Stepped<JoinState<S1, S2, T, U>, E, (T, U)>)
    ensures r.poll.Ready? ==> r.state.retval1.None? && r.state.retval2.None?
    ensures r.poll.Pending? ==> (j.retval1.Some? ==> r.state.retval1 == j.retval1) &&
                                (j.retval2.Some? ==> r.state.retval2 == j.retval2)
    ensures r.poll.Pending? ==> r.state.retval1.None? || r.state.retval2.None?
  {
    var (f1, r1, e1) := PollBranch(j.future1, j.retval1, poll1, e);
    var (f2, r2, e2) := PollBranch(j.future2, j.retval2, poll2, e1);
    if r1.Some? && r2.Some? then
      Stepped(JoinState(f1, f2, None, None), e2, Ready((r1.value, r2.value)))
    else
      Stepped(JoinState(f1, f2, r1, r2), e2, Pending)
  }

  /**
   * A branch whose result is already stored is not polled again: its state, its stored
   * result and the environment pass through it untouched.
   */
  lemma CollectedBranchNotPolled<S1, S2, T, U, E>(
    j: JoinState<S1, S2, T, U>,
    poll1: (S1, E) -> Stepped<S1, E, T>, poll2: (S2, E) -> Stepped<S2, E, U>, e: E)
    ensures j.retval1.Some? ==>
      var r := JoinStep(j, poll1, poll2, e);
      r.state.future1 == j.future1 &&
      r.env == PollBranch(j.future2, j.retval2, poll2, e).2
    ensures j.retval2.Some? ==>
      var r := JoinStep(j, poll1, poll2, e);
      r.state.future2 == j.future2 &&
      r.env == PollBranch(j.future1, j.retval1, poll1, e).2
  {
  }

  /**
   * When neither result is stored, the first branch is polled on the environment the
   * pair was polled with, and the second branch on what the first one left behind.
   */
  lemma BothPolledLeftFirst<S1, S2, T, U, E>(
    j: JoinState<S1, S2, T, U>,
    poll1: (S1, E) -> Stepped<S1, E, T>, poll2: (S2, E) -> Stepped<S2, E, U>, e: E)
    requires j.retval1.None? && j.retval2.None?
    ensures
      var s1 := poll1(j.future1, e);
      var s2 := poll2(j.future2, s1.env);
      var r := JoinStep(j, poll1, poll2, e);
      r.env == s2.env && r.state.future1 == s1.state && r.state.future2 == s2.state
  {
  }

  /**
   * The pair is `Ready` exactly when both results are in after this poll, its value is
   * exactly the pair of collected results, and `take()` leaves both slots empty; while
   * `Pending`, each slot holds the result its branch produced, if any.
   */
  lemma JoinReadyIffBoth<S1, S2, T, U, E>(
    j: JoinState<S1, S2, T, U>,
    poll1: (S1, E) -> Stepped<S1, E, T>, poll2: (S2, E) -> Stepped<S2, E, U>, e: E)
    ensures
      var b1 := PollBranch(j.future1, j.retval1, poll1, e);
      var b2 := PollBranch(j.future2, j.retval2, poll2, b1.2);
      var r := JoinStep(j, poll1, poll2, e);
      (r.poll.Ready? <==> b1.1.Some? && b2.1.Some?) &&
      (r.poll.Ready? ==>
        r.poll.value == (b1.1.value, b2.1.value) &&
        r.state.retval1.None? && r.state.retval2.None?) &&
      (r.poll.Pending? ==> r.state.retval1 == b1.1 && r.state.retval2 == b2.1)
  {
  }

  /** A stored result stays stored, unchanged, until the pair completes. */
  lemma StoredResultKept<S1, S2, T, U, E>(
    j: JoinState<S1, S2, T, U>,
    poll1: (S1, E) -> Stepped<S1, E, T>, poll2: (S2, E) -> Stepped<S2, E, U>, e: E)
    ensures
      var r := JoinStep(j, poll1, poll2, e);
      (j.retval1.Some? && r.poll.Pending? ==> r.state.retval1 == j.retval1) &&
      (j.retval2.Some? && r.poll.Pending? ==> r.state.retval2 == j.retval2) &&
      (j.retval1.Some? && r.poll.Ready? ==> r.poll.value.0 == j.retval1.value) &&
      (j.retval2.Some? && r.poll.Ready? ==> r.poll.value.1 == j.retval2.value)
  {
  }

  /** The `Join2` future; its fields are the struct's fields. */
  class Join2<S1, S2, T, U, E> {
    var future1: S1
    var future2: S2
    var retval1: Option<T>
    var retval2: Option<U>
    const poll1: (S1, E) -> Stepped<S1, E, T>
    const poll2: (S2, E) -> Stepped<S2, E, U>

    function State(): JoinState<S1, S2, T, U>
      reads this
    {
      JoinState(future1, future2, retval1, retval2)
    }

    /** `join2(future1, future2)`: both result slots start empty. */
    constructor (f1: S1, f2: S2, p1: (S1, E) -> Stepped<S1, E, T>, p2: (S2, E) -> Stepped<S2, E, U>)
      ensures State() == JoinNew(f1, f2)
      ensures poll1 == p1 && poll2 == p2
    {
      future1, future2 := f1, f2;
      retval1, retval2 := None, None;
      poll1, poll2 := p1, p2;
    }

    method Poll(e: E) returns (p: Poll<(T, U)>, e': E)
      modifies this
      ensures Stepped(State(), e', p) == JoinStep(old(State()), poll1, poll2, e)
    {
      e' := e;
      if retval1.None? {
        var res := poll1(future1, e');
        future1, e' := res.state, res.env;
        if res.poll.Ready? {
          retval1 := Some(res.poll.value);
        }
      }
      if retval2.None? {
        var res := poll2(future2, e');
        future2, e' := res.state, res.env;
        if res.poll.Ready? {
          retval2 := Some(res.poll.value);
        }
      }
      if retval1.Some? && retval2.Some? {
        var v1, v2 := retval1.value, retval2.value;
        retval1, retval2 := None, None;
        p := Ready((v1, v2));
      } else {
        p := Pending;
      }
    }
  }
}
