/** The selection dialog: the arrow buttons move through a list of items until the user
 *  accepts, leaves, or the menu times out. */
module Selection {
  import opened Base
  import opened Milliseconds
  import opened AsyncLib
  import opened ButtonProcessor
  import opened Buttons
  import opened UiEvents

  /**
   * The moves of a selection state: `next` and `previous` give the new state and whether
   * the state changed (false at the end of a bounded list, always true for cyclic lists).
   */
  datatype Moves<!S> = Moves(next: S -> (S, bool), previous: S -> (S, bool))

  /** The contract of a selection state: the flag of a move is true exactly when the
   *  state changes. */
  ghost predicate HonestMoves<S(!new)>(m: Moves<S>)
  {
    (forall s :: m.next(s).1 <==> m.next(s).0 != s) &&
    (forall s :: m.previous(s).1 <==> m.previous(s).0 != s)
  }

  /** Timeout, `Escape` and `Enter` end the dialog. */
  predicate Exits(e: Event)
  {
    e.NoEvent? || IsPress(e, Escape) || IsPress(e, Enter)
  }

  /** One pass of the loop after its wait: exit with the state and the event, or move on
   *  `Press(Prev)` / `Press(Next)` and ignore everything else. */
  function SelectionStep<S>(m: Moves<S>, s: S, o: UiObs): (r: Decision<S, (S, Event)>)
    ensures r.Return? <==> Exits(o.event)
    ensures r.Return? ==> r.value == (s, o.event)
    ensures r.Suspend? ==> r.request == MENU_WAIT
  {
    var e := o.event;
    if e.NoEvent? then Return((s, e))
    else if IsPress(e, Escape) then Return((s, e))
    else if IsPress(e, Prev) then Suspend(MENU_WAIT, m.previous(s).0)
    else if IsPress(e, Next) then Suspend(MENU_WAIT, m.next(s).0)
    else if IsPress(e, Enter) then Return((s, e))
    else Suspend(MENU_WAIT, s)
  }

  /** `selection(state)`: the run over the ends of its waits. */
  function RunSelection<S>(m: Moves<S>, s: S, obs: seq<UiObs>): Run<(S, Event)>
  {
    Drive((s0, o) => SelectionStep(m, s0, o), s, obs)
  }

  /** The move an event makes: `previous` on `Press(Prev)`, `next` on `Press(Next)`. */
  function Move<S>(m: Moves<S>, s: S, e: Event): S
  {
    if e == Press({Prev}) then m.previous(s).0
    else if e == Press({Next}) then m.next(s).0
    else s
  }

  /** The state after the given events: one `previous` per `Press(Prev)`, one `next` per
   *  `Press(Next)`, nothing else. */
  function ApplyMoves<S>(m: Moves<S>, s: S, es: seq<Event>): S
    decreases |es|
  {
    if es == [] then s
    else
      Move(m, ApplyMoves(m, s, es[..|es| - 1]), es[|es| - 1])
  }

  lemma {:induction false} ApplyMovesCons<S>(m: Moves<S>, s: S, e: Event, es: seq<Event>)
    ensures ApplyMoves(m, s, [e] + es) == ApplyMoves(m, Move(m, s, e), es)
    decreases |es|
  {
    if es == [] {
      assert ([e] + es)[..0] == [];
    } else {
      var n := |es|;
      assert ([e] + es)[..n] == [e] + es[..n - 1];
      ApplyMovesCons(m, s, e, es[..n - 1]);
    }
  }

  /** The run `run` of the dialog from `s` over `obs`: at each poll with no exit event it
   *  suspended for another button wait of `MENU_TIMEOUT`; on finishing it returns the
   *  state moved by the earlier events and the exit event; while waiting no exit event
   *  came. */
  ghost predicate SelectionTrace<S>(m: Moves<S>, s: S, obs: seq<UiObs>, run: Run<(S, Event)>)
  {
    var k := |run.requests|;
    k <= |obs| &&
    (forall i | 0 <= i < k :: !Exits(obs[i].event) && run.requests[i] == MENU_WAIT) &&
    (run.Finished? ==>
      k < |obs| &&
      Exits(obs[k].event) && run.value == (ApplyMoves(m, s, Events(obs[..k])), obs[k].event)) &&
    (run.Waiting? ==> k == |obs| && forall i | 0 <= i < |obs| :: !Exits(obs[i].event))
  }

  /** A move in front of a trace of the dialog. */
  lemma SelectionTracePrepend<S>(m: Moves<S>, s: S, obs: seq<UiObs>, run: Run<(S, Event)>)
    requires obs != [] && !Exits(obs[0].event)
    requires SelectionTrace(m, Move(m, s, obs[0].event), obs[1..], run)
    ensures SelectionTrace(m, s, obs, Prepend(MENU_WAIT, run))
  {
    var run' := Prepend(MENU_WAIT, run);
    var k := |run'.requests|;
    forall i | 1 <= i < k
      ensures !Exits(obs[i].event) && run'.requests[i] == MENU_WAIT
    {
      assert obs[1..][i - 1] == obs[i];
      assert run'.requests[i] == run.requests[i - 1];
    }
    if run'.Finished? {
      assert obs[k] == obs[1..][k - 1];
      EventsCons(obs, k);
      ApplyMovesCons(m, s, obs[0].event, Events(obs[1..][..k - 1]));
    } else {
      assert forall i | 1 <= i < |obs| :: obs[1..][i - 1] == obs[i];
    }
  }

  /** A pass of the loop exits with the state and the event exactly on an exit event,
   *  and otherwise makes the move of the event and waits for the next button. */
  lemma StepIsMove<S>(m: Moves<S>, s: S, o: UiObs)
    ensures var d := SelectionStep(m, s, o);
      (d.Return? <==> Exits(o.event)) &&
      (d.Return? ==> d.value == (s, o.event)) &&
      (d.Suspend? ==> d.request == MENU_WAIT && d.next == Move(m, s, o.event))
  {
  }

  lemma {:induction false} SelectionFrom<S>(m: Moves<S>, s: S, obs: seq<UiObs>)
    ensures SelectionTrace(m, s, obs, RunSelection(m, s, obs))
    decreases |obs|
  {
    var f := (s0, o) => SelectionStep(m, s0, o);
    if obs != [] {
      var d := SelectionStep(m, s, obs[0]);
      StepIsMove(m, s, obs[0]);
      if d.Return? {
        assert Events(obs[..0]) == [];
        assert Drive(f, s, obs) == Finished(d.value, []);
      } else {
        SelectionFrom(m, d.next, obs[1..]);
        assert Drive(f, s, obs) == Prepend(MENU_WAIT, Drive(f, d.next, obs[1..]));
        SelectionTracePrepend(m, s, obs, Drive(f, d.next, obs[1..]));
      }
    }
  }

  /**
   * `selection` ends at the first wait whose event is a timeout, `Press(Escape)` or
   * `Press(Enter)`, and returns with that event; its state is then the initial state
   * moved by `previous` once per `Press(Prev)` and by `next` once per `Press(Next)` among
   * the earlier events, and changed in no other way (repetitions and releases are
   * ignored). It runs on while no such event comes, each further wait a button wait of
   * `MENU_TIMEOUT`.
   */
  lemma SelectionRun<S>(m: Moves<S>, s: S, obs: seq<UiObs>)
    ensures var run := RunSelection(m, s, obs);
      var k := |run.requests|;
      (run.Finished? <==> exists i | 0 <= i < |obs| :: Exits(obs[i].event)) &&
      (forall i | 0 <= i < k :: !Exits(obs[i].event) && run.requests[i] == MENU_WAIT) &&
      (run.Finished? ==>
        Exits(obs[k].event) && run.value == (ApplyMoves(m, s, Events(obs[..k])), obs[k].event))
  {
    SelectionFrom(m, s, obs);
  }

  /**
   * `selection(state)` as the loop it is: `state` is updated in place by `previous` and
   * `next`, and its run over `obs` is the run of `RunSelection`.
   */
  method SelectionLoop<S>(m: Moves<S>, s: S, obs: seq<UiObs>) returns (run: Run<(S, Event)>)
    ensures run == RunSelection(m, s, obs)
  {
    var f := (s0, o) => SelectionStep(m, s0, o);
    var state := s;
    var requests: seq<Option<I32>> := [];
    var k := 0;
    while k < |obs|
      invariant 0 <= k <= |obs|
      invariant RunSelection(m, s, obs) == AfterRequests(requests, Drive(f, state, obs[k..]))
      decreases |obs| - k
    {
      ghost var cur := state;
      var e := obs[k].event;
      assert obs[k..][0] == obs[k];
      if e.NoEvent? || IsPress(e, Escape) || IsPress(e, Enter) {
        DriveReturns(f, cur, obs[k..], requests);
        run := Finished((state, e), requests);
        return;
      }
      if IsPress(e, Prev) {
        var (state', _) := m.previous(state);
        state := state';
      } else if IsPress(e, Next) {
        var (state', _) := m.next(state);
        state := state';
      }
      DriveSuspends(f, cur, obs[k..], requests, []);
      assert obs[k..][1..] == obs[k + 1..];
      requests := requests + [MENU_WAIT];
      k := k + 1;
    }
    assert requests + [] == requests;
    run := Waiting(requests);
  }
}
