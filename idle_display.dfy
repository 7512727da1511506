/**
 * The idle display: it shows one scene (the clock or a flower) until a button press or
 * the scene's timeout, then switches scene on Prev, Next or a timeout and leaves on
 * Enter. The scene is kept between two runs.
 */
module IdleDisplay {
  import opened Base
  import opened AsyncLib
  import opened ButtonProcessor
  import opened Buttons
  import opened UiEvents

  datatype IdleScene = Clock | Flower

  /** `next_cycle` over the two scenes. */
  function NextScene(s: IdleScene): (r: IdleScene)
    ensures r != s
  {
    match s
    case Clock => Flower
    case Flower => Clock
  }

  /** `previous_cycle` over the two scenes. */
  function PreviousScene(s: IdleScene): (r: IdleScene)
    ensures r != s
  {
    match s
    case Clock => Flower
    case Flower => Clock
  }

  /** The cyclic moves undo each other. */
  lemma SceneMovesInverse(s: IdleScene)
    ensures PreviousScene(NextScene(s)) == s && NextScene(PreviousScene(s)) == s
  {
  }

  /** How long a scene is shown when no button is pressed: longer after the user chose
   *  the scene with Prev or Next. */
  function SceneTimeout(scene: IdleScene, longer: bool): (t: I32)
    ensures t > 0
    ensures scene == Clock ==> t == if longer then 5000 else 20000
    ensures scene == Flower ==> t == if longer then 1000 else 5000
  {
    match scene
    case Clock => if longer then 5000 else 20000
    case Flower => if longer then 1000 else 5000
  }

  /** About to show the first scene, or showing `scene` and waiting. */
  datatype IdlePhase = Start | Showing

  datatype IdleLoop = IdleLoop(scene: IdleScene, longer: bool, phase: IdlePhase)

  /** After the scene's wait: the scene and `longer` for the next round, or nothing when
   *  Press(Enter) ends the run. */
  function SceneAfter(scene: IdleScene, longer: bool, e: Event): (r: Option<(IdleScene, bool)>)
    ensures r.None? <==> IsPress(e, Enter)
    ensures r.Some? && r.value.0 != scene ==> r.value.0 == NextScene(scene) || r.value.0 == PreviousScene(scene)
  {
    if IsPressOrRepeat(e, Prev) then Some((PreviousScene(scene), true))
    else if IsPressOrRepeat(e, Next) then Some((NextScene(scene), true))
    else if e == NoEvent then Some((NextScene(scene), false))
    else if IsPress(e, Enter) then None
    else Some((scene, longer))
  }

  /** The `match` on the event that ended a scene's wait: the scene and `longer` for the
   *  next round, or `leave` on Press(Enter). */
  method SceneMove(scene: IdleScene, longer: bool, e: Event) returns (scene': IdleScene, longer': bool, leave: bool)
    ensures leave <==> SceneAfter(scene, longer, e).None?
    ensures leave ==> scene' == scene && longer' == longer
    ensures !leave ==> SceneAfter(scene, longer, e) == Some((scene', longer'))
  {
    scene', longer', leave := scene, longer, false;
    if IsPressOrRepeat(e, Prev) {
      scene', longer' := PreviousScene(scene), true;
    } else if IsPressOrRepeat(e, Next) {
      scene', longer' := NextScene(scene), true;
    } else if e == NoEvent {
      scene', longer' := NextScene(scene), false;
    } else if IsPress(e, Enter) {
      leave := true;
    }
  }

  /**
   * One pass of the loop of `run`. A scene's wait is one suspension, whose request is
   * the scene's timeout; the observation after it carries the event the wait ended on.
   * The observation at the call is not examined.
   */
  function IdleStep(l: IdleLoop, o: UiObs): (r: Decision<IdleLoop, ()>)
    ensures r.Return? <==> l.phase == Showing && IsPress(o.event, Enter)
    ensures r.Suspend? ==> r.next.phase == Showing && r.request == Some(SceneTimeout(r.next.scene, r.next.longer))
  {
    match l.phase
    case Start => Suspend(Some(SceneTimeout(l.scene, l.longer)), l.(phase := Showing))
    case Showing =>
      match SceneAfter(l.scene, l.longer, o.event)
      case None => Return(())
      case Some((scene', longer')) =>
        Suspend(Some(SceneTimeout(scene', longer')), IdleLoop(scene', longer', Showing))
  }

  /** The scene rules: Prev and Next (pressed or repeated) switch scene and show it
   *  longer, a timeout switches to the next scene shown for the usual time, Enter
   *  leaves, and any other event changes nothing. */
  lemma SceneRules(scene: IdleScene, longer: bool, e: Event)
    ensures IsPressOrRepeat(e, Prev) ==> SceneAfter(scene, longer, e) == Some((PreviousScene(scene), true))
    ensures IsPressOrRepeat(e, Next) ==> SceneAfter(scene, longer, e) == Some((NextScene(scene), true))
    ensures e == NoEvent ==> SceneAfter(scene, longer, e) == Some((NextScene(scene), false))
    ensures SceneAfter(scene, longer, e) == None <==> IsPress(e, Enter)
    ensures !IsPressOrRepeat(e, Prev) && !IsPressOrRepeat(e, Next) && e != NoEvent && !IsPress(e, Enter) ==>
      SceneAfter(scene, longer, e) == Some((scene, longer))
  {
  }

  /**
   * A run of `run` started on `scene`: the first scene is shown for its usual time, each
   * wait requests the timeout of the scene it shows, and the run ends exactly at the
   * first observation after a wait whose event is Press(Enter).
   */
  lemma IdleRun(scene: IdleScene, obs: seq<UiObs>)
    requires obs != []
    ensures var run := Drive(IdleStep, IdleLoop(scene, false, Start), obs);
      var tr := Trace(IdleStep, IdleLoop(scene, false, Start), obs);
      run.requests[0] == Some(SceneTimeout(scene, false)) &&
      (forall i | 0 <= i < |tr| :: tr[i].phase == Showing && run.requests[i] == Some(SceneTimeout(tr[i].scene, tr[i].longer))) &&
      (forall i | 1 <= i < |tr| :: !IsPress(obs[i].event, Enter)) &&
      (run.Finished? ==> IsPress(obs[|run.requests|].event, Enter))
  {
    var s0 := IdleLoop(scene, false, Start);
    var inv := (l: IdleLoop) => l.phase == Start ==> l == s0;
    forall l, o | inv(l) && IdleStep(l, o).Return?
      ensures IsPress(o.event, Enter)
    {
      SceneRules(l.scene, l.longer, o.event);
    }
    DriveInvariant(IdleStep, s0, obs, inv, (r: Option<I32>) => true, (v: (), o: UiObs) => IsPress(o.event, Enter));
    TraceInvariant(IdleStep, s0, obs, inv);
    var run := Drive(IdleStep, s0, obs);
    var tr := Trace(IdleStep, s0, obs);
    forall i | 0 <= i < |tr|
      ensures tr[i].phase == Showing && run.requests[i] == Some(SceneTimeout(tr[i].scene, tr[i].longer))
    {
      var before := if i == 0 then s0 else tr[i - 1];
      assert IdleStep(before, obs[i]) == Suspend(run.requests[i], tr[i]);
    }
    forall i | 1 <= i < |tr|
      ensures !IsPress(obs[i].event, Enter)
    {
      assert IdleStep(tr[i - 1], obs[i]) == Suspend(run.requests[i], tr[i]);
      SceneRules(tr[i - 1].scene, tr[i - 1].longer, obs[i].event);
    }
  }

  class IdleDisplay {
    var idleScene: IdleScene

    /** `IdleDisplay::new`: the first scene, the clock. */
    constructor ()
      ensures idleScene == Clock
    {
      idleScene := Clock;
    }

    /**
     * `run` over the observations `obs`: its run follows `IdleStep` from the current
     * scene with `longer` false, and `idleScene` is the scene of the last round, which
     * the next call of `run` starts on.
     */
    method Run(obs: seq<UiObs>) returns (run: Run<()>)
      modifies this
      ensures run == Drive(IdleStep, IdleLoop(old(idleScene), false, Start), obs)
      ensures var tr := Trace(IdleStep, IdleLoop(old(idleScene), false, Start), obs);
        idleScene == if tr == [] then old(idleScene) else tr[|tr| - 1].scene
    {
      ghost var s0 := IdleLoop(idleScene, false, Start);
      var longer := false;
      var phase := Start;
      var requests: seq<Option<I32>> := [];
      ghost var timeline: seq<IdleLoop> := [];
      ghost var cur := s0;
      var k := 0;
      while k < |obs|
        invariant 0 <= k <= |obs| && |requests| == k && |timeline| == k
        invariant cur == IdleLoop(idleScene, longer, phase)
        invariant RunSoFar(IdleStep, s0, cur, obs, k, requests, timeline)
        invariant if timeline == [] then cur == s0 else cur == timeline[k - 1]
        decreases |obs| - k
      {
        if phase == Showing {
          var leave;
          idleScene, longer, leave := SceneMove(idleScene, longer, obs[k].event);
          if leave {
            assert obs[k..][0] == obs[k];
            DriveReturns(IdleStep, cur, obs[k..], requests);
            assert Trace(IdleStep, cur, obs[k..]) == [];
            run := Finished((), requests);
            return;
          }
        }
        phase := Showing;
        ghost var next := IdleLoop(idleScene, longer, phase);
        assert IdleStep(cur, obs[k]) == Suspend(Some(SceneTimeout(idleScene, longer)), next);
        DriveAdvances(IdleStep, s0, cur, obs, k, requests, timeline);
        requests := requests + [Some(SceneTimeout(idleScene, longer))];
        timeline := timeline + [next];
        cur := next;
        k := k + 1;
      }
      assert Trace(IdleStep, cur, obs[k..]) == [];
      run := Waiting(requests);
    }
  }
}
