/** The four push buttons of the device, their flags as a `u8` bitmask, and the wait that
 *  reacts to repetitions of the arrow buttons only. */
module Buttons {
  import opened Base
  import opened Milliseconds
  import opened AsyncLib
  import opened ButtonProcessor
  import ButtonWaits

  /** Some functions become available after holding a button this long. */
  const BUTTON_HOLD_DURATION: I32 := 2000

  const NUM_BUTTONS: nat := 4

  /** Back, previous item, next item, and open / change / confirm. */
  datatype Button = Escape | Prev | Next | Enter

  type ButtonFlags = set<Button>

  const ALL_BUTTONS: ButtonFlags := {Escape, Prev, Next, Enter}

  /** The bit of each button in the `u8` mask, in declaration order. */
  function Bit(b: Button): bv8
  {
    match b
    case Escape => 1
    case Prev => 2
    case Next => 4
    case Enter => 8
  }

  /** The mask of a set of buttons. */
  function ToMask(f: ButtonFlags): bv8
  {
    (if Escape in f then 1 else 0) | (if Prev in f then 2 else 0) |
    (if Next in f then 4 else 0) | (if Enter in f then 8 else 0)
  }

  /** The buttons whose bit a mask has set. */
  function FromMask(m: bv8): (f: ButtonFlags)
    ensures forall b :: b in f <==> m & Bit(b) != 0
  {
    set b | b in ALL_BUTTONS && m & Bit(b) != 0
  }

  function PopCount(m: bv8, n: nat): nat
    requires n <= 8
  {
    if n == 0 then 0 else (if m & (1 << (n - 1)) != 0 then 1 else 0) + PopCount(m, n - 1)
  }

  /** There are exactly four buttons: every button is in `ALL_BUTTONS`, and the number of
   *  bits of the full mask is `NUM_BUTTONS`. */
  lemma FourButtons()
    ensures forall b: Button :: b in ALL_BUTTONS
    ensures |ALL_BUTTONS| == NUM_BUTTONS
    ensures PopCount(ToMask(ALL_BUTTONS), 8) == NUM_BUTTONS
  {
    forall b: Button ensures b in ALL_BUTTONS {
      assert b.Escape? || b.Prev? || b.Next? || b.Enter?;
    }
    assert ToMask(ALL_BUTTONS) == 15;
  }

  /** A mask holds a button's bit exactly when the button is in the set. */
  lemma ToMaskBit(f: ButtonFlags, b: Button)
    ensures ToMask(f) & Bit(b) != 0 <==> b in f
  {
  }

  /** Sets and masks correspond: a set survives the round trip, and a mask does up to the
   *  four unused high bits. */
  lemma MaskRoundTrip(f: ButtonFlags, m: bv8)
    ensures FromMask(ToMask(f)) == f
    ensures ToMask(FromMask(m)) == m & 15
  {
    forall b ensures b in FromMask(ToMask(f)) <==> b in f {
      ToMaskBit(f, b);
    }
    var g := FromMask(m);
    assert (Escape in g <==> m & 1 != 0) && (Prev in g <==> m & 2 != 0) &&
           (Next in g <==> m & 4 != 0) && (Enter in g <==> m & 8 != 0);
    LowBits(m);
  }

  /** The low four bits of a mask, gathered one by one. */
  lemma LowBits(m: bv8)
    ensures ((if m & 1 != 0 then 1 else 0) | (if m & 2 != 0 then 2 else 0) |
             (if m & 4 != 0 then 4 else 0) | (if m & 8 != 0 then 8 else 0)) == m & 15
  {
  }

  /** `is_none` forwards to the mask: no bit set exactly when no button is pressed. */
  lemma IsNoneForwards(f: ButtonFlags)
    ensures ToMask(f) == 0 <==> f == {}
  {
    if ToMask(f) == 0 {
      forall b | b in f ensures false {
        ToMaskBit(f, b);
      }
    }
  }

  /** `contains` forwards to the mask: `self & other == other`, which is the superset
   *  relation on the buttons. */
  lemma ContainsForwards(a: ButtonFlags, b: ButtonFlags)
    ensures ToMask(a) & ToMask(b) == ToMask(b) <==> b <= a
  {
    if ToMask(a) & ToMask(b) == ToMask(b) {
      forall c | c in b ensures c in a {
        ToMaskBit(a, c);
        ToMaskBit(b, c);
        assert ToMask(a) & ToMask(b) & Bit(c) == ToMask(b) & Bit(c);
      }
    }
  }

  /** The events that end `wait_button_press2_or_timeout`: any `Press`, and a `Repeat`
   *  of exactly `{Next}` or exactly `{Prev}`. */
  predicate Press2Ends(e: ButtonEvent<Button>)
  {
    e.Press? || e == Repeat({Next}) || e == Repeat({Prev})
  }

  /** Repetitions of other combinations, such as both arrows or `Enter`, do not end it;
   *  nor does a release. */
  lemma Press2IgnoresOtherRepeats(f: ButtonFlags)
    ensures Press2Ends(Repeat(f)) <==> f == {Next} || f == {Prev}
    ensures !Press2Ends(Repeat({Prev, Next})) && !Press2Ends(Repeat({Enter}))
    ensures !Press2Ends(Release(f)) && !Press2Ends(NoEvent)
  {
    assert {Prev, Next} != {Next} by { assert Prev !in {Next}; }
    assert {Prev, Next} != {Prev} by { assert Next !in {Prev}; }
    assert {Enter} != {Next} by { assert Enter !in {Next}; }
    assert {Enter} != {Prev} by { assert Enter !in {Prev}; }
  }

  function WaitButtonPress2OrTimeout(timeout: I32, obs: seq<View<Button>>): Run<()>
  {
    ButtonWaits.WaitFor(Press2Ends, timeout, obs)
  }

  /** `wait_button_press2_or_timeout(timeout)` ends at the first poll after a suspension
   *  whose event is a `Press`, or a `Repeat` of one arrow button alone, or once its timer
   *  (started at the call) has no time left. */
  lemma WaitButtonPress2OrTimeoutRun(timeout: I32, obs: seq<View<Button>>)
    requires obs != []
    ensures var run := WaitButtonPress2OrTimeout(timeout, obs);
      var t := ButtonWaits.Timer.New(obs[0].now, timeout);
      (timeout <= 0 <==> run == Finished((), [])) &&
      (forall i | 1 <= i < |run.requests| :: !Press2Ends(obs[i].event)) &&
      (run.Finished? && timeout > 0 ==>
        var v := obs[|run.requests|];
        Press2Ends(v.event) || ButtonWaits.Timer.TimeLeft(t, v.now) <= 0)
  {
    ButtonWaits.WaitForRun(Press2Ends, timeout, obs);
  }

  // ---------------------------------------------------------------------------------
  // Scenarios for the processor state machine, one step per reading, from any instant
  // `t0` on

  lemma ScenarioPressReleaseA(t0: InstantMillis)
    ensures StepEvents<Button>(Invalid, [({}, Add(t0, 0)), ({}, Add(t0, 100)), ({Escape}, Add(t0, 200)), ({Escape}, Add(t0, 300))], DefaultOptions()) ==
      ([NoEvent, NoEvent, Press({Escape}), NoEvent], SomeButtons({Escape}, Add(t0, 200), None))
  {
    var opt := DefaultOptions();
    var r4: seq<(ButtonFlags, InstantMillis)> := [];
    assert StepEvents<Button>(SomeButtons({Escape}, Add(t0, 200), None), r4, opt) == ([], SomeButtons({Escape}, Add(t0, 200), None));
    var r3 := [({Escape}, Add(t0, 300))] + r4;
    assert StepEvents<Button>(SomeButtons({Escape}, Add(t0, 200), None), r3, opt).0 == [NoEvent] &&
           StepEvents<Button>(SomeButtons({Escape}, Add(t0, 200), None), r3, opt).1 == SomeButtons({Escape}, Add(t0, 200), None) by {
      SubOfOffsets(t0, 300, 200);
      assert ProcessorStep<Button>(SomeButtons({Escape}, Add(t0, 200), None), {Escape}, Add(t0, 300), opt).state == SomeButtons({Escape}, Add(t0, 200), None);
      assert ProcessorStep<Button>(SomeButtons({Escape}, Add(t0, 200), None), {Escape}, Add(t0, 300), opt).event == NoEvent;
      StepEventsCons<Button>(SomeButtons({Escape}, Add(t0, 200), None), {Escape}, Add(t0, 300), r4, opt);
    }
    var r2 := [({Escape}, Add(t0, 200))] + r3;
    assert StepEvents<Button>(NoButtons, r2, opt).0 == [Press({Escape}), NoEvent] &&
           StepEvents<Button>(NoButtons, r2, opt).1 == SomeButtons({Escape}, Add(t0, 200), None) by {
      assert ProcessorStep<Button>(NoButtons, {Escape}, Add(t0, 200), opt).state == SomeButtons({Escape}, Add(t0, 200), None);
      assert ProcessorStep<Button>(NoButtons, {Escape}, Add(t0, 200), opt).event == Press({Escape});
      StepEventsCons<Button>(NoButtons, {Escape}, Add(t0, 200), r3, opt);
    }
    var r1 := [({}, Add(t0, 100))] + r2;
    assert StepEvents<Button>(NoButtons, r1, opt).0 == [NoEvent, Press({Escape}), NoEvent] &&
           StepEvents<Button>(NoButtons, r1, opt).1 == SomeButtons({Escape}, Add(t0, 200), None) by {
      assert ProcessorStep<Button>(NoButtons, {}, Add(t0, 100), opt).state == NoButtons;
      assert ProcessorStep<Button>(NoButtons, {}, Add(t0, 100), opt).event == NoEvent;
      StepEventsCons<Button>(NoButtons, {}, Add(t0, 100), r2, opt);
    }
    var r0 := [({}, Add(t0, 0))] + r1;
    assert StepEvents<Button>(Invalid, r0, opt).0 == [NoEvent, NoEvent, Press({Escape}), NoEvent] &&
           StepEvents<Button>(Invalid, r0, opt).1 == SomeButtons({Escape}, Add(t0, 200), None) by {
      assert ProcessorStep<Button>(Invalid, {}, Add(t0, 0), opt).state == NoButtons;
      assert ProcessorStep<Button>(Invalid, {}, Add(t0, 0), opt).event == NoEvent;
      StepEventsCons<Button>(Invalid, {}, Add(t0, 0), r1, opt);
    }
    assert r0 == [({}, Add(t0, 0)), ({}, Add(t0, 100)), ({Escape}, Add(t0, 200)), ({Escape}, Add(t0, 300))];
  }

  lemma ScenarioPressReleaseB(t0: InstantMillis)
    ensures StepEvents<Button>(SomeButtons({Escape}, Add(t0, 200), None), [({Escape}, Add(t0, 400)), ({Escape}, Add(t0, 500)), ({}, Add(t0, 600)), ({}, Add(t0, 700))], DefaultOptions()) ==
      ([NoEvent, NoEvent, Release({Escape}), NoEvent], NoButtons)
  {
    var opt := DefaultOptions();
    var r4: seq<(ButtonFlags, InstantMillis)> := [];
    assert StepEvents<Button>(NoButtons, r4, opt) == ([], NoButtons);
    var r3 := [({}, Add(t0, 700))] + r4;
    assert StepEvents<Button>(NoButtons, r3, opt).0 == [NoEvent] &&
           StepEvents<Button>(NoButtons, r3, opt).1 == NoButtons by {
      assert ProcessorStep<Button>(NoButtons, {}, Add(t0, 700), opt).state == NoButtons;
      assert ProcessorStep<Button>(NoButtons, {}, Add(t0, 700), opt).event == NoEvent;
      StepEventsCons<Button>(NoButtons, {}, Add(t0, 700), r4, opt);
    }
    var r2 := [({}, Add(t0, 600))] + r3;
    assert StepEvents<Button>(SomeButtons({Escape}, Add(t0, 200), None), r2, opt).0 == [Release({Escape}), NoEvent] &&
           StepEvents<Button>(SomeButtons({Escape}, Add(t0, 200), None), r2, opt).1 == NoButtons by {
      SubOfOffsets(t0, 600, 200);
      assert ProcessorStep<Button>(SomeButtons({Escape}, Add(t0, 200), None), {}, Add(t0, 600), opt).state == NoButtons;
      assert ProcessorStep<Button>(SomeButtons({Escape}, Add(t0, 200), None), {}, Add(t0, 600), opt).event == Release({Escape});
      StepEventsCons<Button>(SomeButtons({Escape}, Add(t0, 200), None), {}, Add(t0, 600), r3, opt);
    }
    var r1 := [({Escape}, Add(t0, 500))] + r2;
    assert StepEvents<Button>(SomeButtons({Escape}, Add(t0, 200), None), r1, opt).0 == [NoEvent, Release({Escape}), NoEvent] &&
           StepEvents<Button>(SomeButtons({Escape}, Add(t0, 200), None), r1, opt).1 == NoButtons by {
      SubOfOffsets(t0, 500, 200);
      assert ProcessorStep<Button>(SomeButtons({Escape}, Add(t0, 200), None), {Escape}, Add(t0, 500), opt).state == SomeButtons({Escape}, Add(t0, 200), None);
      assert ProcessorStep<Button>(SomeButtons({Escape}, Add(t0, 200), None), {Escape}, Add(t0, 500), opt).event == NoEvent;
      StepEventsCons<Button>(SomeButtons({Escape}, Add(t0, 200), None), {Escape}, Add(t0, 500), r2, opt);
    }
    var r0 := [({Escape}, Add(t0, 400))] + r1;
    assert StepEvents<Button>(SomeButtons({Escape}, Add(t0, 200), None), r0, opt).0 == [NoEvent, NoEvent, Release({Escape}), NoEvent] &&
           StepEvents<Button>(SomeButtons({Escape}, Add(t0, 200), None), r0, opt).1 == NoButtons by {
      SubOfOffsets(t0, 400, 200);
      assert ProcessorStep<Button>(SomeButtons({Escape}, Add(t0, 200), None), {Escape}, Add(t0, 400), opt).state == SomeButtons({Escape}, Add(t0, 200), None);
      assert ProcessorStep<Button>(SomeButtons({Escape}, Add(t0, 200), None), {Escape}, Add(t0, 400), opt).event == NoEvent;
      StepEventsCons<Button>(SomeButtons({Escape}, Add(t0, 200), None), {Escape}, Add(t0, 400), r1, opt);
    }
    assert r0 == [({Escape}, Add(t0, 400)), ({Escape}, Add(t0, 500)), ({}, Add(t0, 600)), ({}, Add(t0, 700))];
  }

  lemma ScenarioPressReleaseEnter(t0: InstantMillis)
    ensures StepEvents<Button>(NoButtons, [({Enter}, Add(t0, 800)), ({}, Add(t0, 900))], DefaultOptions()) ==
      ([Press({Enter}), Release({Enter})], NoButtons)
  {
    var opt := DefaultOptions();
    var r2: seq<(ButtonFlags, InstantMillis)> := [];
    assert StepEvents<Button>(NoButtons, r2, opt) == ([], NoButtons);
    var r1 := [({}, Add(t0, 900))] + r2;
    assert StepEvents<Button>(SomeButtons({Enter}, Add(t0, 800), None), r1, opt).0 == [Release({Enter})] &&
           StepEvents<Button>(SomeButtons({Enter}, Add(t0, 800), None), r1, opt).1 == NoButtons by {
      SubOfOffsets(t0, 900, 800);
      assert ProcessorStep<Button>(SomeButtons({Enter}, Add(t0, 800), None), {}, Add(t0, 900), opt).state == NoButtons;
      assert ProcessorStep<Button>(SomeButtons({Enter}, Add(t0, 800), None), {}, Add(t0, 900), opt).event == Release({Enter});
      StepEventsCons<Button>(SomeButtons({Enter}, Add(t0, 800), None), {}, Add(t0, 900), r2, opt);
    }
    var r0 := [({Enter}, Add(t0, 800))] + r1;
    assert StepEvents<Button>(NoButtons, r0, opt).0 == [Press({Enter}), Release({Enter})] &&
           StepEvents<Button>(NoButtons, r0, opt).1 == NoButtons by {
      assert ProcessorStep<Button>(NoButtons, {Enter}, Add(t0, 800), opt).state == SomeButtons({Enter}, Add(t0, 800), None);
      assert ProcessorStep<Button>(NoButtons, {Enter}, Add(t0, 800), opt).event == Press({Enter});
      StepEventsCons<Button>(NoButtons, {Enter}, Add(t0, 800), r1, opt);
    }
    assert r0 == [({Enter}, Add(t0, 800)), ({}, Add(t0, 900))];
  }

  lemma ScenarioPressReleasePrev(t0: InstantMillis)
    ensures StepEvents<Button>(NoButtons, [({Prev}, Add(t0, 1000)), ({Next}, Add(t0, 1100)), ({}, Add(t0, 1200))], DefaultOptions()) ==
      ([Press({Prev}), Release({Prev}), NoEvent], NoButtons)
  {
    assert {Next} != {Prev} && !({Prev} <= {Next}) by { assert Prev !in {Next}; }
    var opt := DefaultOptions();
    var r5: seq<(ButtonFlags, InstantMillis)> := [];
    assert StepEvents<Button>(NoButtons, r5, opt) == ([], NoButtons);
    var r4 := [({}, Add(t0, 1200))] + r5;
    assert StepEvents<Button>(Invalid, r4, opt).0 == [NoEvent] &&
           StepEvents<Button>(Invalid, r4, opt).1 == NoButtons by {
      assert ProcessorStep<Button>(Invalid, {}, Add(t0, 1200), opt).state == NoButtons;
      assert ProcessorStep<Button>(Invalid, {}, Add(t0, 1200), opt).event == NoEvent;
      StepEventsCons<Button>(Invalid, {}, Add(t0, 1200), r5, opt);
    }
    var r3 := [({Next}, Add(t0, 1100))] + r4;
    assert StepEvents<Button>(SomeButtons({Prev}, Add(t0, 1000), None), r3, opt).0 == [Release({Prev}), NoEvent] &&
           StepEvents<Button>(SomeButtons({Prev}, Add(t0, 1000), None), r3, opt).1 == NoButtons by {
      SubOfOffsets(t0, 1100, 1000);
      assert ProcessorStep<Button>(SomeButtons({Prev}, Add(t0, 1000), None), {Next}, Add(t0, 1100), opt).state == Invalid;
      assert ProcessorStep<Button>(SomeButtons({Prev}, Add(t0, 1000), None), {Next}, Add(t0, 1100), opt).event == Release({Prev});
      StepEventsCons<Button>(SomeButtons({Prev}, Add(t0, 1000), None), {Next}, Add(t0, 1100), r4, opt);
    }
    var r2 := [({Prev}, Add(t0, 1000))] + r3;
    assert StepEvents<Button>(NoButtons, r2, opt).0 == [Press({Prev}), Release({Prev}), NoEvent] &&
           StepEvents<Button>(NoButtons, r2, opt).1 == NoButtons by {
      assert ProcessorStep<Button>(NoButtons, {Prev}, Add(t0, 1000), opt).state == SomeButtons({Prev}, Add(t0, 1000), None);
      assert ProcessorStep<Button>(NoButtons, {Prev}, Add(t0, 1000), opt).event == Press({Prev});
      StepEventsCons<Button>(NoButtons, {Prev}, Add(t0, 1000), r3, opt);
    }
    assert r2 == [({Prev}, Add(t0, 1000)), ({Next}, Add(t0, 1100)), ({}, Add(t0, 1200))];
  }

  lemma ScenarioPressReleaseC(t0: InstantMillis)
    ensures StepEvents<Button>(NoButtons, [({Enter}, Add(t0, 800)), ({}, Add(t0, 900))] + [({Prev}, Add(t0, 1000)), ({Next}, Add(t0, 1100)), ({}, Add(t0, 1200))], DefaultOptions()) ==
      ([Press({Enter}), Release({Enter})] + [Press({Prev}), Release({Prev}), NoEvent], NoButtons)
  {
    ScenarioPressReleaseEnter(t0);
    ScenarioPressReleasePrev(t0);
    StepEventsAppend<Button>(NoButtons, [({Enter}, Add(t0, 800)), ({}, Add(t0, 900))], [({Prev}, Add(t0, 1000)), ({Next}, Add(t0, 1100)), ({}, Add(t0, 1200))], DefaultOptions());
  }

  /**
   * A fresh processor fed the readings none, none, A, A, A, A, none, none, Enter, none,
   * Prev, Next, none every 100 ms (A being `Escape`): one `Press` on the first reading
   * of A, nothing while A is held for less than 750 ms, `Release` when it is let go, the
   * same for `Enter` and `Prev`; changing from `Prev` straight to `Next` releases `Prev`
   * without a `Press(Next)`, and the processor is ready again once all are released.
   */
  lemma ScenarioPressRelease(t0: InstantMillis)
    ensures var readings := [({}, Add(t0, 0)), ({}, Add(t0, 100)), ({Escape}, Add(t0, 200)), ({Escape}, Add(t0, 300))] +
                            [({Escape}, Add(t0, 400)), ({Escape}, Add(t0, 500)), ({}, Add(t0, 600)), ({}, Add(t0, 700))] +
                            ([({Enter}, Add(t0, 800)), ({}, Add(t0, 900))] + [({Prev}, Add(t0, 1000)), ({Next}, Add(t0, 1100)), ({}, Add(t0, 1200))]);
      StepEvents(Invalid, readings, DefaultOptions()) ==
        ([NoEvent, NoEvent, Press({Escape}), NoEvent] + [NoEvent, NoEvent, Release({Escape}), NoEvent] +
         ([Press({Enter}), Release({Enter})] + [Press({Prev}), Release({Prev}), NoEvent]), NoButtons)
  {
    var opt := DefaultOptions();
    var a: seq<(ButtonFlags, InstantMillis)> := [({}, Add(t0, 0)), ({}, Add(t0, 100)), ({Escape}, Add(t0, 200)), ({Escape}, Add(t0, 300))];
    var b: seq<(ButtonFlags, InstantMillis)> := [({Escape}, Add(t0, 400)), ({Escape}, Add(t0, 500)), ({}, Add(t0, 600)), ({}, Add(t0, 700))];
    var c: seq<(ButtonFlags, InstantMillis)> := [({Enter}, Add(t0, 800)), ({}, Add(t0, 900))] + [({Prev}, Add(t0, 1000)), ({Next}, Add(t0, 1100)), ({}, Add(t0, 1200))];
    var held := SomeButtons({Escape}, Add(t0, 200), None);
    ScenarioPressReleaseA(t0);
    ScenarioPressReleaseB(t0);
    ScenarioPressReleaseC(t0);
    StepEventsAppend(Invalid, a, b, opt);
    StepEventsAppend(Invalid, a + b, c, opt);
  }


  /** `Enter` held since `t0` with no `Repeat` yet: the first `Repeat` comes at 750 ms. */
  lemma ScenarioRepeatFirst(t0: InstantMillis)
    ensures StepEvents<Button>(SomeButtons({Enter}, Add(t0, 0), None), [({Enter}, Add(t0, 750))], DefaultOptions()) ==
      ([Repeat({Enter})], SomeButtons({Enter}, Add(t0, 0), Some(Add(t0, 750))))
  {
    var opt := DefaultOptions();
    var r3: seq<(ButtonFlags, InstantMillis)> := [];
    assert StepEvents<Button>(SomeButtons({Enter}, Add(t0, 0), Some(Add(t0, 750))), r3, opt) == ([], SomeButtons({Enter}, Add(t0, 0), Some(Add(t0, 750))));
    var r2 := [({Enter}, Add(t0, 750))] + r3;
    SubOfOffsets(t0, 750, 0);
    assert ProcessorStep<Button>(SomeButtons({Enter}, Add(t0, 0), None), {Enter}, Add(t0, 750), opt).state == SomeButtons({Enter}, Add(t0, 0), Some(Add(t0, 750)));
    assert ProcessorStep<Button>(SomeButtons({Enter}, Add(t0, 0), None), {Enter}, Add(t0, 750), opt).event == Repeat({Enter});
    StepEventsCons<Button>(SomeButtons({Enter}, Add(t0, 0), None), {Enter}, Add(t0, 750), r3, opt);
    assert StepEvents<Button>(SomeButtons({Enter}, Add(t0, 0), None), r2, opt).0 == [Repeat({Enter})];
    assert StepEvents<Button>(SomeButtons({Enter}, Add(t0, 0), None), r2, opt).1 == SomeButtons({Enter}, Add(t0, 0), Some(Add(t0, 750)));
    assert r2 == [({Enter}, Add(t0, 750))];
  }

  /** After the first `Repeat`, the next ones come every 375 ms. */
  lemma ScenarioRepeatLater(t0: InstantMillis)
    ensures StepEvents<Button>(SomeButtons({Enter}, Add(t0, 0), Some(Add(t0, 750))), [({Enter}, Add(t0, 1125)), ({Enter}, Add(t0, 1500))], DefaultOptions()) ==
      ([Repeat({Enter}), Repeat({Enter})], SomeButtons({Enter}, Add(t0, 0), Some(Add(t0, 1500))))
  {
    var opt := DefaultOptions();
    var r5: seq<(ButtonFlags, InstantMillis)> := [];
    assert StepEvents<Button>(SomeButtons({Enter}, Add(t0, 0), Some(Add(t0, 1500))), r5, opt) == ([], SomeButtons({Enter}, Add(t0, 0), Some(Add(t0, 1500))));
    var r4 := [({Enter}, Add(t0, 1500))] + r5;
    assert StepEvents<Button>(SomeButtons({Enter}, Add(t0, 0), Some(Add(t0, 1125))), r4, opt).0 == [Repeat({Enter})] &&
           StepEvents<Button>(SomeButtons({Enter}, Add(t0, 0), Some(Add(t0, 1125))), r4, opt).1 == SomeButtons({Enter}, Add(t0, 0), Some(Add(t0, 1500))) by {
      SubOfOffsets(t0, 1500, 0);
      SubOfOffsets(t0, 1500, 1125);
      assert ProcessorStep<Button>(SomeButtons({Enter}, Add(t0, 0), Some(Add(t0, 1125))), {Enter}, Add(t0, 1500), opt).state == SomeButtons({Enter}, Add(t0, 0), Some(Add(t0, 1500)));
      assert ProcessorStep<Button>(SomeButtons({Enter}, Add(t0, 0), Some(Add(t0, 1125))), {Enter}, Add(t0, 1500), opt).event == Repeat({Enter});
      StepEventsCons<Button>(SomeButtons({Enter}, Add(t0, 0), Some(Add(t0, 1125))), {Enter}, Add(t0, 1500), r5, opt);
    }
    var r3 := [({Enter}, Add(t0, 1125))] + r4;
    assert StepEvents<Button>(SomeButtons({Enter}, Add(t0, 0), Some(Add(t0, 750))), r3, opt).0 == [Repeat({Enter}), Repeat({Enter})] &&
           StepEvents<Button>(SomeButtons({Enter}, Add(t0, 0), Some(Add(t0, 750))), r3, opt).1 == SomeButtons({Enter}, Add(t0, 0), Some(Add(t0, 1500))) by {
      SubOfOffsets(t0, 1125, 0);
      SubOfOffsets(t0, 1125, 750);
      assert ProcessorStep<Button>(SomeButtons({Enter}, Add(t0, 0), Some(Add(t0, 750))), {Enter}, Add(t0, 1125), opt).state == SomeButtons({Enter}, Add(t0, 0), Some(Add(t0, 1125)));
      assert ProcessorStep<Button>(SomeButtons({Enter}, Add(t0, 0), Some(Add(t0, 750))), {Enter}, Add(t0, 1125), opt).event == Repeat({Enter});
      StepEventsCons<Button>(SomeButtons({Enter}, Add(t0, 0), Some(Add(t0, 750))), {Enter}, Add(t0, 1125), r4, opt);
    }
    assert r3 == [({Enter}, Add(t0, 1125)), ({Enter}, Add(t0, 1500))];
  }

  /** `Enter` held since `t0`, with no `Repeat` yet: the first `Repeat` after 750 ms, and
   *  further ones every 375 ms. */
  lemma ScenarioRepeatHeld(t0: InstantMillis)
    ensures StepEvents<Button>(SomeButtons({Enter}, Add(t0, 0), None), [({Enter}, Add(t0, 750))] + [({Enter}, Add(t0, 1125)), ({Enter}, Add(t0, 1500))], DefaultOptions()) ==
      ([Repeat({Enter})] + [Repeat({Enter}), Repeat({Enter})], SomeButtons({Enter}, Add(t0, 0), Some(Add(t0, 1500))))
  {
    ScenarioRepeatFirst(t0);
    ScenarioRepeatLater(t0);
    StepEventsAppend<Button>(SomeButtons({Enter}, Add(t0, 0), None), [({Enter}, Add(t0, 750))], [({Enter}, Add(t0, 1125)), ({Enter}, Add(t0, 1500))], DefaultOptions());
  }

  /** Holding `Enter` from `t0` on: `Press` at once, nothing after 740 ms, the first
   *  `Repeat` after 750 ms, and further ones every 375 ms. */
  lemma ScenarioRepeat(t0: InstantMillis)
    ensures StepEvents<Button>(NoButtons, [({Enter}, Add(t0, 0)), ({Enter}, Add(t0, 740))] + ([({Enter}, Add(t0, 750))] + [({Enter}, Add(t0, 1125)), ({Enter}, Add(t0, 1500))]), DefaultOptions()) ==
      ([Press({Enter}), NoEvent] + ([Repeat({Enter})] + [Repeat({Enter}), Repeat({Enter})]), SomeButtons({Enter}, Add(t0, 0), Some(Add(t0, 1500))))
  {
    var opt := DefaultOptions();
    var held := SomeButtons({Enter}, Add(t0, 0), None);
    var r2: seq<(ButtonFlags, InstantMillis)> := [];
    assert StepEvents<Button>(held, r2, opt) == ([], held);
    var r1 := [({Enter}, Add(t0, 740))] + r2;
    assert StepEvents<Button>(held, r1, opt).0 == [NoEvent] && StepEvents<Button>(held, r1, opt).1 == held by {
      SubOfOffsets(t0, 740, 0);
      assert ProcessorStep<Button>(held, {Enter}, Add(t0, 740), opt).state == held;
      assert ProcessorStep<Button>(held, {Enter}, Add(t0, 740), opt).event == NoEvent;
      StepEventsCons<Button>(held, {Enter}, Add(t0, 740), r2, opt);
    }
    var r0 := [({Enter}, Add(t0, 0))] + r1;
    assert StepEvents<Button>(NoButtons, r0, opt).0 == [Press({Enter}), NoEvent] && StepEvents<Button>(NoButtons, r0, opt).1 == held by {
      assert ProcessorStep<Button>(NoButtons, {Enter}, Add(t0, 0), opt).state == held;
      assert ProcessorStep<Button>(NoButtons, {Enter}, Add(t0, 0), opt).event == Press({Enter});
      StepEventsCons<Button>(NoButtons, {Enter}, Add(t0, 0), r1, opt);
    }
    assert r0 == [({Enter}, Add(t0, 0)), ({Enter}, Add(t0, 740))];
    ScenarioRepeatHeld(t0);
    StepEventsAppend(NoButtons, r0, [({Enter}, Add(t0, 750))] + [({Enter}, Add(t0, 1125)), ({Enter}, Add(t0, 1500))], opt);
  }

  /** Both arrows pressed together and `Prev` let go first. */
  lemma ScenarioPartialReleaseBoth(t0: InstantMillis)
    ensures StepEvents<Button>(NoButtons, [({Prev, Next}, Add(t0, 0)), ({Next}, Add(t0, 100)), ({Next}, Add(t0, 200))], DefaultOptions()) ==
      ([Press({Prev, Next}), Release({Prev, Next}), NoEvent], Invalid)
  {
    var both: ButtonFlags := {Prev, Next};
    assert {Next} != both && !(both <= {Next}) by { assert Prev !in {Next}; }
    var opt := DefaultOptions();
    var r3: seq<(ButtonFlags, InstantMillis)> := [];
    assert StepEvents<Button>(Invalid, r3, opt) == ([], Invalid);
    var r2 := [({Next}, Add(t0, 200))] + r3;
    assert StepEvents<Button>(Invalid, r2, opt).0 == [NoEvent] &&
           StepEvents<Button>(Invalid, r2, opt).1 == Invalid by {
      assert ProcessorStep<Button>(Invalid, {Next}, Add(t0, 200), opt).state == Invalid;
      assert ProcessorStep<Button>(Invalid, {Next}, Add(t0, 200), opt).event == NoEvent;
      StepEventsCons<Button>(Invalid, {Next}, Add(t0, 200), r3, opt);
    }
    var r1 := [({Next}, Add(t0, 100))] + r2;
    assert StepEvents<Button>(SomeButtons(both, Add(t0, 0), None), r1, opt).0 == [Release(both), NoEvent] &&
           StepEvents<Button>(SomeButtons(both, Add(t0, 0), None), r1, opt).1 == Invalid by {
      SubOfOffsets(t0, 100, 0);
      assert ProcessorStep<Button>(SomeButtons(both, Add(t0, 0), None), {Next}, Add(t0, 100), opt).state == Invalid;
      assert ProcessorStep<Button>(SomeButtons(both, Add(t0, 0), None), {Next}, Add(t0, 100), opt).event == Release(both);
      StepEventsCons<Button>(SomeButtons(both, Add(t0, 0), None), {Next}, Add(t0, 100), r2, opt);
    }
    var r0 := [(both, Add(t0, 0))] + r1;
    assert StepEvents<Button>(NoButtons, r0, opt).0 == [Press(both), Release(both), NoEvent] &&
           StepEvents<Button>(NoButtons, r0, opt).1 == Invalid by {
      assert ProcessorStep<Button>(NoButtons, both, Add(t0, 0), opt).state == SomeButtons(both, Add(t0, 0), None);
      assert ProcessorStep<Button>(NoButtons, both, Add(t0, 0), opt).event == Press(both);
      StepEventsCons<Button>(NoButtons, both, Add(t0, 0), r1, opt);
    }
    assert r0 == [(both, Add(t0, 0)), ({Next}, Add(t0, 100)), ({Next}, Add(t0, 200))];
  }

  /** After a partial release nothing happens until all buttons are up, even when `Prev`
   *  comes back; then `Next` is a new `Press`. */
  lemma ScenarioPartialReleaseNext(t0: InstantMillis)
    ensures StepEvents<Button>(Invalid, [({Prev, Next}, Add(t0, 300)), ({}, Add(t0, 400)), ({Next}, Add(t0, 500))], DefaultOptions()) ==
      ([NoEvent, NoEvent, Press({Next})], SomeButtons({Next}, Add(t0, 500), None))
  {
    var both: ButtonFlags := {Prev, Next};
    var opt := DefaultOptions();
    var r6: seq<(ButtonFlags, InstantMillis)> := [];
    assert StepEvents<Button>(SomeButtons({Next}, Add(t0, 500), None), r6, opt) == ([], SomeButtons({Next}, Add(t0, 500), None));
    var r5 := [({Next}, Add(t0, 500))] + r6;
    assert StepEvents<Button>(NoButtons, r5, opt).0 == [Press({Next})] &&
           StepEvents<Button>(NoButtons, r5, opt).1 == SomeButtons({Next}, Add(t0, 500), None) by {
      assert ProcessorStep<Button>(NoButtons, {Next}, Add(t0, 500), opt).state == SomeButtons({Next}, Add(t0, 500), None);
      assert ProcessorStep<Button>(NoButtons, {Next}, Add(t0, 500), opt).event == Press({Next});
      StepEventsCons<Button>(NoButtons, {Next}, Add(t0, 500), r6, opt);
    }
    var r4 := [({}, Add(t0, 400))] + r5;
    assert StepEvents<Button>(Invalid, r4, opt).0 == [NoEvent, Press({Next})] &&
           StepEvents<Button>(Invalid, r4, opt).1 == SomeButtons({Next}, Add(t0, 500), None) by {
      assert ProcessorStep<Button>(Invalid, {}, Add(t0, 400), opt).state == NoButtons;
      assert ProcessorStep<Button>(Invalid, {}, Add(t0, 400), opt).event == NoEvent;
      StepEventsCons<Button>(Invalid, {}, Add(t0, 400), r5, opt);
    }
    var r3 := [(both, Add(t0, 300))] + r4;
    assert StepEvents<Button>(Invalid, r3, opt).0 == [NoEvent, NoEvent, Press({Next})] &&
           StepEvents<Button>(Invalid, r3, opt).1 == SomeButtons({Next}, Add(t0, 500), None) by {
      assert ProcessorStep<Button>(Invalid, both, Add(t0, 300), opt).state == Invalid;
      assert ProcessorStep<Button>(Invalid, both, Add(t0, 300), opt).event == NoEvent;
      StepEventsCons<Button>(Invalid, both, Add(t0, 300), r4, opt);
    }
    assert r3 == [(both, Add(t0, 300)), ({}, Add(t0, 400)), ({Next}, Add(t0, 500))];
  }

  /** Holding `Prev` and `Next`, then only `Next`: `Release` of both, then nothing while
   *  `Next` stays held, even when `Prev` is pressed again; all released, then `Press`. */
  lemma ScenarioPartialRelease(t0: InstantMillis)
    ensures StepEvents<Button>(NoButtons, [({Prev, Next}, Add(t0, 0)), ({Next}, Add(t0, 100)), ({Next}, Add(t0, 200))] + [({Prev, Next}, Add(t0, 300)), ({}, Add(t0, 400)), ({Next}, Add(t0, 500))], DefaultOptions()) ==
      ([Press({Prev, Next}), Release({Prev, Next}), NoEvent] + [NoEvent, NoEvent, Press({Next})], SomeButtons({Next}, Add(t0, 500), None))
  {
    ScenarioPartialReleaseBoth(t0);
    ScenarioPartialReleaseNext(t0);
    StepEventsAppend<Button>(NoButtons, [({Prev, Next}, Add(t0, 0)), ({Next}, Add(t0, 100)), ({Next}, Add(t0, 200))], [({Prev, Next}, Add(t0, 300)), ({}, Add(t0, 400)), ({Next}, Add(t0, 500))], DefaultOptions());
  }
}
