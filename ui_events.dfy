/**
 * What the menus of the user interface have in common. Every menu loop waits (for a
 * button press, a timeout, or the end of a confirmation blink) and then reads the
 * current event of the button processor; a menu is modelled on the sequence of what
 * it sees at the end of each of its waits. A suspension of a menu stands for one whole
 * such wait and records the delay that wait is given: `MENU_WAIT` for a button wait
 * (`wait_button_press_or_timeout` or `wait_button_press2_or_timeout` with
 * `MENU_TIMEOUT`), `CONFIRM_WAIT` for the timer of a confirming blink. The wait before
 * a dialog's first observation is recorded by the suspension of its caller that opened
 * the dialog.
 */
module UiEvents {
  import opened Base
  import opened Milliseconds
  import opened ButtonProcessor
  import opened Buttons

  /** Menus give up after this long without a button press. */
  const MENU_TIMEOUT: I32 := 10000
  const BLINK_DELAY_CHANGE_VALUE: I32 := 400
  const BLINK_DELAY_CONFIRM_VALUE: I32 := 200

  /** The request of a menu suspension that waits for a button or the menu timeout. */
  const MENU_WAIT: Option<I32> := Some(MENU_TIMEOUT)

  /** The request of the suspension that blinks to confirm a chosen value:
   *  `Timer::new(sys, BLINK_DELAY_CONFIRM_VALUE * 5).wait()`. */
  const CONFIRM_WAIT: Option<I32> := Some(BLINK_DELAY_CONFIRM_VALUE * 5)

  /** The requests of a dialog's run: button waits of `MENU_TIMEOUT`, except that the
   *  last one is the confirming blink exactly when `confirmed`. */
  predicate MenuWaits(rs: seq<Option<I32>>, confirmed: bool)
  {
    (confirmed ==> rs != [] && rs[|rs| - 1] == CONFIRM_WAIT) &&
    forall i | 0 <= i < |rs| :: rs[i] == MENU_WAIT || (confirmed && i == |rs| - 1)
  }

  /** One more button wait in front keeps the shape. */
  lemma MenuWaitsPrepend(rs: seq<Option<I32>>, confirmed: bool)
    requires MenuWaits(rs, confirmed)
    ensures MenuWaits([MENU_WAIT] + rs, confirmed)
  {
    var rs' := [MENU_WAIT] + rs;
    forall i | 1 <= i < |rs'|
      ensures rs'[i] == MENU_WAIT || (confirmed && i == |rs'| - 1)
    {
      assert rs'[i] == rs[i - 1];
    }
  }

  /** How a selection dialog ended. */
  datatype SelectionResponse = Ok | Back | Timeout

  type Event = ButtonEvent<Button>

  /** The end of one wait of a menu: the button event current then, and the instant. */
  datatype UiObs = UiObs(event: Event, now: InstantMillis)

  /** `ButtonEvent::Press(b)` for a single button `b`. */
  predicate IsPress(e: Event, b: Button)
  {
    e == Press({b})
  }

  /** `Press(b) | Repeat(b)` for a single button `b`. */
  predicate IsPressOrRepeat(e: Event, b: Button)
  {
    e == Press({b}) || e == Repeat({b})
  }

  /** Single-button events of different buttons differ. */
  lemma SingleButtonsDiffer(e: Event)
    ensures IsPress(e, Escape) ==> !IsPress(e, Enter) && !IsPressOrRepeat(e, Prev) && !IsPressOrRepeat(e, Next)
    ensures IsPress(e, Enter) ==> !IsPressOrRepeat(e, Prev) && !IsPressOrRepeat(e, Next)
    ensures IsPressOrRepeat(e, Prev) ==> !IsPressOrRepeat(e, Next)
  {
    assert Escape !in {Enter} && Escape !in {Prev} && Escape !in {Next};
    assert Enter !in {Prev} && Enter !in {Next} && Prev !in {Next};
  }

  function Events(obs: seq<UiObs>): (es: seq<Event>)
    ensures |es| == |obs| && forall i | 0 <= i < |obs| :: es[i] == obs[i].event
  {
    seq(|obs|, i requires 0 <= i < |obs| => obs[i].event)
  }

  /** The events of a non-empty prefix: the first one, then those of the rest. */
  lemma EventsCons(obs: seq<UiObs>, n: nat)
    requires 1 <= n <= |obs|
    ensures Events(obs[..n]) == [obs[0].event] + Events(obs[1..][..n - 1])
  {
    var a := Events(obs[..n]);
    var b := [obs[0].event] + Events(obs[1..][..n - 1]);
    forall i | 0 <= i < n
      ensures a[i] == b[i]
    {
      if i > 0 {
        assert obs[1..][..n - 1][i - 1] == obs[i];
      }
    }
  }
}
