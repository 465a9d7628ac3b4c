/**
 The front panel of the application around the clock driver: three buttons
 (forward, back, switch) and a menu of three windows (clock, volume,
 frequency) that forward and back step through, wrapping at both ends.
 Button levels are inputs here; reading the pins, the display and the
 wait for release are not modelled.
 */
module Menu {

  /** Python's `any`: some element of the list is true. */
  function Any(xs: seq<bool>): (b: bool)
    ensures b <==> exists i :: 0 <= i < |xs| && xs[i]
  {
    if |xs| == 0 then false
    else if xs[0] then true
    else
      var rest := Any(xs[1..]);
      assert forall i :: 1 <= i < |xs| ==> xs[i] == xs[1..][i - 1];
      rest
  }

  /** `input_status()`: true when no button is pressed. */
  function InputStatus(forward: bool, back: bool, switch: bool): (idle: bool)
    ensures idle <==> !forward && !back && !switch
  {
    assert [forward, back, switch][0] == forward;
    assert [forward, back, switch][1] == back;
    assert [forward, back, switch][2] == switch;
    !Any([forward, back, switch])
  }

  /** The number of entries in the menu: clock, volume, frequency. */
  const MenuSize: int := 3

  /** `num_windows`: the largest window index, one less than the menu's size. */
  const NumWindows: int := MenuSize - 1

  /**
   One pass of the main loop's navigation: forward moves to the next window,
   wrapping from the last to the first; otherwise back moves to the previous
   one, wrapping from the first to the last; with neither pressed the window
   stays. Forward wins when both are pressed.
   */
  function Step(window: int, forward: bool, back: bool): (w: int)
    ensures 0 <= window <= NumWindows ==> 0 <= w <= NumWindows
  {
    if forward then window + (if window < NumWindows then 1 else -NumWindows)
    else if back then window - (if window > 0 then 1 else -NumWindows)
    else window
  }

  /** On a valid window, forward is `+1` and back is `-1`, both modulo the menu's size. */
  lemma StepIsModular(window: int, forward: bool, back: bool)
    requires 0 <= window <= NumWindows
    ensures forward ==> Step(window, forward, back) == (window + 1) % MenuSize
    ensures !forward && back ==> Step(window, forward, back) == (window - 1) % MenuSize
    ensures !forward && !back ==> Step(window, forward, back) == window
  {
    if window == 0 {
      assert (0 - 1) % 3 == 2;
    }
  }

  /** Forward and then back returns to the window one started from; so does back and then forward. */
  lemma ForwardBackInverse(window: int)
    requires 0 <= window <= NumWindows
    ensures Step(Step(window, true, false), false, true) == window
    ensures Step(Step(window, false, true), true, false) == window
  {
  }

  /** The buttons' levels seen by one pass of the main loop. */
  datatype Buttons = Buttons(forward: bool, back: bool)

  /** The window after a sequence of passes of the main loop. */
  function Navigate(window: int, presses: seq<Buttons>): int
    decreases |presses|
  {
    if |presses| == 0 then window
    else Navigate(Step(window, presses[0].forward, presses[0].back), presses[1..])
  }

  /** The net movement of a sequence of passes: +1 for forward, -1 for back alone. */
  function Net(presses: seq<Buttons>): int
    decreases |presses|
  {
    if |presses| == 0 then 0
    else (if presses[0].forward then 1 else if presses[0].back then -1 else 0) + Net(presses[1..])
  }

  /** Starting from a valid window, the window stays valid however the buttons are pressed. */
  lemma {:induction false} NavigateInRange(window: int, presses: seq<Buttons>)
    requires 0 <= window <= NumWindows
    ensures 0 <= Navigate(window, presses) <= NumWindows
    decreases |presses|
  {
    if |presses| > 0 {
      NavigateInRange(Step(window, presses[0].forward, presses[0].back), presses[1..]);
    }
  }

  /** The window reached is the starting window moved by the net count, modulo the menu's size. */
  lemma {:induction false} NavigateIsNetModular(window: int, presses: seq<Buttons>)
    requires 0 <= window <= NumWindows
    ensures Navigate(window, presses) == (window + Net(presses)) % MenuSize
    decreases |presses|
  {
    if |presses| == 0 {
    } else {
      var p := presses[0];
      var next := Step(window, p.forward, p.back);
      StepIsModular(window, p.forward, p.back);
      NavigateIsNetModular(next, presses[1..]);
      var d := if p.forward then 1 else if p.back then -1 else 0;
      assert next == (window + d) % MenuSize;
      ModShift(window + d, Net(presses[1..]));
    }
  }

  /** Reducing the first term before adding the second does not change the sum's remainder. */
  lemma ModShift(a: int, b: int)
    ensures (a % 3 + b) % 3 == (a + b) % 3
  {
    var q := a / 3;
    assert a == 3 * q + a % 3;
    assert a + b == (a % 3 + b) + 3 * q;
  }
}
