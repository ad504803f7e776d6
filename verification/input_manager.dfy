/**
 * Turns successive samples of the mouse into discrete events: a move event
 * when the pointer position changed, and per button a released event on the
 * pressed-to-released transition and a pressed event on first contact and
 * then once per cooldown period while the button stays down.
 *
 * The device is not polled here: each update receives the current mouse
 * state as an argument, and the events the C# code raises through delegates
 * are returned, in the order they are raised.
 */
module InputManagement {
  import opened Wrappers
  import opened Geometry
  import opened Numeric

  datatype InputKey = LeftButton | RightButton

  datatype ButtonState = Released | Pressed

  datatype MouseState = MouseState(position: Point, leftButton: ButtonState, rightButton: ButtonState)

  datatype InputEvent =
    | ButtonPressedEvent(key: InputKey, holdDurationMs: int)
    | ButtonReleasedEvent(key: InputKey)
    | MouseMovedEvent(mouseState: MouseState, oldMouseState: MouseState)

  /** Minimum time between two pressed events of a held button, in milliseconds. */
  const MaxHoldCooldown: int := 200

  /** A button's hold bookkeeping: time left before the next repeat, and time held so far. */
  datatype HoldTimer = HoldTimer(cooldown: int, total: int)

  function ButtonOf(m: MouseState, key: InputKey): ButtonState {
    if key == LeftButton then m.leftButton else m.rightButton
  }

  /** The button's state in the previous sample, absent before the first sample. */
  function OldButton(previous: Option<MouseState>, key: InputKey): Option<ButtonState> {
    if previous.Some? then Some(ButtonOf(previous.value, key)) else None
  }

  /**
   * The hold timer after the release/hold bookkeeping, before the press test:
   * the cooldown only runs down, never below 0, and the hold time only grows
   * or is cleared together with the cooldown.
   */
  function Decay(t: HoldTimer, state: ButtonState, oldState: Option<ButtonState>, elapsedMs: nat): (r: HoldTimer)
    ensures 0 <= t.cooldown ==> 0 <= r.cooldown <= t.cooldown
    ensures r == HoldTimer(0, 0) || r.total >= t.total
  {
    if oldState == Some(Pressed) then
      if state == Released then HoldTimer(0, 0)
      else HoldTimer(Max(t.cooldown - elapsedMs, 0), t.total + elapsedMs)
    else t
  }

  /**
   * One button's share of an update: its new timer and the events it raises,
   * in order. A release and a press never coincide, so a button raises at
   * most one event per update, and the cooldown never leaves [0, maxCooldown].
   */
  function CheckButton(key: InputKey, t: HoldTimer, maxCooldown: int, state: ButtonState,
                       oldState: Option<ButtonState>, elapsedMs: nat): (r: (HoldTimer, seq<InputEvent>))
    ensures |r.1| <= 1 && forall e :: e in r.1 ==> KeyOf(e) == Some(key)
    ensures 0 <= t.cooldown <= maxCooldown ==> 0 <= r.0.cooldown <= maxCooldown
  {
    var released := if oldState == Some(Pressed) && state == Released then [ButtonReleasedEvent(key)] else [];
    var t1 := Decay(t, state, oldState, elapsedMs);
    if state == Pressed && t1.cooldown == 0 then
      (t1.(cooldown := maxCooldown), released + [ButtonPressedEvent(key, t1.total)])
    else (t1, released)
  }

  /** On release both counters are cleared and exactly one released event is raised. */
  lemma ReleaseClearsTimer(key: InputKey, t: HoldTimer, maxCooldown: int, elapsedMs: nat)
    ensures CheckButton(key, t, maxCooldown, Released, Some(Pressed), elapsedMs)
         == (HoldTimer(0, 0), [ButtonReleasedEvent(key)])
  {
  }

  /** While held, the cooldown runs down to no less than 0 and the hold time grows by the elapsed time. */
  lemma HoldDecays(t: HoldTimer, elapsedMs: nat)
    ensures var t1 := Decay(t, Pressed, Some(Pressed), elapsedMs);
      t1.cooldown == Max(t.cooldown - elapsedMs, 0) && t1.total == t.total + elapsedMs
  {
  }

  /**
   * A pressed event is raised exactly when the button is down and its cooldown
   * has run out; it carries the time held so far, and the cooldown restarts.
   */
  lemma PressedWhenCooledDown(key: InputKey, t: HoldTimer, maxCooldown: int, state: ButtonState,
                              oldState: Option<ButtonState>, elapsedMs: nat)
    ensures var t1 := Decay(t, state, oldState, elapsedMs);
      var (t2, events) := CheckButton(key, t, maxCooldown, state, oldState, elapsedMs);
      && ((exists h :: ButtonPressedEvent(key, h) in events) <==> state == Pressed && t1.cooldown == 0)
      && (state == Pressed && t1.cooldown == 0 ==>
            events[|events| - 1] == ButtonPressedEvent(key, t1.total) && t2 == t1.(cooldown := maxCooldown))
  {
    var t1 := Decay(t, state, oldState, elapsedMs);
    var (t2, events) := CheckButton(key, t, maxCooldown, state, oldState, elapsedMs);
    if state == Pressed && t1.cooldown == 0 {
      assert ButtonPressedEvent(key, t1.total) in events;
    }
  }

  /** From a cleared timer, the first contact reports a hold of 0. */
  lemma FirstPressReportsZero(key: InputKey, maxCooldown: int, oldState: Option<ButtonState>, elapsedMs: nat)
    requires oldState != Some(Pressed)
    ensures CheckButton(key, HoldTimer(0, 0), maxCooldown, Pressed, oldState, elapsedMs)
         == (HoldTimer(maxCooldown, 0), [ButtonPressedEvent(key, 0)])
  {
    var none: seq<InputEvent> := [];
    assert none + [ButtonPressedEvent(key, 0)] == [ButtonPressedEvent(key, 0)];
  }

  /**
   * A button pressed from a released state (`before`) and then held through
   * `n` updates of 1 ms each: the timer and all events raised.
   */
  function HoldFor(key: InputKey, before: Option<ButtonState>, n: nat): (HoldTimer, seq<InputEvent>)
    requires before != Some(Pressed)
  {
    if n == 0 then (HoldTimer(0, 0), [])
    else
      var (t, events) := HoldFor(key, before, n - 1);
      var (t', more) := CheckButton(key, t, MaxHoldCooldown, Pressed, if n == 1 then before else Some(Pressed), 1);
      (t', events + more)
  }

  /** Pressed events at holds 0, 200, 400, ... for the first `n` milliseconds. */
  function RepeatedPresses(key: InputKey, n: nat): (r: seq<InputEvent>)
  {
    seq((n + MaxHoldCooldown - 1) / MaxHoldCooldown, k => ButtonPressedEvent(key, MaxHoldCooldown * k))
  }

  /** How the position within the repeat period and the count of started periods move on by one millisecond. */
  lemma PeriodStep(m: nat)
    requires m >= 1
    ensures m % MaxHoldCooldown == 0 ==>
      && (m - 1) % MaxHoldCooldown == MaxHoldCooldown - 1
      && (m + MaxHoldCooldown) / MaxHoldCooldown == (m + MaxHoldCooldown - 1) / MaxHoldCooldown + 1
    ensures m % MaxHoldCooldown != 0 ==>
      && (m - 1) % MaxHoldCooldown == m % MaxHoldCooldown - 1
      && (m + MaxHoldCooldown) / MaxHoldCooldown == (m + MaxHoldCooldown - 1) / MaxHoldCooldown
  {
  }

  /**
   * Held in 1 ms updates, a button fires at updates 0, 200, 400, ..., each
   * event reporting the update's index as its hold; after `n` updates the hold
   * total is n - 1 (the first update does not count) and the cooldown is what
   * is left of the current period.
   */
  lemma {:induction false} HoldRepeats(key: InputKey, before: Option<ButtonState>, n: nat)
    requires before != Some(Pressed)
    requires n >= 1
    ensures HoldFor(key, before, n).0 == HoldTimer(MaxHoldCooldown - (n - 1) % MaxHoldCooldown, n - 1)
    ensures HoldFor(key, before, n).1 == RepeatedPresses(key, n)
  {
    if n > 1 {
      HoldRepeats(key, before, n - 1);
      var m := n - 1;
      var (t, events) := HoldFor(key, before, m);
      assert t.cooldown - 1 == MaxHoldCooldown - 1 - (m - 1) % MaxHoldCooldown;
      PeriodStep(m);
      if m % MaxHoldCooldown == 0 {
        assert RepeatedPresses(key, n) == RepeatedPresses(key, m) + [ButtonPressedEvent(key, m)];
      }
    }
  }

  /** Holding for 500 ms in 1 ms updates gives exactly three pressed events, at holds 0, 200 and 400. */
  lemma HoldFiveHundredMilliseconds(key: InputKey)
    ensures HoldFor(key, None, 500).1 ==
      [ButtonPressedEvent(key, 0), ButtonPressedEvent(key, 200), ButtonPressedEvent(key, 400)]
  {
    HoldRepeats(key, None, 500);
  }

  /** What the manager remembers between updates, as a value. */
  datatype InputSnapshot = InputSnapshot(oldMouseState: Option<MouseState>, left: HoldTimer, right: HoldTimer)

  /** The move event an update raises, if any. */
  function MoveEvents(previous: Option<MouseState>, current: MouseState): seq<InputEvent> {
    if previous.Some? && current.position != previous.value.position then [MouseMovedEvent(current, previous.value)] else []
  }

  /**
   * A whole update: the move check first, then the left button, then the
   * right button. The current sample becomes the previous one, and an update
   * raises at most three events: a move and one per button.
   */
  function Poll(s: InputSnapshot, elapsedMs: nat, current: MouseState): (r: (InputSnapshot, seq<InputEvent>))
    ensures r.0.oldMouseState == Some(current)
    ensures |r.1| <= 3
  {
    var (left, leftEvents) :=
      CheckButton(LeftButton, s.left, MaxHoldCooldown, current.leftButton, OldButton(s.oldMouseState, LeftButton), elapsedMs);
    var (right, rightEvents) :=
      CheckButton(RightButton, s.right, MaxHoldCooldown, current.rightButton, OldButton(s.oldMouseState, RightButton), elapsedMs);
    (InputSnapshot(Some(current), left, right), MoveEvents(s.oldMouseState, current) + leftEvents + rightEvents)
  }

  function KeyOf(e: InputEvent): Option<InputKey> {
    match e
    case ButtonPressedEvent(k, _) => Some(k)
    case ButtonReleasedEvent(k) => Some(k)
    case MouseMovedEvent(_, _) => None
  }

  /**
   * Event order within an update: a move event comes first, only when a
   * previous sample exists and the position differs, and every left-button
   * event comes before every right-button event.
   */
  lemma PollOrder(s: InputSnapshot, elapsedMs: nat, current: MouseState)
    ensures var events := Poll(s, elapsedMs, current).1;
      && (forall i :: 0 < i < |events| ==> !events[i].MouseMovedEvent?)
      && (|events| > 0 && events[0].MouseMovedEvent? <==>
            s.oldMouseState.Some? && current.position != s.oldMouseState.value.position)
      && (forall i, j ::
            (0 <= i < |events| && 0 <= j < |events| &&
             KeyOf(events[i]) == Some(LeftButton) && KeyOf(events[j]) == Some(RightButton)) ==> i < j)
  {
    var (left, leftEvents) :=
      CheckButton(LeftButton, s.left, MaxHoldCooldown, current.leftButton, OldButton(s.oldMouseState, LeftButton), elapsedMs);
    var (right, rightEvents) :=
      CheckButton(RightButton, s.right, MaxHoldCooldown, current.rightButton, OldButton(s.oldMouseState, RightButton), elapsedMs);
    var moves := MoveEvents(s.oldMouseState, current);
    var events := moves + leftEvents + rightEvents;
    forall i | 0 <= i < |events|
      ensures i < |moves| ==> events[i].MouseMovedEvent?
      ensures |moves| <= i < |moves| + |leftEvents| ==> KeyOf(events[i]) == Some(LeftButton)
      ensures |moves| + |leftEvents| <= i ==> KeyOf(events[i]) == Some(RightButton)
    {
      if |moves| <= i < |moves| + |leftEvents| {
        assert events[i] == leftEvents[i - |moves|];
      } else if |moves| + |leftEvents| <= i {
        assert events[i] == rightEvents[i - |moves| - |leftEvents|];
      }
    }
  }

  class InputManager {
    var mouseState: Option<MouseState>
    var oldMouseState: Option<MouseState>
    var holdCooldowns: map<InputKey, int>
    var maxHoldCooldowns: map<InputKey, int>
    var totalHoldDurations: map<InputKey, int>

    /** Every key has all three entries, the cooldown within [0, maximum] and the maximum fixed. */
    ghost predicate Valid()
      reads this
    {
      forall k: InputKey :: k in holdCooldowns && k in maxHoldCooldowns && k in totalHoldDurations &&
        maxHoldCooldowns[k] == MaxHoldCooldown && 0 <= holdCooldowns[k] <= maxHoldCooldowns[k]
    }

    function Timer(key: InputKey): HoldTimer
      reads this
      requires Valid()
    {
      HoldTimer(holdCooldowns[key], totalHoldDurations[key])
    }

    ghost function Snapshot(): InputSnapshot
      reads this
      requires Valid()
    {
      InputSnapshot(oldMouseState, Timer(LeftButton), Timer(RightButton))
    }

    constructor ()
      ensures Valid()
      ensures mouseState == None && oldMouseState == None
      ensures forall k: InputKey :: Timer(k) == HoldTimer(0, 0)
    {
      mouseState := None;
      oldMouseState := None;
      holdCooldowns := map[];
      maxHoldCooldowns := map[];
      totalHoldDurations := map[];
      new;
      var keys := [LeftButton, RightButton];
      for i := 0 to |keys|
        invariant mouseState == None && oldMouseState == None
        invariant forall k :: k in keys[..i] <==> k in holdCooldowns
        invariant forall k :: k in keys[..i] <==> k in maxHoldCooldowns
        invariant forall k :: k in keys[..i] <==> k in totalHoldDurations
        invariant forall k :: k in keys[..i] ==>
          maxHoldCooldowns[k] == MaxHoldCooldown && holdCooldowns[k] == 0 && totalHoldDurations[k] == 0
      {
        maxHoldCooldowns := maxHoldCooldowns[keys[i] := MaxHoldCooldown];
        holdCooldowns := holdCooldowns[keys[i] := 0];
        totalHoldDurations := totalHoldDurations[keys[i] := 0];
      }
      assert keys[..|keys|] == keys;
      forall k: InputKey ensures k in keys {
        if k.LeftButton? { assert k == keys[0]; } else { assert k == keys[1]; }
      }
    }

    /** Lets `key` fire again at once; nothing else changes. */
    method ResetCooldown(key: InputKey)
      requires Valid()
      modifies this
      ensures Valid()
      ensures holdCooldowns == old(holdCooldowns)[key := 0]
      ensures totalHoldDurations == old(totalHoldDurations) && maxHoldCooldowns == old(maxHoldCooldowns)
      ensures mouseState == old(mouseState) && oldMouseState == old(oldMouseState)
    {
      holdCooldowns := holdCooldowns[key := 0];
    }

    /** One button's bookkeeping and events, as `CheckButton` states them; other keys are untouched. */
    method CheckButtonPress(key: InputKey, state: ButtonState, oldState: Option<ButtonState>, elapsedMs: nat)
      returns (events: seq<InputEvent>)
      requires Valid()
      modifies this
      ensures Valid()
      ensures (Timer(key), events) == CheckButton(key, old(Timer(key)), MaxHoldCooldown, state, oldState, elapsedMs)
      ensures forall k :: k != key ==> Timer(k) == old(Timer(k))
      ensures maxHoldCooldowns == old(maxHoldCooldowns)
      ensures mouseState == old(mouseState) && oldMouseState == old(oldMouseState)
    {
      ghost var timer := Timer(key);
      events := [];
      if oldState == Some(Pressed) {
        if state == Released {
          holdCooldowns := holdCooldowns[key := 0];
          totalHoldDurations := totalHoldDurations[key := 0];
          events := events + [ButtonReleasedEvent(key)];
        } else {
          holdCooldowns := holdCooldowns[key := Max(holdCooldowns[key] - elapsedMs, 0)];
          totalHoldDurations := totalHoldDurations[key := totalHoldDurations[key] + elapsedMs];
        }
      }

      assert Timer(key) == Decay(timer, state, oldState, elapsedMs);
      assert events == if oldState == Some(Pressed) && state == Released then [ButtonReleasedEvent(key)] else [];
      if state == Pressed && holdCooldowns[key] == 0 {
        events := events + [ButtonPressedEvent(key, totalHoldDurations[key])];
        holdCooldowns := holdCooldowns[key := maxHoldCooldowns[key]];
      }
    }

    /**
     * Takes the new mouse sample, raises the move event and both buttons'
     * events in that order, and keeps the sample as the previous one.
     */
    method Update(elapsedMs: nat, current: MouseState) returns (events: seq<InputEvent>)
      requires Valid()
      modifies this
      ensures Valid()
      ensures (Snapshot(), events) == Poll(old(Snapshot()), elapsedMs, current)
      ensures mouseState == Some(current)
      ensures maxHoldCooldowns == old(maxHoldCooldowns)
    {
      mouseState := Some(current);
      events := [];
      if oldMouseState.Some? && mouseState.value.position != oldMouseState.value.position {
        events := [MouseMovedEvent(mouseState.value, oldMouseState.value)];
      }
      var leftEvents := CheckButtonPress(LeftButton, current.leftButton, OldButton(oldMouseState, LeftButton), elapsedMs);
      var rightEvents := CheckButtonPress(RightButton, current.rightButton, OldButton(oldMouseState, RightButton), elapsedMs);
      events := events + leftEvents + rightEvents;
      oldMouseState := mouseState;
    }
  }
}
