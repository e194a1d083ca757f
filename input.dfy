/**
 * The input driver: a keypad snapshot that a batch of window events updates
 * in order.  Polling the window system is not modelled; a batch is given as
 * a sequence of abstract events.
 */
module Input {
  import opened Results
  import opened KeyMap

  /** A window event, as far as the driver looks at it. */
  datatype Event =
    | QuitEvent
    | KeyDown(keycode: Option<Keycode>)
    | KeyUp(keycode: Option<Keycode>)
    | OtherEvent

  datatype EventProcessingState = Quit | Void

  /** The snapshot and the state after a batch: key transitions in order, stopping at the first quit. */
  function ApplyEvents(keys: seq<bool>, events: seq<Event>): (r: (seq<bool>, EventProcessingState))
    requires |keys| == KeypadSize
    ensures |r.0| == KeypadSize
    decreases |events|
  {
    if events == [] then (keys, Void)
    else
      match events[0]
      case QuitEvent => (keys, Quit)
      case KeyDown(Some(k)) => ApplyEvents(SetKey(keys, k, true), events[1..])
      case KeyUp(Some(k)) => ApplyEvents(SetKey(keys, k, false), events[1..])
      case _ => ApplyEvents(keys, events[1..])
  }

  /** The transition an event makes to logical key `j`, if any. */
  function EventEffect(e: Event, j: nat): Option<bool>
  {
    match e
    case KeyDown(Some(k)) => if KeyIndex(k) == Some(j) then Some(true) else None
    case KeyUp(Some(k)) => if KeyIndex(k) == Some(j) then Some(false) else None
    case _ => None
  }

  /** The last transition of logical key `j` in a batch, if any. */
  function LastTransition(events: seq<Event>, j: nat): Option<bool>
    decreases |events|
  {
    if events == [] then None
    else
      match LastTransition(events[1..], j)
      case Some(p) => Some(p)
      case None => EventEffect(events[0], j)
  }

  predicate HasQuit(events: seq<Event>)
  {
    exists i :: 0 <= i < |events| && events[i].QuitEvent?
  }

  /** An event that neither quits nor carries a key code. */
  predicate IsInert(e: Event)
  {
    e.OtherEvent? || (e.KeyDown? && e.keycode.None?) || (e.KeyUp? && e.keycode.None?)
  }

  /** Without a quit, the batch ends in `Void` and the last transition of each key decides its state. */
  lemma {:induction false} LastTransitionWins(keys: seq<bool>, events: seq<Event>)
    requires |keys| == KeypadSize && !HasQuit(events)
    ensures ApplyEvents(keys, events).1 == Void
    ensures forall j :: 0 <= j < KeypadSize ==>
              ApplyEvents(keys, events).0[j] ==
                match LastTransition(events, j)
                case Some(p) => p
                case None => keys[j]
    decreases |events|
  {
    if events != [] {
      assert !HasQuit(events[1..]) by {
        forall i | 0 <= i < |events[1..]| ensures !events[1..][i].QuitEvent? {
          assert events[1..][i] == events[i + 1];
        }
      }
      assert !events[0].QuitEvent?;
      var keys1 := match events[0]
        case KeyDown(Some(k)) => SetKey(keys, k, true)
        case KeyUp(Some(k)) => SetKey(keys, k, false)
        case _ => keys;
      assert ApplyEvents(keys, events) == ApplyEvents(keys1, events[1..]);
      LastTransitionWins(keys1, events[1..]);
      forall j | 0 <= j < KeypadSize
        ensures keys1[j] == match EventEffect(events[0], j) case Some(p) => p case None => keys[j]
      {
      }
    }
  }

  /** A quit ends the batch: events after the first quit are not applied. */
  lemma {:induction false} QuitStopsBatch(keys: seq<bool>, events: seq<Event>, q: nat)
    requires |keys| == KeypadSize
    requires q < |events| && events[q].QuitEvent?
    requires forall i :: 0 <= i < q ==> !events[i].QuitEvent?
    ensures ApplyEvents(keys, events) == (ApplyEvents(keys, events[..q]).0, Quit)
    decreases q
  {
    if q > 0 {
      var keys1 := match events[0]
        case KeyDown(Some(k)) => SetKey(keys, k, true)
        case KeyUp(Some(k)) => SetKey(keys, k, false)
        case _ => keys;
      assert ApplyEvents(keys, events) == ApplyEvents(keys1, events[1..]);
      assert events[..q][0] == events[0] && events[..q][1..] == events[1..][..q - 1];
      assert ApplyEvents(keys, events[..q]) == ApplyEvents(keys1, events[1..][..q - 1]);
      QuitStopsBatch(keys1, events[1..], q - 1);
    }
  }

  /** The batch reports `Quit` exactly when it holds a quit event. */
  lemma {:induction false} QuitIffHasQuit(keys: seq<bool>, events: seq<Event>)
    requires |keys| == KeypadSize
    ensures ApplyEvents(keys, events).1 == Quit <==> HasQuit(events)
    decreases |events|
  {
    if events != [] && !events[0].QuitEvent? {
      var keys1 := match events[0]
        case KeyDown(Some(k)) => SetKey(keys, k, true)
        case KeyUp(Some(k)) => SetKey(keys, k, false)
        case _ => keys;
      QuitIffHasQuit(keys1, events[1..]);
      if HasQuit(events) {
        var i :| 0 <= i < |events| && events[i].QuitEvent?;
        assert events[1..][i - 1].QuitEvent?;
      }
      if HasQuit(events[1..]) {
        var i :| 0 <= i < |events[1..]| && events[1..][i].QuitEvent?;
        assert events[i + 1].QuitEvent?;
      }
    }
  }

  /** Events without a key code, and events of other kinds, change nothing. */
  lemma {:induction false} InertEventIgnored(keys: seq<bool>, before: seq<Event>, e: Event, after: seq<Event>)
    requires |keys| == KeypadSize && IsInert(e)
    ensures ApplyEvents(keys, before + [e] + after) == ApplyEvents(keys, before + after)
    decreases |before|
  {
    if before == [] {
      var events := before + [e] + after;
      assert events[0] == e && events[1..] == after;
      assert before + after == after;
      match e
      case OtherEvent =>
      case KeyDown(None) =>
      case KeyUp(None) =>
    } else {
      var keys1 := match before[0]
        case KeyDown(Some(k)) => SetKey(keys, k, true)
        case KeyUp(Some(k)) => SetKey(keys, k, false)
        case _ => keys;
      assert (before + [e] + after)[0] == before[0] && (before + [e] + after)[1..] == before[1..] + [e] + after;
      assert (before + after)[0] == before[0] && (before + after)[1..] == before[1..] + after;
      if !before[0].QuitEvent? {
        InertEventIgnored(keys1, before[1..], e, after);
      }
    }
  }

  class InputDriver {
    const keyboard: array<bool>

    ghost predicate Valid()
      reads this
    {
      keyboard.Length == KeypadSize
    }

    /** A driver with every key released. */
    constructor ()
      ensures Valid() && fresh(keyboard)
      ensures keyboard[..] == seq(KeypadSize, _ => false)
    {
      keyboard := new bool[KeypadSize](_ => false);
    }

    /** Records a transition of a physical key; keys outside the table are ignored. */
    method SetKeyState(key: Keycode, pressed: bool)
      requires Valid()
      modifies keyboard
      ensures keyboard[..] == SetKey(old(keyboard[..]), key, pressed)
    {
      match KeyIndex(key)
      case None =>
      case Some(i) => keyboard[i] := pressed;
    }

    method PressKey(key: Keycode)
      requires Valid()
      modifies keyboard
      ensures keyboard[..] == SetKey(old(keyboard[..]), key, true)
    {
      SetKeyState(key, true);
    }

    method UnpressKey(key: Keycode)
      requires Valid()
      modifies keyboard
      ensures keyboard[..] == SetKey(old(keyboard[..]), key, false)
    {
      SetKeyState(key, false);
    }

    method IsPressed(code: nat) returns (pressed: bool)
      requires Valid() && code < KeypadSize
      ensures pressed == keyboard[code]
    {
      pressed := keyboard[code];
    }

    /** Applies a batch of events in order and reports whether it asked to quit. */
    method ProcessEvents(events: seq<Event>) returns (state: EventProcessingState)
      requires Valid()
      modifies keyboard
      ensures (keyboard[..], state) == ApplyEvents(old(keyboard[..]), events)
    {
      for i := 0 to |events|
        invariant ApplyEvents(keyboard[..], events[i..]) == ApplyEvents(old(keyboard[..]), events)
      {
        assert events[i..][0] == events[i] && events[i..][1..] == events[i + 1..];
        match events[i]
        case QuitEvent =>
          return Quit;
        case KeyDown(Some(kc)) =>
          PressKey(kc);
        case KeyUp(Some(kc)) =>
          UnpressKey(kc);
        case _ =>
      }
      return Void;
    }
  }
}
