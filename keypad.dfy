/** The stand-alone keypad: a snapshot of the sixteen logical keys. */
module Keypad {
  import opened KeyMap

  class Keypad {
    const keyboard: array<bool>

    ghost predicate Valid()
      reads this
    {
      keyboard.Length == KeypadSize
    }

    /** A keypad with every key released. */
    constructor ()
      ensures Valid() && fresh(keyboard)
      ensures keyboard[..] == seq(KeypadSize, _ => false)
    {
      keyboard := new bool[KeypadSize](_ => false);
    }

    /** Records a transition of a physical key; keys outside the table are ignored. */
    method SetKeyState(key: Keycode, pressed: bool)
      requires Valid()
      modifies keyboard
      ensures keyboard[..] == SetKey(old(keyboard[..]), key, pressed)
    {
      match KeyIndex(key)
      case None =>
      case Some(i) => keyboard[i] := pressed;
    }

    method PressKey(key: Keycode)
      requires Valid()
      modifies keyboard
      ensures keyboard[..] == SetKey(old(keyboard[..]), key, true)
    {
      SetKeyState(key, true);
    }

    method UnpressKey(key: Keycode)
      requires Valid()
      modifies keyboard
      ensures keyboard[..] == SetKey(old(keyboard[..]), key, false)
    {
      SetKeyState(key, false);
    }

    method IsPressed(code: nat) returns (pressed: bool)
      requires Valid() && code < KeypadSize
      ensures pressed == keyboard[code]
    {
      pressed := keyboard[code];
    }
  }
}
