/**
 * The fixed table from physical keys to the sixteen logical keys 0x0-0xF of
 * the CHIP-8 keypad, and the effect of one key transition on a keypad
 * snapshot.  Both the stand-alone keypad and the input driver use it.
 *
 *   1 2 3 4        1 2 3 C
 *   Q W E R   ->   4 5 6 D
 *   A S D F        7 8 9 E
 *   Z X C V        A 0 B F
 */
module KeyMap {
  import opened Results

  const KeypadSize: nat := 16

  /** A physical key code; `Other` stands for every key outside the table. */
  datatype Keycode =
    | Num1 | Num2 | Num3 | Num4
    | Q | W | E | R
    | A | S | D | F
    | Z | X | C | V
    | Other(code: int)

  /** The logical key a physical key is mapped to, if any. */
  function KeyIndex(k: Keycode): (i: Option<nat>)
    ensures i.Some? ==> i.value < KeypadSize
    ensures i.None? <==> k.Other?
  {
    match k
    case Num1 => Some(0x1)
    case Num2 => Some(0x2)
    case Num3 => Some(0x3)
    case Num4 => Some(0xC)
    case Q => Some(0x4)
    case W => Some(0x5)
    case E => Some(0x6)
    case R => Some(0xD)
    case A => Some(0x7)
    case S => Some(0x8)
    case D => Some(0x9)
    case F => Some(0xE)
    case Z => Some(0xA)
    case X => Some(0x0)
    case C => Some(0xB)
    case V => Some(0xF)
    case Other(_) => None
  }

  /** The physical key of each logical key, read off the table backwards. */
  function KeyFor(i: nat): Keycode
    requires i < KeypadSize
  {
    [X, Num1, Num2, Num3, Q, W, E, A, S, D, Z, C, Num4, R, F, V][i]
  }

  /** The table is a bijection between the 16 mapped keys and 0x0-0xF. */
  lemma KeyTableBijective()
    ensures forall i :: 0 <= i < KeypadSize ==> KeyIndex(KeyFor(i)) == Some(i)
    ensures forall k :: KeyIndex(k).Some? ==> KeyFor(KeyIndex(k).value) == k
    ensures forall k1, k2 :: KeyIndex(k1).Some? && KeyIndex(k1) == KeyIndex(k2) ==> k1 == k2
  {
    forall i | 0 <= i < KeypadSize
      ensures KeyIndex(KeyFor(i)) == Some(i)
    {
      KeyForAt(i);
    }
    forall k | KeyIndex(k).Some?
      ensures KeyFor(KeyIndex(k).value) == k
    {
      match k
      case Num1 =>
      case Num2 =>
      case Num3 =>
      case Num4 =>
      case Q =>
      case W =>
      case E =>
      case R =>
      case A =>
      case S =>
      case D =>
      case F =>
      case Z =>
      case X =>
      case C =>
      case V =>
    }
  }

  lemma KeyForAt(i: nat)
    requires i < KeypadSize
    ensures KeyIndex(KeyFor(i)) == Some(i)
  {
    if i < 8 {
      if i < 4 {
        if i < 2 { } else { }
      } else {
        if i < 6 { } else { }
      }
    } else {
      if i < 12 {
        if i < 10 { } else { }
      } else {
        if i < 14 { } else { }
      }
    }
  }

  /** The snapshot after `key` goes up or down: only its logical key changes. */
  function SetKey(keys: seq<bool>, key: Keycode, pressed: bool): (keys': seq<bool>)
    requires |keys| == KeypadSize
    ensures |keys'| == KeypadSize
    ensures forall j :: 0 <= j < KeypadSize ==>
              keys'[j] == if KeyIndex(key) == Some(j) then pressed else keys[j]
  {
    match KeyIndex(key)
    case None => keys
    case Some(i) => keys[i := pressed]
  }

  /** Pressing a key twice has the effect of pressing it once. */
  lemma SetKeyIdempotent(keys: seq<bool>, key: Keycode, pressed: bool)
    requires |keys| == KeypadSize
    ensures SetKey(SetKey(keys, key, pressed), key, pressed) == SetKey(keys, key, pressed)
  {
  }

  /** The later of two transitions of the same key decides its state. */
  lemma SetKeyLastWins(keys: seq<bool>, key: Keycode, first: bool, second: bool)
    requires |keys| == KeypadSize
    ensures SetKey(SetKey(keys, key, first), key, second) == SetKey(keys, key, second)
  {
  }

  /** Press followed by release leaves the key released. */
  lemma PressThenRelease(keys: seq<bool>, key: Keycode)
    requires |keys| == KeypadSize && KeyIndex(key).Some?
    ensures SetKey(SetKey(keys, key, true), key, false)[KeyIndex(key).value] == false
  {
  }
}
