/**
 * Decoding of 16-bit CHIP-8 opcodes.
 *
 * The field extractors take the nibbles and bytes of the opcode.  The source
 * writes them as masks and shifts (`(op & 0x0f00) >> 8`); on a non-negative
 * integer below 0x10000 these are the divisions and remainders by powers of
 * 16 written here.  `Decode` follows the dispatch of the interpreter: on the
 * top nibble, then on the low nibble (family 8) or the low byte (families 0,
 * E and F), and answers `None` where the interpreter panics.
 */
module Decoder {
  import opened Bits
  import opened Results

  type Word = w: int | 0 <= w < 0x10000
  type Nibble = n: int | 0 <= n < 0x10
  type Address = a: int | 0 <= a < 0x1000

  /** `(op & 0xf000) >> 12`: the instruction family. */
  function Family(op: Word): Nibble { op / 0x1000 }

  /** `(op & 0x0f00) >> 8` */
  function GetX(op: Word): Nibble { op / 0x100 % 0x10 }

  /** `(op & 0x00f0) >> 4` */
  function GetY(op: Word): Nibble { op / 0x10 % 0x10 }

  /** `op & 0x000f` */
  function GetN(op: Word): Nibble { op % 0x10 }

  /** `op & 0x00ff` */
  function GetKk(op: Word): Byte { op % 0x100 }

  /** `op & 0x0fff` */
  function GetNnn(op: Word): Address { op % 0x1000 }

  /**
   * The fields are the four hexadecimal digits of the opcode, most
   * significant first: X is bits 8-11, Y bits 4-7, N bits 0-3, KK bits 0-7
   * and NNN bits 0-11.
   */
  lemma FieldsReassemble(op: Word)
    ensures op == Family(op) * 0x1000 + GetX(op) * 0x100 + GetY(op) * 0x10 + GetN(op)
    ensures GetKk(op) == GetY(op) * 0x10 + GetN(op)
    ensures GetNnn(op) == GetX(op) * 0x100 + GetKk(op)
  {
  }

  /** Conversely, the fields of an opcode put together from four digits are those digits. */
  lemma FieldsOfDigits(f: Nibble, x: Nibble, y: Nibble, n: Nibble)
    ensures var op: Word := f * 0x1000 + x * 0x100 + y * 0x10 + n;
      && Family(op) == f && GetX(op) == x && GetY(op) == y && GetN(op) == n
      && GetKk(op) == y * 0x10 + n && GetNnn(op) == x * 0x100 + y * 0x10 + n
  {
    var op := f * 0x1000 + x * 0x100 + y * 0x10 + n;
    assert op / 0x10 == f * 0x100 + x * 0x10 + y;
    assert op / 0x100 == f * 0x10 + x;
  }

  /** The instructions the interpreter implements. */
  datatype Instr =
    | ClearScreen                               // 00E0
    | Return                                    // 00EE
    | Jump(nnn: Address)                        // 1nnn
    | Call(nnn: Address)                        // 2nnn
    | SkipIfEqual(x: Nibble, kk: Byte)          // 3xkk
    | SkipIfNotEqual(x: Nibble, kk: Byte)       // 4xkk
    | LoadImmediate(x: Nibble, kk: Byte)        // 6xkk
    | AddImmediate(x: Nibble, kk: Byte)         // 7xkk
    | Copy(x: Nibble, y: Nibble)                // 8xy0
    | And(x: Nibble, y: Nibble)                 // 8xy2
    | AddWithCarry(x: Nibble, y: Nibble)        // 8xy4
    | SubtractWithFlag(x: Nibble, y: Nibble)    // 8xy5
    | LoadIndex(nnn: Address)                   // Annn
    | RandomAnd(x: Nibble, kk: Byte)            // Cxkk
    | Draw(x: Nibble, y: Nibble, n: Nibble)     // Dxyn
    | SkipIfKeyPressed(x: Nibble)               // Ex9E
    | SkipIfKeyNotPressed(x: Nibble)            // ExA1
    | GetDelay(x: Nibble)                       // Fx07
    | SetDelay(x: Nibble)                       // Fx15
    | SetSound(x: Nibble)                       // Fx18
    | FontAddress(x: Nibble)                    // Fx29
    | StoreBcd(x: Nibble)                       // Fx33
    | LoadRegisters(x: Nibble)                  // Fx65

  /** The instruction an opcode selects, or `None` for an unhandled opcode. */
  function Decode(op: Word): Option<Instr>
  {
    var x, y, n, kk, nnn := GetX(op), GetY(op), GetN(op), GetKk(op), GetNnn(op);
    match Family(op)
    case 0x0 =>
      // `op & 0x00ef`: the X nibble and bit 4 take no part in the choice
      var key := BitAnd(kk, 0xEF);
      if key == 0xE0 then Some(ClearScreen)
      else if key == 0xEE then Some(Return)
      else None
    case 0x1 => Some(Jump(nnn))
    case 0x2 => Some(Call(nnn))
    case 0x3 => Some(SkipIfEqual(x, kk))
    case 0x4 => Some(SkipIfNotEqual(x, kk))
    case 0x6 => Some(LoadImmediate(x, kk))
    case 0x7 => Some(AddImmediate(x, kk))
    case 0x8 =>
      if n == 0x0 then Some(Copy(x, y))
      else if n == 0x2 then Some(And(x, y))
      else if n == 0x4 then Some(AddWithCarry(x, y))
      else if n == 0x5 then Some(SubtractWithFlag(x, y))
      else None
    case 0xA => Some(LoadIndex(nnn))
    case 0xC => Some(RandomAnd(x, kk))
    case 0xD => Some(Draw(x, y, n))
    case 0xE =>
      if kk == 0x9E then Some(SkipIfKeyPressed(x))
      else if kk == 0xA1 then Some(SkipIfKeyNotPressed(x))
      else None
    case 0xF =>
      if kk == 0x07 then Some(GetDelay(x))
      else if kk == 0x15 then Some(SetDelay(x))
      else if kk == 0x18 then Some(SetSound(x))
      else if kk == 0x29 then Some(FontAddress(x))
      else if kk == 0x33 then Some(StoreBcd(x))
      else if kk == 0x65 then Some(LoadRegisters(x))
      else None
    case _ => None
  }

  /** The canonical opcode of each instruction. */
  function Encode(i: Instr): Word
  {
    match i
    case ClearScreen => 0x00E0
    case Return => 0x00EE
    case Jump(nnn) => 0x1000 + nnn
    case Call(nnn) => 0x2000 + nnn
    case SkipIfEqual(x, kk) => 0x3000 + x * 0x100 + kk
    case SkipIfNotEqual(x, kk) => 0x4000 + x * 0x100 + kk
    case LoadImmediate(x, kk) => 0x6000 + x * 0x100 + kk
    case AddImmediate(x, kk) => 0x7000 + x * 0x100 + kk
    case Copy(x, y) => 0x8000 + x * 0x100 + y * 0x10 + 0x0
    case And(x, y) => 0x8000 + x * 0x100 + y * 0x10 + 0x2
    case AddWithCarry(x, y) => 0x8000 + x * 0x100 + y * 0x10 + 0x4
    case SubtractWithFlag(x, y) => 0x8000 + x * 0x100 + y * 0x10 + 0x5
    case LoadIndex(nnn) => 0xA000 + nnn
    case RandomAnd(x, kk) => 0xC000 + x * 0x100 + kk
    case Draw(x, y, n) => 0xD000 + x * 0x100 + y * 0x10 + n
    case SkipIfKeyPressed(x) => 0xE09E + x * 0x100
    case SkipIfKeyNotPressed(x) => 0xE0A1 + x * 0x100
    case GetDelay(x) => 0xF007 + x * 0x100
    case SetDelay(x) => 0xF015 + x * 0x100
    case SetSound(x) => 0xF018 + x * 0x100
    case FontAddress(x) => 0xF029 + x * 0x100
    case StoreBcd(x) => 0xF033 + x * 0x100
    case LoadRegisters(x) => 0xF065 + x * 0x100
  }

  /** The opcodes the interpreter rejects, listed family by family. */
  predicate Unsupported(op: Word)
  {
    var f, n, kk := Family(op), GetN(op), GetKk(op);
    || f == 0x5 || f == 0x9 || f == 0xB
    || (f == 0x0 && kk !in {0xE0, 0xF0, 0xEE, 0xFE})
    || (f == 0x8 && n !in {0x0, 0x2, 0x4, 0x5})
    || (f == 0xE && kk !in {0x9E, 0xA1})
    || (f == 0xF && kk !in {0x07, 0x15, 0x18, 0x29, 0x33, 0x65})
  }

  /** Decoding fails exactly on the unsupported opcodes. */
  lemma DecodeFailsExactly(op: Word)
    ensures Decode(op).None? <==> Unsupported(op)
  {
    var f, kk := Family(op), GetKk(op);
    if f == 0 {
      SystemKeyCases(kk);
    } else if f == 8 {
    } else if f == 0xE {
    } else if f == 0xF {
    } else {
    }
  }

  /** `kk & 0xEF` selects clear for 0xE0 and 0xF0, return for 0xEE and 0xFE. */
  lemma SystemKeyCases(kk: Byte)
    ensures BitAnd(kk, 0xEF) == 0xE0 <==> kk == 0xE0 || kk == 0xF0
    ensures BitAnd(kk, 0xEF) == 0xEE <==> kk == 0xEE || kk == 0xFE
  {
    BitAndEF(kk);
  }

  /**
   * Family 0 is keyed on `op & 0x00ef`: any X nibble, and bit 4 of the low
   * byte, also select clear or return (0x00F0 and 0x0XE0 clear the screen).
   */
  lemma FamilyZeroAliases(op: Word)
    ensures Decode(op) == Some(ClearScreen) <==> Family(op) == 0 && (GetKk(op) == 0xE0 || GetKk(op) == 0xF0)
    ensures Decode(op) == Some(Return) <==> Family(op) == 0 && (GetKk(op) == 0xEE || GetKk(op) == 0xFE)
  {
    if Family(op) == 0 {
      SystemKeyCases(GetKk(op));
    }
  }

  /** Every instruction decodes back from its canonical opcode. */
  lemma DecodeEncode(i: Instr)
    ensures Decode(Encode(i)) == Some(i)
  {
    if i.ClearScreen? || i.Return? || i.Jump? || i.Call? || i.LoadIndex? {
      DecodeEncodeAddressed(i);
    } else if i.SkipIfEqual? || i.SkipIfNotEqual? || i.LoadImmediate? || i.AddImmediate? || i.RandomAnd? {
      DecodeEncodeImmediate(i);
    } else if i.Copy? || i.And? || i.AddWithCarry? || i.SubtractWithFlag? || i.Draw? {
      DecodeEncodeRegisters(i);
    } else {
      DecodeEncodeMisc(i);
    }
  }

  lemma DecodeEncodeAddressed(i: Instr)
    requires i.ClearScreen? || i.Return? || i.Jump? || i.Call? || i.LoadIndex?
    ensures Decode(Encode(i)) == Some(i)
  {
    match i
    case ClearScreen => FieldsOfDigits(0, 0, 0xE, 0); SystemKeyCases(0xE0);
    case Return => FieldsOfDigits(0, 0, 0xE, 0xE); SystemKeyCases(0xEE);
    case Jump(nnn) => FieldsOfDigits(1, nnn / 0x100, nnn / 0x10 % 0x10, nnn % 0x10);
    case Call(nnn) => FieldsOfDigits(2, nnn / 0x100, nnn / 0x10 % 0x10, nnn % 0x10);
    case LoadIndex(nnn) => FieldsOfDigits(0xA, nnn / 0x100, nnn / 0x10 % 0x10, nnn % 0x10);
  }

  lemma DecodeEncodeImmediate(i: Instr)
    requires i.SkipIfEqual? || i.SkipIfNotEqual? || i.LoadImmediate? || i.AddImmediate? || i.RandomAnd?
    ensures Decode(Encode(i)) == Some(i)
  {
    match i
    case SkipIfEqual(x, kk) => FieldsOfImmediate(3, x, kk);
    case SkipIfNotEqual(x, kk) => FieldsOfImmediate(4, x, kk);
    case LoadImmediate(x, kk) => FieldsOfImmediate(6, x, kk);
    case AddImmediate(x, kk) => FieldsOfImmediate(7, x, kk);
    case RandomAnd(x, kk) => FieldsOfImmediate(0xC, x, kk);
  }

  /** The fields of an opcode put together from a family, a register and a byte. */
  lemma FieldsOfImmediate(f: Nibble, x: Nibble, kk: Byte)
    ensures var op: Word := f * 0x1000 + x * 0x100 + kk;
      Family(op) == f && GetX(op) == x && GetKk(op) == kk
  {
    FieldsOfDigits(f, x, kk / 0x10, kk % 0x10);
  }

  lemma DecodeEncodeRegisters(i: Instr)
    requires i.Copy? || i.And? || i.AddWithCarry? || i.SubtractWithFlag? || i.Draw?
    ensures Decode(Encode(i)) == Some(i)
  {
    match i
    case Copy(x, y) => FieldsOfDigits(8, x, y, 0);
    case And(x, y) => FieldsOfDigits(8, x, y, 2);
    case AddWithCarry(x, y) => FieldsOfDigits(8, x, y, 4);
    case SubtractWithFlag(x, y) => FieldsOfDigits(8, x, y, 5);
    case Draw(x, y, n) => FieldsOfDigits(0xD, x, y, n);
  }

  lemma DecodeEncodeMisc(i: Instr)
    requires i.SkipIfKeyPressed? || i.SkipIfKeyNotPressed? || i.GetDelay? || i.SetDelay? || i.SetSound?
          || i.FontAddress? || i.StoreBcd? || i.LoadRegisters?
    ensures Decode(Encode(i)) == Some(i)
  {
    match i
    case SkipIfKeyPressed(x) => FieldsOfImmediate(0xE, x, 0x9E);
    case SkipIfKeyNotPressed(x) => FieldsOfImmediate(0xE, x, 0xA1);
    case GetDelay(x) => FieldsOfImmediate(0xF, x, 0x07);
    case SetDelay(x) => FieldsOfImmediate(0xF, x, 0x15);
    case SetSound(x) => FieldsOfImmediate(0xF, x, 0x18);
    case FontAddress(x) => FieldsOfImmediate(0xF, x, 0x29);
    case StoreBcd(x) => FieldsOfImmediate(0xF, x, 0x33);
    case LoadRegisters(x) => FieldsOfImmediate(0xF, x, 0x65);
  }

  /** Apart from the aliases of family 0, an opcode is the encoding of what it decodes to. */
  lemma EncodeDecode(op: Word)
    requires Decode(op).Some? && !Decode(op).value.ClearScreen? && !Decode(op).value.Return?
    ensures Encode(Decode(op).value) == op
  {
    var f := Family(op);
    if f == 0x8 {
      EncodeDecodeArithmetic(op);
    } else if f == 0xE || f == 0xF {
      EncodeDecodeKeyed(op);
    } else if f != 0x0 {
      EncodeDecodeFields(op);
    }
  }

  lemma EncodeDecodeFields(op: Word)
    requires Family(op) !in {0x0, 0x8, 0xE, 0xF} && Decode(op).Some?
    ensures Encode(Decode(op).value) == op
  {
    FieldsReassemble(op);
  }

  lemma EncodeDecodeArithmetic(op: Word)
    requires Family(op) == 0x8 && Decode(op).Some?
    ensures Encode(Decode(op).value) == op
  {
    FieldsReassemble(op);
  }

  lemma EncodeDecodeKeyed(op: Word)
    requires (Family(op) == 0xE || Family(op) == 0xF) && Decode(op).Some?
    ensures Encode(Decode(op).value) == op
  {
    FieldsReassemble(op);
  }
}
