/**
 * What the instruction set promises, proved of the definitions in module
 * `Semantics`: which part of the machine each instruction may change, where
 * control goes, the subroutine stack discipline, the arithmetic flags, the
 * decimal conversion, the timers, and the shapes a cycle keeps.
 */
module Properties {
  import opened Results
  import opened Bits
  import opened Decoder
  import opened Video
  import opened Sprite
  import opened KeyMap
  import opened Input
  import opened Semantics

  // ---------------------------------------------------------------------
  // Booting and loading

  /** A fresh machine holds the font at address 0 and zeros above it, and starts at `ProgramStart` with an empty stack. */
  lemma BootState()
    ensures var m := Boot();
      && m.memory[..|Font|] == Font
      && (forall a :: |Font| <= a < MemorySize ==> m.memory[a] == 0)
      && m.pc == ProgramStart && m.sp == 0 && m.index == 0
      && (forall i :: 0 <= i < RegisterCount ==> m.registers[i] == 0)
      && m.gfx == Blank() && !m.drawFlag
  {
    var m := Boot();
    assert m.memory[..|Font|] == Font;
  }

  /**
   * A program of at most `MaxRomSize` bytes lands at `ProgramStart` and no
   * other byte of memory changes; a longer one runs off the end of memory.
   */
  lemma LoadRomPlacesProgram(m: Machine, rom: seq<Byte>)
    requires WellFormed(m)
    ensures LoadRom(m, rom).Success? <==> |rom| <= MaxRomSize
    ensures LoadRom(m, rom).Failure? ==> LoadRom(m, rom).error == MemoryOutOfBounds(MemorySize)
    ensures LoadRom(m, rom).Success? ==>
      var m' := LoadRom(m, rom).value;
      && WellFormed(m')
      && (forall a :: 0 <= a < MemorySize ==>
            m'.memory[a] == if ProgramStart <= a < ProgramStart + |rom| then rom[a - ProgramStart] else m.memory[a])
      && m' == m.(memory := m'.memory)
  {
    if |rom| <= MaxRomSize {
      var m' := LoadRom(m, rom).value;
      forall a | 0 <= a < MemorySize
        ensures m'.memory[a] == if ProgramStart <= a < ProgramStart + |rom| then rom[a - ProgramStart] else m.memory[a]
      {
        if a < ProgramStart {
          assert m'.memory[a] == m.memory[..ProgramStart][a];
        } else if a < ProgramStart + |rom| {
          assert m'.memory[a] == rom[a - ProgramStart];
        } else {
          assert m'.memory[a] == m.memory[ProgramStart + |rom|..][a - ProgramStart - |rom|];
        }
      }
    }
  }

  /** Loading a program into a fresh machine keeps the font. */
  lemma LoadRomKeepsFont(rom: seq<Byte>)
    requires |rom| <= MaxRomSize
    ensures LoadRom(Boot(), rom).Success? && LoadRom(Boot(), rom).value.memory[..|Font|] == Font
  {
    BootState();
    LoadRomPlacesProgram(Boot(), rom);
    var m' := LoadRom(Boot(), rom).value;
    forall a | 0 <= a < |Font|
      ensures m'.memory[..|Font|][a] == Font[a]
    {
      assert Boot().memory[..|Font|][a] == Font[a];
    }
  }

  /** The opcode is the byte at pc followed by the byte after it; a pc without two bytes after it faults. */
  lemma FetchBigEndian(m: Machine)
    requires WellFormed(m)
    ensures Fetch(m).Success? <==> m.pc + 1 < MemorySize
    ensures Fetch(m).Success? ==> Fetch(m).value / 0x100 == m.memory[m.pc] && Fetch(m).value % 0x100 == m.memory[m.pc + 1]
    ensures Fetch(m).Failure? ==> Fetch(m).error == MemoryOutOfBounds(if m.pc < MemorySize then m.pc + 1 else m.pc)
  {
  }

  // ---------------------------------------------------------------------
  // What each instruction may change

  predicate WritesMemory(i: Instr) { i.StoreBcd? }
  predicate WritesStack(i: Instr) { i.Call? }
  predicate WritesScreen(i: Instr) { i.ClearScreen? || i.Draw? }
  predicate WritesIndex(i: Instr) { i.LoadIndex? || i.FontAddress? }
  predicate WritesTimers(i: Instr) { i.SetDelay? || i.SetSound? }
  predicate WritesRegisters(i: Instr)
  {
    || i.LoadImmediate? || i.AddImmediate? || i.Copy? || i.And? || i.AddWithCarry? || i.SubtractWithFlag?
    || i.RandomAnd? || i.Draw? || i.GetDelay? || i.LoadRegisters?
  }
  predicate Branches(i: Instr) { i.Jump? || i.Call? || i.Return? }
  predicate Skips(i: Instr)
  {
    i.SkipIfEqual? || i.SkipIfNotEqual? || i.SkipIfKeyPressed? || i.SkipIfKeyNotPressed?
  }

  /** An instruction changes only the parts of the machine it is about; the opcode register never changes. */
  lemma ExecFrame(m: Machine, instr: Instr, keys: seq<bool>, rnd: Byte)
    requires WellFormed(m) && |keys| == KeypadSize
    requires Exec(m, instr, keys, rnd).Success?
    ensures var m' := Exec(m, instr, keys, rnd).value;
      && m'.opcode == m.opcode
      && (!WritesMemory(instr) ==> m'.memory == m.memory)
      && (!WritesStack(instr) ==> m'.stack == m.stack)
      && (!WritesScreen(instr) ==> m'.gfx == m.gfx && m'.drawFlag == m.drawFlag)
      && (WritesScreen(instr) ==> m'.drawFlag)
      && (!WritesIndex(instr) ==> m'.index == m.index)
      && (!WritesTimers(instr) ==> m'.delayTimer == m.delayTimer && m'.soundTimer == m.soundTimer)
      && (!WritesRegisters(instr) ==> m'.registers == m.registers)
      && (!(instr.Call? || instr.Return?) ==> m'.sp == m.sp)
  {
  }

  /**
   * Control flow: a jump or call goes to its address, a return to the
   * address on top of the stack, a skip advances by two instructions exactly
   * when its condition holds, and every other instruction by one.
   */
  lemma ExecProgramCounter(m: Machine, instr: Instr, keys: seq<bool>, rnd: Byte)
    requires WellFormed(m) && |keys| == KeypadSize
    requires Exec(m, instr, keys, rnd).Success?
    ensures var pc' := Exec(m, instr, keys, rnd).value.pc;
      && (instr.Jump? || instr.Call? ==> pc' == instr.nnn)
      && (instr.Return? ==> pc' == m.stack[m.sp - 1])
      && (Skips(instr) ==> (pc' == m.pc + 4 <==> SkipTaken(m, instr, keys)) && pc' in {m.pc + 2, m.pc + 4})
      && (!Branches(instr) && !Skips(instr) ==> pc' == m.pc + 2)
  {
  }

  /** The condition under which a skip instruction skips. */
  predicate SkipTaken(m: Machine, instr: Instr, keys: seq<bool>)
    requires WellFormed(m) && |keys| == KeypadSize && Skips(instr)
  {
    match instr
    case SkipIfEqual(x, kk) => m.registers[x] == kk
    case SkipIfNotEqual(x, kk) => m.registers[x] != kk
    case SkipIfKeyPressed(x) => m.registers[x] < KeypadSize && keys[m.registers[x]]
    case SkipIfKeyNotPressed(x) => m.registers[x] < KeypadSize && !keys[m.registers[x]]
  }

  /** Key skips look up Vx on the keypad and fault when Vx is not a key. */
  lemma KeySkipFaults(m: Machine, x: Nibble, keys: seq<bool>, rnd: Byte)
    requires WellFormed(m) && |keys| == KeypadSize
    ensures Exec(m, SkipIfKeyPressed(x), keys, rnd).Failure? <==> m.registers[x] >= KeypadSize
    ensures Exec(m, SkipIfKeyNotPressed(x), keys, rnd).Failure? <==> m.registers[x] >= KeypadSize
    ensures Exec(m, SkipIfKeyPressed(x), keys, rnd).Failure? ==>
              Exec(m, SkipIfKeyPressed(x), keys, rnd).error == KeyOutOfRange(m.registers[x])
    ensures Exec(m, SkipIfKeyNotPressed(x), keys, rnd).Failure? ==>
              Exec(m, SkipIfKeyNotPressed(x), keys, rnd).error == KeyOutOfRange(m.registers[x])
  {
  }

  // ---------------------------------------------------------------------
  // Subroutines

  /** A call faults exactly when all sixteen stack slots are in use; a return when none is. */
  lemma StackFaults(m: Machine, nnn: Address, keys: seq<bool>, rnd: Byte)
    requires WellFormed(m) && |keys| == KeypadSize
    ensures Exec(m, Call(nnn), keys, rnd) == Failure(StackOverflow) <==> m.sp == StackSize
    ensures Exec(m, Call(nnn), keys, rnd).Success? <==> m.sp < StackSize
    ensures Exec(m, Return, keys, rnd) == Failure(StackUnderflow) <==> m.sp == 0
    ensures Exec(m, Return, keys, rnd).Success? <==> m.sp > 0
  {
  }

  /**
   * A return right after a call resumes at the instruction after the call,
   * with the stack pointer back where it was; the only trace left is the
   * return address in the slot the call used.
   */
  lemma CallThenReturn(m: Machine, nnn: Address, keys: seq<bool>, rnd: Byte)
    requires WellFormed(m) && |keys| == KeypadSize && m.sp < StackSize
    ensures Exec(m, Call(nnn), keys, rnd).Success?
    ensures var m1 := Exec(m, Call(nnn), keys, rnd).value;
      && WellFormed(m1)
      && Exec(m1, Return, keys, rnd) == Success(m.(stack := m.stack[m.sp := m.pc + 2], pc := m.pc + 2))
  {
  }

  // ---------------------------------------------------------------------
  // Arithmetic

  /** 8xy4 with X other than 15: VF and Vx together hold the full nine-bit sum; no other register changes. */
  lemma AddWithCarryExact(m: Machine, x: Nibble, y: Nibble, keys: seq<bool>, rnd: Byte)
    requires WellFormed(m) && |keys| == KeypadSize && x != Flag
    ensures var r := Exec(m, AddWithCarry(x, y), keys, rnd).value.registers;
      && r[Flag] <= 1
      && r[Flag] as int * 0x100 + r[x] == m.registers[x] as int + m.registers[y]
      && (r[Flag] == 1 <==> m.registers[x] as int + m.registers[y] > 0xFF)
      && (forall j :: 0 <= j < RegisterCount && j != x && j != Flag ==> r[j] == m.registers[j])
  {
  }

  /** 8xy4 with X = 15: the carry is written last, so VF ends as the carry and the sum is lost. */
  lemma AddWithCarryIntoFlag(m: Machine, y: Nibble, keys: seq<bool>, rnd: Byte)
    requires WellFormed(m) && |keys| == KeypadSize
    ensures Exec(m, AddWithCarry(Flag, y), keys, rnd).value.registers ==
              m.registers[Flag := if m.registers[Flag] as int + m.registers[y] > 0xFF then 1 else 0]
  {
  }

  /**
   * 8xy5 with X and Y other than 15: Vx becomes Vx - Vy modulo 256 (adding
   * Vy back gives the old Vx) and VF is 1 exactly when Vx was greater than Vy.
   */
  lemma SubtractExact(m: Machine, x: Nibble, y: Nibble, keys: seq<bool>, rnd: Byte)
    requires WellFormed(m) && |keys| == KeypadSize && x != Flag && y != Flag
    ensures var r := Exec(m, SubtractWithFlag(x, y), keys, rnd).value.registers;
      && (r[x] as int + m.registers[y]) % 0x100 == m.registers[x]
      && (r[Flag] == 1 <==> m.registers[x] > m.registers[y])
      && r[Flag] <= 1
      && (forall j :: 0 <= j < RegisterCount && j != x && j != Flag ==> r[j] == m.registers[j])
  {
  }

  /** 8xy5 with Y = 15: the flag is written before the subtraction, so Vx loses the new flag, not the old VF. */
  lemma SubtractFlagFirst(m: Machine, x: Nibble, keys: seq<bool>, rnd: Byte)
    requires WellFormed(m) && |keys| == KeypadSize && x != Flag
    ensures var r := Exec(m, SubtractWithFlag(x, Flag), keys, rnd).value.registers;
      var f := if m.registers[x] > m.registers[Flag] then 1 else 0;
      r[Flag] == f && r[x] == (m.registers[x] as int - f) % 0x100
  {
  }

  /** 7xkk wraps around and leaves VF alone. */
  lemma AddImmediateWraps(m: Machine, x: Nibble, kk: Byte, keys: seq<bool>, rnd: Byte)
    requires WellFormed(m) && |keys| == KeypadSize
    ensures var r := Exec(m, AddImmediate(x, kk), keys, rnd).value.registers;
      && (r[x] as int + 0x100 - kk) % 0x100 == m.registers[x]
      && (x != Flag ==> r[Flag] == m.registers[Flag])
  {
  }

  /** Cxkk: the random byte is masked by KK, so Vx has no bit set outside KK; KK = 0 gives 0. */
  lemma RandomAndMasked(m: Machine, x: Nibble, kk: Byte, keys: seq<bool>, rnd: Byte)
    requires WellFormed(m) && |keys| == KeypadSize
    ensures var r := Exec(m, RandomAnd(x, kk), keys, rnd).value.registers;
      && BitAnd(r[x], BitNot(kk)) == 0
      && (kk == 0 ==> r[x] == 0)
  {
    BitAndMask(rnd, kk);
    if kk == 0 {
      Pow2Eight();
      AndBitsZeroRight(rnd, 8);
    }
  }

  lemma {:induction false} AndBitsZeroRight(a: nat, w: nat)
    ensures AndBits(a, 0, w) == 0
  {
    if w > 0 {
      AndBitsZeroRight(a / 2, w - 1);
    }
  }

  // ---------------------------------------------------------------------
  // Memory instructions

  /**
   * Fx33: memory at I, I + 1 and I + 2 receives the decimal digits of Vx,
   * hundreds first, and no other byte changes; it faults when I + 2 is
   * outside memory.
   */
  lemma StoreBcdDigits(m: Machine, x: Nibble, keys: seq<bool>, rnd: Byte)
    requires WellFormed(m) && |keys| == KeypadSize
    ensures Exec(m, StoreBcd(x), keys, rnd).Failure? <==> m.index + 2 >= MemorySize
    ensures Exec(m, StoreBcd(x), keys, rnd).Failure? ==> Exec(m, StoreBcd(x), keys, rnd).error == MemoryOutOfBounds(MemorySize)
    ensures Exec(m, StoreBcd(x), keys, rnd).Success? ==>
      var mem := Exec(m, StoreBcd(x), keys, rnd).value.memory;
      var i := m.index;
      && mem[i] <= 9 && mem[i + 1] <= 9 && mem[i + 2] <= 9
      && mem[i] * 100 + mem[i + 1] * 10 + mem[i + 2] == m.registers[x]
      && |mem| == MemorySize
      && (forall a :: 0 <= a < MemorySize && !(i <= a <= i + 2) ==> mem[a] == m.memory[a])
  {
  }

  /**
   * Fx65: V0..Vx receive the bytes at I..I + x, the other registers and I
   * keep their values; it faults when I + x is outside memory.
   */
  lemma LoadRegistersCopies(m: Machine, x: Nibble, keys: seq<bool>, rnd: Byte)
    requires WellFormed(m) && |keys| == KeypadSize
    ensures Exec(m, LoadRegisters(x), keys, rnd).Failure? <==> m.index + x >= MemorySize
    ensures Exec(m, LoadRegisters(x), keys, rnd).Failure? ==>
              Exec(m, LoadRegisters(x), keys, rnd).error == MemoryOutOfBounds(MemorySize)
    ensures Exec(m, LoadRegisters(x), keys, rnd).Success? ==>
      var m' := Exec(m, LoadRegisters(x), keys, rnd).value;
      && |m'.registers| == RegisterCount
      && (forall i :: 0 <= i <= x ==> m'.registers[i] == m.memory[m.index + i])
      && (forall i :: x < i < RegisterCount ==> m'.registers[i] == m.registers[i])
      && m'.index == m.index
  {
  }

  /**
   * Fx29 points I at the glyph of digit Vx: with the font in place and Vx a
   * hex digit, the five bytes at I are the rows of that digit's glyph.
   */
  lemma FontAddressFindsGlyph(m: Machine, x: Nibble, keys: seq<bool>, rnd: Byte)
    requires WellFormed(m) && |keys| == KeypadSize
    requires m.memory[..|Font|] == Font && m.registers[x] < 0x10
    ensures var m' := Exec(m, FontAddress(x), keys, rnd).value;
      var d := m.registers[x];
      && m'.index + GlyphHeight <= |Font|
      && m'.memory[m'.index..m'.index + GlyphHeight] == Font[d * GlyphHeight..(d + 1) * GlyphHeight]
  {
    var m' := Exec(m, FontAddress(x), keys, rnd).value;
    var d := m.registers[x];
    assert m'.memory[..|Font|] == Font;
    assert m'.memory[m'.index..m'.index + GlyphHeight] == m'.memory[..|Font|][d * GlyphHeight..(d + 1) * GlyphHeight];
  }

  /** Dxyn faults exactly when the sprite runs past the end of memory; otherwise VF ends 0 or 1 and the screen needs a redraw. */
  lemma DrawOutcome(m: Machine, x: Nibble, y: Nibble, n: Nibble, keys: seq<bool>, rnd: Byte)
    requires WellFormed(m) && |keys| == KeypadSize
    ensures Exec(m, Draw(x, y, n), keys, rnd).Failure? <==> m.index + n > MemorySize
    ensures Exec(m, Draw(x, y, n), keys, rnd).Failure? ==> Exec(m, Draw(x, y, n), keys, rnd).error == MemoryOutOfBounds(MemorySize)
    ensures Exec(m, Draw(x, y, n), keys, rnd).Success? ==>
      var m' := Exec(m, Draw(x, y, n), keys, rnd).value;
      && m'.registers[Flag] <= 1 && m'.drawFlag
      && (forall j :: 0 <= j < RegisterCount && j != Flag ==> m'.registers[j] == m.registers[j])
  {
    if m.index + n <= MemorySize {
      DrawSpriteKeeps(m.gfx, m.registers, m.memory, m.index, x, y, n);
    }
  }

  // ---------------------------------------------------------------------
  // Timers and the cycle

  /** A timer counts down by one per cycle and stops at zero. */
  lemma CountDownSaturates(t: Byte)
    ensures t > 0 ==> CountDown(t) == t - 1
    ensures CountDown(t) == 0 <==> t <= 1
    ensures CountDown(t) <= t
  {
  }

  /** Every successful instruction keeps a screen of 0/1 cells 0/1. */
  lemma ExecKeepsBinary(m: Machine, instr: Instr, keys: seq<bool>, rnd: Byte)
    requires WellFormed(m) && |keys| == KeypadSize && IsBinary(m.gfx)
    requires Exec(m, instr, keys, rnd).Success?
    ensures IsBinary(Exec(m, instr, keys, rnd).value.gfx)
  {
    match instr
    case Draw(x, y, n) =>
      DrawSpriteKeeps(m.gfx, m.registers, m.memory, m.index, x, y, n);
    case _ =>
  }

  /** The opcode, instruction and intermediate machine of a successful cycle. */
  predicate CycleRuns(m: Machine, keys: seq<bool>, rnd: Byte, op: Word, instr: Instr, m1: Machine)
    requires WellFormed(m) && |keys| == KeypadSize
  {
    && Fetch(m) == Success(op)
    && Decode(op) == Some(instr)
    && Exec(m.(opcode := op), instr, keys, rnd) == Success(m1)
  }

  /**
   * A successful cycle executes the instruction at pc and keeps its effect
   * in every part of the machine but the timers, which it counts down, and
   * the redraw flag, which it clears.  It keeps the machine well formed and
   * its screen 0/1; the screen is presented exactly when the flag was
   * already set or the instruction was a clear or a draw.
   */
  lemma CycleEffect(m: Machine, keys: seq<bool>, rnd: Byte)
    requires WellFormed(m) && |keys| == KeypadSize
    requires Cycle(m, keys, rnd).Success?
    ensures exists op, instr, m1 :: CycleRuns(m, keys, rnd, op, instr, m1)
    ensures forall op, instr, m1 :: CycleRuns(m, keys, rnd, op, instr, m1) ==>
      var s := Cycle(m, keys, rnd).value;
      && s.machine.opcode == op
      && s.machine.pc == m1.pc
      && s.machine.(delayTimer := m1.delayTimer, soundTimer := m1.soundTimer, drawFlag := m1.drawFlag) == m1
      && s.machine.delayTimer == CountDown(m1.delayTimer)
      && s.machine.soundTimer == CountDown(m1.soundTimer)
      && !s.machine.drawFlag
      && (s.presented <==> m.drawFlag || WritesScreen(instr))
      && WellFormed(s.machine)
      && (IsBinary(m.gfx) ==> IsBinary(s.machine.gfx))
  {
    var op := Fetch(m).value;
    var instr := Decode(op).value;
    var m0 := m.(opcode := op);
    var m1 := Exec(m0, instr, keys, rnd).value;
    assert CycleRuns(m, keys, rnd, op, instr, m1);
    ExecFrame(m0, instr, keys, rnd);
    if IsBinary(m.gfx) {
      ExecKeepsBinary(m0, instr, keys, rnd);
    }
  }

  /** A cycle faults on an unhandled opcode exactly when the opcode is one the decoder rejects. */
  lemma CycleUnknownOpcode(m: Machine, keys: seq<bool>, rnd: Byte)
    requires WellFormed(m) && |keys| == KeypadSize && Fetch(m).Success?
    ensures Cycle(m, keys, rnd) == Failure(UnknownOpcode(Fetch(m).value)) <==> Unsupported(Fetch(m).value)
  {
    var op := Fetch(m).value;
    DecodeFailsExactly(op);
    if Decode(op).Some? {
      var instr := Decode(op).value;
      match Exec(m.(opcode := op), instr, keys, rnd)
      case Success(_) =>
      case Failure(e) =>
        assert e != UnknownOpcode(op);
    }
  }

  // ---------------------------------------------------------------------
  // The main loop

  /**
   * Running two lists of rounds one after the other is running their
   * concatenation: the second list starts from where the first one left off,
   * unless the first one already stopped on a quit or a fault.
   */
  lemma {:induction false} RunAppend(m: Machine, keys: seq<bool>, a: seq<Round>, b: seq<Round>)
    requires WellFormed(m) && |keys| == KeypadSize
    ensures var f := Run(m, keys, a);
      Run(m, keys, a + b) == if f.stop.Exhausted? then Run(f.machine, f.keys, b) else f
    decreases |a|
  {
    if a == [] {
      assert a + b == b;
    } else {
      assert (a + b)[0] == a[0] && (a + b)[1..] == a[1..] + b;
      var (keys1, state) := ApplyEvents(keys, a[0].events);
      if state != Quit {
        match Cycle(m, keys1, a[0].rnd)
        case Failure(_) =>
        case Success(step) => RunAppend(step.machine, keys1, a[1..], b);
      }
    }
  }

  /** A round whose events hold a quit ends the run before its cycle, with the events before the quit applied. */
  lemma RunQuits(m: Machine, keys: seq<bool>, r: Round, rest: seq<Round>)
    requires WellFormed(m) && |keys| == KeypadSize && HasQuit(r.events)
    ensures Run(m, keys, [r] + rest) == Finish(Quitted, m, ApplyEvents(keys, r.events).0)
  {
    QuitIffHasQuit(keys, r.events);
    assert ([r] + rest)[0] == r;
  }

  /** A round without a quit runs exactly one cycle, on the keypad its events leave. */
  lemma RunOneRound(m: Machine, keys: seq<bool>, r: Round)
    requires WellFormed(m) && |keys| == KeypadSize && !HasQuit(r.events)
    ensures var keys1 := ApplyEvents(keys, r.events).0;
      && Run(m, keys, [r]).keys == keys1
      && (Run(m, keys, [r]).stop.Exhausted? <==> Cycle(m, keys1, r.rnd).Success?)
      && (Cycle(m, keys1, r.rnd).Success? ==> Run(m, keys, [r]).machine == Cycle(m, keys1, r.rnd).value.machine)
      && (Cycle(m, keys1, r.rnd).Failure? ==> Run(m, keys, [r]).stop == Crashed(Cycle(m, keys1, r.rnd).error))
  {
    QuitIffHasQuit(keys, r.events);
    assert [r][1..] == [];
  }
}
