/**
 * The interpreter as a state machine on values: the machine state, booting,
 * loading a program, fetching an opcode, executing one instruction and one
 * whole cycle.  The class in module `Interpreter` is proved to follow these
 * definitions step by step.
 *
 * A run-time panic of the interpreter (an index out of range, a stack
 * pointer that underflows, an unhandled opcode) ends the program, so a
 * faulting step yields only the fault and no machine; writes made before the
 * panic cannot be observed.
 */
module Semantics {
  import opened Results
  import opened Bits
  import opened Decoder
  import opened Video
  import opened Sprite
  import opened KeyMap
  import opened Input

  const MemorySize: nat := 4096
  const StackSize: nat := 16
  /** Programs are loaded, and execution starts, here. */
  const ProgramStart: nat := 0x200
  /** The largest program that fits between `ProgramStart` and the end of memory. */
  const MaxRomSize: nat := MemorySize - ProgramStart

  /** The glyphs of the hexadecimal digits 0-F, five rows each and four pixels wide. */
  const Font: seq<Byte> := [
    0xF0, 0x90, 0x90, 0x90, 0xF0, // 0
    0x20, 0x60, 0x20, 0x20, 0x70, // 1
    0xF0, 0x10, 0xF0, 0x80, 0xF0, // 2
    0xF0, 0x10, 0xF0, 0x10, 0xF0, // 3
    0x90, 0x90, 0xF0, 0x10, 0x10, // 4
    0xF0, 0x80, 0xF0, 0x10, 0xF0, // 5
    0xF0, 0x80, 0xF0, 0x90, 0xF0, // 6
    0xF0, 0x10, 0x20, 0x40, 0x40, // 7
    0xF0, 0x90, 0xF0, 0x90, 0xF0, // 8
    0xF0, 0x90, 0xF0, 0x10, 0xF0, // 9
    0xF0, 0x90, 0xF0, 0x90, 0x90, // A
    0xE0, 0x90, 0xE0, 0x90, 0xE0, // B
    0xF0, 0x80, 0x80, 0x80, 0xF0, // C
    0xE0, 0x90, 0x90, 0x90, 0xE0, // D
    0xF0, 0x80, 0xF0, 0x80, 0xF0, // E
    0xF0, 0x80, 0xF0, 0x80, 0x80  // F
  ]
  const GlyphHeight: nat := 5

  /** Why a step ends the program. */
  datatype Fault =
    | MemoryOutOfBounds(address: nat)
    | UnknownOpcode(opcode: Word)
    | StackUnderflow
    | StackOverflow
    | KeyOutOfRange(key: nat)

  /** The whole interpreter state, including the framebuffer and its redraw flag. */
  datatype Machine = Machine(
    opcode: Word,
    memory: seq<Byte>,
    registers: seq<Byte>,
    index: nat,
    pc: nat,
    delayTimer: Byte,
    soundTimer: Byte,
    stack: seq<nat>,
    sp: nat,
    gfx: seq<Byte>,
    drawFlag: bool)

  /** The shapes every reachable machine has: the sizes of its arrays, I inside memory, a stack pointer within the stack. */
  predicate WellFormed(m: Machine)
  {
    && |m.memory| == MemorySize
    && |m.registers| == RegisterCount
    && m.index < MemorySize
    && |m.stack| == StackSize
    && m.sp <= StackSize
    && IsGrid(m.gfx)
  }

  /** The first address outside memory that an access starting at `start` reaches. */
  function FirstOutside(start: nat): (a: nat)
    ensures a >= MemorySize && (start >= MemorySize ==> a == start)
  {
    if start >= MemorySize then start else MemorySize
  }

  /** The machine a fresh interpreter starts as: the font at address 0, everything else zero, pc at `ProgramStart`. */
  function Boot(): (m: Machine)
    ensures WellFormed(m)
  {
    Machine(0, Font + seq(MemorySize - |Font|, _ => 0), seq(RegisterCount, _ => 0), 0, ProgramStart,
            0, 0, seq(StackSize, _ => 0), 0, Blank(), false)
  }

  /** Copies a program to `ProgramStart`; one that does not fit runs off the end of memory. */
  function LoadRom(m: Machine, rom: seq<Byte>): (r: Result<Machine, Fault>)
    requires WellFormed(m)
    ensures r.Success? ==> WellFormed(r.value)
  {
    if |rom| > MaxRomSize then Failure(MemoryOutOfBounds(MemorySize))
    else Success(m.(memory := m.memory[..ProgramStart] + rom + m.memory[ProgramStart + |rom|..]))
  }

  /** The big-endian opcode at pc. */
  function Fetch(m: Machine): (r: Result<Word, Fault>)
    requires WellFormed(m)
  {
    if m.pc + 1 >= MemorySize then Failure(MemoryOutOfBounds(FirstOutside(m.pc)))
    else Success(m.memory[m.pc] as int * 0x100 + m.memory[m.pc + 1])
  }

  /** The machine with pc advanced by one instruction, or by two when `skip` holds. */
  function Next(m: Machine, skip: bool): Machine
  {
    m.(pc := m.pc + if skip then 4 else 2)
  }

  /** Vx with register `x` set to `v`, pc advanced. */
  function SetRegister(m: Machine, x: Nibble, v: Byte): Machine
    requires |m.registers| == RegisterCount
  {
    Next(m.(registers := m.registers[x := v]), false)
  }

  /** The three decimal digits of `v`, hundreds first. */
  function Bcd(v: Byte): (d: seq<Byte>)
    ensures |d| == 3
  {
    [v / 100, v % 100 / 10, v % 10]
  }

  /**
   * One instruction handler other than Cxkk.  `keys` is the keypad state the
   * input driver holds.  The timers and the screen update that follow every
   * handler are in `Cycle`.
   */
  function Effect(m: Machine, instr: Instr, keys: seq<bool>): (r: Result<Machine, Fault>)
    requires WellFormed(m) && |keys| == KeypadSize && !instr.RandomAnd?
  {
    var regs := m.registers;
    match instr
    case ClearScreen => Success(Next(m.(gfx := Blank(), drawFlag := true), false))
    case Return =>
      if m.sp == 0 then Failure(StackUnderflow)
      else Success(m.(sp := m.sp - 1, pc := m.stack[m.sp - 1]))
    case Jump(nnn) => Success(m.(pc := nnn))
    case Call(nnn) =>
      if m.sp >= StackSize then Failure(StackOverflow)
      else Success(m.(stack := m.stack[m.sp := m.pc + 2], sp := m.sp + 1, pc := nnn))
    case SkipIfEqual(x, kk) => Success(Next(m, regs[x] == kk))
    case SkipIfNotEqual(x, kk) => Success(Next(m, regs[x] != kk))
    case LoadImmediate(x, kk) => Success(SetRegister(m, x, kk))
    case AddImmediate(x, kk) => Success(SetRegister(m, x, (regs[x] as int + kk) % 0x100))
    case Copy(x, y) => Success(SetRegister(m, x, regs[y]))
    case And(x, y) => Success(SetRegister(m, x, BitAnd(regs[x], regs[y])))
    case AddWithCarry(x, y) =>
      // the sum is stored first, then VF receives the carry
      var sum := regs[x] as int + regs[y];
      var regs1 := regs[x := sum % 0x100];
      Success(Next(m.(registers := regs1[Flag := if sum > 0xFF then 1 else 0]), false))
    case SubtractWithFlag(x, y) =>
      // VF receives "no borrow" first; the difference is then taken of the updated registers
      var regs1 := regs[Flag := if regs[x] > regs[y] then 1 else 0];
      Success(Next(m.(registers := regs1[x := (regs1[x] as int - regs1[y]) % 0x100]), false))
    case LoadIndex(nnn) => Success(Next(m.(index := nnn), false))
    case Draw(x, y, n) =>
      if m.index + n > MemorySize then Failure(MemoryOutOfBounds(FirstOutside(m.index)))
      else
        var cv := DrawSprite(m.gfx, regs, m.memory, m.index, x, y, n);
        Success(Next(m.(gfx := cv.grid, registers := cv.regs, drawFlag := true), false))
    case SkipIfKeyPressed(x) =>
      if regs[x] >= KeypadSize then Failure(KeyOutOfRange(regs[x]))
      else Success(Next(m, keys[regs[x]]))
    case SkipIfKeyNotPressed(x) =>
      if regs[x] >= KeypadSize then Failure(KeyOutOfRange(regs[x]))
      else Success(Next(m, !keys[regs[x]]))
    case GetDelay(x) => Success(SetRegister(m, x, m.delayTimer))
    case SetDelay(x) => Success(Next(m.(delayTimer := regs[x]), false))
    case SetSound(x) => Success(Next(m.(soundTimer := regs[x]), false))
    case FontAddress(x) => Success(Next(m.(index := regs[x] * GlyphHeight), false))
    case StoreBcd(x) =>
      if m.index + 3 > MemorySize then Failure(MemoryOutOfBounds(FirstOutside(m.index)))
      else
        var d := Bcd(regs[x]);
        Success(Next(m.(memory := m.memory[m.index := d[0]][m.index + 1 := d[1]][m.index + 2 := d[2]]), false))
    case LoadRegisters(x) =>
      if m.index + x + 1 > MemorySize then Failure(MemoryOutOfBounds(FirstOutside(m.index)))
      else Success(Next(m.(registers := m.memory[m.index..m.index + x + 1] + regs[x + 1..]), false))
  }

  /** One instruction handler; `rnd` is the byte the random source yields, which only Cxkk consumes. */
  function Exec(m: Machine, instr: Instr, keys: seq<bool>, rnd: Byte): (r: Result<Machine, Fault>)
    requires WellFormed(m) && |keys| == KeypadSize
  {
    match instr
    case RandomAnd(x, kk) => Success(SetRegister(m, x, BitAnd(rnd, kk)))
    case _ => Effect(m, instr, keys)
  }

  /** The handler the opcode register selects, for an opcode outside family C, or the fault of an unhandled opcode. */
  function OpcodeEffect(m: Machine, keys: seq<bool>): (r: Result<Machine, Fault>)
    requires WellFormed(m) && |keys| == KeypadSize && Family(m.opcode) != 0xC
  {
    match Decode(m.opcode)
    case None => Failure(UnknownOpcode(m.opcode))
    case Some(instr) => Effect(m, instr, keys)
  }

  /** The handler the opcode register selects, or the fault of an unhandled opcode. */
  function Dispatch(m: Machine, keys: seq<bool>, rnd: Byte): (r: Result<Machine, Fault>)
    requires WellFormed(m) && |keys| == KeypadSize
  {
    match Decode(m.opcode)
    case None => Failure(UnknownOpcode(m.opcode))
    case Some(instr) => Exec(m, instr, keys, rnd)
  }

  /** A handler that succeeds leaves the machine well formed. */
  lemma DispatchKeepsShape(m: Machine, keys: seq<bool>, rnd: Byte)
    requires WellFormed(m) && |keys| == KeypadSize && Dispatch(m, keys, rnd).Success?
    ensures WellFormed(Dispatch(m, keys, rnd).value)
  {
    var instr :| Decode(m.opcode) == Some(instr);
    if instr.RandomAnd? {
    } else if instr.Draw? || instr.StoreBcd? || instr.LoadRegisters? {
      MemoryEffectKeepsShape(m, instr, keys);
    } else {
      EffectKeepsShape(m, instr, keys);
    }
  }

  lemma MemoryEffectKeepsShape(m: Machine, instr: Instr, keys: seq<bool>)
    requires WellFormed(m) && |keys| == KeypadSize && (instr.Draw? || instr.StoreBcd? || instr.LoadRegisters?)
    requires Effect(m, instr, keys).Success?
    ensures WellFormed(Effect(m, instr, keys).value)
  {
    match instr
    case Draw(x, y, n) =>
    case StoreBcd(x) =>
    case LoadRegisters(x) =>
      assert |m.memory[m.index..m.index + x + 1] + m.registers[x + 1..]| == RegisterCount;
  }

  lemma EffectKeepsShape(m: Machine, instr: Instr, keys: seq<bool>)
    requires WellFormed(m) && |keys| == KeypadSize && !(instr.RandomAnd? || instr.Draw? || instr.StoreBcd? || instr.LoadRegisters?)
    requires Effect(m, instr, keys).Success?
    ensures WellFormed(Effect(m, instr, keys).value)
  {
  }

  /** A timer counts down to zero and stays there. */
  function CountDown(t: Byte): Byte
  {
    if t > 0 then t - 1 else 0
  }

  function Tick(m: Machine): Machine
  {
    m.(delayTimer := CountDown(m.delayTimer), soundTimer := CountDown(m.soundTimer))
  }

  /** The machine after a cycle and whether the screen was presented during it. */
  datatype Step = Step(machine: Machine, presented: bool)

  /**
   * `emulate_cycle`: fetch, decode and execute one instruction, count the
   * timers down, then present the screen if the redraw flag is set, which
   * consumes the flag.
   */
  function Cycle(m: Machine, keys: seq<bool>, rnd: Byte): (r: Result<Step, Fault>)
    requires WellFormed(m) && |keys| == KeypadSize
    ensures r.Success? ==> WellFormed(r.value.machine)
  {
    match Fetch(m)
    case Failure(e) => Failure(e)
    case Success(op) =>
      match Dispatch(m.(opcode := op), keys, rnd)
      case Failure(e) => Failure(e)
      case Success(m1) =>
        DispatchKeepsShape(m.(opcode := op), keys, rnd);
        var m2 := Tick(m1);
        Success(Step(m2.(drawFlag := false), m2.drawFlag))
  }

  /** One pass of the main loop of `run_disk`: the events the poll returns and the byte the random source yields to the cycle. */
  datatype Round = Round(events: seq<Event>, rnd: Byte)

  /** Why a run stopped: a quit event, a fault, or the end of the rounds given. */
  datatype Stop = Quitted | Crashed(fault: Fault) | Exhausted

  /**
   * How a run ended, with the machine and the keypad at that point; after a
   * fault they are those from before the step that faulted.
   */
  datatype Finish = Finish(stop: Stop, machine: Machine, keys: seq<bool>)

  /**
   * The main loop over a finite list of rounds: the events of a round are
   * applied to the keypad; a quit ends the run, and otherwise one cycle runs
   * with the round's random byte.
   */
  function Run(m: Machine, keys: seq<bool>, rounds: seq<Round>): (f: Finish)
    requires WellFormed(m) && |keys| == KeypadSize
    ensures WellFormed(f.machine) && |f.keys| == KeypadSize
    decreases |rounds|
  {
    if rounds == [] then Finish(Exhausted, m, keys)
    else
      var (keys1, state) := ApplyEvents(keys, rounds[0].events);
      if state == Quit then Finish(Quitted, m, keys1)
      else
        match Cycle(m, keys1, rounds[0].rnd)
        case Failure(e) => Finish(Crashed(e), m, keys1)
        case Success(step) => Run(step.machine, keys1, rounds[1..])
  }

  /** `run_disk`: the program is loaded, then the main loop runs. */
  function RunProgram(m: Machine, keys: seq<bool>, rom: seq<Byte>, rounds: seq<Round>): (f: Finish)
    requires WellFormed(m) && |keys| == KeypadSize
    ensures WellFormed(f.machine) && |f.keys| == KeypadSize
  {
    match LoadRom(m, rom)
    case Failure(e) => Finish(Crashed(e), m, keys)
    case Success(m1) => Run(m1, keys, rounds)
  }
}
