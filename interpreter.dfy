/**
 * The interpreter object: memory, registers, the call stack and the other
 * registers as fields updated in place, together with the video driver and
 * the input driver it works through.  Every handler is proved to change the
 * state exactly as the matching case of `Semantics.Effect` says, and a
 * cycle exactly as `Semantics.Cycle` says.
 */
module Interpreter {
  import opened Results
  import opened Bits
  import opened Decoder
  import opened Video
  import opened Sprite
  import opened KeyMap
  import opened Input
  import opened Semantics
  import Properties

  class Chip8 {
    var opcode: Word
    const memory: array<Byte>
    const registers: array<Byte>
    var index: nat
    var pc: nat
    var delayTimer: Byte
    var soundTimer: Byte
    const stack: array<nat>
    var sp: nat
    const video: VideoDriver
    const input: InputDriver

    ghost predicate Valid()
      reads this, memory, registers, stack, video, video.gfx, input
    {
      && memory.Length == MemorySize
      && registers.Length == RegisterCount
      && memory != registers
      && stack.Length == StackSize
      && sp <= StackSize
      && index < MemorySize
      && video.Valid()
      && input.Valid()
    }

    /** The interpreter as a machine value. */
    ghost function Abstract(): Machine
      reads this, memory, registers, stack, video
    {
      Machine(opcode, memory[..], registers[..], index, pc, delayTimer, soundTimer, stack[..], sp, video.cells, video.drawFlag)
    }

    /** The keypad state the input driver holds. */
    ghost function Keys(): seq<bool>
      reads input, input.keyboard
    {
      input.keyboard[..]
    }

    /** The object is valid and has done what `r` says: failed with its fault, or reached its machine. */
    ghost predicate Performs(r: Result<Machine, Fault>, o: Outcome<Fault>)
      reads this, memory, registers, stack, video, video.gfx, input
    {
      Valid() && o == ToOutcome(r) && (r.Success? ==> Abstract() == r.value)
    }

    /** A fresh interpreter working through the given drivers: the font is copied to address 0 and pc set to 0x200. */
    constructor (video: VideoDriver, input: InputDriver)
      requires video.Valid() && input.Valid()
      ensures Valid() && fresh(memory) && fresh(registers) && fresh(stack)
      ensures this.video == video && this.input == input
      ensures Abstract() == Boot().(gfx := video.cells, drawFlag := video.drawFlag)
    {
      opcode := 0;
      memory := new Byte[MemorySize](_ => 0);
      registers := new Byte[RegisterCount](_ => 0);
      index := 0;
      pc := ProgramStart;
      delayTimer := 0;
      soundTimer := 0;
      stack := new nat[StackSize](_ => 0);
      sp := 0;
      this.video := video;
      this.input := input;
      new;
      for i := 0 to |Font|
        modifies memory
        invariant forall a :: 0 <= a < i ==> memory[a] == Font[a]
        invariant forall a :: i <= a < MemorySize ==> memory[a] == 0
      {
        memory[i] := Font[i];
      }
      assert memory[..] == Boot().memory;
      assert registers[..] == Boot().registers;
      assert stack[..] == Boot().stack;
    }

    /** Copies a program to 0x200 onwards; a program too long for memory runs off its end. */
    method LoadGame(rom: seq<Byte>) returns (o: Outcome<Fault>)
      requires Valid()
      modifies memory
      ensures Performs(LoadRom(old(Abstract()), rom), o)
    {
      for i := 0 to |rom|
        invariant ProgramStart + i <= MemorySize
        invariant forall a :: 0 <= a < MemorySize ==>
                    memory[a] == if ProgramStart <= a < ProgramStart + i then rom[a - ProgramStart] else old(memory[a])
      {
        if ProgramStart + i >= MemorySize {
          return Fail(MemoryOutOfBounds(ProgramStart + i));
        }
        memory[ProgramStart + i] := rom[i];
      }
      Properties.LoadRomPlacesProgram(old(Abstract()), rom);
      assert memory[..] == LoadRom(old(Abstract()), rom).value.memory;
      o := Pass;
    }

    // -------------------------------------------------------------------
    // Family 0

    method Handle00E0()
      requires Valid()
      modifies this, video, video.gfx
      ensures Performs(Effect(old(Abstract()), ClearScreen, old(Keys())), Pass)
    {
      video.ReinitializeScreen();
      pc := pc + 2;
    }

    method Handle00EE() returns (o: Outcome<Fault>)
      requires Valid()
      modifies this
      ensures Performs(Effect(old(Abstract()), Return, old(Keys())), o)
    {
      if sp == 0 {
        return Fail(StackUnderflow);
      }
      sp := sp - 1;
      pc := stack[sp];
      o := Pass;
    }

    /** Family 0 selects on `opcode & 0x00EF`. */
    method Handle0xxx() returns (o: Outcome<Fault>)
      requires Valid() && Family(opcode) == 0x0
      modifies this, video, video.gfx
      ensures Performs(OpcodeEffect(old(Abstract()), old(Keys())), o)
    {
      var key := BitAnd(GetKk(opcode), 0xEF);
      if key == 0xE0 {
        Handle00E0();
        o := Pass;
      } else if key == 0xEE {
        o := Handle00EE();
      } else {
        o := Fail(UnknownOpcode(opcode));
      }
    }

    // -------------------------------------------------------------------
    // Jumps, calls and skips

    method Handle1nnn()
      requires Valid()
      modifies this
      ensures Performs(Effect(old(Abstract()), Jump(GetNnn(old(opcode))), old(Keys())), Pass)
    {
      pc := GetNnn(opcode);
    }

    method Handle2nnn() returns (o: Outcome<Fault>)
      requires Valid()
      modifies this, stack
      ensures Performs(Effect(old(Abstract()), Call(GetNnn(old(opcode))), old(Keys())), o)
    {
      if sp >= StackSize {
        return Fail(StackOverflow);
      }
      stack[sp] := pc + 2;
      sp := sp + 1;
      pc := GetNnn(opcode);
      o := Pass;
    }

    method Handle3xkk()
      requires Valid()
      modifies this
      ensures Performs(Effect(old(Abstract()), SkipIfEqual(GetX(old(opcode)), GetKk(old(opcode))), old(Keys())), Pass)
    {
      if registers[GetX(opcode)] == GetKk(opcode) {
        pc := pc + 2;
      }
      pc := pc + 2;
    }

    method Handle4xkk()
      requires Valid()
      modifies this
      ensures Performs(Effect(old(Abstract()), SkipIfNotEqual(GetX(old(opcode)), GetKk(old(opcode))), old(Keys())), Pass)
    {
      if registers[GetX(opcode)] != GetKk(opcode) {
        pc := pc + 2;
      }
      pc := pc + 2;
    }

    // -------------------------------------------------------------------
    // Registers

    method Handle6xkk()
      requires Valid()
      modifies this, registers
      ensures Performs(Effect(old(Abstract()), LoadImmediate(GetX(old(opcode)), GetKk(old(opcode))), old(Keys())), Pass)
    {
      registers[GetX(opcode)] := GetKk(opcode);
      pc := pc + 2;
    }

    method Handle7xkk()
      requires Valid()
      modifies this, registers
      ensures Performs(Effect(old(Abstract()), AddImmediate(GetX(old(opcode)), GetKk(old(opcode))), old(Keys())), Pass)
    {
      var x := GetX(opcode);
      registers[x] := (registers[x] as int + GetKk(opcode)) % 0x100;
      pc := pc + 2;
    }

    method Handle8xy0()
      requires Valid()
      modifies this, registers
      ensures Performs(Effect(old(Abstract()), Copy(GetX(old(opcode)), GetY(old(opcode))), old(Keys())), Pass)
    {
      registers[GetX(opcode)] := registers[GetY(opcode)];
      pc := pc + 2;
    }

    method Handle8xy2()
      requires Valid()
      modifies this, registers
      ensures Performs(Effect(old(Abstract()), And(GetX(old(opcode)), GetY(old(opcode))), old(Keys())), Pass)
    {
      var x, y := GetX(opcode), GetY(opcode);
      registers[x] := BitAnd(registers[x], registers[y]);
      pc := pc + 2;
    }

    method Handle8xy4()
      requires Valid()
      modifies this, registers
      ensures Performs(Effect(old(Abstract()), AddWithCarry(GetX(old(opcode)), GetY(old(opcode))), old(Keys())), Pass)
    {
      var x, y := GetX(opcode), GetY(opcode);
      var result := registers[x] as int + registers[y];
      registers[x] := result % 0x100;
      registers[Flag] := if result > 0xFF then 1 else 0;
      pc := pc + 2;
    }

    method Handle8xy5()
      requires Valid()
      modifies this, registers
      ensures Performs(Effect(old(Abstract()), SubtractWithFlag(GetX(old(opcode)), GetY(old(opcode))), old(Keys())), Pass)
    {
      var x, y := GetX(opcode), GetY(opcode);
      registers[Flag] := if registers[x] > registers[y] then 1 else 0;
      registers[x] := (registers[x] as int - registers[y]) % 0x100;
      pc := pc + 2;
    }

    /** Family 8 selects on the low nibble. */
    method Handle8xxx() returns (o: Outcome<Fault>)
      requires Valid() && Family(opcode) == 0x8
      modifies this, registers
      ensures Performs(OpcodeEffect(old(Abstract()), old(Keys())), o)
    {
      var n := GetN(opcode);
      o := Pass;
      if n == 0x0 {
        Handle8xy0();
      } else if n == 0x2 {
        Handle8xy2();
      } else if n == 0x4 {
        Handle8xy4();
      } else if n == 0x5 {
        Handle8xy5();
      } else {
        o := Fail(UnknownOpcode(opcode));
      }
    }

    method HandleAnnn()
      requires Valid()
      modifies this
      ensures Performs(Effect(old(Abstract()), LoadIndex(GetNnn(old(opcode))), old(Keys())), Pass)
    {
      index := GetNnn(opcode);
      pc := pc + 2;
    }

    /** Cxkk; `rnd` is the byte the random source yields. */
    method HandleCxkk(rnd: Byte)
      requires Valid()
      modifies this, registers
      ensures Performs(Exec(old(Abstract()), RandomAnd(GetX(old(opcode)), GetKk(old(opcode))), old(Keys()), rnd), Pass)
    {
      registers[GetX(opcode)] := BitAnd(rnd, GetKk(opcode));
      pc := pc + 2;
    }

    // -------------------------------------------------------------------
    // The sprite draw

    /**
     * Dxyn: VF := 0, then for each sprite row the screen row is taken from
     * Vy and for each of its bits the column from Vx; the bit is ORed with
     * the cell into VF and XORed into the cell.
     */
    method HandleDxyn() returns (o: Outcome<Fault>)
      requires Valid()
      modifies this, registers, video, video.gfx
      ensures Performs(Effect(old(Abstract()), Draw(GetX(old(opcode)), GetY(old(opcode)), GetN(old(opcode))), old(Keys())), o)
    {
      var x, y, n := GetX(opcode), GetY(opcode), GetN(opcode);
      if index + n > MemorySize {
        return Fail(MemoryOutOfBounds(FirstOutside(index)));
      }
      DrawSpriteRows(x, y, n);
      video.SetDrawFlag(true);
      pc := pc + 2;
      o := Pass;
    }

    /** The registers other than VF are those of `regs`. */
    ghost predicate KeepsRegisters(regs: seq<Byte>)
      reads this, registers
    {
      && registers.Length == RegisterCount && |regs| == RegisterCount
      && forall i :: 0 <= i < RegisterCount && i != Flag ==> registers[i] == regs[i]
    }

    /** The row loop of Dxyn: VF := 0, then one sprite row at a time from the screen row Vy + row. */
    method DrawSpriteRows(x: Nibble, y: Nibble, n: Nibble)
      requires Valid() && index + n <= MemorySize
      modifies registers, video, video.gfx
      ensures Valid() && video.drawFlag == old(video.drawFlag)
      ensures var cv := DrawSprite(old(video.cells), old(registers[..]), memory[..], index, x, y, n);
        video.cells == cv.grid && registers[..] == cv.regs
    {
      ghost var regs0 := registers[..];
      ghost var mem := memory[..];
      ghost var final := DrawLoop(video.cells, 0, regs0, mem, index, x, y, n, 0, ScreenRow(Reg(regs0, 0, y), 0), 0);
      registers[Flag] := 0;
      for row := 0 to n
        invariant Valid() && memory[..] == mem && KeepsRegisters(regs0)
        invariant video.drawFlag == old(video.drawFlag)
        invariant DrawLoop(video.cells, registers[Flag], regs0, mem, index, x, y, n,
                           row, ScreenRow(Reg(regs0, registers[Flag], y), row), 0) == final
      {
        assert registers[y] == Reg(regs0, registers[Flag], y);
        var py := ScreenRow(registers[y], row);
        DrawSpriteRow(regs0, mem, x, y, n, row, py);
      }
      assert registers[..] == regs0[Flag := registers[Flag]];
    }

    /** The bit loop of Dxyn for one sprite row, drawn on screen row `py`. */
    method DrawSpriteRow(ghost regs0: seq<Byte>, ghost mem: seq<Byte>, x: Nibble, y: Nibble, n: Nibble, row: nat, py: nat)
      requires Valid() && memory[..] == mem && KeepsRegisters(regs0)
      requires index + n <= MemorySize && row < n && py < Height
      modifies registers, video, video.gfx
      ensures Valid() && KeepsRegisters(regs0)
      ensures video.drawFlag == old(video.drawFlag)
      ensures DrawLoop(video.cells, registers[Flag], regs0, mem, index, x, y, n,
                       row + 1, ScreenRow(Reg(regs0, registers[Flag], y), row + 1), 0)
           == DrawLoop(old(video.cells), old(registers[Flag]), regs0, mem, index, x, y, n, row, py, 0)
    {
      for bit := 0 to 8
        invariant Valid() && KeepsRegisters(regs0)
        invariant video.drawFlag == old(video.drawFlag)
        invariant DrawLoop(video.cells, registers[Flag], regs0, mem, index, x, y, n, row, py, bit)
               == DrawLoop(old(video.cells), old(registers[Flag]), regs0, mem, index, x, y, n, row, py, 0)
      {
        ghost var grid, vf := video.cells, registers[Flag];
        assert registers[x] == Reg(regs0, vf, x);
        var px := Column(registers[x], bit);
        var color := SpriteBit(memory[index + row], bit);
        assert color == SpriteBitAt(mem, index, row, bit);
        var pixel := video.PixelState(py, px);
        registers[Flag] := BitOr(registers[Flag], BitAnd(color, pixel));
        video.TogglePixelState(py, px, color);
        assert DrawLoop(grid, vf, regs0, mem, index, x, y, n, row, py, bit)
            == DrawLoop(video.cells, registers[Flag], regs0, mem, index, x, y, n, row, py, bit + 1);
      }
    }

    // -------------------------------------------------------------------
    // Keys

    method HandleEx9E() returns (o: Outcome<Fault>)
      requires Valid()
      modifies this
      ensures Performs(Effect(old(Abstract()), SkipIfKeyPressed(GetX(old(opcode))), old(Keys())), o)
    {
      var key := registers[GetX(opcode)];
      if key >= KeypadSize {
        return Fail(KeyOutOfRange(key));
      }
      var pressed := input.IsPressed(key);
      if pressed {
        pc := pc + 2;
      }
      pc := pc + 2;
      o := Pass;
    }

    method HandleExA1() returns (o: Outcome<Fault>)
      requires Valid()
      modifies this
      ensures Performs(Effect(old(Abstract()), SkipIfKeyNotPressed(GetX(old(opcode))), old(Keys())), o)
    {
      var key := registers[GetX(opcode)];
      if key >= KeypadSize {
        return Fail(KeyOutOfRange(key));
      }
      var pressed := input.IsPressed(key);
      if !pressed {
        pc := pc + 2;
      }
      pc := pc + 2;
      o := Pass;
    }

    /** Family E selects on the low byte. */
    method HandleExxx() returns (o: Outcome<Fault>)
      requires Valid() && Family(opcode) == 0xE
      modifies this
      ensures Performs(OpcodeEffect(old(Abstract()), old(Keys())), o)
    {
      var kk := GetKk(opcode);
      if kk == 0x9E {
        o := HandleEx9E();
      } else if kk == 0xA1 {
        o := HandleExA1();
      } else {
        o := Fail(UnknownOpcode(opcode));
      }
    }

    // -------------------------------------------------------------------
    // Timers, font and memory

    method HandleFx07()
      requires Valid()
      modifies this, registers
      ensures Performs(Effect(old(Abstract()), GetDelay(GetX(old(opcode))), old(Keys())), Pass)
    {
      registers[GetX(opcode)] := delayTimer;
      pc := pc + 2;
    }

    method HandleFx15()
      requires Valid()
      modifies this
      ensures Performs(Effect(old(Abstract()), SetDelay(GetX(old(opcode))), old(Keys())), Pass)
    {
      delayTimer := registers[GetX(opcode)];
      pc := pc + 2;
    }

    method HandleFx18()
      requires Valid()
      modifies this
      ensures Performs(Effect(old(Abstract()), SetSound(GetX(old(opcode))), old(Keys())), Pass)
    {
      soundTimer := registers[GetX(opcode)];
      pc := pc + 2;
    }

    method HandleFx29()
      requires Valid()
      modifies this
      ensures Performs(Effect(old(Abstract()), FontAddress(GetX(old(opcode))), old(Keys())), Pass)
    {
      index := registers[GetX(opcode)] as nat * GlyphHeight;
      pc := pc + 2;
    }

    method HandleFx33() returns (o: Outcome<Fault>)
      requires Valid()
      modifies this, memory
      ensures Performs(Effect(old(Abstract()), StoreBcd(GetX(old(opcode))), old(Keys())), o)
    {
      var v := registers[GetX(opcode)];
      if index + 2 >= MemorySize {
        return Fail(MemoryOutOfBounds(FirstOutside(index)));
      }
      memory[index] := v / 100;
      memory[index + 1] := v % 100 / 10;
      memory[index + 2] := v % 10;
      pc := pc + 2;
      o := Pass;
    }

    method HandleFx65() returns (o: Outcome<Fault>)
      requires Valid()
      modifies this, registers
      ensures Performs(Effect(old(Abstract()), LoadRegisters(GetX(old(opcode))), old(Keys())), o)
    {
      var x: nat := GetX(opcode);
      if index + x >= MemorySize {
        return Fail(MemoryOutOfBounds(FirstOutside(index)));
      }
      LoadRegisterBlock(x + 1);
      pc := pc + 2;
      o := Pass;
    }

    /** The loop of Fx65: V0 to V(count - 1) from memory at I onwards. */
    method LoadRegisterBlock(count: nat)
      requires Valid() && count <= RegisterCount && index + count <= MemorySize
      modifies registers
      ensures Valid()
      ensures registers[..] == memory[index..index + count] + old(registers[..])[count..]
    {
      for i := 0 to count
        invariant forall j :: 0 <= j < RegisterCount ==>
                    registers[j] == if j < i then memory[index + j] else old(registers[j])
      {
        registers[i] := memory[index + i];
      }
      assert registers[..] == memory[index..index + count] + old(registers[..])[count..];
    }

    /** Family F selects on the low byte. */
    method HandleFxxx() returns (o: Outcome<Fault>)
      requires Valid() && Family(opcode) == 0xF
      modifies this, memory, registers
      ensures Performs(OpcodeEffect(old(Abstract()), old(Keys())), o)
    {
      var kk := GetKk(opcode);
      o := Pass;
      if kk == 0x07 {
        HandleFx07();
      } else if kk == 0x15 {
        HandleFx15();
      } else if kk == 0x18 {
        HandleFx18();
      } else if kk == 0x29 {
        HandleFx29();
      } else if kk == 0x33 {
        o := HandleFx33();
      } else if kk == 0x65 {
        o := HandleFx65();
      } else {
        o := Fail(UnknownOpcode(opcode));
      }
    }

    // -------------------------------------------------------------------
    // The cycle

    /** The dispatch of `emulate_cycle` on the opcode family. */
    method Execute(rnd: Byte) returns (o: Outcome<Fault>)
      requires Valid()
      modifies this, memory, registers, stack, video, video.gfx
      ensures Performs(Dispatch(old(Abstract()), old(Keys()), rnd), o)
    {
      o := Pass;
      match Family(opcode)
      case 0x0 => o := Handle0xxx();
      case 0x1 => Handle1nnn();
      case 0x2 => o := Handle2nnn();
      case 0x3 => Handle3xkk();
      case 0x4 => Handle4xkk();
      case 0x6 => Handle6xkk();
      case 0x7 => Handle7xkk();
      case 0x8 => o := Handle8xxx();
      case 0xA => HandleAnnn();
      case 0xC => HandleCxkk(rnd);
      case 0xD => o := HandleDxyn();
      case 0xE => o := HandleExxx();
      case 0xF => o := HandleFxxx();
      case _ => o := Fail(UnknownOpcode(opcode));
    }

    /** Both timers count down by one unless already zero. */
    method CountDownTimers()
      requires Valid()
      modifies this
      ensures Valid() && Abstract() == Tick(old(Abstract()))
    {
      if delayTimer > 0 {
        delayTimer := delayTimer - 1;
      }
      if soundTimer > 0 {
        soundTimer := soundTimer - 1;
      }
    }

    /** The big-endian opcode at pc. */
    method FetchOpcode() returns (op: Word)
      requires Valid() && pc + 1 < MemorySize
      ensures Fetch(Abstract()) == Success(op)
    {
      op := memory[pc] as int * 0x100 + memory[pc + 1];
    }

    /**
     * `emulate_cycle`: fetch the opcode at pc, run its handler, count the
     * timers down and let the video driver present the screen if it changed.
     * The result says whether the screen was presented.
     */
    method EmulateCycle(rnd: Byte) returns (r: Result<bool, Fault>)
      requires Valid()
      modifies this, memory, registers, stack, video, video.gfx
      ensures Valid()
      ensures var c := Cycle(old(Abstract()), old(Keys()), rnd);
        && (r.Failure? <==> c.Failure?)
        && (r.Failure? ==> r.error == c.error)
        && (r.Success? ==> r.value == c.value.presented && Abstract() == c.value.machine)
    {
      if pc + 1 >= MemorySize {
        return Failure(MemoryOutOfBounds(FirstOutside(pc)));
      }
      ghost var m0, k0 := Abstract(), Keys();
      var op := FetchOpcode();
      opcode := op;
      assert Abstract() == m0.(opcode := op);
      ghost var d := Dispatch(Abstract(), Keys(), rnd);
      var o := Execute(rnd);
      assert Performs(d, o);
      if o.Fail? {
        return Failure(o.error);
      }
      ghost var m1 := Abstract();
      assert d == Success(m1);
      CountDownTimers();
      var presented := video.UpdateScreen();
      return Success(presented);
    }
  
    /**
     * `run_disk` over a finite list of rounds: load the program, then per
     * round process the events, stop on a quit, and otherwise run one cycle.
     */
    method RunDisk(rom: seq<Byte>, rounds: seq<Round>) returns (stop: Stop)
      requires Valid()
      modifies this, memory, registers, stack, video, video.gfx, input.keyboard
      ensures var f := RunProgram(old(Abstract()), old(Keys()), rom, rounds);
        && stop == f.stop
        && (!stop.Crashed? ==> Valid() && Abstract() == f.machine && Keys() == f.keys)
    {
      ghost var final := RunProgram(Abstract(), Keys(), rom, rounds);
      var o := LoadGame(rom);
      if o.Fail? {
        return Crashed(o.error);
      }
      for i := 0 to |rounds|
        invariant Valid()
        invariant Run(Abstract(), Keys(), rounds[i..]) == final
      {
        assert rounds[i..][0] == rounds[i] && rounds[i..][1..] == rounds[i + 1..];
        var state := input.ProcessEvents(rounds[i].events);
        if state == Quit {
          return Quitted;
        }
        var r := EmulateCycle(rounds[i].rnd);
        if r.Failure? {
          return Crashed(r.error);
        }
      }
      return Exhausted;
    }
  }
}
