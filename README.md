# A CHIP-8 interpreter, modelled and verified in Dafny

The system is a small CHIP-8 interpreter. It has:

- 4 KiB of byte memory holding the built-in hexadecimal font at address 0 and the program from 0x200 on;
- sixteen 8-bit registers V0-VF, where VF doubles as the carry, borrow and collision flag;
- a 12-bit index register `I`, a program counter and a sixteen-entry call stack;
- a delay timer and a sound timer;
- a 64 x 32 monochrome framebuffer with a "draw flag";
- a sixteen-key hexadecimal keypad fed from a keyboard.

Each cycle fetches a big-endian 16-bit opcode at `pc` and dispatches on its top hexadecimal digit to a handler. It then counts both timers down and presents the screen if the draw flag is set. The interpreter supports 23 opcodes. Anything else is a fatal "unknown opcode" error.

The project has two layers, linked by proof.

**Value layer.** Each opcode's effect is a function from one machine value to another:

- `Decoder`: the opcode fields, plus an instruction `Decode`/`Encode` pair.
- `Semantics`: the machine value, boot, loading, fetch, `Effect`/`Exec`/`Dispatch`, the timers, `Cycle`, and a bounded `Run` of the main loop.
- `Sprite`: the Dxyn draw loops and their closed form.
- `Video`: the framebuffer as a sequence of cells.
- `KeyMap`: the keyboard-to-keypad table.
- `Input`: an event batch.
- `Bits`: AND, OR and XOR on bytes.

The properties of these functions are proved as lemmas, most of them in `Properties`.

**Object layer.** The interpreter's own objects are classes whose fields the methods update in place:

- `Interpreter.Chip8`: memory, registers and stack are arrays.
- `Video.VideoDriver`: the framebuffer is an `array2`.
- `Input.InputDriver` and `Keypad.Keypad`: the keyboard is an array.

Each handler method is proved to leave the object in exactly the state the value layer computes. The predicate `Chip8.Performs` states that link.

Faults are values. A fault that the original raises as a panic, such as a stack overflow or an out-of-range memory index, is a `Fault`, and it ends the run. A handler checks for its fault before it writes anything.

## Model

| member | source | states |
|---|---|---|
| Decoder.GetX | src/chip8.rs:88-90 | defines X as bits 8-11 of the opcode, `(opcode & 0x0F00) >> 8`; `FieldsReassemble` states what the five getters give together |
| Decoder.GetY | src/chip8.rs:92-94 | defines Y as bits 4-7 of the opcode |
| Decoder.GetN | src/chip8.rs:96-98 | defines N as bits 0-3 of the opcode |
| Decoder.GetKk | src/chip8.rs:100-102 | defines KK as the low byte of the opcode |
| Decoder.GetNnn | src/chip8.rs:104-106 | defines NNN as the low 12 bits of the opcode |
| Decoder.Decode | src/chip8.rs:111-127 | defines the dispatch of `emulate_cycle` and of the family handlers (lines 141-149, 198-208, 266-274 and 292-304) on the opcode: an instruction for each of the 23 supported forms, none otherwise; `DecodeFailsExactly`, `FamilyZeroAliases`, `DecodeEncode` and `EncodeDecode` state what it accepts and returns |
| Decoder.FieldsReassemble | src/chip8.rs:88-106 | X, Y and N are the second, third and fourth hex digits of the opcode; KK is its low byte and NNN its low 12 bits, so the digits reassemble the opcode |
| Decoder.FieldsOfDigits | src/chip8.rs:88-106 | the field getters applied to an opcode built from four digits give those digits back |
| Decoder.DecodeFailsExactly | src/chip8.rs:111-127 | an opcode is rejected exactly when it is outside the supported set (family 5, 9, B; unsupported low parts of families 0, 8, E, F) |
| Decoder.SystemKeyCases | src/chip8.rs:142-148 | masking the low byte with 0xEF gives 0xE0 exactly for E0/F0 and 0xEE exactly for EE/FE |
| Decoder.FamilyZeroAliases | src/chip8.rs:141-149 | a family-0 opcode clears the screen exactly when its low byte is E0 or F0, and returns exactly when it is EE or FE |
| Decoder.DecodeEncode | src/chip8.rs:111-127 | decoding the canonical encoding of any instruction gives that instruction back |
| Decoder.EncodeDecode | src/chip8.rs:111-127 | every accepted opcode other than the aliased 00E0/00EE forms is the encoding of its decoded instruction |
| Video.Toggle | src/video_driver.rs:73-75 | defines `gfx[y][x] ^= color` on a grid value and keeps it a grid; `ToggleCells`, `ToggleZero`, `ToggleTwice` and `ToggleKeepsBinary` state its effect |
| Video.ToggleCells | src/video_driver.rs:73-75 | toggling XORs the colour into cell (y, x) and changes no other cell |
| Video.ToggleZero | src/video_driver.rs:73-75 | toggling with colour 0 leaves the grid unchanged |
| Video.ToggleTwice | src/video_driver.rs:73-75 | toggling the same cell twice with the same colour restores the grid |
| Video.ToggleKeepsBinary | src/video_driver.rs:73-75 | toggling with colour 0 or 1 keeps a grid of 0/1 cells binary |
| Video.VideoDriver.constructor | src/video_driver.rs:17-32 | the driver has a 32 x 64 grid, all dark, and no pending redraw |
| Video.VideoDriver.UpdateScreen | src/video_driver.rs:34-62 | the screen is presented exactly when the draw flag was set; the flag is cleared and the grid unchanged |
| Video.VideoDriver.ReinitializeScreen | src/video_driver.rs:64-67 | every cell becomes 0 and the draw flag is set |
| Video.VideoDriver.PixelState | src/video_driver.rs:69-71 | returns the cell at row y, column x |
| Video.VideoDriver.TogglePixelState | src/video_driver.rs:73-75 | the grid becomes the old grid with `gfx[y][x] ^= color`; the flag is unchanged |
| Video.VideoDriver.SetDrawFlag | src/video_driver.rs:77-79 | the draw flag takes the given value and the grid is unchanged |
| KeyMap.KeyIndex | src/keypad.rs:16-39 | exactly the sixteen table keys map to a logical key, and every image is below 16 |
| KeyMap.KeyTableBijective | src/keypad.rs:16-39 | the key table is a bijection from the sixteen mapped keys to the logical keys 0x0-0xF |
| KeyMap.SetKey | src/keypad.rs:16-39 | a transition changes only the logical key its physical key maps to, and keys outside the table change nothing |
| KeyMap.SetKeyIdempotent | src/keypad.rs:41-43 | pressing a key twice has the effect of pressing it once |
| KeyMap.SetKeyLastWins | src/keypad.rs:16-47 | of two transitions of the same key, the later decides its state |
| KeyMap.PressThenRelease | src/keypad.rs:41-47 | a press followed by a release leaves the key released |
| Keypad.Keypad.constructor | src/keypad.rs:10-14 | a new keypad has all sixteen keys released |
| Keypad.Keypad.SetKeyState | src/keypad.rs:16-39 | the keyboard becomes `SetKey` of the old keyboard |
| Keypad.Keypad.PressKey | src/keypad.rs:41-43 | the key's logical key becomes pressed; nothing else changes |
| Keypad.Keypad.UnpressKey | src/keypad.rs:45-47 | the key's logical key becomes released; nothing else changes |
| Keypad.Keypad.IsPressed | src/keypad.rs:49-51 | returns the state of logical key `code` |
| Input.ApplyEvents | src/input_driver.rs:62-74 | the keypad snapshot keeps its sixteen keys through a batch |
| Input.LastTransitionWins | src/input_driver.rs:62-74 | a batch without a quit ends in `Void`, and each key ends as its last transition in the batch left it (unchanged if it had none) |
| Input.QuitStopsBatch | src/input_driver.rs:62-74 | at the first quit event the batch stops: the result is the snapshot after the events before it, with `Quit` |
| Input.QuitIffHasQuit | src/input_driver.rs:62-74 | a batch reports `Quit` exactly when it holds a quit event |
| Input.InertEventIgnored | src/input_driver.rs:62-74 | an event that is neither a quit nor a key event with a key code has no effect anywhere in a batch |
| Input.InputDriver.constructor | src/input_driver.rs:16-23 | a new driver has all sixteen keys released |
| Input.InputDriver.SetKeyState | src/input_driver.rs:25-48 | the keyboard becomes `SetKey` of the old keyboard |
| Input.InputDriver.PressKey | src/input_driver.rs:50-52 | the key's logical key becomes pressed; nothing else changes |
| Input.InputDriver.UnpressKey | src/input_driver.rs:54-56 | the key's logical key becomes released; nothing else changes |
| Input.InputDriver.IsPressed | src/input_driver.rs:58-60 | returns the state of logical key `code` |
| Input.InputDriver.ProcessEvents | src/input_driver.rs:62-74 | the event loop leaves the keyboard and returns the state that `ApplyEvents` gives for the batch |
| Sprite.DrawLoop | src/chip8.rs:253-261 | defines the two draw loops from a given row and bit on, re-reading Vy per row and Vx per bit as the code does; it keeps the value a grid, and `DrawLoopKeeps`, `DrawLoopGrid` and `DrawLoopFlag` state what it computes |
| Sprite.DrawSprite | src/chip8.rs:250-264 | defines Dxyn on the grid and the registers, VF := 0 followed by the loops, keeping the grid and the register file at their sizes; `DrawSpriteClosedForm`, `DrawTwice` and `DrawSpriteKeeps` state its effect |
| Sprite.PlotFlag | src/chip8.rs:256-259 | after one plot VF is 1 exactly when it was 1 or the sprite bit hit a lit cell |
| Sprite.DrawLoopKeeps | src/chip8.rs:253-261 | the draw loops keep VF at 0 or 1 and a 0/1 grid 0/1, whatever X and Y are |
| Sprite.DrawLoopGrid | src/chip8.rs:253-261 | with X and Y other than VF, the loops XOR exactly the pending sprite bits into their wrapped cells |
| Sprite.DrawLoopFlag | src/chip8.rs:253-261 | with X and Y other than VF, the loops set VF exactly when a pending set bit hits a lit cell |
| Sprite.DrawSpriteClosedForm | src/chip8.rs:250-264 | with X and Y other than VF, Dxyn XORs bit b of row r into cell ((Vy + r) mod 32, (Vx + b) mod 64), changes no other cell, and sets VF to 1 exactly on a collision |
| Sprite.DrawTwice | src/chip8.rs:250-264 | with X and Y other than VF, drawing the same sprite twice restores the grid; the second draw reports a collision exactly when some set bit targets a cell that was dark before the first draw |
| Sprite.DrawTwiceOnBlank | src/chip8.rs:250-264 | with X and Y other than VF, on a dark screen the second of two draws erases the sprite and reports a collision exactly when the sprite has a set bit |
| Sprite.HitsDarkOnBlank | src/chip8.rs:250-264 | on a dark screen a sprite hits a dark cell exactly when it has a set bit |
| Sprite.DrawSpriteKeeps | src/chip8.rs:250-264 | a draw changes no register but VF, leaves VF at 0 or 1, and keeps a 0/1 grid 0/1 |
| Semantics.FirstOutside | src/chip8.rs:109 | the address at which an access from `start` on first leaves memory: the fetch at pc (line 109), the sprite read of Dxyn (line 257), the BCD writes of Fx33 (lines 328-330) and the register loads of Fx65 (line 337) all fault there; it is outside memory, and it is `start` itself when that is already outside |
| Semantics.Boot | src/chip8.rs:54-75 | the boot machine is well formed |
| Semantics.LoadRom | src/chip8.rs:77-86 | a successful load gives a well-formed machine |
| Semantics.Fetch | src/chip8.rs:109 | defines the fetch of the big-endian word at pc, failing with the first address outside memory; `FetchBigEndian` states when it succeeds and what it reads |
| Semantics.Effect | src/chip8.rs:141-340 | defines the effect of each instruction other than Cxkk on the machine value, with its fault; `ExecFrame`, `ExecProgramCounter` and the instruction lemmas of `Properties` state what each case does |
| Semantics.Exec | src/chip8.rs:244-248 | defines the effect of any instruction, Cxkk taking the random byte as a parameter, and otherwise `Effect` |
| Semantics.Dispatch | src/chip8.rs:111-127 | defines the dispatch of the cycle: the unknown-opcode fault when the opcode does not decode, and otherwise `Exec`; `DispatchKeepsShape` and `CycleUnknownOpcode` state it keeps the machine well formed and fails on exactly the unsupported opcodes |
| Semantics.CountDown | src/chip8.rs:130-136 | defines a timer count-down saturating at 0; `CountDownSaturates` states it |
| Semantics.Tick | src/chip8.rs:130-136 | defines the count-down of both timers, as `Interpreter.Chip8.CountDownTimers` performs it |
| Semantics.DispatchKeepsShape | src/chip8.rs:111-127 | every successful dispatch keeps memory, registers, stack and grid at their sizes, and keeps sp and I in range |
| Semantics.MemoryEffectKeepsShape | src/chip8.rs:250-340 | Dxyn, Fx33 and Fx65 keep the machine well formed |
| Semantics.EffectKeepsShape | src/chip8.rs:141-340 | every other handler keeps the machine well formed |
| Semantics.Cycle | src/chip8.rs:108-139 | a successful cycle leaves a well-formed machine |
| Semantics.Run | src/chip8.rs:342-354 | a bounded run of the main loop keeps the machine well formed and the keypad at sixteen keys |
| Semantics.RunProgram | src/chip8.rs:342-354 | loading then running keeps the machine well formed and the keypad at sixteen keys |
| Properties.BootState | src/chip8.rs:54-75 | after boot the font is at 0x000-0x04F, the rest of memory is 0, pc is 0x200, sp, I and all registers are 0, and the screen is dark with no redraw pending |
| Properties.LoadRomPlacesProgram | src/chip8.rs:77-86 | loading succeeds exactly when the program fits from 0x200 on, and otherwise fails at address 4096; the program lands byte for byte at 0x200 onwards and nothing else changes |
| Properties.LoadRomKeepsFont | src/chip8.rs:70-72 | loading a program that fits leaves the font in place |
| Properties.FetchBigEndian | src/chip8.rs:109 | the fetch succeeds exactly when pc + 1 is in memory; the opcode's high byte is `memory[pc]` and its low byte `memory[pc + 1]` |
| Properties.ExecFrame | src/chip8.rs:141-340 | each instruction writes only its own part of the machine: memory only for Fx33, the stack only for 2nnn, the screen only for 00E0 and Dxyn (which set the draw flag), and so on |
| Properties.ExecProgramCounter | src/chip8.rs:141-340 | jumps and calls set pc to NNN, returns pop it, skips add 4 exactly when their condition holds and 2 otherwise, and every other instruction adds 2 |
| Properties.KeySkipFaults | src/chip8.rs:276-290 | Ex9E and ExA1 fail, with the key, exactly when Vx is 16 or more |
| Properties.StackFaults | src/chip8.rs:156-169 | a call overflows exactly when all sixteen slots are used, and a return underflows exactly when the stack is empty |
| Properties.CallThenReturn | src/chip8.rs:156-169 | a call followed by a return resumes at the instruction after the call, with the call's return address left in the stack slot |
| Properties.AddWithCarryExact | src/chip8.rs:222-229 | for X other than VF, 8xy4 leaves `VF * 256 + Vx == Vx + Vy` with VF the carry, and changes no other register |
| Properties.AddWithCarryIntoFlag | src/chip8.rs:222-229 | 8Fy4 writes the sum and then the carry into VF, so only the carry survives |
| Properties.SubtractExact | src/chip8.rs:231-237 | for X, Y other than VF, 8xy5 leaves `(Vx' + Vy) mod 256 == Vx`, with VF = 1 exactly when Vx > Vy, and changes no other register |
| Properties.SubtractFlagFirst | src/chip8.rs:231-237 | 8xF5 sets VF before it subtracts, so the subtrahend is the new flag |
| Properties.AddImmediateWraps | src/chip8.rs:190-196 | 7xkk adds KK modulo 256 and leaves VF alone |
| Properties.RandomAndMasked | src/chip8.rs:244-248 | Cxkk gives a value with no bits outside KK, and 0 when KK is 0 |
| Properties.StoreBcdDigits | src/chip8.rs:326-332 | Fx33 fails exactly when I + 2 is out of memory; otherwise it writes three decimal digits of Vx, most significant first, at I, I+1 and I+2 and changes no other byte |
| Properties.LoadRegistersCopies | src/chip8.rs:334-340 | Fx65 fails exactly when I + X is out of memory; otherwise V0..Vx become `memory[I..I+X]`, the other registers and I are unchanged |
| Properties.FontAddressFindsGlyph | src/chip8.rs:321-324 | with the font in place and Vx a hex digit, Fx29 points I at the five-byte glyph of that digit |
| Properties.DrawOutcome | src/chip8.rs:250-264 | Dxyn fails exactly when the sprite runs past memory; otherwise it sets the draw flag, leaves VF at 0 or 1 and changes no other register |
| Properties.CountDownSaturates | src/chip8.rs:130-136 | a timer decreases by one unless it is already 0, where it stays |
| Properties.ExecKeepsBinary | src/chip8.rs:141-340 | every instruction keeps a grid of 0/1 cells binary |
| Properties.CycleEffect | src/chip8.rs:108-139 | a successful cycle stores the fetched opcode, takes pc from the handler, counts both timers down, clears the draw flag, and presents the screen exactly when the flag was set before or the instruction draws |
| Properties.CycleUnknownOpcode | src/chip8.rs:111-127 | once fetched, a cycle fails with `UnknownOpcode` exactly when the opcode is unsupported |
| Properties.RunAppend | src/chip8.rs:342-354 | running two batches of rounds is running the first and, if it neither quit nor crashed, then the second |
| Properties.RunQuits | src/chip8.rs:345-349 | a round whose events hold a quit stops the run before the cycle, with the keys its earlier events set |
| Properties.RunOneRound | src/chip8.rs:345-352 | a round without a quit applies its events and then runs exactly one cycle, crashing with that cycle's fault |
| Interpreter.Chip8.constructor | src/chip8.rs:54-75 | the new interpreter is the boot machine, with the font copied to address 0, working through the given drivers |
| Interpreter.Chip8.LoadGame | src/chip8.rs:77-86 | the copy loop performs `LoadRom`: it writes the program from 0x200 on or fails at the first address past memory |
| Interpreter.Chip8.Handle00E0 | src/chip8.rs:151-154 | performs the clear-screen effect: a dark grid, the draw flag set, pc + 2 |
| Interpreter.Chip8.Handle00EE | src/chip8.rs:156-159 | performs the return: the stack underflow fault on an empty stack, otherwise pop pc |
| Interpreter.Chip8.Handle0xxx | src/chip8.rs:141-149 | dispatches family 0 on `opcode & 0xEF` and performs `Dispatch` for it, unknown low bytes failing with `UnknownOpcode` |
| Interpreter.Chip8.Handle1nnn | src/chip8.rs:161-163 | performs the jump: pc := NNN |
| Interpreter.Chip8.Handle2nnn | src/chip8.rs:165-169 | performs the call: the overflow fault on a full stack, otherwise push pc + 2 and jump |
| Interpreter.Chip8.Handle3xkk | src/chip8.rs:171-176 | performs 3xkk: skip exactly when Vx == KK |
| Interpreter.Chip8.Handle4xkk | src/chip8.rs:178-183 | performs 4xkk: skip exactly when Vx != KK |
| Interpreter.Chip8.Handle6xkk | src/chip8.rs:185-188 | performs 6xkk: Vx := KK |
| Interpreter.Chip8.Handle7xkk | src/chip8.rs:190-196 | performs 7xkk: Vx := (Vx + KK) mod 256 |
| Interpreter.Chip8.Handle8xy0 | src/chip8.rs:210-213 | performs 8xy0: Vx := Vy |
| Interpreter.Chip8.Handle8xy2 | src/chip8.rs:215-220 | performs 8xy2: Vx := Vx AND Vy |
| Interpreter.Chip8.Handle8xy4 | src/chip8.rs:222-229 | performs 8xy4: the wrapped sum into Vx, then the carry into VF |
| Interpreter.Chip8.Handle8xy5 | src/chip8.rs:231-237 | performs 8xy5: VF := (Vx > Vy), then Vx := (Vx - Vy) mod 256 |
| Interpreter.Chip8.Handle8xxx | src/chip8.rs:198-208 | dispatches family 8 on its low digit and performs `Dispatch`, other digits failing with `UnknownOpcode` |
| Interpreter.Chip8.HandleAnnn | src/chip8.rs:239-242 | performs Annn: I := NNN |
| Interpreter.Chip8.HandleCxkk | src/chip8.rs:244-248 | performs Cxkk for the given random byte: Vx := rnd AND KK |
| Interpreter.Chip8.HandleDxyn | src/chip8.rs:250-264 | performs the Dxyn effect: the sprite loops on the array framebuffer give exactly `DrawSprite`'s grid and VF, and the draw flag is set |
| Interpreter.Chip8.DrawSpriteRows | src/chip8.rs:252-261 | VF := 0 and the row loop yield exactly the grid and registers of `DrawSprite` |
| Interpreter.Chip8.DrawSpriteRow | src/chip8.rs:255-260 | the bit loop of one sprite row advances the draw exactly as `DrawLoop` says |
| Interpreter.Chip8.HandleEx9E | src/chip8.rs:276-282 | performs Ex9E: the key fault when Vx is not a key, otherwise skip exactly when key Vx is pressed |
| Interpreter.Chip8.HandleExA1 | src/chip8.rs:284-290 | performs ExA1: the key fault when Vx is not a key, otherwise skip exactly when key Vx is not pressed |
| Interpreter.Chip8.HandleExxx | src/chip8.rs:266-274 | dispatches family E on its low byte and performs `Dispatch`, other bytes failing with `UnknownOpcode` |
| Interpreter.Chip8.HandleFx07 | src/chip8.rs:306-309 | performs Fx07: Vx := delay timer |
| Interpreter.Chip8.HandleFx15 | src/chip8.rs:311-314 | performs Fx15: delay timer := Vx |
| Interpreter.Chip8.HandleFx18 | src/chip8.rs:316-319 | performs Fx18: sound timer := Vx |
| Interpreter.Chip8.HandleFx29 | src/chip8.rs:321-324 | performs Fx29: I := 5 * Vx |
| Interpreter.Chip8.HandleFx33 | src/chip8.rs:326-332 | performs Fx33: the memory fault when I + 2 is out of range, otherwise the three BCD digits of Vx at I |
| Interpreter.Chip8.HandleFx65 | src/chip8.rs:334-340 | performs Fx65: the memory fault when I + X is out of range, otherwise V0..Vx loaded from I |
| Interpreter.Chip8.LoadRegisterBlock | src/chip8.rs:336-338 | the copy loop makes the registers `memory[I..I+count]` followed by the old registers from `count` on |
| Interpreter.Chip8.HandleFxxx | src/chip8.rs:292-304 | dispatches family F on its low byte and performs `Dispatch`, other bytes failing with `UnknownOpcode` |
| Interpreter.Chip8.Execute | src/chip8.rs:111-127 | the match on the opcode's family performs `Dispatch`: the object either fails with its fault or becomes the machine it yields |
| Interpreter.Chip8.CountDownTimers | src/chip8.rs:130-136 | the object becomes `Tick` of its old state |
| Interpreter.Chip8.FetchOpcode | src/chip8.rs:109 | returns the big-endian word that `Fetch` reads at pc |
| Interpreter.Chip8.EmulateCycle | src/chip8.rs:108-139 | the cycle fails exactly when `Cycle` fails, with the same fault; on success the object is `Cycle`'s machine and the result says whether the screen was presented |
| Interpreter.Chip8.RunDisk | src/chip8.rs:342-354 | loading and running the rounds stops as `RunProgram` does; after a quit or when the rounds run out, the object and the keypad are `RunProgram`'s machine and keys |

Every `Interpreter.Chip8.Handle*` method is stated through the predicate `Performs(r, o)`: the outcome `o` mirrors `r`, and on success the object equals the machine `r` holds. `r` is the case of `Semantics.Effect` or `Semantics.Exec` for that handler's instruction, with fields read from the opcode before the handler runs. The `Properties` lemmas state what those machines are.

A few behaviours of the code are worth stating explicitly:

- **A program longer than 3584 bytes** is not rejected up front. The copy runs until the index reaches 4096 and panics there, so `LoadRom` fails with `MemoryOutOfBounds(4096)`.
- **`UnknownOpcode`** carries only the opcode, as the panic message does.
- **Fx33's middle digit** is `(Vx % 100) / 10`.
- **8xy5** sets VF with the strict comparison `Vx > Vy`, so VF is 0 when Vx equals Vy.
- **Drawing a sprite twice.** The second draw sets VF to 1 only when some set bit of the sprite targets a cell that was dark before the first draw. That is always the case on a dark screen (`Sprite.DrawTwiceOnBlank`), and the general condition is in `Sprite.DrawTwice`.

## Left out

- Rendering the framebuffer into an SDL window and polling SDL for events are not modelled. An event batch is a sequence of abstract events, and presenting only consumes the draw flag.
- Reading the program from a file is not modelled. The program is given as a byte sequence.
- The random byte of Cxkk is a parameter, one per round, instead of a call to a random number generator.
- `run_disk` loops forever and sleeps between cycles. The model runs a finite sequence of rounds and has no clock.
- `main.rs` and `lib.rs`, which build the SDL context and the drivers, are not part of this model.
- The interpreter holds its drivers through trait objects. The model gives it the concrete `VideoDriver` and `InputDriver` classes.
- `Keypad` and `InputDriver` keep two copies of the key table in the code. The model shares one `KeyMap.SetKey`.
- The evenness of pc is not modelled: the instructions do not keep it even, and nothing depends on it.
- Some operations can write part of their result before an out-of-bounds panic: `load_game`, Dxyn, Fx33 and Fx65. Those partial writes are not modelled. In the model a fault is terminal and carries no machine, and the handlers check for the fault before they write.
- Interpreter.Chip8.RunDisk: after a crash its contract gives only the fault, not the object's state, which the code abandons with a panic.
- Interpreter.Chip8.EmulateCycle: after a failure its contract gives only the fault, not the object's state, for the same reason.
- pc, sp and I, which are `usize` in the code, are unbounded integers in the model, so an overflow of pc past `usize` is not modelled. The `u16` opcode is a `Word`, an integer in [0, 0x10000). Every memory access is bounds-checked against 4096 as the code's indexing is.
- The framebuffer class keeps a ghost copy of its cells as a flat row-major sequence beside the `array2`, so that the value layer can talk about it.
- Sprite.DrawSpriteClosedForm, Sprite.DrawTwice and Sprite.DrawTwiceOnBlank are stated only for X and Y other than VF. When X or Y is F, the code re-reads that register while VF changes during the draw, so the draw position follows the changing flag. There the closed form and the restoration by a second draw do not hold, and they are not claimed. `Sprite.DrawSpriteKeeps` and `Properties.DrawOutcome` hold for every X and Y.
- Keypad.Keypad.IsPressed and Input.InputDriver.IsPressed require a key below 16. An index of 16 or more panics in the code, and the interpreter checks Vx before it asks.
