# A verified model of a CHIP-8 interpreter core

This project models the execution engine of a small CHIP-8 interpreter
written in Rust (`src/cpu.rs`) and its sixteen-key keypad state
(`src/keypad.rs`), and proves properties of the model with Dafny.

The interpreter keeps its machine in one `CPU` object and updates it in
place:

- the program counter and the index register I, both 16-bit;
- sixteen byte registers V0..VF;
- a byte memory, a row-major frame buffer of booleans 64 cells wide, and a
  call stack of return addresses;
- two timers, and the `redraw` and `panic` flags.

`emulate_cycle` does nothing once `panic` is set. Otherwise it fetches the
big-endian word at pc, adds 2 to pc, and dispatches on the four nibbles of
the word. Words it does not know set `panic`, which halts the interpreter
for good.

The model has six modules:

- `Word` (word.dfy): Rust's `u8` and `u16` as integer subtypes, and the
  wrapping, truncating and bitwise operations the handlers use.
- `Instruction` (instruction.dfy): the instruction set as a datatype.
  `Decode` follows the interpreter's two-level `match`; `Encode` is an
  independent inverse. Decoding is proved to round-trip and to refuse
  exactly the words the interpreter refuses.
- `Sprite` (sprite.dfy): the XOR compositing rule of DXYN as a
  specification over the whole buffer. It is proved equal to the
  row-by-row, pixel-by-pixel loop the interpreter runs.
- `Machine` (machine.dfy): the CPU state as a value, one function per
  handler, `Execute` for the dispatcher and `Cycle` for one whole
  `emulate_cycle`. A Rust panic (an integer overflow in a debug build, or
  an index out of bounds) is a precondition. `ExecDefined` and
  `CycleDefined` collect these preconditions.
- `Cpu` (cpu.dfy): the `CPU` object as a Dafny class.
  - The registers, memory and frame buffer are arrays that the methods
    update in place.
  - The stack is a sequence field, because it is pushed and popped.
  - There is one method per handler, with the same loops as the source.
  - Each method is proved to leave the object in the state that
    `Machine.Execute` (or `Machine.Cycle`) gives for the old state.
- `Properties` (properties.dfy): what the interpreter promises, proved
  about `Machine`, so it holds of the object through the method
  contracts. This covers halting, fetch and dispatch, the skips,
  call/return, the arithmetic flags, drawing, BCD and the block
  transfers, and the parts of the state that never change.
- `Keypad` (keypad.dfy): the keypad as a class over a 16-element array.
  `get_new_key_release` is a loop method proved against the recursive
  function `FirstRelease`, whose contract states what a release is.

Several methods match source lines but are separate Dafny methods:

- `Cpu.Cpu.Dispatch` is the `match` of `emulate_cycle` (src/cpu.rs:60-82).
  `EmulateCycle` does the fetch and calls it.
- `Cpu.Cpu.DrawRows` and `Cpu.Cpu.DrawRow` are the outer and inner loops
  of `draw_sprite` (src/cpu.rs:311-333).
- `Cpu.Cpu.StoreLoop` and `Cpu.Cpu.LoadLoop` are the loops of FX55 and
  FX65.

The draw loop extracts a pixel as `(row & (1 << (7 - j))) >> (7 - j)`. The
model computes it by division (`Word.BitAt`), and `Word.BitAtMask` proves
the two forms equal for every bit.

### Where the code departs from the usual CHIP-8 behaviour

The model follows the code in every case below.

- **Adding registers never sets a carry.** 8XY4 widens both registers to
  `u16` before `overflowing_add`, so the sum can never overflow and VF is
  always 0.
- **The left shift sets VF to 0x80.** 8XYE sets VF to `VY & 0x80`, which is
  0 or 0x80, not 0 or 1. 8XY6 sets VF to `VY & 1`.
- **The bitwise operations leave VF alone.** 8XY1, 8XY2 and 8XY3 do not
  write VF.
- **A coordinate off the screen is wrapped as `(v + 1) % size`, not
  `v % size`.**
  - This applies to the anchor X when X > 63 and to the anchor Y when
    Y > 31.
  - A register value of 255 overflows the `u8` increment.
  - Columns at or beyond 64 are dropped.
  - Rows below the screen are not clipped: their cell index is simply
    larger. The model requires every set pixel to land inside the buffer.
- **Six opcodes halt the interpreter.** CXNN, the EX9E/EXA1 family, FX0A,
  FX15, FX18 and FX29 are not dispatched, so they set `panic`.
- **5XYN and 9XYN ignore the low nibble.**
- **A refused F-family word is reported with 0xE as its high nibble.**
  Only the report changes; the halt is the same.
- **The timers never change.** Nothing decrements the timers, and no
  instruction sets them, so FX07 always reads 0.
- **The stack starts full of zeros.**
  - It is created with `max_stack_size` zero entries.
  - Push has no bound.
  - 00EE halts only once every entry, including the initial zeros, has
    been popped.

## Model

| member | source | states |
|---|---|---|
| Word.OverflowingAdd8 | src/cpu.rs:159 | the wrapped sum is (a + b) mod 256, and the flag is set iff a + b > 255 |
| Word.OverflowingAdd16 | src/cpu.rs:218 | the wrapped sum is (a + b) mod 65536, and the flag is set iff a + b > 65535 |
| Word.OverflowingSub16 | src/cpu.rs:228 | the wrapped difference is (a - b) mod 65536, and the borrow is set iff a < b |
| Word.BitAt | src/cpu.rs:315 | a pixel of a sprite row is 0 or 1 |
| Word.BitAtMask | src/cpu.rs:315 | for every k < 8, bit k computed by division equals `(v & (1 << k)) >> k` |
| Word.BitAndHigh | src/cpu.rs:260 | `v & 0x80` is 0x80 when the top bit of v is set, else 0 |
| Word.BitAndLow | src/cpu.rs:240 | `v & 0x1` is v mod 2 |
| Instruction.NibblesOf | src/cpu.rs:51-54 | a word is the sum of its four nibbles, each shifted by its position |
| Instruction.DecodeEncode | src/cpu.rs:60-82 | decoding the canonical word of any known instruction gives back that instruction |
| Instruction.EncodeDecode | src/cpu.rs:60-82 | a word the dispatcher accepts is the canonical word of what it decodes to, except for the ignored low nibble of 5XYN and 9XYN |
| Instruction.UnknownExactly | src/cpu.rs:60-82 | a word decodes to the unknown instruction iff it is refused: a 0x0 word other than 00E0/00EE, the 0xC or 0xE family, an 8XYN with N not 0-7 or E, or an FXNN with NN not 07, 1E, 33, 55 or 65 |
| Instruction.EncodeArithmetic | src/cpu.rs:164-177 | every known 8XYN is encoded with high nibble 8 and its own X, Y and N |
| Instruction.EncodeMisc | src/cpu.rs:342-353 | every known FXNN is encoded with high nibble F and its own X and NN |
| Sprite.Anchor | src/cpu.rs:303-308 | the draw anchor lies on the screen, and a coordinate already on the screen is kept |
| Sprite.FitsRow | src/cpu.rs:311-324 | when every set pixel of the sprite lands in the buffer, every set pixel of each of its rows does too |
| Sprite.RowFromComposite | src/cpu.rs:314-332 | finishing row i from column j, after the first 8i + j pixels are drawn, leaves the first 8(i + 1) pixels drawn and their collision flag |
| Sprite.DrawRowStep | src/cpu.rs:311-333 | drawing one whole row after the rows above it are drawn leaves one more row drawn |
| Sprite.DrawLoop | src/cpu.rs:310-333 | the row-by-row, pixel-by-pixel loop with VF cleared first gives the XOR composite, and its flag is set iff some lit cell went dark |
| Sprite.CompositeInvolution | src/cpu.rs:323-331 | drawing the same sprite twice at the same place restores the frame buffer |
| Sprite.RedrawCollides | src/cpu.rs:323-331 | the second of two identical draws collides iff the first turned some cell on |
| Sprite.CompositeCell | src/cpu.rs:315-331 | the cell under pixel (i, j) flips iff that pixel is set |
| Sprite.CompositeOutside | src/cpu.rs:311-333 | a cell outside the sprite's rectangle is unchanged; nothing wraps from the right edge |
| Machine.CycleDispatch | src/cpu.rs:44-82 | a running cycle runs the instruction selected by the four nibbles of the fetched word, in the state with pc advanced by 2 |
| Cpu.Cpu.constructor | src/cpu.rs:21-42 | pc 0x200, all registers, I and timers 0, a dark screen, the font at memory 20..99, a stack of max_stack_size zeros, redraw set |
| Cpu.Cpu.SetProgram | src/cpu.rs:473-475 | the program bytes are copied to memory from 0x200, and the rest of memory is kept |
| Cpu.Cpu.EmulateCycle | src/cpu.rs:44-83 | the object ends in the state `Machine.Cycle` gives for the old state |
| Cpu.Cpu.Dispatch | src/cpu.rs:60-82 | the first-level match runs the handler of the instruction its nibbles select |
| Cpu.Cpu.ClearScreen | src/cpu.rs:87-90 | 00E0 turns every cell of the frame buffer off and changes nothing else |
| Cpu.Cpu.ReturnFromSubroutine | src/cpu.rs:94-103 | 00EE pops the top of the stack into pc, or sets the halt flag when the stack is empty |
| Cpu.Cpu.JumpToAddress | src/cpu.rs:107-110 | 1NNN sets pc to NNN |
| Cpu.Cpu.JumpToSubroutine | src/cpu.rs:114-117 | 2NNN pushes the advanced pc and sets pc to NNN |
| Cpu.Cpu.SkipIfEqual | src/cpu.rs:121-126 | 3XNN adds 2 to pc iff VX = NN |
| Cpu.Cpu.SkipIfNotEqual | src/cpu.rs:130-135 | 4XNN adds 2 to pc iff VX differs from NN |
| Cpu.Cpu.SkipIfXEqualsY | src/cpu.rs:139-145 | 5XY_ adds 2 to pc iff VX = VY |
| Cpu.Cpu.SetRegisterVx | src/cpu.rs:149-152 | 6XNN stores NN in VX |
| Cpu.Cpu.AddToRegisterVx | src/cpu.rs:156-160 | 7XNN stores the u8 wrapping sum VX + NN in VX |
| Cpu.Cpu.ArithmeticInstructions | src/cpu.rs:164-177 | the 8XYN match runs the handler its low nibble selects, and halts on any other nibble |
| Cpu.Cpu.StoreVyInVx | src/cpu.rs:181-184 | 8XY0 stores VY in VX |
| Cpu.Cpu.SetVxToVxOrVy | src/cpu.rs:188-193 | 8XY1 stores VX OR VY in VX |
| Cpu.Cpu.SetVxToVxAndVy | src/cpu.rs:197-202 | 8XY2 stores VX AND VY in VX |
| Cpu.Cpu.SetVxToVxXorVy | src/cpu.rs:206-211 | 8XY3 stores VX XOR VY in VX |
| Cpu.Cpu.AddVyToVxCarry | src/cpu.rs:215-221 | 8XY4 stores the low byte of the u16 sum in VX, then VF gets the u16 overflow flag |
| Cpu.Cpu.SubtractVyFromVxBorrow | src/cpu.rs:225-231 | 8XY5 stores the low byte of the u16 difference VX - VY in VX, then VF gets NOT borrow |
| Cpu.Cpu.ShiftVyOneRightStoreInVx | src/cpu.rs:236-241 | 8XY6 stores VY >> 1 in VX, then VF gets VY & 1 |
| Cpu.Cpu.SubtractVxFromVyBorrow | src/cpu.rs:245-251 | 8XY7 stores the low byte of VY - VX in VX, then VF gets NOT borrow |
| Cpu.Cpu.ShiftVyOneLeftStoreInVx | src/cpu.rs:256-261 | 8XYE stores the low byte of VY << 1 in VX, then VF gets VY & 0x80 |
| Cpu.Cpu.SkipIfXNotEqualsY | src/cpu.rs:266-272 | 9XY_ adds 2 to pc iff VX differs from VY |
| Cpu.Cpu.SetIndexRegister | src/cpu.rs:276-279 | ANNN sets I to NNN |
| Cpu.Cpu.JumpWithOffset | src/cpu.rs:283-286 | BNNN sets pc to NNN + V0 |
| Cpu.Cpu.DrawSprite | src/cpu.rs:298-336 | DXYN XORs the N-row sprite at I onto the buffer at the corrected anchor, sets VF to 1 iff a lit cell went dark, and sets redraw |
| Cpu.Cpu.DrawRows | src/cpu.rs:311-333 | the outer loop leaves the buffer as the composite of the whole sprite, and VF as its collision flag |
| Cpu.Cpu.DrawRow | src/cpu.rs:314-332 | the inner loop flips the cells under the set pixels of one row up to the right edge, and raises VF on a collision |
| Cpu.Cpu.FInstructions | src/cpu.rs:342-353 | the FXNN match runs the handler its low byte selects, and halts on any other byte |
| Cpu.Cpu.StoreDelayTimerInVx | src/cpu.rs:357-360 | FX07 stores the delay timer in VX |
| Cpu.Cpu.AddVxToI | src/cpu.rs:376-379 | FX1E adds VX to I |
| Cpu.Cpu.StoreDecimalAtI | src/cpu.rs:386-392 | FX33 writes the hundreds, tens and units digits of VX at I, I+1 and I+2 |
| Cpu.Cpu.StoreRegisterValuesInMemory | src/cpu.rs:397-402 | FX55 stores V0..VX at I..I+X and leaves I at I+X+1 |
| Cpu.Cpu.StoreLoop | src/cpu.rs:398-401 | each memory cell I0+k with k <= X receives Vk, the other cells are kept, and I advances by X+1 |
| Cpu.Cpu.LoadRegisterValuesFromMemory | src/cpu.rs:407-413 | FX65 loads V0..VX from I..I+X and leaves I at I+X+1 |
| Cpu.Cpu.LoadLoop | src/cpu.rs:408-412 | each Vk with k <= X receives memory cell I0+k, the other registers are kept, and I advances by X+1 |
| Cpu.Cpu.SetValueOfRegister | src/cpu.rs:419-421 | only the given register changes, and it gets the low byte of the value |
| Cpu.Cpu.PanicUnknownInstruction | src/cpu.rs:423-431 | the halt flag is set and nothing else changes |
| Properties.HaltIsPermanent | src/cpu.rs:44-47 | a cycle of a halted interpreter changes nothing |
| Properties.RefusedWordHalts | src/cpu.rs:60-82 | a refused word sets the halt flag; apart from the pc advance of the fetch, nothing else changes |
| Properties.AcceptedWordRuns | src/cpu.rs:60-82 | a word that is not refused decodes to a known instruction |
| Properties.ExecuteKeepsRunning | src/cpu.rs:94-103 | an instruction halts iff it is unknown or it is 00EE on an empty stack |
| Properties.FetchBigEndian | src/cpu.rs:49 | the fetched word has the byte at pc as its high byte and the byte at pc+1 as its low byte |
| Properties.FetchHeld | src/cpu.rs:49-54 | the two bytes of a known instruction at pc fetch and decode as that instruction |
| Properties.CycleDecoded | src/cpu.rs:44-83 | a running cycle whose fetched word decodes as i advances pc by 2, then runs i |
| Properties.CycleExecutes | src/cpu.rs:44-83 | a cycle over the bytes of a known instruction advances pc by 2, then runs that instruction |
| Properties.SkipsIff | src/cpu.rs:121-145 | 3XNN, 4XNN and 5XY_ add 2 to pc exactly when their comparison holds, and change nothing else |
| Properties.CallThenReturn | src/cpu.rs:94-117 | 2NNN followed by 00EE restores the state before the call |
| Properties.CallReturnCycles | src/cpu.rs:94-117 | a cycle over 2NNN, then a cycle over 00EE at NNN, resumes right after the call with the stack as before |
| Properties.ReturnUnderflow | src/cpu.rs:98-101 | 00EE on an empty stack sets the halt flag and changes nothing else |
| Properties.AddByteWraps | src/cpu.rs:156-160 | 7XNN leaves (VX + NN) mod 256 in VX and changes no other register, VF included |
| Properties.AddRegNeverCarries | src/cpu.rs:215-221 | 8XY4 always leaves VF = 0; with X other than F, VX = (VX + VY) mod 256; other registers are kept |
| Properties.SubBorrow | src/cpu.rs:225-231 | 8XY5 sets VF = 1 iff VX >= VY, even when X is F; otherwise VX = (VX - VY) mod 256 |
| Properties.SubnBorrow | src/cpu.rs:245-251 | 8XY7 sets VF = 1 iff VY >= VX; otherwise VX = (VY - VX) mod 256 |
| Properties.SubExample | src/cpu.rs:225-231 | 8XY5 with VX = 1 and VY = 2 leaves VX = 0xFF and VF = 0 |
| Properties.ShiftRight | src/cpu.rs:236-241 | 8XY6 leaves VF = VY mod 2 and, with X other than F, VX = VY / 2 |
| Properties.ShiftLeft | src/cpu.rs:256-261 | 8XYE leaves VF = 0x80 when the top bit of VY is set, else 0; with X other than F, VX = 2·VY mod 256 |
| Properties.SetRegisterByte | src/cpu.rs:419-421 | storing a byte value through the u16 setter stores it unchanged |
| Properties.BitwiseKeepsFlag | src/cpu.rs:181-211 | 8XY0 to 8XY3 write VY, VX OR VY, VX AND VY, VX XOR VY to VX and change nothing else |
| Properties.DrawFlipsPixel | src/cpu.rs:311-331 | DXYN flips the cell under pixel (i, j) iff bit 7 - j of memory[I + i] is set |
| Properties.DrawOutside | src/cpu.rs:298-336 | DXYN keeps cells outside the sprite, memory, I and pc; it sets redraw, and writes only VF, which is 1 iff there is a collision |
| Properties.DrawTwice | src/cpu.rs:298-336 | drawing twice with neither anchor register VF restores the buffer; the second VF is 1 iff the first draw lit some cell |
| Properties.DecimalDigits | src/cpu.rs:386-392 | FX33 writes three decimal digits that read back as VX, and changes nothing else |
| Properties.DecimalExample | src/cpu.rs:386-392 | FX33 on 234 writes 2, 3, 4 |
| Properties.StoreBlock | src/cpu.rs:397-402 | FX55: memory[I0+k] = Vk for k <= X, other memory kept, I = I0+X+1, nothing else changes |
| Properties.LoadBlock | src/cpu.rs:407-413 | FX65: Vk = memory[I0+k] for k <= X, other registers kept, I = I0+X+1, nothing else changes |
| Properties.StoreThenLoad | src/cpu.rs:397-413 | FX55, then I reset to I0, then FX65 restores every register |
| Properties.ExecuteKeepsShape | src/cpu.rs:355-360 | no instruction changes the timers or the sizes of registers, memory and buffer |
| Properties.CycleKeepsTimers | src/cpu.rs:44-83 | no cycle changes the timers or those sizes |
| Properties.InitialState | src/cpu.rs:21-42 | a new interpreter is running, at pc 0x200, with zero registers, I and timers, a dark screen, the font at 20..99 and a stack of max_stack_size entries |
| Properties.ProgramAt | src/cpu.rs:473-475 | the program sits at 0x200 and the rest of memory is kept |
| Keypad.FirstRelease | src/keypad.rs:49-56 | the result names a key pressed before and released after, with no lower such key; no result means no key from the start index was released |
| Keypad.ReleaseIff | src/keypad.rs:49-56 | a release is reported iff some key was released |
| Keypad.NoReleaseAgainstItself | src/keypad.rs:49-56 | a keypad compared with itself reports no release |
| Keypad.NoReleaseAgainstSuperset | src/keypad.rs:49-56 | a keypad compared with one holding at least its keys reports no release |
| Keypad.Keypad.constructor | src/keypad.rs:43-47 | a new keypad has no key down |
| Keypad.Keypad.GetNewKeyRelease | src/keypad.rs:49-56 | the scan returns the lowest key down here and up in the other keypad, or none |
| Keypad.Keypad.KeyDown | src/keypad.rs:58-60 | key id is pressed afterwards and every other key is unchanged |
| Keypad.Keypad.KeyUp | src/keypad.rs:62-64 | key id is released afterwards and every other key is unchanged |

## Left out

- src/main.rs is not part of this model. It holds the window, the
  rendering loop, reading the program file and debug shortcuts, all of
  which use a foreign GUI library. Its constants (a memory of 4096 bytes,
  2048 cells, a stack size of 32, the 80-byte font) are left as
  construction parameters.
- The console diagnostics are left out, because they only print: the
  `detailed_logging` flag and its `println`, `print_memory`,
  `print_frame_buffer`, `print_registers`, `print_value_at_i`, and the
  message of `panic_unknown_instruction`. Only the halt flag that
  `panic_unknown_instruction` sets is modelled.
- `set_masked_random` (CXNN) is left out: it draws from a foreign random
  number generator, and the dispatcher never calls it.
- `store_next_keypress_in_vx` (FX0A) is left out: its body is empty and
  the dispatcher never calls it.
- The fields `keypad_input`, `memory_size`, `frame_buffer_size` and
  `max_stack_size` are left out. The handlers never read them;
  `memory_size` is read only by `print_memory`.
- `KEY_MAP` in src/keypad.rs is left out. It maps the GUI library's key
  codes to keypad indices, so it is host input over a foreign type. The
  derived `Clone` of `Keypad` is left out too.
- A Rust panic ends the host process, so the model makes the
  preconditions that avoid one explicit instead of modelling the panic.
  The panics are:
  - an index out of bounds;
  - `u8`/`u16` overflow in a debug build;
  - the length mismatch of `copy_from_slice`.
- `Cpu.Cpu.GetValueOfRegister` and `Keypad.Keypad.IsKeyPressed` are plain
  reads of one array cell. Their uses appear in the contracts of the
  methods that call them.
- Memory and the frame buffer are `Vec`s that the interpreter never
  resizes, so the model keeps them as arrays of fixed length. The stack
  is pushed and popped, so the model keeps it as a sequence field.
