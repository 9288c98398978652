/** The interpreter's state as a value, and what each instruction handler and
    one whole cycle do to it.  This is the specification the Cpu class is
    proved against.  Wherever the interpreter would overflow a Rust integer
    or index outside a buffer (a panic of the host process), the function
    has a precondition instead: ExecDefined and CycleDefined collect them. */
module Machine {
  import opened Word
  import Instruction
  import Sprite

  /** All fields of the CPU that an instruction reads or writes. */
  datatype State = State(
    pc: u16,
    iRegister: u16,
    regs: seq<u8>,
    delayTimer: u8,
    soundTimer: u8,
    mem: seq<u8>,
    fb: seq<bool>,
    stack: seq<u16>,
    redraw: bool,
    panic: bool)

  /** Register VF, where the flag-setting instructions leave their flag. */
  const FlagRegister: Nibble := 0xF

  predicate WellFormed(s: State) {
    |s.regs| == 16
  }

  /** set_value_of_register: stores the low byte of a u16 value. */
  function SetRegister(s: State, r: Nibble, value: u16): State
    requires WellFormed(s)
  {
    s.(regs := s.regs[r := Trunc8(value)])
  }

  // ---------------------------------------------------------------- 0x0, 1, 2

  /** 00E0: every cell unlit.  The redraw flag is not touched. */
  function ClearScreen(s: State): State {
    s.(fb := seq(|s.fb|, _ => false))
  }

  /** 00EE: pop the return address; an empty stack halts the interpreter. */
  function ReturnFromSubroutine(s: State): State {
    if |s.stack| == 0 then s.(panic := true)
    else s.(pc := s.stack[|s.stack| - 1], stack := s.stack[..|s.stack| - 1])
  }

  /** 1NNN */
  function JumpToAddress(s: State, address: Addr): State {
    s.(pc := address)
  }

  /** 2NNN: push the (already advanced) pc, with no bound on the depth. */
  function JumpToSubroutine(s: State, address: Addr): State {
    s.(stack := s.stack + [s.pc], pc := address)
  }

  // ------------------------------------------------------------- skips: 3, 4, 5, 9

  /** pc += 2 on a u16. */
  function Skip(s: State): State
    requires s.pc + 2 <= 0xFFFF
  {
    s.(pc := s.pc + 2)
  }

  /** 3XNN */
  function SkipIfEqual(s: State, x: Nibble, value: u8): State
    requires WellFormed(s) && (s.regs[x] == value ==> s.pc + 2 <= 0xFFFF)
  {
    if s.regs[x] == value then Skip(s) else s
  }

  /** 4XNN */
  function SkipIfNotEqual(s: State, x: Nibble, value: u8): State
    requires WellFormed(s) && (s.regs[x] != value ==> s.pc + 2 <= 0xFFFF)
  {
    if s.regs[x] != value then Skip(s) else s
  }

  /** 5XY_ (the low nibble is not looked at) */
  function SkipIfXEqualsY(s: State, x: Nibble, y: Nibble): State
    requires WellFormed(s) && (s.regs[x] == s.regs[y] ==> s.pc + 2 <= 0xFFFF)
  {
    if s.regs[x] == s.regs[y] then Skip(s) else s
  }

  /** 9XY_ (the low nibble is not looked at) */
  function SkipIfXNotEqualsY(s: State, x: Nibble, y: Nibble): State
    requires WellFormed(s) && (s.regs[x] != s.regs[y] ==> s.pc + 2 <= 0xFFFF)
  {
    if s.regs[x] != s.regs[y] then Skip(s) else s
  }

  // ----------------------------------------------------------------- 6, 7

  /** 6XNN */
  function SetRegisterVx(s: State, x: Nibble, number: u8): State
    requires WellFormed(s)
  {
    s.(regs := s.regs[x := number])
  }

  /** 7XNN: u8 overflowing_add, the overflow flag dropped. */
  function AddToRegisterVx(s: State, x: Nibble, number: u8): State
    requires WellFormed(s)
  {
    s.(regs := s.regs[x := OverflowingAdd8(s.regs[x], number).0])
  }

  // ------------------------------------------------------------------ 8XYN

  /** 8XY0 */
  function StoreVyInVx(s: State, x: Nibble, y: Nibble): State
    requires WellFormed(s)
  {
    SetRegister(s, x, s.regs[y])
  }

  /** 8XY1 */
  function SetVxToVxOrVy(s: State, x: Nibble, y: Nibble): State
    requires WellFormed(s)
  {
    SetRegister(s, x, BitOr(s.regs[x], s.regs[y]))
  }

  /** 8XY2 */
  function SetVxToVxAndVy(s: State, x: Nibble, y: Nibble): State
    requires WellFormed(s)
  {
    SetRegister(s, x, BitAnd(s.regs[x], s.regs[y]))
  }

  /** 8XY3 */
  function SetVxToVxXorVy(s: State, x: Nibble, y: Nibble): State
    requires WellFormed(s)
  {
    SetRegister(s, x, BitXor(s.regs[x], s.regs[y]))
  }

  /** 8XY4: the operands are widened to u16 before overflowing_add. */
  function AddVyToVxCarry(s: State, x: Nibble, y: Nibble): State
    requires WellFormed(s)
  {
    var sum := OverflowingAdd16(s.regs[x], s.regs[y]);
    SetRegister(SetRegister(s, x, sum.0), FlagRegister, FromBool(sum.1))
  }

  /** 8XY5: u16 overflowing_sub; VF is the negated borrow. */
  function SubtractVyFromVxBorrow(s: State, x: Nibble, y: Nibble): State
    requires WellFormed(s)
  {
    var diff := OverflowingSub16(s.regs[x], s.regs[y]);
    SetRegister(SetRegister(s, x, diff.0), FlagRegister, FromBool(!diff.1))
  }

  /** 8XY6: VY >> 1, and VF = VY & 0x1. */
  function ShiftVyOneRightStoreInVx(s: State, x: Nibble, y: Nibble): State
    requires WellFormed(s)
  {
    var vy := s.regs[y];
    SetRegister(SetRegister(s, x, vy / 2), FlagRegister, BitAnd(vy, 0x01))
  }

  /** 8XY7: u16 overflowing_sub of VX from VY; VF is the negated borrow. */
  function SubtractVxFromVyBorrow(s: State, x: Nibble, y: Nibble): State
    requires WellFormed(s)
  {
    var diff := OverflowingSub16(s.regs[y], s.regs[x]);
    SetRegister(SetRegister(s, x, diff.0), FlagRegister, FromBool(!diff.1))
  }

  /** 8XYE: VY << 1 computed in u16 then truncated, and VF = VY & 0x80. */
  function ShiftVyOneLeftStoreInVx(s: State, x: Nibble, y: Nibble): State
    requires WellFormed(s)
  {
    var vy: u16 := s.regs[y];
    SetRegister(SetRegister(s, x, vy * 2), FlagRegister, BitAnd(vy, 0x80))
  }

  // ------------------------------------------------------------------ A, B

  /** ANNN */
  function SetIndexRegister(s: State, value: Addr): State {
    s.(iRegister := value)
  }

  /** BNNN: the target is NNN + V0. */
  function JumpWithOffset(s: State, value: Addr): State
    requires WellFormed(s)
  {
    s.(pc := value + s.regs[0])
  }

  // ------------------------------------------------------------------ DXYN

  /** The n sprite rows the draw reads, starting at I. */
  function SpriteRows(s: State, n: Nibble): (rows: seq<u8>)
    requires n == 0 || s.iRegister + n <= |s.mem|
    ensures |rows| == n
  {
    if n == 0 then [] else s.mem[s.iRegister..s.iRegister + n]
  }

  /** DXYN runs without a Rust panic: neither anchor register holds 0xFF
      (whose increment overflows a u8), the sprite rows lie in memory and
      are addressed without a u16 overflow, and every set pixel left of the
      right edge lands inside the frame buffer (rows are not clipped). */
  predicate DrawDefined(s: State, x: Nibble, y: Nibble, n: Nibble)
    requires WellFormed(s)
  {
    && s.regs[x] != 0xFF
    && s.regs[y] != 0xFF
    && (n == 0 || (s.iRegister + n <= |s.mem| && s.iRegister + n <= 0x1_0000))
    && Sprite.Fits(|s.fb|, SpriteRows(s, n),
                   Sprite.Anchor(s.regs[x], 64), Sprite.Anchor(s.regs[y], 32))
  }

  /** DXYN: XOR the sprite at memory[I..I+N] onto the buffer at the anchor
      taken from VX and VY; VF = 1 iff a lit cell went dark; redraw set. */
  function DrawSprite(s: State, x: Nibble, y: Nibble, n: Nibble): State
    requires WellFormed(s) && DrawDefined(s, x, y, n)
  {
    var x0 := Sprite.Anchor(s.regs[x], 64);
    var y0 := Sprite.Anchor(s.regs[y], 32);
    var sprite := SpriteRows(s, n);
    s.(regs := s.regs[FlagRegister := if Sprite.Collides(s.fb, sprite, x0, y0) then 1 else 0],
       fb := Sprite.Composite(s.fb, sprite, x0, y0),
       redraw := true)
  }

  // ------------------------------------------------------------------ FXNN

  /** FX07 */
  function StoreDelayTimerInVx(s: State, x: Nibble): State
    requires WellFormed(s)
  {
    SetRegister(s, x, s.delayTimer)
  }

  /** FX1E: I += VX on a u16. */
  function AddVxToI(s: State, x: Nibble): State
    requires WellFormed(s) && s.iRegister + s.regs[x] <= 0xFFFF
  {
    s.(iRegister := s.iRegister + s.regs[x])
  }

  /** FX33: the three decimal digits of VX at I, I+1, I+2, most significant first. */
  function StoreDecimalAtI(s: State, x: Nibble): State
    requires WellFormed(s) && s.iRegister + 2 < |s.mem|
  {
    var v, i := s.regs[x], s.iRegister;
    s.(mem := s.mem[i := v / 100 % 10][i + 1 := v / 10 % 10][i + 2 := v % 10])
  }

  /** FX55 and FX65 run without a Rust panic: the X + 1 cells from I lie in
      memory and the final I += 1 does not overflow a u16. */
  predicate BlockDefined(s: State, x: Nibble) {
    s.iRegister + x < |s.mem| && s.iRegister + x + 1 <= 0xFFFF
  }

  /** FX55: V0..VX to memory from I; I ends at I + X + 1. */
  function StoreRegisterValuesInMemory(s: State, x: Nibble): State
    requires WellFormed(s) && BlockDefined(s, x)
  {
    var i := s.iRegister;
    s.(mem := s.mem[..i] + s.regs[..x + 1] + s.mem[i + x + 1..], iRegister := i + x + 1)
  }

  /** FX65: V0..VX from memory from I; I ends at I + X + 1. */
  function LoadRegisterValuesFromMemory(s: State, x: Nibble): State
    requires WellFormed(s) && BlockDefined(s, x)
  {
    var i := s.iRegister;
    s.(regs := s.mem[i..i + x + 1] + s.regs[x + 1..], iRegister := i + x + 1)
  }

  /** Any refused word: only the halt flag changes. */
  function PanicUnknownInstruction(s: State): State {
    s.(panic := true)
  }

  // ------------------------------------------------------------ dispatch

  /** The instruction runs without a Rust panic in state s. */
  predicate ExecDefined(i: Instruction.Instr, s: State)
    requires WellFormed(s)
  {
    match i
    case SeByte(x, nn) => s.regs[x] == nn ==> s.pc + 2 <= 0xFFFF
    case SneByte(x, nn) => s.regs[x] != nn ==> s.pc + 2 <= 0xFFFF
    case SeReg(x, y) => s.regs[x] == s.regs[y] ==> s.pc + 2 <= 0xFFFF
    case SneReg(x, y) => s.regs[x] != s.regs[y] ==> s.pc + 2 <= 0xFFFF
    case Drw(x, y, n) => DrawDefined(s, x, y, n)
    case AddI(x) => s.iRegister + s.regs[x] <= 0xFFFF
    case LdB(x) => s.iRegister + 2 < |s.mem|
    case LdIVx(x) => BlockDefined(s, x)
    case LdVxI(x) => BlockDefined(s, x)
    case _ => true
  }

  /** The handler the dispatcher calls for each instruction. */
  function Execute(i: Instruction.Instr, s: State): State
    requires WellFormed(s) && ExecDefined(i, s)
  {
    match i
    case Cls => ClearScreen(s)
    case Ret => ReturnFromSubroutine(s)
    case Jp(a) => JumpToAddress(s, a)
    case Call(a) => JumpToSubroutine(s, a)
    case SeByte(x, nn) => SkipIfEqual(s, x, nn)
    case SneByte(x, nn) => SkipIfNotEqual(s, x, nn)
    case SeReg(x, y) => SkipIfXEqualsY(s, x, y)
    case LdByte(x, nn) => SetRegisterVx(s, x, nn)
    case AddByte(x, nn) => AddToRegisterVx(s, x, nn)
    case LdReg(x, y) => StoreVyInVx(s, x, y)
    case Or(x, y) => SetVxToVxOrVy(s, x, y)
    case And(x, y) => SetVxToVxAndVy(s, x, y)
    case Xor(x, y) => SetVxToVxXorVy(s, x, y)
    case AddReg(x, y) => AddVyToVxCarry(s, x, y)
    case Sub(x, y) => SubtractVyFromVxBorrow(s, x, y)
    case Shr(x, y) => ShiftVyOneRightStoreInVx(s, x, y)
    case Subn(x, y) => SubtractVxFromVyBorrow(s, x, y)
    case Shl(x, y) => ShiftVyOneLeftStoreInVx(s, x, y)
    case SneReg(x, y) => SkipIfXNotEqualsY(s, x, y)
    case LdI(a) => SetIndexRegister(s, a)
    case JpV0(a) => JumpWithOffset(s, a)
    case Drw(x, y, n) => DrawSprite(s, x, y, n)
    case LdVxDt(x) => StoreDelayTimerInVx(s, x)
    case AddI(x) => AddVxToI(s, x)
    case LdB(x) => StoreDecimalAtI(s, x)
    case LdIVx(x) => StoreRegisterValuesInMemory(s, x)
    case LdVxI(x) => LoadRegisterValuesFromMemory(s, x)
    case Unknown(_) => PanicUnknownInstruction(s)
  }

  /** The big-endian word at pc. */
  function Fetch(s: State): u16
    requires s.pc + 1 < |s.mem|
  {
    var high: u16 := s.mem[s.pc];
    high * 0x100 + s.mem[s.pc + 1]
  }

  /** emulate_cycle runs without a Rust panic: a halted CPU returns at once;
      otherwise the fetch is in memory, pc += 2 does not overflow, and the
      decoded instruction is defined in the advanced state. */
  predicate CycleDefined(s: State) {
    && WellFormed(s)
    && (s.panic ||
        (&& s.pc + 1 < |s.mem|
         && s.pc + 2 <= 0xFFFF
         && ExecDefined(Instruction.Decode(Fetch(s)), s.(pc := s.pc + 2))))
  }

  /** emulate_cycle: nothing once halted; otherwise fetch, advance pc by 2,
      then dispatch. */
  function Cycle(s: State): State
    requires CycleDefined(s)
  {
    if s.panic then s
    else Execute(Instruction.Decode(Fetch(s)), s.(pc := s.pc + 2))
  }

  /** A running cycle dispatches on the four nibbles of the fetched word,
      in the state with pc advanced. */
  lemma CycleDispatch(s: State)
    requires CycleDefined(s) && !s.panic
    ensures var w := Fetch(s);
      var i := Instruction.DecodeNibbles(w, Instruction.Na(w), Instruction.Nb(w), Instruction.Nc(w), Instruction.Nd(w));
      ExecDefined(i, s.(pc := s.pc + 2)) && Cycle(s) == Execute(i, s.(pc := s.pc + 2))
  {
  }

  // ------------------------------------------------------- construction

  /** CPU::new: pc at 0x200, the font at memory[20..100], a stack that
      already holds maxStackSize zeros, redraw set. */
  function Initial(font: seq<u8>, memorySize: nat, frameBufferSize: nat, maxStackSize: nat): State
    requires |font| == 80 && 100 <= memorySize
  {
    State(
      0x200, 0, seq(16, _ => 0), 0, 0,
      seq(memorySize, k requires 0 <= k < memorySize => if 20 <= k < 100 then font[k - 20] else 0),
      seq(frameBufferSize, _ => false),
      seq(maxStackSize, _ => 0),
      true, false)
  }

  /** set_program: the program bytes copied to memory from 0x200 on. */
  function LoadProgram(s: State, data: seq<u8>): State
    requires 0x200 + |data| <= |s.mem|
  {
    s.(mem := s.mem[..0x200] + data + s.mem[0x200 + |data|..])
  }
}
