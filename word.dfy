/** The fixed-width integers of the interpreter (Rust's u8 and u16) and the
    wrapping and bitwise operations the opcode handlers apply to them. */
module Word {

  /** Rust `u8`: a register, a memory byte, a timer. */
  type u8 = x: int | 0 <= x < 0x100

  /** Rust `u16`: the program counter, the index register, an instruction word. */
  type u16 = x: int | 0 <= x < 0x1_0000

  /** One four-bit field of an instruction word. */
  type Nibble = x: int | 0 <= x < 0x10

  /** A twelve-bit address operand (the NNN of 1NNN, 2NNN, ANNN, BNNN). */
  type Addr = x: int | 0 <= x < 0x1000

  /** `value as u8` on a u16: keeps the low byte. */
  function Trunc8(value: u16): u8 {
    value % 0x100
  }

  /** `u8::overflowing_add`: the wrapped sum and whether it wrapped. */
  function OverflowingAdd8(a: u8, b: u8): (r: (u8, bool))
    ensures r.0 == (a + b) % 0x100
    ensures r.1 <==> a + b > 0xFF
  {
    if a + b < 0x100 then (a + b, false) else (a + b - 0x100, true)
  }

  /** `u16::overflowing_add`: the wrapped sum and whether it wrapped. */
  function OverflowingAdd16(a: u16, b: u16): (r: (u16, bool))
    ensures r.0 == (a + b) % 0x1_0000
    ensures r.1 <==> a + b > 0xFFFF
  {
    if a + b < 0x1_0000 then (a + b, false) else (a + b - 0x1_0000, true)
  }

  /** `u16::overflowing_sub`: the wrapped difference and whether it borrowed. */
  function OverflowingSub16(a: u16, b: u16): (r: (u16, bool))
    ensures r.0 == (a - b) % 0x1_0000
    ensures r.1 <==> a < b
  {
    if a >= b then (a - b, false) else (a - b + 0x1_0000, true)
  }

  /** `flag as u16`: 1 for true, 0 for false. */
  function FromBool(flag: bool): u8 {
    if flag then 1 else 0
  }

  /** Bitwise `|` of two bytes. */
  function BitOr(a: u8, b: u8): u8 {
    ((a as bv8) | (b as bv8)) as int
  }

  /** Bitwise `&` of two bytes. */
  function BitAnd(a: u8, b: u8): u8 {
    ((a as bv8) & (b as bv8)) as int
  }

  /** Bitwise `^` of two bytes. */
  function BitXor(a: u8, b: u8): u8 {
    ((a as bv8) ^ (b as bv8)) as int
  }

  /** Bit k of a byte, as 0 or 1, written with division so that the solver
      reasons about it linearly; BitAtMask shows it is `(v & (1 << k)) >> k`. */
  function BitAt(v: u8, k: nat): (b: u8)
    requires k < 8
    ensures b == 0 || b == 1
  {
    match k
    case 0 => v % 2
    case 1 => v / 2 % 2
    case 2 => v / 4 % 2
    case 3 => v / 8 % 2
    case 4 => v / 16 % 2
    case 5 => v / 32 % 2
    case 6 => v / 64 % 2
    case 7 => v / 128 % 2
  }

  /** BitAt is the mask-and-shift of the interpreter's draw loop, bit by bit. */
  lemma BitAtMask(v: u8)
    ensures BitAt(v, 0) == (((v as bv8) & (1 << 0)) >> 0) as int
    ensures BitAt(v, 1) == (((v as bv8) & (1 << 1)) >> 1) as int
    ensures BitAt(v, 2) == (((v as bv8) & (1 << 2)) >> 2) as int
    ensures BitAt(v, 3) == (((v as bv8) & (1 << 3)) >> 3) as int
    ensures BitAt(v, 4) == (((v as bv8) & (1 << 4)) >> 4) as int
    ensures BitAt(v, 5) == (((v as bv8) & (1 << 5)) >> 5) as int
    ensures BitAt(v, 6) == (((v as bv8) & (1 << 6)) >> 6) as int
    ensures BitAt(v, 7) == (((v as bv8) & (1 << 7)) >> 7) as int
  {
  }

  /** Masking with 0x80 keeps exactly the top bit. */
  lemma BitAndHigh(v: u8)
    ensures BitAnd(v, 0x80) == if v >= 0x80 then 0x80 else 0
  {
  }

  /** Masking with 0x01 keeps exactly the parity bit. */
  lemma BitAndLow(v: u8)
    ensures BitAnd(v, 0x01) == v % 2
  {
  }
}
