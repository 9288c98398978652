/** Decoding of a 16-bit instruction word into the instruction it selects.
    Decode follows the interpreter's two-level dispatch: the high nibble picks
    the family, and the 0x0, 0x8 and 0xF families look further at the whole
    word, the low nibble or the low byte.  Encode is its inverse on every
    instruction the dispatcher knows. */
module Instruction {
  import opened Word

  /** The instructions the dispatcher executes, named by their usual
      mnemonics, plus the catch-all for every word it refuses. */
  datatype Instr =
    | Cls                          // 00E0  clear_screen
    | Ret                          // 00EE  return_from_subroutine
    | Jp(nnn: Addr)                // 1NNN  jump_to_address
    | Call(nnn: Addr)              // 2NNN  jump_to_subroutine
    | SeByte(x: Nibble, nn: u8)    // 3XNN  skip_if_equal
    | SneByte(x: Nibble, nn: u8)   // 4XNN  skip_if_not_equal
    | SeReg(x: Nibble, y: Nibble)  // 5XY_  skip_if_x_equals_y
    | LdByte(x: Nibble, nn: u8)    // 6XNN  set_register_vx
    | AddByte(x: Nibble, nn: u8)   // 7XNN  add_to_register_vx
    | LdReg(x: Nibble, y: Nibble)  // 8XY0  store_vy_in_vx
    | Or(x: Nibble, y: Nibble)     // 8XY1  set_vx_to_vx_or_vy
    | And(x: Nibble, y: Nibble)    // 8XY2  set_vx_to_vx_and_vy
    | Xor(x: Nibble, y: Nibble)    // 8XY3  set_vx_to_vx_xor_vy
    | AddReg(x: Nibble, y: Nibble) // 8XY4  add_vy_to_vx_carry
    | Sub(x: Nibble, y: Nibble)    // 8XY5  subtract_vy_from_vx_borrow
    | Shr(x: Nibble, y: Nibble)    // 8XY6  shift_vy_one_right_store_in_vx
    | Subn(x: Nibble, y: Nibble)   // 8XY7  subtract_vx_from_vy_borrow
    | Shl(x: Nibble, y: Nibble)    // 8XYE  shift_vy_one_left_store_in_vx
    | SneReg(x: Nibble, y: Nibble) // 9XY_  skip_if_x_not_equals_y
    | LdI(nnn: Addr)               // ANNN  set_index_register
    | JpV0(nnn: Addr)              // BNNN  jump_with_offset
    | Drw(x: Nibble, y: Nibble, n: Nibble) // DXYN draw_sprite
    | LdVxDt(x: Nibble)            // FX07  store_delay_timer_in_vx
    | AddI(x: Nibble)              // FX1E  add_vx_to_i
    | LdB(x: Nibble)               // FX33  store_decimal_at_i
    | LdIVx(x: Nibble)             // FX55  store_register_values_in_memory
    | LdVxI(x: Nibble)             // FX65  load_register_values_from_memory
    | Unknown(word: u16)           // anything else: panic_unknown_instruction

  /** Second-level dispatch of the 0x8 family on its low nibble. */
  function DecodeArithmetic(nb: Nibble, nc: Nibble, nd: Nibble): Instr {
    match nd
    case 0x0 => LdReg(nb, nc)
    case 0x1 => Or(nb, nc)
    case 0x2 => And(nb, nc)
    case 0x3 => Xor(nb, nc)
    case 0x4 => AddReg(nb, nc)
    case 0x5 => Sub(nb, nc)
    case 0x6 => Shr(nb, nc)
    case 0x7 => Subn(nb, nc)
    case 0xE => Shl(nb, nc)
    case _ => Unknown(0x8000 + nb * 0x100 + nc * 0x10 + nd)
  }

  /** Second-level dispatch of the 0xF family on its low byte.  The word a
      refused 0xF instruction reports is rebuilt with 0xE as its high nibble,
      as the interpreter does. */
  function DecodeMisc(nb: Nibble, nc: Nibble, nd: Nibble): Instr {
    var encoded := nc * 0x10 + nd;
    match encoded
    case 0x07 => LdVxDt(nb)
    case 0x1E => AddI(nb)
    case 0x33 => LdB(nb)
    case 0x55 => LdIVx(nb)
    case 0x65 => LdVxI(nb)
    case _ => Unknown(0xE000 + nb * 0x100 + encoded)
  }

  /** The four nibbles of a word, most significant first. */
  function Na(w: u16): Nibble { w / 0x1000 }
  function Nb(w: u16): Nibble { w / 0x100 % 0x10 }
  function Nc(w: u16): Nibble { w / 0x10 % 0x10 }
  function Nd(w: u16): Nibble { w % 0x10 }

  /** The word with nibbles a, b, c, d, most significant first. */
  function FromNibbles(a: Nibble, b: Nibble, c: Nibble, d: Nibble): u16 {
    a * 0x1000 + b * 0x100 + c * 0x10 + d
  }

  /** The instruction a fetched word selects. */
  function Decode(w: u16): Instr {
    DecodeNibbles(w, Na(w), Nb(w), Nc(w), Nd(w))
  }

  /** First-level dispatch on the high nibble na of the word w. */
  function DecodeNibbles(w: u16, na: Nibble, nb: Nibble, nc: Nibble, nd: Nibble): Instr {
    match na
    case 0x0 => if w == 0x00E0 then Cls else if w == 0x00EE then Ret else Unknown(w)
    case 0x1 => Jp(nb * 0x100 + nc * 0x10 + nd)
    case 0x2 => Call(nb * 0x100 + nc * 0x10 + nd)
    case 0x3 => SeByte(nb, nc * 0x10 + nd)
    case 0x4 => SneByte(nb, nc * 0x10 + nd)
    case 0x5 => SeReg(nb, nc)
    case 0x6 => LdByte(nb, nc * 0x10 + nd)
    case 0x7 => AddByte(nb, nc * 0x10 + nd)
    case 0x8 => DecodeArithmetic(nb, nc, nd)
    case 0x9 => SneReg(nb, nc)
    case 0xA => LdI(nb * 0x100 + nc * 0x10 + nd)
    case 0xB => JpV0(nb * 0x100 + nc * 0x10 + nd)
    case 0xD => Drw(nb, nc, nd)
    case 0xF => DecodeMisc(nb, nc, nd)
    case _ => Unknown(w)
  }

  /** The canonical word of a known instruction (a zero low nibble for the
      two register-comparison skips). */
  function Encode(i: Instr): u16
    requires !i.Unknown?
  {
    match i
    case Cls => 0x00E0
    case Ret => 0x00EE
    case Jp(a) => 0x1000 + a
    case Call(a) => 0x2000 + a
    case SeByte(x, nn) => 0x3000 + x * 0x100 + nn
    case SneByte(x, nn) => 0x4000 + x * 0x100 + nn
    case SeReg(x, y) => FromNibbles(0x5, x, y, 0x0)
    case LdByte(x, nn) => 0x6000 + x * 0x100 + nn
    case AddByte(x, nn) => 0x7000 + x * 0x100 + nn
    case LdReg(x, y) => FromNibbles(0x8, x, y, 0x0)
    case Or(x, y) => FromNibbles(0x8, x, y, 0x1)
    case And(x, y) => FromNibbles(0x8, x, y, 0x2)
    case Xor(x, y) => FromNibbles(0x8, x, y, 0x3)
    case AddReg(x, y) => FromNibbles(0x8, x, y, 0x4)
    case Sub(x, y) => FromNibbles(0x8, x, y, 0x5)
    case Shr(x, y) => FromNibbles(0x8, x, y, 0x6)
    case Subn(x, y) => FromNibbles(0x8, x, y, 0x7)
    case Shl(x, y) => FromNibbles(0x8, x, y, 0xE)
    case SneReg(x, y) => FromNibbles(0x9, x, y, 0x0)
    case LdI(a) => 0xA000 + a
    case JpV0(a) => 0xB000 + a
    case Drw(x, y, n) => FromNibbles(0xD, x, y, n)
    case LdVxDt(x) => FromNibbles(0xF, x, 0x0, 0x7)
    case AddI(x) => FromNibbles(0xF, x, 0x1, 0xE)
    case LdB(x) => FromNibbles(0xF, x, 0x3, 0x3)
    case LdIVx(x) => FromNibbles(0xF, x, 0x5, 0x5)
    case LdVxI(x) => FromNibbles(0xF, x, 0x6, 0x5)
  }

  /** The words the dispatcher refuses: a 0x0 word other than 00E0 and 00EE,
      the 0xC and 0xE families, an 8XYN whose N is not 0-7 or E, and an FXNN
      whose NN is not 07, 1E, 33, 55 or 65. */
  predicate Refused(w: u16) {
    var na, nd, low := w / 0x1000, w % 0x10, w % 0x100;
    || (na == 0x0 && w != 0x00E0 && w != 0x00EE)
    || na == 0xC
    || na == 0xE
    || (na == 0x8 && 0x8 <= nd && nd != 0xE)
    || (na == 0xF && low != 0x07 && low != 0x1E && low != 0x33 && low != 0x55 && low != 0x65)
  }

  /** Division by 16, 256 and 4096 of a number written as hi * m + lo. */
  lemma Split16(hi: int, lo: int)
    requires 0 <= lo < 0x10
    ensures (hi * 0x10 + lo) / 0x10 == hi && (hi * 0x10 + lo) % 0x10 == lo
  {
  }

  lemma Split256(hi: int, lo: int)
    requires 0 <= lo < 0x100
    ensures (hi * 0x100 + lo) / 0x100 == hi && (hi * 0x100 + lo) % 0x100 == lo
  {
  }

  lemma Split4096(hi: int, lo: int)
    requires 0 <= lo < 0x1000
    ensures (hi * 0x1000 + lo) / 0x1000 == hi && (hi * 0x1000 + lo) % 0x1000 == lo
  {
  }

  /** Dividing by 16 twice is dividing by 256, and so on up. */
  lemma DivDiv(w: nat)
    ensures w / 0x10 / 0x10 == w / 0x100
    ensures w / 0x100 / 0x10 == w / 0x1000
  {
    var q, r := w / 0x10, w % 0x10;
    var p, t := q / 0x10, q % 0x10;
    assert w == p * 0x100 + (t * 0x10 + r);
    Split256(p, t * 0x10 + r);
    var q2, r2 := w / 0x100, w % 0x100;
    var p2, t2 := q2 / 0x10, q2 % 0x10;
    assert w == p2 * 0x1000 + (t2 * 0x100 + r2);
    Split4096(p2, t2 * 0x100 + r2);
  }

  /** A word is split into nibbles and glued back together without loss. */
  lemma NibblesOf(w: u16)
    ensures w == FromNibbles(Na(w), Nb(w), Nc(w), Nd(w))
    ensures w % 0x1000 == Nb(w) * 0x100 + Nc(w) * 0x10 + Nd(w)
    ensures w % 0x100 == Nc(w) * 0x10 + Nd(w)
  {
    DivDiv(w);
    assert w / 0x10 == w / 0x100 * 0x10 + Nc(w);
    assert w / 0x100 == Na(w) * 0x10 + Nb(w);
    assert w == Na(w) * 0x1000 + (Nb(w) * 0x100 + Nc(w) * 0x10 + Nd(w));
    Split4096(Na(w), Nb(w) * 0x100 + Nc(w) * 0x10 + Nd(w));
    assert w == (Na(w) * 0x10 + Nb(w)) * 0x100 + (Nc(w) * 0x10 + Nd(w));
    Split256(Na(w) * 0x10 + Nb(w), Nc(w) * 0x10 + Nd(w));
  }

  /** The nibbles of a word built from four nibbles. */
  lemma NibbleWord(a: Nibble, b: Nibble, c: Nibble, d: Nibble)
    ensures Na(FromNibbles(a, b, c, d)) == a && Nb(FromNibbles(a, b, c, d)) == b
    ensures Nc(FromNibbles(a, b, c, d)) == c && Nd(FromNibbles(a, b, c, d)) == d
  {
    var w := FromNibbles(a, b, c, d);
    assert w == a * 0x1000 + (b * 0x100 + c * 0x10 + d);
    Split4096(a, b * 0x100 + c * 0x10 + d);
    assert w == (a * 0x10 + b) * 0x100 + (c * 0x10 + d);
    Split256(a * 0x10 + b, c * 0x10 + d);
    Split16(a, b);
    assert w == (a * 0x100 + b * 0x10 + c) * 0x10 + d;
    Split16(a * 0x100 + b * 0x10 + c, d);
    assert a * 0x100 + b * 0x10 + c == (a * 0x10 + b) * 0x10 + c;
    Split16(a * 0x10 + b, c);
  }

  /** A twelve-bit operand after a high nibble op. */
  lemma AddrWord(op: Nibble, a: Addr)
    ensures op * 0x1000 + a == FromNibbles(op, Nb(a), Nc(a), Nd(a))
    ensures Nb(a) * 0x100 + Nc(a) * 0x10 + Nd(a) == a
  {
    NibblesOf(a);
    assert Na(a) == 0;
  }

  /** A register nibble and a byte operand after a high nibble op. */
  lemma ByteWord(op: Nibble, x: Nibble, nn: u8)
    ensures op * 0x1000 + x * 0x100 + nn == FromNibbles(op, x, Nc(nn), Nd(nn))
    ensures Nc(nn) * 0x10 + Nd(nn) == nn
  {
    NibblesOf(nn);
    assert Na(nn) == 0 && Nb(nn) == 0;
  }

  /** A word built from nibbles is dispatched on those nibbles. */
  lemma DecodeWord(a: Nibble, b: Nibble, c: Nibble, d: Nibble)
    ensures Decode(FromNibbles(a, b, c, d)) == DecodeNibbles(FromNibbles(a, b, c, d), a, b, c, d)
  {
    NibbleWord(a, b, c, d);
  }

  /** Round trip for the instructions with a twelve-bit address operand. */
  lemma DecodeEncodeAddr(i: Instr)
    requires i.Jp? || i.Call? || i.LdI? || i.JpV0?
    ensures Decode(Encode(i)) == i
  {
    var a := i.nnn;
    var op := match i case Jp(_) => 0x1 case Call(_) => 0x2 case LdI(_) => 0xA case JpV0(_) => 0xB;
    AddrWord(op, a);
    assert Encode(i) == FromNibbles(op, Nb(a), Nc(a), Nd(a));
    DecodeWord(op, Nb(a), Nc(a), Nd(a));
  }

  /** Round trip for the instructions with a register and a byte operand. */
  lemma DecodeEncodeByte(i: Instr)
    requires i.SeByte? || i.SneByte? || i.LdByte? || i.AddByte?
    ensures Decode(Encode(i)) == i
  {
    var x, nn := i.x, i.nn;
    var op := match i case SeByte(_, _) => 0x3 case SneByte(_, _) => 0x4 case LdByte(_, _) => 0x6 case AddByte(_, _) => 0x7;
    ByteWord(op, x, nn);
    assert Encode(i) == FromNibbles(op, x, Nc(nn), Nd(nn));
    DecodeWord(op, x, Nc(nn), Nd(nn));
  }

  /** Round trip for the register-to-register instructions of the 0x8 family. */
  lemma DecodeEncodeArithmetic(i: Instr)
    requires i.LdReg? || i.Or? || i.And? || i.Xor? || i.AddReg? || i.Sub? || i.Shr? || i.Subn? || i.Shl?
    ensures Decode(Encode(i)) == i
  {
    var d := match i
      case LdReg(_, _) => 0x0 case Or(_, _) => 0x1 case And(_, _) => 0x2 case Xor(_, _) => 0x3
      case AddReg(_, _) => 0x4 case Sub(_, _) => 0x5 case Shr(_, _) => 0x6 case Subn(_, _) => 0x7
      case Shl(_, _) => 0xE;
    assert Encode(i) == FromNibbles(0x8, i.x, i.y, d);
    DecodeWord(0x8, i.x, i.y, d);
  }

  /** Round trip for the 0xF family. */
  lemma DecodeEncodeMisc(i: Instr)
    requires i.LdVxDt? || i.AddI? || i.LdB? || i.LdIVx? || i.LdVxI?
    ensures Decode(Encode(i)) == i
  {
    var low: (Nibble, Nibble) := match i
      case LdVxDt(_) => (0x0, 0x7) case AddI(_) => (0x1, 0xE) case LdB(_) => (0x3, 0x3)
      case LdIVx(_) => (0x5, 0x5) case LdVxI(_) => (0x6, 0x5);
    var c, d := low.0, low.1;
    assert Encode(i) == FromNibbles(0xF, i.x, c, d);
    DecodeWord(0xF, i.x, c, d);
  }

  /** Decoding the canonical word of a known instruction gives it back. */
  lemma DecodeEncode(i: Instr)
    requires !i.Unknown?
    ensures Decode(Encode(i)) == i
  {
    match i
    case Cls =>
    case Ret =>
    case SeReg(x, y) => DecodeWord(0x5, x, y, 0x0);
    case SneReg(x, y) => DecodeWord(0x9, x, y, 0x0);
    case Drw(x, y, n) => DecodeWord(0xD, x, y, n);
    case Jp(_) => DecodeEncodeAddr(i);
    case Call(_) => DecodeEncodeAddr(i);
    case LdI(_) => DecodeEncodeAddr(i);
    case JpV0(_) => DecodeEncodeAddr(i);
    case SeByte(_, _) => DecodeEncodeByte(i);
    case SneByte(_, _) => DecodeEncodeByte(i);
    case LdByte(_, _) => DecodeEncodeByte(i);
    case AddByte(_, _) => DecodeEncodeByte(i);
    case LdVxDt(_) => DecodeEncodeMisc(i);
    case AddI(_) => DecodeEncodeMisc(i);
    case LdB(_) => DecodeEncodeMisc(i);
    case LdIVx(_) => DecodeEncodeMisc(i);
    case LdVxI(_) => DecodeEncodeMisc(i);
    case _ => DecodeEncodeArithmetic(i);
  }

  /** Encoding an instruction of the 0x8 family rebuilds its word. */
  lemma EncodeArithmetic(b: Nibble, c: Nibble, d: Nibble)
    requires !DecodeArithmetic(b, c, d).Unknown?
    ensures Encode(DecodeArithmetic(b, c, d)) == FromNibbles(0x8, b, c, d)
  {
  }

  /** Encoding an instruction of the 0xF family rebuilds its word. */
  lemma EncodeMisc(b: Nibble, c: Nibble, d: Nibble)
    requires !DecodeMisc(b, c, d).Unknown?
    ensures Encode(DecodeMisc(b, c, d)) == FromNibbles(0xF, b, c, d)
  {
  }

  /** The families whose low byte or low twelve bits are a single operand. */
  predicate OperandFamily(na: Nibble) {
    na == 0x1 || na == 0x2 || na == 0x3 || na == 0x4 || na == 0x6 || na == 0x7 || na == 0xA || na == 0xB
  }

  /** Encoding a decoded word with an address or byte operand gives it back. */
  lemma EncodeDecodeOperand(w: u16)
    requires OperandFamily(Na(w))
    ensures Encode(Decode(w)) == w
  {
    NibblesOf(w);
    var na: int, nb: int, nc: int, nd: int := Na(w), Nb(w), Nc(w), Nd(w);
    var operand := nb * 0x100 + nc * 0x10 + nd;
    assert Decode(w) == DecodeNibbles(w, na, nb, nc, nd);
    assert w == na * 0x1000 + operand;
  }

  /** Encoding a decoded register-form word gives it back, but for the low
      nibble of the two register-comparison skips. */
  lemma EncodeDecodeRegister(w: u16)
    requires !OperandFamily(Na(w)) && Na(w) != 0x0 && !Decode(w).Unknown?
    ensures Encode(Decode(w)) == if Na(w) == 0x5 || Na(w) == 0x9 then w - Nd(w) else w
  {
    NibblesOf(w);
    var na, nb, nc, nd := Na(w), Nb(w), Nc(w), Nd(w);
    assert Decode(w) == DecodeNibbles(w, na, nb, nc, nd);
    if na == 0x8 {
      EncodeArithmetic(nb, nc, nd);
    } else if na == 0xF {
      EncodeMisc(nb, nc, nd);
    } else if na == 0xD {
      assert Encode(Decode(w)) == FromNibbles(0xD, nb, nc, nd);
    } else {
      assert Encode(Decode(w)) == FromNibbles(na, nb, nc, 0x0);
    }
  }

  /** Encoding a decoded word gives the word back, except that the two
      register-comparison skips ignore (and so lose) their low nibble. */
  lemma EncodeDecode(w: u16)
    requires !Decode(w).Unknown?
    ensures Encode(Decode(w)) == if Na(w) == 0x5 || Na(w) == 0x9 then w - Nd(w) else w
  {
    if OperandFamily(Na(w)) {
      EncodeDecodeOperand(w);
    } else if !OperandFamily(Na(w)) && Na(w) != 0x0 {
      EncodeDecodeRegister(w);
    } else {
      assert Decode(w) == DecodeNibbles(w, 0x0, Nb(w), Nc(w), Nd(w));
    }
  }

  /** The dispatcher refuses a word exactly when it is one of the Refused
      words: every other word selects a handler. */
  lemma UnknownExactly(w: u16)
    ensures Decode(w).Unknown? <==> Refused(w)
  {
    NibblesOf(w);
  }
}
