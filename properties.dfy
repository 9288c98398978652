/** What the interpreter promises, stated about the Machine specification:
    halting, fetch and dispatch, the arithmetic flags, sprite drawing, the
    decimal and block transfers, and the parts of the state that never move. */
module Properties {
  import opened Word
  import Instruction
  import Sprite
  import opened Machine

  // ------------------------------------------------------------- halting

  /** A halted interpreter stays as it is. */
  lemma HaltIsPermanent(s: State)
    requires CycleDefined(s) && s.panic
    ensures Cycle(s) == s
  {
  }

  /** A refused word halts the interpreter; apart from the pc advance of the
      fetch, nothing else changes. */
  lemma RefusedWordHalts(s: State)
    requires CycleDefined(s) && !s.panic && Instruction.Refused(Fetch(s))
    ensures Cycle(s) == s.(pc := s.pc + 2, panic := true)
  {
    Instruction.UnknownExactly(Fetch(s));
  }

  /** Every word that is not refused decodes to a known instruction. */
  lemma AcceptedWordRuns(s: State)
    requires CycleDefined(s) && !s.panic && !Instruction.Refused(Fetch(s))
    ensures !Instruction.Decode(Fetch(s)).Unknown?
  {
    Instruction.UnknownExactly(Fetch(s));
  }

  /** An instruction other than 00EE and the refused words never halts. */
  lemma ExecuteKeepsRunning(i: Instruction.Instr, s: State)
    requires WellFormed(s) && ExecDefined(i, s) && !s.panic
    ensures Execute(i, s).panic <==> i.Unknown? || (i.Ret? && |s.stack| == 0)
  {
  }

  // ----------------------------------------------------- fetch and dispatch

  /** The word at pc is read big-endian: the byte at pc is its high byte. */
  lemma FetchBigEndian(s: State)
    requires s.pc + 1 < |s.mem|
    ensures Fetch(s) / 0x100 == s.mem[s.pc] && Fetch(s) % 0x100 == s.mem[s.pc + 1]
  {
    Instruction.Split256(s.mem[s.pc], s.mem[s.pc + 1]);
  }

  /** The program bytes of a known instruction at pc: its canonical word,
      high byte first. */
  predicate Holds(s: State, i: Instruction.Instr)
    requires !i.Unknown?
  {
    && s.pc + 1 < |s.mem|
    && s.mem[s.pc] == Instruction.Encode(i) / 0x100
    && s.mem[s.pc + 1] == Instruction.Encode(i) % 0x100
  }

  /** The bytes of a known instruction fetch as its word, which decodes
      back to that instruction. */
  lemma FetchHeld(s: State, i: Instruction.Instr)
    requires !i.Unknown? && Holds(s, i)
    ensures Instruction.Decode(Fetch(s)) == i
  {
    assert Fetch(s) == Instruction.Encode(i);
    Instruction.DecodeEncode(i);
  }

  /** A running cycle whose word decodes as i runs i after the pc advance. */
  lemma CycleDecoded(s: State, i: Instruction.Instr)
    requires WellFormed(s) && !s.panic && s.pc + 1 < |s.mem| && Instruction.Decode(Fetch(s)) == i
    requires s.pc + 2 <= 0xFFFF && ExecDefined(i, s.(pc := s.pc + 2))
    ensures CycleDefined(s) && Cycle(s) == Execute(i, s.(pc := s.pc + 2))
  {
    assert CycleDefined(s);
    assert Cycle(s) == Execute(Instruction.Decode(Fetch(s)), s.(pc := s.pc + 2));
  }

  /** A cycle over the bytes of a known instruction advances pc by 2 and
      then runs exactly that instruction. */
  lemma CycleExecutes(s: State, i: Instruction.Instr)
    requires WellFormed(s) && !s.panic && !i.Unknown? && Holds(s, i)
    requires s.pc + 2 <= 0xFFFF && ExecDefined(i, s.(pc := s.pc + 2))
    ensures CycleDefined(s) && Cycle(s) == Execute(i, s.(pc := s.pc + 2))
  {
    FetchHeld(s, i);
    CycleDecoded(s, i);
  }

  // ------------------------------------------------------ skips, call, return

  /** The condition under which a skip instruction skips. */
  predicate SkipTaken(i: Instruction.Instr, s: State)
    requires WellFormed(s) && (i.SeByte? || i.SneByte? || i.SeReg? || i.SneReg?)
  {
    match i
    case SeByte(x, nn) => s.regs[x] == nn
    case SneByte(x, nn) => s.regs[x] != nn
    case SeReg(x, y) => s.regs[x] == s.regs[y]
    case SneReg(x, y) => s.regs[x] != s.regs[y]
  }

  /** 3XNN, 4XNN, 5XY_ and 9XY_ add a further 2 to pc exactly when their
      comparison holds, and change nothing else. */
  lemma SkipsIff(i: Instruction.Instr, s: State)
    requires WellFormed(s) && (i.SeByte? || i.SneByte? || i.SeReg? || i.SneReg?) && ExecDefined(i, s)
    ensures Execute(i, s) == s.(pc := if SkipTaken(i, s) then s.pc + 2 else s.pc)
  {
  }

  /** 2NNN followed by 00EE gives back the state before the call. */
  lemma CallThenReturn(s: State, a: Addr)
    ensures ReturnFromSubroutine(JumpToSubroutine(s, a)) == s
  {
    var t := JumpToSubroutine(s, a);
    assert t.stack[..|t.stack| - 1] == s.stack;
  }

  /** A cycle over 2NNN and then a cycle over 00EE at NNN resume right
      after the call, with the stack as before. */
  lemma CallReturnCycles(s: State, a: Addr)
    requires WellFormed(s) && !s.panic && s.pc + 2 <= 0xFFFF && Holds(s, Instruction.Call(a))
    requires Holds(s.(pc := a), Instruction.Ret)
    ensures CycleDefined(s) && CycleDefined(Cycle(s))
    ensures Cycle(Cycle(s)) == s.(pc := s.pc + 2)
  {
    CycleExecutes(s, Instruction.Call(a));
    var t := Cycle(s);
    assert t == JumpToSubroutine(s.(pc := s.pc + 2), a);
    CycleExecutes(t, Instruction.Ret);
    CallThenReturn(s.(pc := s.pc + 2), a);
  }

  /** 00EE on an empty stack halts and changes nothing else. */
  lemma ReturnUnderflow(s: State)
    requires |s.stack| == 0
    ensures ReturnFromSubroutine(s) == s.(panic := true)
  {
  }

  // ------------------------------------------------------------- arithmetic

  /** Only register r may differ between two register files. */
  predicate OthersKept(regs: seq<u8>, regs': seq<u8>, r: Nibble)
    requires |regs| == 16 && |regs'| == 16
  {
    forall k :: 0 <= k < 16 && k != r ==> regs'[k] == regs[k]
  }

  /** Only registers r and VF may differ between two register files. */
  predicate OthersKeptBut(regs: seq<u8>, regs': seq<u8>, r: Nibble)
    requires |regs| == 16 && |regs'| == 16
  {
    forall k :: 0 <= k < 16 && k != r && k != FlagRegister ==> regs'[k] == regs[k]
  }

  /** Truncating a u16 that came from a wrapped value keeps it mod 256. */
  lemma WrapTrunc(v: int)
    ensures Trunc8(v % 0x1_0000) == v % 0x100
  {
    var q := v / 0x1_0000;
    assert v % 0x1_0000 == v - q * 0x1_0000;
    assert (v - q * 0x1_0000) % 0x100 == (v - (q * 0x100) * 0x100) % 0x100;
  }

  /** 7XNN: VX = (VX + NN) mod 256, and nothing else changes (VF included). */
  lemma AddByteWraps(s: State, x: Nibble, nn: u8)
    requires WellFormed(s)
    ensures var t := Execute(Instruction.AddByte(x, nn), s);
      && t.regs[x] == (s.regs[x] as int + nn) % 0x100
      && |t.regs| == 16 && OthersKept(s.regs, t.regs, x)
      && t == s.(regs := t.regs)
  {
  }

  /** 8XY4: VX = (VX + VY) mod 256, and VF = 0 always: the sum is taken in
      u16 and never overflows. */
  lemma AddRegNeverCarries(s: State, x: Nibble, y: Nibble)
    requires WellFormed(s)
    ensures var t := Execute(Instruction.AddReg(x, y), s);
      && t.regs[FlagRegister] == 0
      && (x != FlagRegister ==> t.regs[x] == (s.regs[x] as int + s.regs[y]) % 0x100)
      && |t.regs| == 16 && OthersKeptBut(s.regs, t.regs, x)
      && t == s.(regs := t.regs)
  {
    WrapTrunc(s.regs[x] as int + s.regs[y]);
  }

  /** 8XY5: VX = (VX - VY) mod 256 and VF = 1 exactly when there was no
      borrow; VF is written last, so with X = F it holds the flag. */
  lemma SubBorrow(s: State, x: Nibble, y: Nibble)
    requires WellFormed(s)
    ensures var t := Execute(Instruction.Sub(x, y), s);
      && t.regs[FlagRegister] == (if s.regs[x] >= s.regs[y] then 1 else 0)
      && (x != FlagRegister ==> t.regs[x] == (s.regs[x] as int - s.regs[y]) % 0x100)
      && |t.regs| == 16 && OthersKeptBut(s.regs, t.regs, x)
      && t == s.(regs := t.regs)
  {
    WrapTrunc(s.regs[x] as int - s.regs[y]);
  }

  /** 8XY7: VX = (VY - VX) mod 256 and VF = 1 exactly when there was no
      borrow. */
  lemma SubnBorrow(s: State, x: Nibble, y: Nibble)
    requires WellFormed(s)
    ensures var t := Execute(Instruction.Subn(x, y), s);
      && t.regs[FlagRegister] == (if s.regs[y] >= s.regs[x] then 1 else 0)
      && (x != FlagRegister ==> t.regs[x] == (s.regs[y] as int - s.regs[x]) % 0x100)
      && |t.regs| == 16 && OthersKeptBut(s.regs, t.regs, x)
      && t == s.(regs := t.regs)
  {
    WrapTrunc(s.regs[y] as int - s.regs[x]);
  }

  /** 8XY5 with VX = 1 and VY = 2 leaves VX = 0xFF and VF = 0. */
  lemma SubExample(s: State, x: Nibble, y: Nibble)
    requires WellFormed(s) && x != FlagRegister && x != y && s.regs[x] == 1 && s.regs[y] == 2
    ensures Execute(Instruction.Sub(x, y), s).regs[x] == 0xFF
    ensures Execute(Instruction.Sub(x, y), s).regs[FlagRegister] == 0
  {
    SubBorrow(s, x, y);
  }

  /** 8XY6: VX = VY >> 1 and VF = the low bit of VY. */
  lemma ShiftRight(s: State, x: Nibble, y: Nibble)
    requires WellFormed(s)
    ensures var t := Execute(Instruction.Shr(x, y), s);
      && t.regs[FlagRegister] == s.regs[y] % 2
      && (x != FlagRegister ==> t.regs[x] == s.regs[y] / 2)
      && |t.regs| == 16 && OthersKeptBut(s.regs, t.regs, x)
      && t == s.(regs := t.regs)
  {
    BitAndLow(s.regs[y]);
  }

  /** 8XYE: VX = (VY << 1) mod 256 and VF = 0x80 when the top bit of VY is
      set, 0 otherwise. */
  lemma ShiftLeft(s: State, x: Nibble, y: Nibble)
    requires WellFormed(s)
    ensures var t := Execute(Instruction.Shl(x, y), s);
      && t.regs[FlagRegister] == (if s.regs[y] >= 0x80 then 0x80 else 0)
      && (x != FlagRegister ==> t.regs[x] == s.regs[y] as int * 2 % 0x100)
      && |t.regs| == 16 && OthersKeptBut(s.regs, t.regs, x)
      && t == s.(regs := t.regs)
  {
    BitAndHigh(s.regs[y]);
  }

  /** Storing a byte value keeps it whole. */
  lemma SetRegisterByte(s: State, r: Nibble, v: u8)
    requires WellFormed(s)
    ensures SetRegister(s, r, v) == s.(regs := s.regs[r := v])
  {
  }

  /** 8XY0 to 8XY3 write VY, VX | VY, VX & VY and VX ^ VY to VX and change
      nothing else: unlike the other 8XYN instructions they leave VF alone. */
  lemma BitwiseKeepsFlag(s: State, x: Nibble, y: Nibble)
    requires WellFormed(s)
    ensures Execute(Instruction.LdReg(x, y), s) == s.(regs := s.regs[x := s.regs[y]])
    ensures Execute(Instruction.Or(x, y), s) == s.(regs := s.regs[x := BitOr(s.regs[x], s.regs[y])])
    ensures Execute(Instruction.And(x, y), s) == s.(regs := s.regs[x := BitAnd(s.regs[x], s.regs[y])])
    ensures Execute(Instruction.Xor(x, y), s) == s.(regs := s.regs[x := BitXor(s.regs[x], s.regs[y])])
  {
    SetRegisterByte(s, x, s.regs[y]);
    SetRegisterByte(s, x, BitOr(s.regs[x], s.regs[y]));
    SetRegisterByte(s, x, BitAnd(s.regs[x], s.regs[y]));
    SetRegisterByte(s, x, BitXor(s.regs[x], s.regs[y]));
  }

  // ---------------------------------------------------------------- drawing

  /** The anchor of a draw: the corrected VX and VY. */
  function AnchorX(s: State, x: Nibble): nat
    requires WellFormed(s) && s.regs[x] != 0xFF
  {
    Sprite.Anchor(s.regs[x], 64)
  }

  function AnchorY(s: State, y: Nibble): nat
    requires WellFormed(s) && s.regs[y] != 0xFF
  {
    Sprite.Anchor(s.regs[y], 32)
  }

  /** DXYN flips the cell under pixel (i, j) exactly when bit 7 - j of
      memory[I + i] is set, for every pixel left of the right edge. */
  lemma DrawFlipsPixel(s: State, x: Nibble, y: Nibble, n: Nibble, i: nat, j: nat)
    requires WellFormed(s) && DrawDefined(s, x, y, n)
    requires i < n && j < 8 && AnchorX(s, x) + j < 64
    requires (AnchorY(s, y) + i) * 64 + AnchorX(s, x) + j < |s.fb|
    ensures var k := (AnchorY(s, y) + i) * 64 + AnchorX(s, x) + j;
      Execute(Instruction.Drw(x, y, n), s).fb[k] == (s.fb[k] != (BitAt(s.mem[s.iRegister + i], 7 - j) == 1))
  {
    var sprite := SpriteRows(s, n);
    assert Execute(Instruction.Drw(x, y, n), s).fb == Sprite.Composite(s.fb, sprite, AnchorX(s, x), AnchorY(s, y));
    assert sprite[i] == s.mem[s.iRegister + i];
    Sprite.CompositeCell(s.fb, sprite, AnchorX(s, x), AnchorY(s, y), i, j);
  }

  /** DXYN leaves alone every cell outside the sprite's rectangle (nothing
      wraps round), as well as memory, I and pc; it sets the redraw flag
      and writes only VF among the registers, 1 exactly on a collision. */
  lemma DrawOutside(s: State, x: Nibble, y: Nibble, n: Nibble, k: nat)
    requires WellFormed(s) && DrawDefined(s, x, y, n) && k < |s.fb|
    requires k / 64 < AnchorY(s, y) || k / 64 >= AnchorY(s, y) + n || k % 64 < AnchorX(s, x) || k % 64 >= AnchorX(s, x) + 8
    ensures var t := Execute(Instruction.Drw(x, y, n), s);
      && t.fb[k] == s.fb[k]
      && t.mem == s.mem && t.iRegister == s.iRegister && t.pc == s.pc && t.redraw
      && t.regs == s.regs[FlagRegister := t.regs[FlagRegister]]
      && (t.regs[FlagRegister] == 1 <==> Sprite.Collides(s.fb, SpriteRows(s, n), AnchorX(s, x), AnchorY(s, y)))
  {
    Sprite.CompositeOutside(s.fb, SpriteRows(s, n), AnchorX(s, x), AnchorY(s, y), k);
  }

  /** Drawing the same sprite twice, with neither anchor register VF,
      restores the frame buffer; the second draw reports a collision
      exactly when the first turned some cell on. */
  lemma DrawTwice(s: State, x: Nibble, y: Nibble, n: Nibble)
    requires WellFormed(s) && DrawDefined(s, x, y, n) && x != FlagRegister && y != FlagRegister
    ensures var t := Execute(Instruction.Drw(x, y, n), s);
      WellFormed(t) && DrawDefined(t, x, y, n)
    ensures var t := Execute(Instruction.Drw(x, y, n), s);
      var u := Execute(Instruction.Drw(x, y, n), t);
      var sprite, x0, y0 := SpriteRows(s, n), AnchorX(s, x), AnchorY(s, y);
      && u.fb == s.fb
      && (u.regs[FlagRegister] == 1 <==> exists k :: 0 <= k < |s.fb| && Sprite.Covered(sprite, x0, y0, k) && !s.fb[k])
  {
    var sprite, x0, y0 := SpriteRows(s, n), AnchorX(s, x), AnchorY(s, y);
    var t := Execute(Instruction.Drw(x, y, n), s);
    assert t.regs[x] == s.regs[x] && t.regs[y] == s.regs[y];
    assert SpriteRows(t, n) == sprite;
    Sprite.CompositeInvolution(s.fb, sprite, x0, y0);
    Sprite.RedrawCollides(s.fb, sprite, x0, y0);
  }

  // ------------------------------------------------------ FX33, FX55, FX65

  /** FX33 writes the three decimal digits of VX at I, I + 1 and I + 2,
      most significant first; they read back as VX.  Nothing else changes. */
  lemma DecimalDigits(s: State, x: Nibble)
    requires WellFormed(s) && s.iRegister + 2 < |s.mem|
    ensures var t, i := Execute(Instruction.LdB(x), s), s.iRegister;
      && |t.mem| == |s.mem|
      && t.mem[i] < 10 && t.mem[i + 1] < 10 && t.mem[i + 2] < 10
      && t.mem[i] as int * 100 + t.mem[i + 1] * 10 + t.mem[i + 2] == s.regs[x]
      && (forall k :: 0 <= k < |s.mem| && (k < i || k > i + 2) ==> t.mem[k] == s.mem[k])
      && t == s.(mem := t.mem)
  {
    var v, i := s.regs[x], s.iRegister;
    var t := Execute(Instruction.LdB(x), s);
    assert t == StoreDecimalAtI(s, x);
    assert t.mem[i] == v / 100 % 10 && t.mem[i + 1] == v / 10 % 10 && t.mem[i + 2] == v % 10;
  }

  /** FX33 on 234 stores 2, 3, 4. */
  lemma DecimalExample(s: State, x: Nibble)
    requires WellFormed(s) && s.iRegister + 2 < |s.mem| && s.regs[x] == 234
    ensures Execute(Instruction.LdB(x), s).mem[s.iRegister..s.iRegister + 3] == [2, 3, 4]
  {
  }

  /** FX55 stores V0..VX at I..I+X and leaves I at I + X + 1; the rest of
      memory and every other field are unchanged. */
  lemma StoreBlock(s: State, x: Nibble)
    requires WellFormed(s) && BlockDefined(s, x)
    ensures var t, i := Execute(Instruction.LdIVx(x), s), s.iRegister;
      && |t.mem| == |s.mem| && t.iRegister == i + x + 1
      && (forall k :: 0 <= k < |s.mem| ==> t.mem[k] == if i <= k <= i + x then s.regs[k - i] else s.mem[k])
      && t == s.(mem := t.mem, iRegister := t.iRegister)
  {
  }

  /** FX65 loads V0..VX from I..I+X and leaves I at I + X + 1; the other
      registers and every other field are unchanged. */
  lemma LoadBlock(s: State, x: Nibble)
    requires WellFormed(s) && BlockDefined(s, x)
    ensures var t, i := Execute(Instruction.LdVxI(x), s), s.iRegister;
      && |t.regs| == 16 && t.iRegister == i + x + 1
      && (forall k :: 0 <= k < 16 ==> t.regs[k] == if k <= x then s.mem[i + k] else s.regs[k])
      && t == s.(regs := t.regs, iRegister := t.iRegister)
  {
  }

  /** FX55, then I set back, then FX65 gives back the registers, with
      memory as FX55 left it. */
  lemma StoreThenLoad(s: State, x: Nibble)
    requires WellFormed(s) && BlockDefined(s, x)
    ensures var t := Execute(Instruction.LdIVx(x), s);
      WellFormed(t) && BlockDefined(t.(iRegister := s.iRegister), x)
    ensures var t := Execute(Instruction.LdIVx(x), s);
      var u := Execute(Instruction.LdVxI(x), t.(iRegister := s.iRegister));
      u == t.(regs := s.regs)
  {
    var i := s.iRegister;
    var t := Execute(Instruction.LdIVx(x), s);
    StoreBlock(s, x);
    var u := Execute(Instruction.LdVxI(x), t.(iRegister := i));
    LoadBlock(t.(iRegister := i), x);
    assert u.regs == s.regs;
  }

  // ---------------------------------------------------- what never changes

  /** No instruction changes the timers or the sizes of the register file,
      memory and frame buffer. */
  lemma ExecuteKeepsShape(i: Instruction.Instr, s: State)
    requires WellFormed(s) && ExecDefined(i, s)
    ensures var t := Execute(i, s);
      && WellFormed(t) && |t.mem| == |s.mem| && |t.fb| == |s.fb|
      && t.delayTimer == s.delayTimer && t.soundTimer == s.soundTimer
  {
  }

  /** Hence a cycle keeps the timers too: FX07 always reads the value they
      were created with. */
  lemma CycleKeepsTimers(s: State)
    requires CycleDefined(s)
    ensures var t := Cycle(s);
      && WellFormed(t) && |t.mem| == |s.mem| && |t.fb| == |s.fb|
      && t.delayTimer == s.delayTimer && t.soundTimer == s.soundTimer
  {
    if !s.panic {
      var w := Fetch(s);
      CycleDispatch(s);
      ExecuteKeepsShape(Instruction.DecodeNibbles(w, Instruction.Na(w), Instruction.Nb(w), Instruction.Nc(w), Instruction.Nd(w)),
                        s.(pc := s.pc + 2));
    }
  }

  /** A new interpreter: pc at 0x200, no register set, a dark screen, the
      font at 20..99, zero timers, a stack of maxStackSize zeros, running. */
  lemma InitialState(font: seq<u8>, memorySize: nat, frameBufferSize: nat, maxStackSize: nat)
    requires |font| == 80 && 100 <= memorySize
    ensures var s := Initial(font, memorySize, frameBufferSize, maxStackSize);
      && WellFormed(s) && s.pc == 0x200 && s.iRegister == 0 && !s.panic
      && (forall r :: 0 <= r < 16 ==> s.regs[r] == 0)
      && |s.fb| == frameBufferSize && (forall k :: 0 <= k < |s.fb| ==> !s.fb[k])
      && |s.mem| == memorySize && s.mem[20..100] == font
      && s.delayTimer == 0 && s.soundTimer == 0
      && |s.stack| == maxStackSize
  {
  }

  /** set_program puts the program at 0x200 and keeps the rest of memory. */
  lemma ProgramAt(s: State, data: seq<u8>)
    requires 0x200 + |data| <= |s.mem|
    ensures var t := LoadProgram(s, data);
      && |t.mem| == |s.mem| && t.mem[0x200..0x200 + |data|] == data
      && (forall k :: 0 <= k < |s.mem| && !(0x200 <= k < 0x200 + |data|) ==> t.mem[k] == s.mem[k])
      && t == s.(mem := t.mem)
  {
  }
}
