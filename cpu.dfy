/** The interpreter core as the program keeps it: a CPU object whose fields
    the instruction handlers update in place.  Every method is proved to
    have exactly the effect the Machine module gives the same handler, so
    the properties proved about Machine hold of the object. */
module Cpu {
  import opened Word
  import Instruction
  import Sprite
  import Machine

  /** A sequence that agrees with r on the n cells from a and with m
      elsewhere is m with that block replaced (the memory after FX55). */
  lemma Spliced<T>(m: seq<T>, r: seq<T>, a: nat, n: nat, result: seq<T>)
    requires a + n <= |m| && n <= |r| && |result| == |m|
    requires forall k :: 0 <= k < |m| ==> result[k] == if a <= k < a + n then r[k - a] else m[k]
    ensures result == m[..a] + r[..n] + m[a + n..]
  {
    var rhs := m[..a] + r[..n] + m[a + n..];
    forall k | 0 <= k < |m| ensures result[k] == rhs[k] {
      if k < a {
      } else if k < a + n {
      } else {
      }
    }
  }

  /** A sequence that agrees with the n cells of m from a on its first n
      elements and with r elsewhere (the registers after FX65). */
  lemma Loaded<T>(m: seq<T>, r: seq<T>, a: nat, n: nat, result: seq<T>)
    requires a + n <= |m| && n <= |r| && |result| == |r|
    requires forall k :: 0 <= k < |r| ==> result[k] == if k < n then m[a + k] else r[k]
    ensures result == m[a..a + n] + r[n..]
  {
    var rhs := m[a..a + n] + r[n..];
    forall k | 0 <= k < |r| ensures result[k] == rhs[k] {
      if k < n {
      } else {
      }
    }
  }

  class Cpu {
    var pc: u16
    var iRegister: u16
    const registers: array<u8>
    var delayTimer: u8
    var soundTimer: u8
    const memory: array<u8>
    const frameBuffer: array<bool>
    var stack: seq<u16>
    var redraw: bool
    var panic: bool

    /** Sixteen registers, held apart from memory. */
    predicate Valid() {
      registers.Length == 16 && registers != memory
    }

    /** The fields other than the index register and the three buffers are
        those of s. */
    ghost predicate Control(s: Machine.State)
      reads this
    {
      && pc == s.pc && delayTimer == s.delayTimer && soundTimer == s.soundTimer
      && stack == s.stack && redraw == s.redraw && panic == s.panic
    }

    /** The CPU's fields as a Machine state. */
    ghost function State(): Machine.State
      reads this, registers, memory, frameBuffer
    {
      Machine.State(pc, iRegister, registers[..], delayTimer, soundTimer,
                    memory[..], frameBuffer[..], stack, redraw, panic)
    }

    /** CPU::new.  The font copy into memory[20..100] requires an 80-byte
        font and a memory of at least 100 bytes. */
    constructor (font: seq<u8>, memorySize: nat, frameBufferSize: nat, maxStackSize: nat)
      requires |font| == 80 && 100 <= memorySize
      ensures Valid() && fresh(registers) && fresh(memory) && fresh(frameBuffer)
      ensures State() == Machine.Initial(font, memorySize, frameBufferSize, maxStackSize)
    {
      pc := 0x200;
      iRegister := 0;
      registers := new u8[16](_ => 0);
      delayTimer := 0;
      soundTimer := 0;
      memory := new u8[memorySize](_ => 0);
      frameBuffer := new bool[frameBufferSize](_ => false);
      stack := seq(maxStackSize, _ => 0);
      redraw := true;
      panic := false;
      new;
      forall k | 20 <= k < 100 {
        memory[k] := font[k - 20];
      }
    }

    /** set_program: the bytes must fit in memory from 0x200 on. */
    method SetProgram(data: seq<u8>)
      requires Valid() && 0x200 + |data| <= memory.Length
      modifies memory
      ensures State() == Machine.LoadProgram(old(State()), data)
    {
      forall k | 0x200 <= k < 0x200 + |data| {
        memory[k] := data[k - 0x200];
      }
      assert memory[..] == old(memory[..])[..0x200] + data + old(memory[..])[0x200 + |data|..];
    }

    /** emulate_cycle: one fetch, pc += 2, and a two-level dispatch. */
    method EmulateCycle()
      requires Valid() && Machine.CycleDefined(State())
      modifies this, registers, memory, frameBuffer
      ensures State() == Machine.Cycle(old(State()))
    {
      ghost var s0 := State();
      if panic {
        return;
      }
      var high: u16 := memory[pc];
      var instruction: u16 := high * 0x100 + memory[pc + 1];
      pc := pc + 2;
      var na, nb, nc, nd := Instruction.Na(instruction), Instruction.Nb(instruction),
                            Instruction.Nc(instruction), Instruction.Nd(instruction);
      assert instruction == Machine.Fetch(s0);
      assert State() == s0.(pc := s0.pc + 2);
      Machine.CycleDispatch(s0);
      Dispatch(instruction, na, nb, nc, nd);
    }

    /** The match of emulate_cycle on the high nibble na of the fetched word. */
    method Dispatch(instruction: u16, na: Nibble, nb: Nibble, nc: Nibble, nd: Nibble)
      requires Valid() && Machine.ExecDefined(Instruction.DecodeNibbles(instruction, na, nb, nc, nd), State())
      modifies this, registers, memory, frameBuffer
      ensures State() == Machine.Execute(Instruction.DecodeNibbles(instruction, na, nb, nc, nd), old(State()))
    {
      ghost var instr := Instruction.DecodeNibbles(instruction, na, nb, nc, nd);
      match na {
        case 0x0 =>
          if instruction == 0x00E0 {
            ClearScreen();
          } else if instruction == 0x00EE {
            ReturnFromSubroutine();
          } else {
            PanicUnknownInstruction(instruction);
          }
        case 0x1 =>
          assert instr == Instruction.Jp(nb * 0x100 + nc * 0x10 + nd);
          JumpToAddress(nb * 0x100 + nc * 0x10 + nd);
        case 0x2 =>
          assert instr == Instruction.Call(nb * 0x100 + nc * 0x10 + nd);
          JumpToSubroutine(nb * 0x100 + nc * 0x10 + nd);
        case 0x3 =>
          assert instr == Instruction.SeByte(nb, nc * 0x10 + nd);
          SkipIfEqual(nb, nc * 0x10 + nd);
        case 0x4 =>
          assert instr == Instruction.SneByte(nb, nc * 0x10 + nd);
          SkipIfNotEqual(nb, nc * 0x10 + nd);
        case 0x5 =>
          assert instr == Instruction.SeReg(nb, nc);
          SkipIfXEqualsY(nb, nc);
        case 0x6 =>
          assert instr == Instruction.LdByte(nb, nc * 0x10 + nd);
          SetRegisterVx(nb, nc * 0x10 + nd);
        case 0x7 =>
          assert instr == Instruction.AddByte(nb, nc * 0x10 + nd);
          AddToRegisterVx(nb, nc * 0x10 + nd);
        case 0x8 =>
          assert instr == Instruction.DecodeArithmetic(nb, nc, nd);
          ArithmeticInstructions(nb, nc, nd);
        case 0x9 =>
          assert instr == Instruction.SneReg(nb, nc);
          SkipIfXNotEqualsY(nb, nc);
        case 0xA =>
          assert instr == Instruction.LdI(nb * 0x100 + nc * 0x10 + nd);
          SetIndexRegister(nb * 0x100 + nc * 0x10 + nd);
        case 0xB =>
          assert instr == Instruction.JpV0(nb * 0x100 + nc * 0x10 + nd);
          JumpWithOffset(nb * 0x100 + nc * 0x10 + nd);
        case 0xD =>
          assert instr == Instruction.Drw(nb, nc, nd);
          DrawSprite(nb, nc, nd);
        case 0xF =>
          assert instr == Instruction.DecodeMisc(nb, nc, nd);
          FInstructions(nb, nc, nd);
        case _ =>
          assert instr == Instruction.Unknown(instruction);
          PanicUnknownInstruction(instruction);
      }
    }

    /** 00E0 */
    method ClearScreen()
      requires Valid()
      modifies frameBuffer
      ensures State() == Machine.Execute(Instruction.Cls, old(State()))
    {
      forall k | 0 <= k < frameBuffer.Length {
        frameBuffer[k] := false;
      }
    }

    /** 00EE */
    method ReturnFromSubroutine()
      requires Valid()
      modifies this
      ensures State() == Machine.Execute(Instruction.Ret, old(State()))
    {
      if |stack| > 0 {
        var address := stack[|stack| - 1];
        stack := stack[..|stack| - 1];
        pc := address;
      } else {
        panic := true;
      }
    }

    /** 1NNN */
    method JumpToAddress(address: Addr)
      requires Valid()
      modifies this
      ensures State() == Machine.Execute(Instruction.Jp(address), old(State()))
    {
      pc := address;
    }

    /** 2NNN */
    method JumpToSubroutine(address: Addr)
      requires Valid()
      modifies this
      ensures State() == Machine.Execute(Instruction.Call(address), old(State()))
    {
      stack := stack + [pc];
      pc := address;
    }

    /** 3XNN */
    method SkipIfEqual(register: Nibble, value: u8)
      requires Valid() && Machine.ExecDefined(Instruction.SeByte(register, value), State())
      modifies this
      ensures State() == Machine.Execute(Instruction.SeByte(register, value), old(State()))
    {
      var regValue := GetValueOfRegister(register);
      if regValue == value {
        pc := pc + 2;
      }
    }

    /** 4XNN */
    method SkipIfNotEqual(register: Nibble, value: u8)
      requires Valid() && Machine.ExecDefined(Instruction.SneByte(register, value), State())
      modifies this
      ensures State() == Machine.Execute(Instruction.SneByte(register, value), old(State()))
    {
      var regValue := GetValueOfRegister(register);
      if regValue != value {
        pc := pc + 2;
      }
    }

    /** 5XY_ */
    method SkipIfXEqualsY(x: Nibble, y: Nibble)
      requires Valid() && Machine.ExecDefined(Instruction.SeReg(x, y), State())
      modifies this
      ensures State() == Machine.Execute(Instruction.SeReg(x, y), old(State()))
    {
      var xValue := GetValueOfRegister(x);
      var yValue := GetValueOfRegister(y);
      if xValue == yValue {
        pc := pc + 2;
      }
    }

    /** 6XNN */
    method SetRegisterVx(register: Nibble, number: u8)
      requires Valid()
      modifies registers
      ensures State() == Machine.Execute(Instruction.LdByte(register, number), old(State()))
    {
      registers[register] := number;
    }

    /** 7XNN */
    method AddToRegisterVx(register: Nibble, number: u8)
      requires Valid()
      modifies registers
      ensures State() == Machine.Execute(Instruction.AddByte(register, number), old(State()))
    {
      var value := GetValueOfRegister(register);
      registers[register] := OverflowingAdd8(value, number).0;
    }

    /** The 0x8 family, dispatched on its low nibble. */
    method ArithmeticInstructions(nb: Nibble, nc: Nibble, nd: Nibble)
      requires Valid()
      modifies this, registers
      ensures State() == Machine.Execute(Instruction.DecodeArithmetic(nb, nc, nd), old(State()))
    {
      match nd {
        case 0x0 => StoreVyInVx(nb, nc);
        case 0x1 => SetVxToVxOrVy(nb, nc);
        case 0x2 => SetVxToVxAndVy(nb, nc);
        case 0x3 => SetVxToVxXorVy(nb, nc);
        case 0x4 => AddVyToVxCarry(nb, nc);
        case 0x5 => SubtractVyFromVxBorrow(nb, nc);
        case 0x6 => ShiftVyOneRightStoreInVx(nb, nc);
        case 0x7 => SubtractVxFromVyBorrow(nb, nc);
        case 0xE => ShiftVyOneLeftStoreInVx(nb, nc);
        case _ => PanicUnknownInstruction(0x8000 + nb * 0x100 + nc * 0x10 + nd);
      }
    }

    /** 8XY0 */
    method StoreVyInVx(x: Nibble, y: Nibble)
      requires Valid()
      modifies registers
      ensures State() == Machine.Execute(Instruction.LdReg(x, y), old(State()))
    {
      var yValue := GetValueOfRegister(y);
      SetValueOfRegister(x, yValue);
    }

    /** 8XY1 */
    method SetVxToVxOrVy(x: Nibble, y: Nibble)
      requires Valid()
      modifies registers
      ensures State() == Machine.Execute(Instruction.Or(x, y), old(State()))
    {
      var xValue := GetValueOfRegister(x);
      var yValue := GetValueOfRegister(y);
      SetValueOfRegister(x, BitOr(xValue, yValue));
    }

    /** 8XY2 */
    method SetVxToVxAndVy(x: Nibble, y: Nibble)
      requires Valid()
      modifies registers
      ensures State() == Machine.Execute(Instruction.And(x, y), old(State()))
    {
      var xValue := GetValueOfRegister(x);
      var yValue := GetValueOfRegister(y);
      SetValueOfRegister(x, BitAnd(xValue, yValue));
    }

    /** 8XY3 */
    method SetVxToVxXorVy(x: Nibble, y: Nibble)
      requires Valid()
      modifies registers
      ensures State() == Machine.Execute(Instruction.Xor(x, y), old(State()))
    {
      var xValue := GetValueOfRegister(x);
      var yValue := GetValueOfRegister(y);
      SetValueOfRegister(x, BitXor(xValue, yValue));
    }

    /** 8XY4 */
    method AddVyToVxCarry(x: Nibble, y: Nibble)
      requires Valid()
      modifies registers
      ensures State() == Machine.Execute(Instruction.AddReg(x, y), old(State()))
    {
      var xValue := GetValueOfRegister(x);
      var yValue := GetValueOfRegister(y);
      var sum := OverflowingAdd16(xValue, yValue);
      SetValueOfRegister(x, sum.0);
      SetValueOfRegister(Machine.FlagRegister, FromBool(sum.1));
    }

    /** 8XY5 */
    method SubtractVyFromVxBorrow(x: Nibble, y: Nibble)
      requires Valid()
      modifies registers
      ensures State() == Machine.Execute(Instruction.Sub(x, y), old(State()))
    {
      var xValue := GetValueOfRegister(x);
      var yValue := GetValueOfRegister(y);
      var diff := OverflowingSub16(xValue, yValue);
      SetValueOfRegister(x, diff.0);
      SetValueOfRegister(Machine.FlagRegister, FromBool(!diff.1));
    }

    /** 8XY6 */
    method ShiftVyOneRightStoreInVx(x: Nibble, y: Nibble)
      requires Valid()
      modifies registers
      ensures State() == Machine.Execute(Instruction.Shr(x, y), old(State()))
    {
      var yValue := GetValueOfRegister(y);
      SetValueOfRegister(x, yValue / 2);
      SetValueOfRegister(Machine.FlagRegister, BitAnd(yValue, 0x01));
    }

    /** 8XY7 */
    method SubtractVxFromVyBorrow(x: Nibble, y: Nibble)
      requires Valid()
      modifies registers
      ensures State() == Machine.Execute(Instruction.Subn(x, y), old(State()))
    {
      var xValue := GetValueOfRegister(x);
      var yValue := GetValueOfRegister(y);
      var diff := OverflowingSub16(yValue, xValue);
      SetValueOfRegister(x, diff.0);
      SetValueOfRegister(Machine.FlagRegister, FromBool(!diff.1));
    }

    /** 8XYE */
    method ShiftVyOneLeftStoreInVx(x: Nibble, y: Nibble)
      requires Valid()
      modifies registers
      ensures State() == Machine.Execute(Instruction.Shl(x, y), old(State()))
    {
      var yValue: u16 := GetValueOfRegister(y);
      SetValueOfRegister(x, yValue * 2);
      SetValueOfRegister(Machine.FlagRegister, BitAnd(yValue, 0x80));
    }

    /** 9XY_ */
    method SkipIfXNotEqualsY(x: Nibble, y: Nibble)
      requires Valid() && Machine.ExecDefined(Instruction.SneReg(x, y), State())
      modifies this
      ensures State() == Machine.Execute(Instruction.SneReg(x, y), old(State()))
    {
      var xValue := GetValueOfRegister(x);
      var yValue := GetValueOfRegister(y);
      if xValue != yValue {
        pc := pc + 2;
      }
    }

    /** ANNN */
    method SetIndexRegister(value: Addr)
      requires Valid()
      modifies this
      ensures State() == Machine.Execute(Instruction.LdI(value), old(State()))
    {
      iRegister := value;
    }

    /** BNNN */
    method JumpWithOffset(value: Addr)
      requires Valid()
      modifies this
      ensures State() == Machine.Execute(Instruction.JpV0(value), old(State()))
    {
      var reg0 := GetValueOfRegister(0x0);
      pc := value + reg0;
    }

    /** DXYN: the anchor is wrapped onto the screen, VF cleared, and the n
        sprite rows drawn one after the other. */
    method DrawSprite(registerX: Nibble, registerY: Nibble, n: Nibble)
      requires Valid() && Machine.ExecDefined(Instruction.Drw(registerX, registerY, n), State())
      modifies this, registers, frameBuffer
      ensures State() == Machine.Execute(Instruction.Drw(registerX, registerY, n), old(State()))
    {
      var xCoordinate := registers[registerX];
      var yCoordinate := registers[registerY];
      if xCoordinate > 63 {
        xCoordinate := (xCoordinate + 1) % 64;
      }
      if yCoordinate > 31 {
        yCoordinate := (yCoordinate + 1) % 32;
      }
      ghost var s0 := State();
      ghost var sprite := Machine.SpriteRows(s0, n);
      assert xCoordinate == Sprite.Anchor(s0.regs[registerX], 64) && yCoordinate == Sprite.Anchor(s0.regs[registerY], 32);
      registers[Machine.FlagRegister] := 0;
      DrawRows(n, xCoordinate, yCoordinate, s0.fb, sprite);
      ghost var regs1 := s0.regs[Machine.FlagRegister := if Sprite.Collides(s0.fb, sprite, xCoordinate, yCoordinate) then 1 else 0];
      assert registers[..] == regs1;
      redraw := true;
      assert State() == Machine.State(s0.pc, s0.iRegister, regs1, s0.delayTimer, s0.soundTimer, s0.mem,
                                      Sprite.Composite(s0.fb, sprite, xCoordinate, yCoordinate), s0.stack, true, s0.panic);
    }

    /** The outer loop of DXYN: draws the n rows at memory[I..I+n] one row at
        a time, with VF cleared beforehand; leaves the buffer composited with
        the whole sprite and VF = 1 iff some lit cell went dark. */
    method DrawRows(n: Nibble, xCoordinate: u8, yCoordinate: u8, ghost fb0: seq<bool>, ghost sprite: seq<u8>)
      requires Valid() && |sprite| == n && frameBuffer[..] == fb0
      requires n == 0 || (iRegister + n <= memory.Length && memory[iRegister..iRegister + n] == sprite)
      requires Sprite.Fits(|fb0|, sprite, xCoordinate, yCoordinate)
      requires registers[Machine.FlagRegister] == 0
      modifies registers, frameBuffer
      ensures registers[..] == old(registers[..])[Machine.FlagRegister := if Sprite.Collides(fb0, sprite, xCoordinate, yCoordinate) then 1 else 0]
      ensures frameBuffer[..] == Sprite.Composite(fb0, sprite, xCoordinate, yCoordinate)
    {
      Sprite.CompositeStart(fb0, sprite, xCoordinate, yCoordinate);
      var i := 0;
      ghost var drawn := 0;
      while i < n
        invariant 0 <= i <= n && drawn == 8 * i
        invariant registers[..] == old(registers[..])[Machine.FlagRegister := registers[Machine.FlagRegister]]
        invariant registers[Machine.FlagRegister] == 0 || registers[Machine.FlagRegister] == 1
        invariant (registers[Machine.FlagRegister] == 1) == Sprite.CollidesUpTo(fb0, sprite, xCoordinate, yCoordinate, drawn)
        invariant frameBuffer[..] == Sprite.CompositeUpTo(fb0, sprite, xCoordinate, yCoordinate, drawn)
      {
        var row := memory[iRegister + i];
        var y := (yCoordinate + i) * 64;
        assert row == sprite[i] && y == (yCoordinate + i) * 64;
        Sprite.FitsRow(|fb0|, sprite, xCoordinate, yCoordinate, i);
        Sprite.DrawRowStep(fb0, sprite, xCoordinate, yCoordinate, i, drawn);
        DrawRow(row, xCoordinate, y);
        i := i + 1;
        drawn := drawn + 8;
      }
      Sprite.CompositeFinish(fb0, sprite, xCoordinate, yCoordinate);
    }

    /** The inner loop of DXYN over the eight pixels of one sprite row drawn
        at cell offset y: a column at or past the right edge ends the row, a
        set pixel flips its cell, and turning a lit cell off sets VF to 1. */
    method DrawRow(row: u8, xCoordinate: u8, y: nat)
      requires Valid() && Sprite.RowFits(frameBuffer.Length, row, xCoordinate, y)
      requires registers[Machine.FlagRegister] == 0 || registers[Machine.FlagRegister] == 1
      modifies registers, frameBuffer
      ensures registers[..] == old(registers[..])[Machine.FlagRegister := registers[Machine.FlagRegister]]
      ensures registers[Machine.FlagRegister] == 0 || registers[Machine.FlagRegister] == 1
      ensures (frameBuffer[..], registers[Machine.FlagRegister] == 1)
           == Sprite.RowFrom(old(frameBuffer[..]), old(registers[Machine.FlagRegister]) == 1, row, xCoordinate, y, 0)
    {
      ghost var goal := Sprite.RowFrom(frameBuffer[..], registers[Machine.FlagRegister] == 1, row, xCoordinate, y, 0);
      var j := 0;
      while j < 8
        invariant 0 <= j <= 8
        invariant registers[..] == old(registers[..])[Machine.FlagRegister := registers[Machine.FlagRegister]]
        invariant registers[Machine.FlagRegister] == 0 || registers[Machine.FlagRegister] == 1
        invariant Sprite.RowFrom(frameBuffer[..], registers[Machine.FlagRegister] == 1, row, xCoordinate, y, j) == goal
      {
        var pixel := BitAt(row, 7 - j);
        var x := xCoordinate + j;
        if x >= 64 {
          break;
        }
        assert pixel == 1 <==> Sprite.RowPixel(row, j);
        if pixel == 1 {
          if frameBuffer[x + y] {
            frameBuffer[x + y] := false;
            registers[Machine.FlagRegister] := 1;
          } else {
            frameBuffer[x + y] := true;
          }
        }
        j := j + 1;
      }
    }

    /** The 0xF family, dispatched on its low byte. */
    method FInstructions(nb: Nibble, nc: Nibble, nd: Nibble)
      requires Valid() && Machine.ExecDefined(Instruction.DecodeMisc(nb, nc, nd), State())
      modifies this, registers, memory
      ensures State() == Machine.Execute(Instruction.DecodeMisc(nb, nc, nd), old(State()))
    {
      var encoded := nc * 0x10 + nd;
      match encoded {
        case 0x07 => StoreDelayTimerInVx(nb);
        case 0x1E => AddVxToI(nb);
        case 0x33 => StoreDecimalAtI(nb);
        case 0x55 => StoreRegisterValuesInMemory(nb);
        case 0x65 => LoadRegisterValuesFromMemory(nb);
        case _ => PanicUnknownInstruction(0xE000 + nb * 0x100 + encoded);
      }
    }

    /** FX07 */
    method StoreDelayTimerInVx(x: Nibble)
      requires Valid()
      modifies registers
      ensures State() == Machine.Execute(Instruction.LdVxDt(x), old(State()))
    {
      SetValueOfRegister(x, delayTimer);
    }

    /** FX1E */
    method AddVxToI(x: Nibble)
      requires Valid() && Machine.ExecDefined(Instruction.AddI(x), State())
      modifies this
      ensures State() == Machine.Execute(Instruction.AddI(x), old(State()))
    {
      var value := GetValueOfRegister(x);
      iRegister := iRegister + value;
    }

    /** FX33: the digits are written from the last one back, dividing by
        ten after each. */
    method StoreDecimalAtI(x: Nibble)
      requires Valid() && Machine.ExecDefined(Instruction.LdB(x), State())
      modifies memory
      ensures State() == Machine.Execute(Instruction.LdB(x), old(State()))
    {
      var value: u16 := GetValueOfRegister(x);
      ghost var v := value;
      var i := 3;
      while i > 0
        invariant 0 <= i <= 3
        invariant value == if i == 3 then v else if i == 2 then v / 10 else if i == 1 then v / 100 else v / 1000
        invariant forall k :: 0 <= k < memory.Length && !(iRegister + i <= k < iRegister + 3) ==>
          memory[k] == old(memory[k])
        invariant i <= 2 ==> memory[iRegister + 2] == v % 10
        invariant i <= 1 ==> memory[iRegister + 1] == v / 10 % 10
        invariant i == 0 ==> memory[iRegister] == v / 100 % 10
      {
        i := i - 1;
        memory[iRegister + i] := value % 10;
        value := value / 10;
      }
      ghost var i0 := iRegister;
      assert memory[..] == old(memory[..])[i0 := v / 100 % 10][i0 + 1 := v / 10 % 10][i0 + 2 := v % 10];
    }

    /** FX55: one register per step, I advanced after each. */
    method StoreRegisterValuesInMemory(x: Nibble)
      requires Valid() && Machine.ExecDefined(Instruction.LdIVx(x), State())
      modifies this, memory
      ensures State() == Machine.Execute(Instruction.LdIVx(x), old(State()))
    {
      ghost var s0 := State();
      assert Machine.BlockDefined(s0, x) && Machine.Execute(Instruction.LdIVx(x), s0) == Machine.StoreRegisterValuesInMemory(s0, x);
      StoreLoop(x);
      Spliced(s0.mem, s0.regs, s0.iRegister, x + 1, memory[..]);
    }

    /** The loop of FX55: memory[I + k] takes V[k] for k <= x, and I ends
        x + 1 further on. */
    method StoreLoop(x: Nibble)
      requires Valid() && iRegister + x < memory.Length && iRegister + x + 1 <= 0xFFFF
      modifies `iRegister, memory
      ensures iRegister == old(iRegister) + x + 1
      ensures forall k :: 0 <= k < memory.Length ==>
        memory[k] == if old(iRegister) <= k < old(iRegister) + x + 1 then registers[k - old(iRegister)] else old(memory[k])
    {
      ghost var i0 := iRegister;
      var i := 0;
      while i < x + 1
        invariant 0 <= i <= x + 1
        invariant iRegister == i0 + i
        invariant forall k :: 0 <= k < memory.Length ==>
          memory[k] == if i0 <= k < i0 + i then registers[k - i0] else old(memory[k])
      {
        memory[iRegister] := GetValueOfRegister(i);
        iRegister := iRegister + 1;
        i := i + 1;
      }
    }

    /** FX65: one register per step, I advanced after each. */
    method LoadRegisterValuesFromMemory(x: Nibble)
      requires Valid() && Machine.ExecDefined(Instruction.LdVxI(x), State())
      modifies this, registers
      ensures State() == Machine.Execute(Instruction.LdVxI(x), old(State()))
    {
      ghost var s0 := State();
      assert Machine.BlockDefined(s0, x) && Machine.Execute(Instruction.LdVxI(x), s0) == Machine.LoadRegisterValuesFromMemory(s0, x);
      LoadLoop(x);
      Loaded(s0.mem, s0.regs, s0.iRegister, x + 1, registers[..]);
    }

    /** The loop of FX65: V[k] takes memory[I + k] for k <= x, and I ends
        x + 1 further on. */
    method LoadLoop(x: Nibble)
      requires Valid() && iRegister + x < memory.Length && iRegister + x + 1 <= 0xFFFF
      modifies `iRegister, registers
      ensures iRegister == old(iRegister) + x + 1
      ensures forall k :: 0 <= k < registers.Length ==>
        registers[k] == if k < x + 1 then memory[old(iRegister) + k] else old(registers[k])
    {
      ghost var i0 := iRegister;
      var i := 0;
      while i < x + 1
        invariant 0 <= i <= x + 1
        invariant iRegister == i0 + i
        invariant forall k :: 0 <= k < registers.Length ==>
          registers[k] == if k < i then memory[i0 + k] else old(registers[k])
      {
        var value := memory[iRegister];
        SetValueOfRegister(i, value);
        iRegister := iRegister + 1;
        i := i + 1;
      }
    }

    /** get_value_of_register */
    function GetValueOfRegister(register: Nibble): u8
      requires Valid()
      reads registers
    {
      registers[register]
    }

    /** set_value_of_register: only the low byte is kept. */
    method SetValueOfRegister(register: Nibble, value: u16)
      requires Valid()
      modifies registers
      ensures registers[..] == old(registers[..])[register := Trunc8(value)]
      ensures State() == Machine.SetRegister(old(State()), register, value)
    {
      registers[register] := Trunc8(value);
    }

    /** panic_unknown_instruction: the halt flag is the only effect. */
    method PanicUnknownInstruction(instruction: u16)
      requires Valid()
      modifies this
      ensures State() == Machine.Execute(Instruction.Unknown(instruction), old(State()))
    {
      panic := true;
    }
  }
}
