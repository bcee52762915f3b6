/** What the constant loads do when the processor runs them: the register gets the
    constant, no other register changes, and a literal word in the code is jumped over
    (ARMv7-M Architecture Reference Manual, sections A7.7.76 and A7.7.79). */
module AsmThumbMov {
  import opened Options
  import opened AsmBase
  import opened Arithmetic
  import opened AsmThumb

  function Imm16(h1: nat, h2: nat): nat {
    h1 % 16 * 0x1000 + h1 / 0x400 % 2 * 0x800 + h2 / 0x1000 % 8 * 0x100 + h2 % 256
  }

  function SetReg(cpu: Cpu, size: nat, reg: nat, val: int): Option<Cpu> {
    if reg < |cpu.regs| then Some(Cpu(cpu.pc + size, cpu.regs[reg := val])) else None
  }

  /** One instruction: NOP, MOVS #imm8, MOVW, MOVT, or an unconditional branch. */
  function Execute(code: seq<Byte>, cpu: Cpu): Option<Cpu> {
    if cpu.pc + 2 > |code| then None
    else
      var h1 := HalfAt(code, cpu.pc);
      if h1 == OP_NOP then Some(cpu.(pc := cpu.pc + 2))
      else if h1 / 2048 == 4 then SetReg(cpu, 2, h1 / 256 % 8, h1 % 256)
      else if h1 / 2048 == 0x1e && cpu.pc + 4 <= |code| && HalfAt(code, cpu.pc + 2) / 0x8000 == 0 then
        var h2 := HalfAt(code, cpu.pc + 2);
        var reg := h2 / 256 % 16;
        if h1 / 16 % 64 == 0x24 then SetReg(cpu, 4, reg, Imm16(h1, h2))
        else if h1 / 16 % 64 == 0x2c && reg < |cpu.regs| then
          SetReg(cpu, 4, reg, Imm16(h1, h2) * 0x10000 + cpu.regs[reg] % 0x10000)
        else None
      else
        var jump := Decode(code, cpu.pc);
        if jump.Some? && jump.value.cond.None? && !jump.value.link && jump.value.target >= 0
        then Some(cpu.(pc := jump.value.target)) else None
  }

  lemma MovHiFields(top: bool, x: int)
    ensures var h := MovHi(top, x);
            && h < 0x10000 && h / 2048 == 0x1e && h / 16 % 64 == (if top then 0x2c else 0x24)
            && h % 16 == x / 0x1000 % 16 && h / 0x400 % 2 == x / 0x800 % 2 && h != OP_NOP
  {
    HiFields(if top then 0x2c else 0x24, x / 0x800 % 2, x / 0x1000 % 16);
  }

  lemma HiFields(op: nat, i: nat, imm4: nat)
    requires op in {0x24, 0x2c} && i < 2 && imm4 < 16
    ensures var h := 0xf000 + i * 0x400 + op * 16 + imm4;
            h < 0x10000 && h / 2048 == 0x1e && h / 16 % 64 == op && h % 16 == imm4 && h / 0x400 % 2 == i
  {
    var h := 0xf000 + i * 0x400 + op * 16 + imm4;
    assert h / 16 == 0xf00 + i * 64 + op;
  }

  lemma MovLoFields(reg: nat, x: int)
    requires reg < 16
    ensures var h := MovLo(reg, x);
            h < 0x8000 && h / 256 % 16 == reg && h / 0x1000 % 8 == x / 0x100 % 8 && h % 256 == x % 256
  {
    var imm3, imm8 := x / 0x100 % 8, x % 256;
    assert MovLo(reg, x) == imm3 * 0x1000 + reg * 0x100 + imm8;
  }

  lemma LowHalf(x: int)
    ensures x % 0x10000 == x / 0x1000 % 16 * 0x1000 + x / 0x800 % 2 * 0x800 + x / 0x100 % 8 * 0x100 + x % 256
  {
    var r := x / 256;
    var imm3, r1 := r % 8, r / 8;
    var i, r2 := r1 % 2, r1 / 2;
    var imm4, q := r2 % 16, r2 / 16;
    ModUnique(x, 0x1000, r2, 0x800 * i + 0x100 * imm3 + x % 256);
    ModUnique(x, 0x800, r1, 0x100 * imm3 + x % 256);
    ModUnique(x, 0x10000, q, 0x1000 * imm4 + 0x800 * i + 0x100 * imm3 + x % 256);
  }

  /** MOVW loads the low half and clears the rest; MOVT replaces the high half. */
  lemma MovI16Runs(code: seq<Byte>, cpu: Cpu, top: bool, reg: nat, x: int)
    requires reg < 15 && |cpu.regs| == 16 && Holds(code, cpu.pc, MovI16Bytes(top, reg, x))
    ensures Execute(code, cpu) == Some(Cpu(cpu.pc + 4,
              cpu.regs[reg := if top then x % 0x10000 * 0x10000 + cpu.regs[reg] % 0x10000 else x % 0x10000]))
  {
    hide HalfAt, Holds, MovHi, MovLo, Halves, Decode;
    MovHiFields(top, x);
    MovLoFields(reg, x);
    LowHalf(x);
    HalvesHeld(code, cpu.pc, MovHi(top, x), MovLo(reg, x));
  }

  lemma BothHalves(x: int, low: int)
    requires low == x % 0x10000
    ensures x / 0x10000 % 0x10000 * 0x10000 + low % 0x10000 == x % WORD
  {
    var high := x / 0x10000;
    assert high == 0x10000 * (high / 0x10000) + high % 0x10000;
    assert x == WORD * (high / 0x10000) + (high % 0x10000 * 0x10000 + low);
  }

  /** cpu after loading x into reg with the code of the given size. */
  function Loaded(cpu: Cpu, size: nat, reg: nat, x: int): Cpu
    requires reg < |cpu.regs|
  {
    Cpu(cpu.pc + size, cpu.regs[reg := x % WORD])
  }

  lemma MovI32Runs(code: seq<Byte>, cpu: Cpu, reg: nat, x: int)
    requires reg < 15 && |cpu.regs| == 16 && Holds(code, cpu.pc, MovI32Bytes(reg, x))
    ensures ExecuteMany(Execute, code, cpu, 2) == Some(Loaded(cpu, 8, reg, x))
  {
    hide Holds, Execute, MovI16Bytes;
    HoldsParts(code, cpu.pc, MovI16Bytes(false, reg, x), MovI16Bytes(true, reg, x / 0x10000));
    MovI16Runs(code, cpu, false, reg, x);
    var mid := Execute(code, cpu).value;
    MovI16Runs(code, mid, true, reg, x / 0x10000);
    BothHalves(x, x % 0x10000);
    var end := Execute(code, mid).value;
    assert end.regs == cpu.regs[reg := x % WORD];
    ExecuteFirst(Execute, code, mid, end, 0);
    ExecuteFirst(Execute, code, cpu, mid, 1);
  }

  lemma MovsFields(reg: nat, x: nat)
    requires reg < 8 && x < 256
    ensures var h := 0x2000 + reg * 256 + x; h / 2048 == 4 && h / 256 % 8 == reg && h % 256 == x
  {
  }

  lemma SmallConstants(x: int)
    ensures UnsignedFit(x, 0x100) ==> x % WORD == x % 256
    ensures UnsignedFit(x, 0x10000) ==> x % WORD == x % 0x10000
  {
    assert UnsignedFit(x, 0x100) == (x % WORD < 0x100) && UnsignedFit(x, 0x10000) == (x % WORD < 0x10000);
    var q, r := x / WORD, x % WORD;
    if r < 0x100 { ModUnique(x, 256, 0x100_0000 * q, r); }
    if r < 0x10000 { ModUnique(x, 0x10000, 0x10000 * q, r); }
  }

  /** The shorter forms load the same value. */
  lemma MovI32OptimisedRuns(code: seq<Byte>, cpu: Cpu, reg: nat, x: int) returns (steps: nat)
    requires reg < 15 && |cpu.regs| == 16 && Holds(code, cpu.pc, MovI32OptimisedBytes(reg, x))
    ensures ExecuteMany(Execute, code, cpu, steps) == Some(Loaded(cpu, |MovI32OptimisedBytes(reg, x)|, reg, x))
  {
    hide Holds, HalfAt, Decode, MovI16Bytes, MovI32Bytes, UnsignedFit;
    SmallConstants(x);
    if reg < 8 && UnsignedFit(x, 0x100) {
      MovsFields(reg, x % 256);
      HalfHeld(code, cpu.pc, 0x2000 + reg * 256 + x % 256);
      steps := 1;
      ExecuteFirst(Execute, code, cpu, Execute(code, cpu).value, 0);
    } else if UnsignedFit(x, 0x10000) {
      hide Execute;
      MovI16Runs(code, cpu, false, reg, x);
      steps := 1;
      ExecuteFirst(Execute, code, cpu, Execute(code, cpu).value, 0);
    } else {
      MovI32Runs(code, cpu, reg, x);
      steps := 2;
    }
  }

  lemma NopRuns(code: seq<Byte>, cpu: Cpu)
    requires Holds(code, cpu.pc, Half(OP_NOP))
    ensures Execute(code, cpu) == Some(cpu.(pc := cpu.pc + 2))
  {
    HalfHeld(code, cpu.pc, OP_NOP);
  }

  lemma SkipRuns(code: seq<Byte>, cpu: Cpu)
    requires Holds(code, cpu.pc, Half(OpBN(2)))
    ensures Execute(code, cpu) == Some(cpu.(pc := cpu.pc + 6))
  {
    hide Decode;
    HalfHeld(code, cpu.pc, OpBN(2));
    DecodesNarrow(code, cpu.pc, 2);
  }

  /** The literal stands word-aligned, holds x, and execution passes over it with the
      register loaded. */
  lemma MovI32AlignedRuns(code: seq<Byte>, cpu: Cpu, reg: nat, x: int) returns (literal: nat, steps: nat)
    requires reg < 15 && |cpu.regs| == 16 && cpu.pc % 2 == 0
    requires Holds(code, cpu.pc, MovI32AlignedBytes(cpu.pc, reg, x))
    ensures literal % 4 == 0 && cpu.pc < literal && literal + 4 <= |code|
    ensures FromLittleEndian(code[literal..literal + 4]) == x % WORD
    ensures ExecuteMany(Execute, code, cpu, steps) == Some(Loaded(cpu, |MovI32AlignedBytes(cpu.pc, reg, x)|, reg, x))
  {
    hide Execute, ExecuteMany, MovI32OptimisedBytes, Half, LittleEndian, FromLittleEndian, Holds, OpBN;
    var nop := if cpu.pc % 4 == 0 then Half(OP_NOP) else [];
    var skip, word, load := Half(OpBN(2)), LittleEndian(x, 4), MovI32OptimisedBytes(reg, x);
    HoldsParts(code, cpu.pc, nop + skip + word, load);
    HoldsParts(code, cpu.pc, nop + skip, word);
    HoldsParts(code, cpu.pc, nop, skip);
    literal := cpu.pc + |nop| + 2;
    WordHeld(code, literal, x);
    var at := cpu.(pc := cpu.pc + |nop|);
    SkipRuns(code, at);
    var after := at.(pc := literal + 4);
    steps := MovI32OptimisedRuns(code, after, reg, x);
    ExecuteFirst(Execute, code, at, after, steps);
    steps := steps + 1;
    if cpu.pc % 4 == 0 {
      NopRuns(code, cpu);
      ExecuteFirst(Execute, code, cpu, at, steps);
      steps := steps + 1;
    }
  }

  lemma WordHeld(code: seq<Byte>, off: nat, x: int)
    requires Holds(code, off, LittleEndian(x, 4))
    ensures off + 4 <= |code| && FromLittleEndian(code[off..off + 4]) == x % WORD
  {
    LittleEndianReadsBack(x, 4);
    assert Pow256(4) == WORD;
  }
}
