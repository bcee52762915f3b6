/** The x86-64 assembler: jump sizes chosen in pass COMPUTE, and what the processor
    makes of the bytes (Intel 64 and IA-32 Architectures Software Developer's Manual,
    volume 2, JMP, Jcc and MOV). */
module AsmX64 {
  import opened Options
  import opened AsmBase
  import opened Arithmetic

  const LIMIT := 0x7fff_ffff
  const TWO32 := 0x1_0000_0000
  const TWO64 := 0x1_0000_0000_0000_0000

  /** A condition type, 0 to 15. */
  type Cond = c: int | 0 <= c < 16
  type Reg = r: int | 0 <= r < 16

  type Short = bs: seq<Byte> | |bs| <= 3

  datatype Instr =
    | Bytes(bs: Short)
    | Word32(w: int)
    | Word64(w: int)
    | Jmp(lab: nat)
    | Jcc(cond: Cond, lab: nat)
    | MovI64(i64: int, reg: Reg)
    | MovI64Optimised(i64: int, reg: Reg)
    | MovI64Aligned(i64: int, reg: Reg)

  // ---------- Encodings ----------

  /** x as a signed 64-bit machine integer. */
  function Signed64(x: int): int { (x + TWO64 / 2) % TWO64 - TWO64 / 2 }

  function Rel(off: nat, dest: int): int { Signed64(dest - off) }

  /** The masks are 32 bits wide although rel has 64. */
  predicate SignedFit8(x: int) { x % TWO32 < 0x80 || x % TWO32 >= TWO32 - 0x80 }

  predicate UnsignedFit32(x: int) { x % TWO64 < TWO32 }

  predicate Narrow(off: nat, dest: int) {
    dest != NO_OFFSET && Rel(off, dest) < 0 && SignedFit8(Rel(off, dest) - 2)
  }

  function JmpBytes(off: nat, dest: int): seq<Byte> {
    if Narrow(off, dest) then [0xeb, (Rel(off, dest) - 2) % 256] else [0xe9] + LittleEndian(Rel(off, dest) - 5, 4)
  }

  function JccBytes(cond: Cond, off: nat, dest: int): seq<Byte> {
    if Narrow(off, dest) then [0x70 + cond, (Rel(off, dest) - 2) % 256]
    else [0x0f, 0x80 + cond] + LittleEndian(Rel(off, dest) - 6, 4)
  }

  function MovI64Bytes(i64: int, reg: Reg): seq<Byte> {
    [if reg < 8 then 0x48 else 0x49, 0xb8 + reg % 8] + LittleEndian(i64, 8)
  }

  function MovI32Prefix(reg: Reg): seq<Byte> { if reg < 8 then [0xb8 + reg] else [0x41, 0xb8 + reg % 8] }

  function MovI64OptimisedBytes(i64: int, reg: Reg): seq<Byte> {
    if UnsignedFit32(i64) then MovI32Prefix(reg) + LittleEndian(i64 % TWO32, 4) else MovI64Bytes(i64, reg)
  }

  function Nops(n: nat): (bs: seq<Byte>)
    ensures |bs| == n && forall k :: 0 <= k < n ==> bs[k] == 0x90
  {
    if n == 0 then [] else [0x90] + Nops(n - 1)
  }

  /** How many bytes until the immediate of a two-byte opcode is word-aligned. */
  function Padding(off: nat): nat { (6 - off) % 8 }

  function Encode(i: Instr, off: nat, labels: seq<int>): Option<seq<Byte>> {
    match i
    case Bytes(bs) => Some(bs)
    case Word32(w) => Some(LittleEndian(w, 4))
    case Word64(w) => Some(LittleEndian(w, 8))
    case Jmp(l) => if l < |labels| then Some(JmpBytes(off, labels[l])) else None
    case Jcc(c, l) => if l < |labels| then Some(JccBytes(c, off, labels[l])) else None
    case MovI64(w, reg) => Some(MovI64Bytes(w, reg))
    case MovI64Optimised(w, reg) => Some(MovI64OptimisedBytes(w, reg))
    case MovI64Aligned(w, reg) => Some(Nops(Padding(off)) + MovI64Bytes(w, reg))
  }

  // ---------- Two passes choose the same sizes ----------

  /** A label found later than the jump never makes it narrow. */
  lemma ForwardIsWide(off: nat, dest: int)
    requires off <= dest <= LIMIT
    ensures !Narrow(off, dest)
  {
  }

  lemma EncodeIsStableAt(i: Instr, off: nat, now: seq<int>, later: seq<int>)
    ensures StableAt(Encode, LIMIT, i, off, now, later)
  {
    hide Narrow, LittleEndian, Nops, MovI64Bytes, MovI64OptimisedBytes;
    if IsJump(i) && i.lab < |now| && i.lab < |later| {
      NoOffsetIsWide(off);
      if off <= later[i.lab] <= LIMIT { ForwardIsWide(off, later[i.lab]); }
    }
  }

  lemma NarrowMeans(off: nat, dest: int)
    requires off <= LIMIT && 0 <= dest <= LIMIT
    ensures Narrow(off, dest) <==> dest < off && off + 2 - dest <= 0x80
  {
    ModUnique(dest - off + TWO64 / 2, TWO64, 0, dest - off + TWO64 / 2);
    assert Signed64(dest - off) == dest - off;
    if dest < off { ModUnique(dest - off - 2, TWO32, -1, TWO32 + (dest - off - 2)); }
  }

  /** A jump is two bytes long exactly if its label is known, behind, and no further than a byte
      reaches. */
  lemma ShortestJumps(off: nat, dest: int, cond: Cond)
    requires off <= LIMIT && -1 <= dest <= LIMIT
    ensures |JmpBytes(off, dest)| == if 0 <= dest < off && off + 2 - dest <= 0x80 then 2 else 5
    ensures |JccBytes(cond, off, dest)| == if 0 <= dest < off && off + 2 - dest <= 0x80 then 2 else 6
  {
    hide Narrow, Rel, LittleEndian;
    if dest >= 0 { NarrowMeans(off, dest); } else { NoOffsetIsWide(off); }
  }

  /** A constant below 2^32 is loaded with the short form. */
  lemma ShortestLoads(reg: Reg, i64: nat)
    requires i64 < TWO64
    ensures |MovI64OptimisedBytes(i64, reg)| == if i64 >= TWO32 then 10 else if reg < 8 then 5 else 6
  {
    hide LittleEndian;
  }

  lemma NoOffsetIsWide(off: nat)
    ensures !Narrow(off, NO_OFFSET)
  {
  }

  lemma EncodeIsStable()
    ensures Stable(Encode, LIMIT)
  {
    forall i: Instr, off: nat, now: seq<int>, later: seq<int> ensures StableAt(Encode, LIMIT, i, off, now, later) {
      EncodeIsStableAt(i, off, now, later);
    }
  }

  /** Labels are assigned once, and every label named exists. */
  ghost predicate ValidProgram(items: seq<Item<Instr>>, n: nat) {
    && LabelsOnce(items, n)
    && (forall k :: 0 <= k < |items| && items[k].Ins? && IsJump(items[k].op) ==> items[k].op.lab < n)
  }

  lemma ProgramIsEncodable(items: seq<Item<Instr>>, n: nat)
    requires ValidProgram(items, n)
    ensures Encodable(Encode, items, n)
  {
  }

  /** No assertion fails in either pass, and every item stands at the same offset in both. */
  lemma X64TwoPass(items: seq<Item<Instr>>, n: nat, k: nat, buffer: seq<Byte>)
    requires ValidProgram(items, n) && k <= |items|
    ensures RunTo(Encode, items, |items|, StartCompute(n)).Some?
    ensures RunTo(Encode, items, |items|, StartCompute(n)).value.off <= LIMIT
            && RunTo(Encode, items, |items|, StartCompute(n)).value.off <= |buffer| ==>
              Retraces(Encode, items, n, k, buffer)
  {
    hide RunTo, StartCompute, Retraces, Encode;
    ProgramIsEncodable(items, n);
    EncodeIsStable();
    ComputeRuns(Encode, items, |items|, n);
    if RunTo(Encode, items, |items|, StartCompute(n)).value.off <= LIMIT
       && RunTo(Encode, items, |items|, StartCompute(n)).value.off <= |buffer|
    {
      EmitRetraces(Encode, items, n, k, buffer, LIMIT);
    }
  }

  // ---------- Decoding ----------

  predicate IsJump(i: Instr) { i.Jmp? || i.Jcc? }

  datatype Jump = Jump(cond: Option<Cond>, target: int)

  function SignExtend(x: int, bound: int): int { if x >= bound / 2 then x - bound else x }

  /** The jump the processor sees at off, if any. */
  function Decode(code: seq<Byte>, off: nat): Option<Jump> {
    if off + 2 > |code| then None
    else if code[off] == 0xeb then Some(Jump(None, off + 2 + SignExtend(code[off + 1], 0x100)))
    else if 0x70 <= code[off] < 0x80 then Some(Jump(Some(code[off] - 0x70), off + 2 + SignExtend(code[off + 1], 0x100)))
    else if code[off] == 0xe9 && off + 5 <= |code| then
      Some(Jump(None, off + 5 + SignExtend(FromLittleEndian(code[off + 1..off + 5]), TWO32)))
    else if code[off] == 0x0f && off + 6 <= |code| && 0x80 <= code[off + 1] < 0x90 then
      Some(Jump(Some(code[off + 1] - 0x80), off + 6 + SignExtend(FromLittleEndian(code[off + 2..off + 6]), TWO32)))
    else None
  }

  lemma Word32Held(code: seq<Byte>, off: nat, w: int)
    requires Holds(code, off, LittleEndian(w, 4))
    ensures off + 4 <= |code| && FromLittleEndian(code[off..off + 4]) == w % TWO32
  {
    LittleEndianReadsBack(w, 4);
    assert Pow256(4) == TWO32;
  }

  lemma Word64Held(code: seq<Byte>, off: nat, w: int)
    requires Holds(code, off, LittleEndian(w, 8))
    ensures off + 8 <= |code| && FromLittleEndian(code[off..off + 8]) == w % TWO64
  {
    LittleEndianReadsBack(w, 8);
    assert Pow256(8) == TWO64;
  }

  lemma TwoBytesHeld(code: seq<Byte>, off: nat, a: Byte, b: Byte)
    requires Holds(code, off, [a, b])
    ensures off + 2 <= |code| && code[off] == a && code[off + 1] == b
  {
    assert code[off] == code[off..off + 2][0] && code[off + 1] == code[off..off + 2][1];
  }

  lemma OneByteHeld(code: seq<Byte>, off: nat, a: Byte)
    requires Holds(code, off, [a])
    ensures off + 1 <= |code| && code[off] == a
  {
    assert code[off] == code[off..off + 1][0];
  }

  lemma Fit8ReadsBack(rel: int)
    requires -TWO32 / 2 <= rel < TWO32 / 2
    ensures SignedFit8(rel) <==> -0x80 <= rel < 0x80
    ensures -0x80 <= rel < 0x80 ==> SignExtend(rel % 256, 0x100) == rel
    ensures SignExtend(rel % TWO32, TWO32) == rel
  {
  }

  /** Wherever the bytes of a jump stand in the first 2^31 bytes, the processor goes to
      the label. */
  lemma JumpDecodes(i: Instr, off: nat, labels: seq<int>, code: seq<Byte>)
    requires IsJump(i) && i.lab < |labels| && 0 <= labels[i.lab] <= LIMIT
    requires off + |Encode(i, off, labels).value| <= LIMIT
    requires Holds(code, off, Encode(i, off, labels).value)
    ensures Decode(code, off) == Some(Jump(if i.Jcc? then Some(i.cond) else None, labels[i.lab]))
  {
    hide Holds, LittleEndian, FromLittleEndian, SignExtend, SignedFit8;
    var dest := labels[i.lab];
    var rel := dest - off;
    assert Rel(off, dest) == rel;
    if Narrow(off, dest) {
      Fit8ReadsBack(rel - 2);
      TwoBytesHeld(code, off, if i.Jcc? then 0x70 + i.cond else 0xeb, (rel - 2) % 256);
    } else if i.Jmp? {
      Fit8ReadsBack(rel - 5);
      HoldsParts(code, off, [0xe9], LittleEndian(rel - 5, 4));
      OneByteHeld(code, off, 0xe9);
      Word32Held(code, off + 1, rel - 5);
    } else {
      Fit8ReadsBack(rel - 6);
      HoldsParts(code, off, [0x0f, 0x80 + i.cond], LittleEndian(rel - 6, 4));
      TwoBytesHeld(code, off, 0x0f, 0x80 + i.cond);
      Word32Held(code, off + 2, rel - 6);
    }
  }

  /** In an assembled program below 2^31 bytes every jump at item k goes to the offset
      where its label item j stands. */
  lemma JumpLands(items: seq<Item<Instr>>, n: nat, k: nat, j: nat, buffer: seq<Byte>)
    requires ValidProgram(items, n) && k < |items| && j < |items|
    requires items[k].Ins? && IsJump(items[k].op) && items[j] == Label(items[k].op.lab)
    requires TotalSize(Encode, items, n) <= LIMIT && TotalSize(Encode, items, n) <= |buffer|
    ensures var i := items[k].op;
            Decode(FinalCode(Encode, items, n, buffer), OffsetOf(Encode, items, n, k)) ==
              Some(Jump(if i.Jcc? then Some(i.cond) else None, OffsetOf(Encode, items, n, j)))
  {
    hide RunTo, StartCompute, Encodable, Stable, LabelsOnce, Encode, Decode;
    ProgramIsEncodable(items, n);
    EncodeIsStable();
    var off, labels, code := EmittedBytes(Encode, items, n, k, buffer, LIMIT);
    LabelStands(Encode, items, n, j);
    JumpDecodes(items[k].op, off, labels, code);
  }

  // ---------- Running the constant loads ----------

  /** NOP, MOV r32, imm32 (which clears the upper half) and MOV r64, imm64. */
  function Execute(code: seq<Byte>, cpu: Cpu): Option<Cpu> {
    if cpu.pc >= |code| || |cpu.regs| != 16 then None
    else
      var b := code[cpu.pc];
      if b == 0x90 then Some(cpu.(pc := cpu.pc + 1))
      else if 0xb8 <= b < 0xc0 then LoadImm(code, cpu, 1, b - 0xb8, 4)
      else if 0x40 <= b < 0x50 && cpu.pc + 1 < |code| && 0xb8 <= code[cpu.pc + 1] < 0xc0 then
        LoadImm(code, cpu, 2, code[cpu.pc + 1] - 0xb8 + b % 2 * 8, if b / 8 % 2 == 1 then 8 else 4)
      else None
  }

  function LoadImm(code: seq<Byte>, cpu: Cpu, opcode: nat, reg: nat, size: nat): Option<Cpu> {
    if cpu.pc + opcode + size <= |code| && reg < |cpu.regs| then
      Some(Cpu(cpu.pc + opcode + size,
        cpu.regs[reg := FromLittleEndian(code[cpu.pc + opcode..cpu.pc + opcode + size])]))
    else None
  }

  lemma MovI64Runs(code: seq<Byte>, cpu: Cpu, w: int, reg: Reg)
    requires |cpu.regs| == 16 && Holds(code, cpu.pc, MovI64Bytes(w, reg))
    ensures Execute(code, cpu) == Some(Cpu(cpu.pc + 10, cpu.regs[reg := w % TWO64]))
    ensures cpu.pc + 10 <= |code| && FromLittleEndian(code[cpu.pc + 2..cpu.pc + 10]) == w % TWO64
  {
    hide Holds, LittleEndian, FromLittleEndian;
    var a, b := if reg < 8 then 0x48 else 0x49, 0xb8 + reg % 8;
    HoldsParts(code, cpu.pc, [a, b], LittleEndian(w, 8));
    TwoBytesHeld(code, cpu.pc, a, b);
    Word64Held(code, cpu.pc + 2, w);
  }

  /** The short form loads the same 64-bit value. */
  lemma MovI64OptimisedRuns(code: seq<Byte>, cpu: Cpu, w: int, reg: Reg)
    requires |cpu.regs| == 16 && Holds(code, cpu.pc, MovI64OptimisedBytes(w, reg))
    ensures Execute(code, cpu) == Some(Cpu(cpu.pc + |MovI64OptimisedBytes(w, reg)|, cpu.regs[reg := w % TWO64]))
  {
    hide Holds, LittleEndian, FromLittleEndian, MovI64Bytes;
    if UnsignedFit32(w) {
      LowWord(w);
      HoldsParts(code, cpu.pc, MovI32Prefix(reg), LittleEndian(w % TWO32, 4));
      if reg < 8 {
        OneByteHeld(code, cpu.pc, 0xb8 + reg);
        Word32Held(code, cpu.pc + 1, w % TWO32);
      } else {
        TwoBytesHeld(code, cpu.pc, 0x41, 0xb8 + reg % 8);
        Word32Held(code, cpu.pc + 2, w % TWO32);
      }
    } else {
      hide Execute;
      MovI64Runs(code, cpu, w, reg);
      assert |MovI64Bytes(w, reg)| == 10 by { MovI64Size(w, reg); }
    }
  }

  lemma MovI64Size(w: int, reg: Reg)
    ensures |MovI64Bytes(w, reg)| == 10
  {
  }

  lemma LowWord(w: int)
    requires UnsignedFit32(w)
    ensures w % TWO64 == w % TWO32 == w % TWO32 % TWO32
  {
    ModUnique(w, TWO32, w / TWO64 * TWO32, w % TWO64);
  }

  lemma NopRuns(code: seq<Byte>, cpu: Cpu)
    requires |cpu.regs| == 16 && Holds(code, cpu.pc, [0x90])
    ensures Execute(code, cpu) == Some(cpu.(pc := cpu.pc + 1))
  {
    OneByteHeld(code, cpu.pc, 0x90);
  }

  lemma {:induction false} NopsRun(code: seq<Byte>, cpu: Cpu, n: nat, more: nat)
    requires |cpu.regs| == 16 && Holds(code, cpu.pc, Nops(n))
    ensures ExecuteMany(Execute, code, cpu, n + more) == ExecuteMany(Execute, code, cpu.(pc := cpu.pc + n), more)
    decreases n
  {
    hide Holds, Execute;
    if n > 0 {
      HoldsParts(code, cpu.pc, [0x90], Nops(n - 1));
      NopRuns(code, cpu);
      NopsRun(code, cpu.(pc := cpu.pc + 1), n - 1, more);
    }
  }

  /** The immediate stands 8-byte aligned, reads back as w, and execution loads it. */
  lemma MovI64AlignedRuns(code: seq<Byte>, cpu: Cpu, w: int, reg: Reg)
    requires |cpu.regs| == 16 && Holds(code, cpu.pc, Encode(MovI64Aligned(w, reg), cpu.pc, []).value)
    ensures var literal := cpu.pc + Padding(cpu.pc) + 2;
            && literal % 8 == 0 && literal + 8 <= |code|
            && FromLittleEndian(code[literal..literal + 8]) == w % TWO64
            && ExecuteMany(Execute, code, cpu, Padding(cpu.pc) + 1) ==
               Some(Cpu(literal + 8, cpu.regs[reg := w % TWO64]))
  {
    hide Holds, Execute, MovI64Bytes, FromLittleEndian, Nops, ExecuteMany;
    var p := Padding(cpu.pc);
    PaddingAligns(cpu.pc);
    HoldsParts(code, cpu.pc, Nops(p), MovI64Bytes(w, reg));
    var at := cpu.(pc := cpu.pc + p);
    MovI64Runs(code, at, w, reg);
    NopsRun(code, cpu, p, 1);
    ExecuteFirst(Execute, code, at, Execute(code, at).value, 0);
  }

  lemma PaddingAligns(off: nat)
    ensures (off + Padding(off) + 2) % 8 == 0
    ensures (off + 2) % 8 == 0 <==> Padding(off) == 0
    ensures Padding(off) > 0 ==> Padding(off) == 1 + Padding(off + 1)
  {
  }

  // ---------- The emitters ----------

  method PutBytes(code: array<Byte>, at: nat, bs: seq<Byte>)
    requires |bs| <= 3 && at + |bs| <= code.Length
    modifies code
    ensures code[..] == Splice(old(code[..]), at, bs)
  {
    if |bs| > 0 { code[at] := bs[0]; }
    if |bs| > 1 { code[at + 1] := bs[1]; }
    if |bs| > 2 { code[at + 2] := bs[2]; }
  }

  method WriteBytes(a: Assembler, bs: seq<Byte>) returns (ok: bool)
    requires |bs| <= 3
    modifies a`codeOffset, a.code
    ensures ok <==> Write(old(a.State()), bs).Some?
    ensures ok ==> a.State() == Write(old(a.State()), bs).value
  {
    hide Splice;
    var c;
    ok, c := a.GetCurToWriteBytes(|bs|);
    if c.Some? { PutBytes(a.code, c.value, bs); }
  }

  function Byte32(w: int, k: nat): Byte {
    w / (if k == 0 then 1 else if k == 1 then 0x100 else if k == 2 then 0x10000 else 0x1000000) % 256
  }

  lemma Quarters(w: int)
    ensures LittleEndian(w, 4) == [Byte32(w, 0), Byte32(w, 1), Byte32(w, 2), Byte32(w, 3)]
  {
    assert w / 256 / 256 == w / 0x10000 && w / 256 / 256 / 256 == w / 0x1000000;
    assert LittleEndian(w / 0x1000000, 1) == [Byte32(w, 3)];
    assert LittleEndian(w / 0x10000, 2) == [Byte32(w, 2)] + LittleEndian(w / 0x1000000, 1);
    assert LittleEndian(w / 0x100, 3) == [Byte32(w, 1)] + LittleEndian(w / 0x10000, 2);
  }

  lemma Split64(w: int)
    ensures LittleEndian(w, 8) == LittleEndian(w, 4) + LittleEndian(w / TWO32, 4)
  {
    LittleEndianSplits(w, 4, 4);
    assert Pow256(4) == TWO32;
  }

  lemma {:induction false} LittleEndianSplits(w: int, a: nat, b: nat)
    ensures Pow256(a) > 0 && LittleEndian(w, a + b) == LittleEndian(w, a) + LittleEndian(w / Pow256(a), b)
    decreases a
  {
    if a > 0 {
      LittleEndianSplits(w / 256, a - 1, b);
      DivTwice(w, Pow256(a - 1));
    }
  }

  method Put32(code: array<Byte>, at: nat, w: int)
    requires at + 4 <= code.Length
    modifies code
    ensures code[..] == Splice(old(code[..]), at, LittleEndian(w, 4))
  {
    hide LittleEndian, Byte32;
    Quarters(w);
    code[at] := Byte32(w, 0);
    code[at + 1] := Byte32(w, 1);
    code[at + 2] := Byte32(w, 2);
    code[at + 3] := Byte32(w, 3);
  }

  method WriteWord32(a: Assembler, w: int) returns (ok: bool)
    modifies a`codeOffset, a.code
    ensures ok <==> Write(old(a.State()), LittleEndian(w, 4)).Some?
    ensures ok ==> a.State() == Write(old(a.State()), LittleEndian(w, 4)).value
  {
    hide LittleEndian;
    var c;
    ok, c := a.GetCurToWriteBytes(4);
    if c.Some? { Put32(a.code, c.value, w); }
  }

  method WriteWord64(a: Assembler, w: int) returns (ok: bool)
    modifies a`codeOffset, a.code
    ensures ok <==> Write(old(a.State()), LittleEndian(w, 8)).Some?
    ensures ok ==> a.State() == Write(old(a.State()), LittleEndian(w, 8)).value
  {
    hide LittleEndian;
    Split64(w);
    var c;
    ok, c := a.GetCurToWriteBytes(8);
    if c.Some? {
      SpliceConcat(a.code[..], c.value, LittleEndian(w, 4), LittleEndian(w / TWO32, 4));
      Put32(a.code, c.value, w);
      Put32(a.code, c.value + 4, w / TWO32);
    }
  }

  /** Emitting i from this state: what pass and label table give. */
  method JmpLabel(a: Assembler, l: nat) returns (ok: bool)
    modifies a`codeOffset, a.code
    ensures ok <==> Step(Encode, old(a.State()), Ins(Jmp(l))).Some?
    ensures ok ==> a.State() == Step(Encode, old(a.State()), Ins(Jmp(l))).value
  {
    hide Write, LittleEndian, SignedFit8, Signed64;
    if l >= a.labelOffsets.Length { return false; }
    var dest := a.labelOffsets[l];
    var rel := Signed64(dest - a.codeOffset);
    if dest != NO_OFFSET && rel < 0 {
      rel := rel - 2;
      if SignedFit8(rel) {
        ok := WriteBytes(a, [0xeb, rel % 256]);
        return;
      }
      rel := rel + 2;
    }
    rel := rel - 5;
    WriteConcat(a.State(), [0xe9], LittleEndian(rel, 4));
    ok := WriteBytes(a, [0xe9]);
    if ok { ok := WriteWord32(a, rel); }
  }

  method JccLabel(a: Assembler, cond: Cond, l: nat) returns (ok: bool)
    modifies a`codeOffset, a.code
    ensures ok <==> Step(Encode, old(a.State()), Ins(Jcc(cond, l))).Some?
    ensures ok ==> a.State() == Step(Encode, old(a.State()), Ins(Jcc(cond, l))).value
  {
    hide Write, LittleEndian, SignedFit8, Signed64;
    if l >= a.labelOffsets.Length { return false; }
    var dest := a.labelOffsets[l];
    var rel := Signed64(dest - a.codeOffset);
    if dest != NO_OFFSET && rel < 0 {
      rel := rel - 2;
      if SignedFit8(rel) {
        ok := WriteBytes(a, [0x70 + cond, rel % 256]);
        return;
      }
      rel := rel + 2;
    }
    rel := rel - 6;
    WriteConcat(a.State(), [0x0f, 0x80 + cond], LittleEndian(rel, 4));
    ok := WriteBytes(a, [0x0f, 0x80 + cond]);
    if ok { ok := WriteWord32(a, rel); }
  }

  method MovI64ToR64(a: Assembler, w: int, reg: Reg) returns (ok: bool)
    modifies a`codeOffset, a.code
    ensures ok <==> Write(old(a.State()), MovI64Bytes(w, reg)).Some?
    ensures ok ==> a.State() == Write(old(a.State()), MovI64Bytes(w, reg)).value
  {
    hide Write, LittleEndian;
    var opcode := [if reg < 8 then 0x48 else 0x49, 0xb8 + reg % 8];
    WriteConcat(a.State(), opcode, LittleEndian(w, 8));
    ok := WriteBytes(a, opcode);
    if ok { ok := WriteWord64(a, w); }
  }

  method MovI64ToR64Optimised(a: Assembler, w: int, reg: Reg) returns (ok: bool)
    modifies a`codeOffset, a.code
    ensures ok <==> Write(old(a.State()), MovI64OptimisedBytes(w, reg)).Some?
    ensures ok ==> a.State() == Write(old(a.State()), MovI64OptimisedBytes(w, reg)).value
  {
    hide Write, LittleEndian, MovI64Bytes;
    if UnsignedFit32(w) {
      WriteConcat(a.State(), MovI32Prefix(reg), LittleEndian(w % TWO32, 4));
      if reg < 8 { ok := WriteBytes(a, [0xb8 + reg]); } else { ok := WriteBytes(a, [0x41, 0xb8 + reg % 8]); }
      if ok { ok := WriteWord32(a, w % TWO32); }
    } else {
      ok := MovI64ToR64(a, w, reg);
    }
  }

  method MovI64ToR64Aligned(a: Assembler, w: int, reg: Reg) returns (ok: bool)
    modifies a`codeOffset, a.code
    ensures ok <==> Step(Encode, old(a.State()), Ins(MovI64Aligned(w, reg))).Some?
    ensures ok ==> a.State() == Step(Encode, old(a.State()), Ins(MovI64Aligned(w, reg))).value
  {
    hide Write, MovI64Bytes, Nops;
    ghost var st := a.State();
    ghost var all := Write(st, Nops(Padding(a.codeOffset)) + MovI64Bytes(w, reg));
    while (a.codeOffset + 2) % 8 != 0
      invariant a.code == old(a.code)
      invariant Write(a.State(), Nops(Padding(a.codeOffset)) + MovI64Bytes(w, reg)) == all
      decreases Padding(a.codeOffset)
    {
      PaddingAligns(a.codeOffset);
      NopFirst(a.State(), Padding(a.codeOffset), MovI64Bytes(w, reg));
      WriteMoves(a.State(), [0x90]);
      ok := WriteBytes(a, [0x90]);
      if !ok { return; }
    }
    PaddingAligns(a.codeOffset);
    assert Nops(0) + MovI64Bytes(w, reg) == MovI64Bytes(w, reg);
    ok := MovI64ToR64(a, w, reg);
  }

  lemma NopFirst(st: State, n: nat, bs: seq<Byte>)
    requires n > 0
    ensures Write(st, Nops(n) + bs) == WriteBoth(st, [0x90], Nops(n - 1) + bs)
  {
    assert Nops(n) + bs == [0x90] + (Nops(n - 1) + bs);
    WriteConcat(st, [0x90], Nops(n - 1) + bs);
  }

  method EmitInstr(a: Assembler, i: Instr) returns (ok: bool)
    modifies a`codeOffset, a.code
    ensures ok <==> Step(Encode, old(a.State()), Ins(i)).Some?
    ensures ok ==> a.State() == Step(Encode, old(a.State()), Ins(i)).value
  {
    hide Write, LittleEndian, MovI64Bytes, MovI64OptimisedBytes, JmpBytes, JccBytes;
    match i
    case Bytes(bs) => ok := WriteBytes(a, bs);
    case Word32(w) => ok := WriteWord32(a, w);
    case Word64(w) => ok := WriteWord64(a, w);
    case Jmp(l) => ok := JmpLabel(a, l);
    case Jcc(c, l) => ok := JccLabel(a, c, l);
    case MovI64(w, reg) => ok := MovI64ToR64(a, w, reg);
    case MovI64Optimised(w, reg) => ok := MovI64ToR64Optimised(a, w, reg);
    case MovI64Aligned(w, reg) => ok := MovI64ToR64Aligned(a, w, reg);
  }

  method EmitItems(a: Assembler, items: seq<Item<Instr>>) returns (ok: bool)
    modifies a`codeOffset, a.code, a.labelOffsets
    ensures ok <==> RunTo(Encode, items, |items|, old(a.State())).Some?
    ensures ok ==> a.State() == RunTo(Encode, items, |items|, old(a.State())).value
  {
    hide RunTo, Encode, Write, Assign, Aligned;
    ghost var st := a.State();
    RunNothing(Encode, items, st);
    for k := 0 to |items|
      invariant a.code == old(a.code) && a.labelOffsets == old(a.labelOffsets)
      invariant RunTo(Encode, items, k, st) == Some(a.State())
    {
      RunStep(Encode, items, k, st);
      match items[k] {
        case Label(l) => ok := a.LabelAssign(l);
        case Align(n) => AlignedIsAhead(a.codeOffset, n); a.AlignTo(n); ok := true;
        case Ins(i) => ok := EmitInstr(a, i);
      }
      if !ok {
        StopsForGood(Encode, items, k + 1, |items|, st);
        return false;
      }
    }
    ok := true;
  }

  /** Both passes: no assertion fails, and the code is the one JumpLands speaks of. */
  method Assemble(a: Assembler, items: seq<Item<Instr>>) returns (ok: bool, ghost buffer: seq<Byte>)
    requires ValidProgram(items, a.labelOffsets.Length) && TotalSize(Encode, items, a.labelOffsets.Length) <= LIMIT
    requires a.code.Length == 0
    modifies a, a.code, a.labelOffsets
    ensures ok
    ensures a.labelOffsets == old(a.labelOffsets)
    ensures |buffer| == TotalSize(Encode, items, a.labelOffsets.Length)
    ensures a.code[..] == FinalCode(Encode, items, a.labelOffsets.Length, buffer)
    ensures a.codeOffset == a.code.Length
  {
    hide RunTo, StartCompute, ValidProgram;
    var n := a.labelOffsets.Length;
    a.StartPass(Compute);
    StartedEmpty(a, n);
    X64TwoPass(items, n, 0, []);
    ok := EmitItems(a, items);
    a.StartPass(Emit);
    buffer := a.code[..];
    X64TwoPass(items, n, |items|, buffer);
    ok := EmitItems(a, items);
  }
}
