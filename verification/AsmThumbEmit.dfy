/** The emitters themselves: each writes what Encode says, in either pass. */
module AsmThumbEmit {
  import opened Options
  import opened Arithmetic
  import opened AsmBase
  import opened AsmThumb

  method Op16(a: Assembler, op: nat) returns (ok: bool)
    modifies a`codeOffset, a.code
    ensures ok <==> Write(old(a.State()), Half(op)).Some?
    ensures ok ==> a.State() == Write(old(a.State()), Half(op)).value
  {
    var c;
    ok, c := a.GetCurToWriteBytes(2);
    if c.Some? {
      a.code[c.value] := op % 256;
      a.code[c.value + 1] := op / 256 % 256;
      assert a.code[..] == Splice(old(a.code[..]), c.value, Half(op));
    }
  }

  method Op32(a: Assembler, op1: nat, op2: nat) returns (ok: bool)
    modifies a`codeOffset, a.code
    ensures ok <==> Write(old(a.State()), Halves(op1, op2)).Some?
    ensures ok ==> a.State() == Write(old(a.State()), Halves(op1, op2)).value
  {
    var c;
    ok, c := a.GetCurToWriteBytes(4);
    if c.Some? {
      a.code[c.value] := op1 % 256;
      a.code[c.value + 1] := op1 / 256 % 256;
      a.code[c.value + 2] := op2 % 256;
      a.code[c.value + 3] := op2 / 256 % 256;
      assert a.code[..] == Splice(old(a.code[..]), c.value, Halves(op1, op2));
    }
  }

  /** Emitting i from this state: what pass and label table give. */
  method MovRegI16(a: Assembler, top: bool, reg: nat, i16: int) returns (ok: bool)
    modifies a`codeOffset, a.code
    ensures ok <==> reg < 15 && Write(old(a.State()), MovI16Bytes(top, reg, i16)).Some?
    ensures ok ==> a.State() == Write(old(a.State()), MovI16Bytes(top, reg, i16)).value
  {
    if reg >= 15 { return false; }
    ok := Op32(a, MovHi(top, i16), MovLo(reg, i16));
  }

  method MovRegI32(a: Assembler, reg: nat, i32: int) returns (ok: bool)
    modifies a`codeOffset, a.code
    ensures ok <==> reg < 15 && Write(old(a.State()), MovI32Bytes(reg, i32)).Some?
    ensures ok ==> a.State() == Write(old(a.State()), MovI32Bytes(reg, i32)).value
  {
    hide Write, MovI16Bytes;
    WriteConcat(a.State(), MovI16Bytes(false, reg, i32), MovI16Bytes(true, reg, i32 / 0x10000));
    ok := MovRegI16(a, false, reg, i32);
    if ok { ok := MovRegI16(a, true, reg, i32 / 0x10000); }
  }

  method MovRegI32Optimised(a: Assembler, reg: nat, i32: int) returns (ok: bool)
    requires reg < 15
    modifies a`codeOffset, a.code
    ensures ok <==> Write(old(a.State()), MovI32OptimisedBytes(reg, i32)).Some?
    ensures ok ==> a.State() == Write(old(a.State()), MovI32OptimisedBytes(reg, i32)).value
  {
    if reg < 8 && UnsignedFit(i32, 0x100) {
      ok := Op16(a, 0x2000 + reg * 256 + i32 % 256);
    } else if UnsignedFit(i32, 0x10000) {
      ok := MovRegI16(a, false, reg, i32);
    } else {
      ok := MovRegI32(a, reg, i32);
    }
  }

  method MovRegI32Aligned(a: Assembler, reg: nat, i32: int) returns (ok: bool)
    requires reg < 15
    modifies a`codeOffset, a.code
    ensures ok <==> Write(old(a.State()), MovI32AlignedBytes(old(a.codeOffset), reg, i32)).Some?
    ensures ok ==> a.State() == Write(old(a.State()), MovI32AlignedBytes(old(a.codeOffset), reg, i32)).value
  {
    hide Write, Half, MovI32OptimisedBytes, LittleEndian, OpBN;
    ghost var st := a.State();
    ghost var nop := if a.codeOffset % 4 == 0 then Half(OP_NOP) else [];
    ghost var skip, word, load := Half(OpBN(2)), LittleEndian(i32, 4), MovI32OptimisedBytes(reg, i32);
    WriteConcat(st, nop + skip + word, load);
    WriteConcat(st, nop + skip, word);
    WriteConcat(st, nop, skip);
    WriteNothing(st);
    if a.codeOffset % 4 == 0 {
      ok := Op16(a, OP_NOP);
      if !ok { return; }
    }
    ok := Op16(a, OpBN(2));
    if !ok { return; }
    ok := a.Data(4, i32);
    if !ok { return; }
    ok := MovRegI32Optimised(a, reg, i32);
  }

  /** The distance a branch computes; not ok is a label number out of range. */
  method LabelDistance(a: Assembler, l: nat) returns (ok: bool, dest: int, rel: int)
    ensures ok <==> l < |a.State().labels|
    ensures ok ==> dest == a.State().labels[l] && rel == Rel(a.codeOffset, dest)
  {
    if l >= a.labelOffsets.Length { return false, 0, 0; }
    dest := a.labelOffsets[l];
    rel := Signed32(dest - a.codeOffset);
    rel := rel - 4;
    ok := true;
  }

  method BLabel(a: Assembler, l: nat) returns (ok: bool)
    modifies a`codeOffset, a.code
    ensures ok <==> Step(Encode, old(a.State()), Ins(B(l))).Some?
    ensures ok ==> a.State() == Step(Encode, old(a.State()), Ins(B(l))).value
  {
    hide Write, Rel, SignedFit, Half, Halves, OpBN, OpBwHi, OpBwLo;
    var dest, rel;
    ok, dest, rel := LabelDistance(a, l);
    if !ok { return; }
    if dest != NO_OFFSET && rel <= -4 && SignedFit(rel, 0x800) {
      ok := Op16(a, OpBN(rel));
    } else {
      ok := Op32(a, OpBwHi(rel), OpBwLo(rel));
    }
  }

  method BccLabel(a: Assembler, cond: Cond, l: nat) returns (ok: bool)
    modifies a`codeOffset, a.code
    ensures ok <==> Step(Encode, old(a.State()), Ins(Bcc(cond, l))).Some?
    ensures ok ==> a.State() == Step(Encode, old(a.State()), Ins(Bcc(cond, l))).value
  {
    hide Write, Rel, SignedFit, Half, Halves, OpBccN, OpBccWHi, OpBccWLo;
    var dest, rel;
    ok, dest, rel := LabelDistance(a, l);
    if !ok { return; }
    if dest != NO_OFFSET && rel <= -4 && SignedFit(rel, 0x100) {
      ok := Op16(a, OpBccN(cond, rel));
    } else {
      ok := Op32(a, OpBccWHi(cond, rel), OpBccWLo(rel));
    }
  }

  /** fits is what the caller learns: in pass EMIT, that the label is in reach. */
  method BNLabel(a: Assembler, l: nat) returns (ok: bool, fits: bool)
    requires a.codeOffset <= LIMIT
    modifies a`codeOffset, a.code
    ensures ok <==> Step(Encode, old(a.State()), Ins(BN(l))).Some?
    ensures ok ==> a.State() == Step(Encode, old(a.State()), Ins(BN(l))).value
    ensures ok && a.pass == Emit && 0 <= a.labelOffsets[l] <= LIMIT ==>
              (fits <==> InReach(BN(l), a.labelOffsets[l] - old(a.codeOffset) - 4))
    ensures ok && a.pass == Compute ==> fits
  {
    hide Write, Half, OpBN;
    var dest, rel;
    ok, dest, rel := LabelDistance(a, l);
    if !ok { return false, false; }
    ok := Op16(a, OpBN(rel));
    fits := a.pass != Emit || SignedFit(rel, 0x800);
  }

  method BccNWLabel(a: Assembler, cond: Cond, l: nat, wide: bool) returns (ok: bool, fits: bool)
    requires a.codeOffset <= LIMIT
    modifies a`codeOffset, a.code
    ensures ok <==> Step(Encode, old(a.State()), Ins(BccNW(cond, l, wide))).Some?
    ensures ok ==> a.State() == Step(Encode, old(a.State()), Ins(BccNW(cond, l, wide))).value
    ensures ok && !wide && a.pass == Emit && 0 <= a.labelOffsets[l] <= LIMIT ==>
              (fits <==> InReach(BccNW(cond, l, wide), a.labelOffsets[l] - old(a.codeOffset) - 4))
    ensures ok && (wide || a.pass == Compute) ==> fits
  {
    hide Write, Half, Halves, OpBccN, OpBccWHi, OpBccWLo;
    var dest, rel;
    ok, dest, rel := LabelDistance(a, l);
    if !ok { return false, false; }
    if !wide {
      ok := Op16(a, OpBccN(cond, rel));
      fits := a.pass != Emit || SignedFit(rel, 0x100);
    } else {
      ok := Op32(a, OpBccWHi(cond, rel), OpBccWLo(rel));
      fits := true;
    }
  }

  method BlLabel(a: Assembler, l: nat) returns (ok: bool, fits: bool)
    requires a.codeOffset <= LIMIT
    modifies a`codeOffset, a.code
    ensures ok <==> Step(Encode, old(a.State()), Ins(BL(l))).Some?
    ensures ok ==> a.State() == Step(Encode, old(a.State()), Ins(BL(l))).value
    ensures ok && a.pass == Emit && 0 <= a.labelOffsets[l] <= LIMIT ==>
              (fits <==> InReach(BL(l), a.labelOffsets[l] - old(a.codeOffset) - 4))
    ensures ok && a.pass == Compute ==> fits
  {
    hide Write, Halves, OpBwHi, OpBlLo;
    var dest, rel;
    ok, dest, rel := LabelDistance(a, l);
    if !ok { return false, false; }
    ok := Op32(a, OpBwHi(rel), OpBlLo(rel));
    fits := a.pass != Emit || SignedFit(rel, 0x400000);
  }

  method EmitInstr(a: Assembler, i: Instr) returns (ok: bool)
    requires a.codeOffset <= LIMIT
    modifies a`codeOffset, a.code
    ensures ok <==> Step(Encode, old(a.State()), Ins(i)).Some?
    ensures ok ==> a.State() == Step(Encode, old(a.State()), Ins(i)).value
  {
    hide Write, Half, Halves, LittleEndian, MovI16Bytes, MovI32Bytes, MovI32OptimisedBytes, MovI32AlignedBytes;
    hide BBytes, BccBytes, BccWBytes, OpBN, OpBccN, OpBccWHi, OpBccWLo, OpBwHi, OpBlLo, Rel, InReach;
    var fits;
    match i
    case Op16(op) => ok := Op16(a, op);
    case Op32(op1, op2) => ok := Op32(a, op1, op2);
    case Word(n, val) => ok := a.Data(n, val);
    case B(l) => ok := BLabel(a, l);
    case Bcc(c, l) => ok := BccLabel(a, c, l);
    case BN(l) => ok, fits := BNLabel(a, l);
    case BccNW(c, l, wide) => ok, fits := BccNWLabel(a, c, l, wide);
    case BL(l) => ok, fits := BlLabel(a, l);
    case MovI16(top, reg, i16) => ok := MovRegI16(a, top, reg, i16);
    case MovI32(reg, i32) => ok := MovRegI32(a, reg, i32);
    case MovI32Optimised(reg, i32) =>
      ok := reg < 15;
      if ok { ok := MovRegI32Optimised(a, reg, i32); }
    case MovI32Aligned(reg, i32) =>
      ok := reg < 15;
      if ok { ok := MovRegI32Aligned(a, reg, i32); }
  }

  method EmitItem(a: Assembler, item: Item<Instr>) returns (ok: bool)
    requires a.codeOffset <= LIMIT
    modifies a`codeOffset, a.code, a.labelOffsets
    ensures ok <==> Step(Encode, old(a.State()), item).Some?
    ensures ok ==> a.State() == Step(Encode, old(a.State()), item).value
  {
    hide Encode, Write, Assign, Aligned;
    match item
    case Label(l) => ok := a.LabelAssign(l);
    case Align(n) => AlignedIsAhead(a.codeOffset, n); a.AlignTo(n); ok := true;
    case Ins(i) => ok := EmitInstr(a, i);
  }

  /** One pass over the program, as far as the offset stays in range. */
  method EmitItems(a: Assembler, items: seq<Item<Instr>>) returns (ok: bool)
    requires a.codeOffset <= LIMIT
    requires forall k :: 0 <= k <= |items| && RunTo(Encode, items, k, a.State()).Some? ==>
               RunTo(Encode, items, k, a.State()).value.off <= LIMIT
    modifies a`codeOffset, a.code, a.labelOffsets
    ensures ok <==> RunTo(Encode, items, |items|, old(a.State())).Some?
    ensures ok ==> a.State() == RunTo(Encode, items, |items|, old(a.State())).value
  {
    hide Step, RunTo;
    ghost var st := a.State();
    RunNothing(Encode, items, st);
    for k := 0 to |items|
      invariant a.code == old(a.code) && a.labelOffsets == old(a.labelOffsets)
      invariant RunTo(Encode, items, k, st) == Some(a.State())
    {
      assert RunTo(Encode, items, k, st).value.off <= LIMIT;
      RunStep(Encode, items, k, st);
      ok := EmitItem(a, items[k]);
      if !ok {
        StopsForGood(Encode, items, k + 1, |items|, st);
        return false;
      }
    }
    ok := true;
  }

  /** Both passes: no assertion fails, and the code is the one BranchLands speaks of. */
  method Assemble(a: Assembler, items: seq<Item<Instr>>) returns (ok: bool, ghost buffer: seq<Byte>)
    requires ValidProgram(items, a.labelOffsets.Length) && TotalSize(Encode, items, a.labelOffsets.Length) <= LIMIT
    requires a.code.Length == 0
    modifies a, a.code, a.labelOffsets
    ensures ok
    ensures a.labelOffsets == old(a.labelOffsets)
    ensures |buffer| == TotalSize(Encode, items, a.labelOffsets.Length)
    ensures a.code[..] == FinalCode(Encode, items, a.labelOffsets.Length, buffer)
    ensures a.codeOffset == a.code.Length
  {
    hide RunTo, StartCompute, ValidProgram;
    var n := a.labelOffsets.Length;
    a.StartPass(Compute);
    StartedEmpty(a, n);
    OffsetsInRange(items, n);
    ok := EmitItems(a, items);
    a.StartPass(Emit);
    buffer := a.code[..];
    ghost var all := RunTo(Encode, items, |items|, StartCompute(n)).value;
    forall k | 0 <= k <= |items|
      ensures RunTo(Encode, items, k, StartEmit(all, buffer)).Some?
      ensures RunTo(Encode, items, k, StartEmit(all, buffer)).value.off <= LIMIT
    {
      ThumbTwoPass(items, n, k, buffer);
    }
    ok := EmitItems(a, items);
    ThumbTwoPass(items, n, |items|, buffer);
  }

  lemma OffsetsInRange(items: seq<Item<Instr>>, n: nat)
    requires ValidProgram(items, n) && TotalSize(Encode, items, n) <= LIMIT
    ensures forall k :: 0 <= k <= |items| ==>
              RunTo(Encode, items, k, StartCompute(n)).Some? &&
              RunTo(Encode, items, k, StartCompute(n)).value.off <= LIMIT
  {
    hide RunTo, StartCompute;
    ProgramIsEncodable(items, n);
    forall k | 0 <= k <= |items|
      ensures RunTo(Encode, items, k, StartCompute(n)).Some? &&
              RunTo(Encode, items, k, StartCompute(n)).value.off <= LIMIT
    {
      OffsetsBelowTotal(Encode, items, n, k);
    }
  }
}
