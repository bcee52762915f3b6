/** The Thumb assembler: branch sizes chosen in pass COMPUTE, encodings, and what
    the processor makes of them (ARMv7-M Architecture Reference Manual, sections
    A7.7.12, A7.7.18 and A7.7.76). */
module AsmThumb {
  import opened Options
  import opened Arithmetic
  import opened AsmBase

  const WORD := 0x1_0000_0000
  const LIMIT := 0x7fff_ffff

  const OP_NOP := 0xbf00
  const OP_MOVW := 0xf240
  const OP_MOVT := 0xf2c0

  /** A condition code, EQ to LE. */
  type Cond = c: int | 0 <= c < 14

  datatype Instr =
    | Op16(op: nat)
    | Op32(op1: nat, op2: nat)
    | Word(bytesize: nat, val: int)
    | B(lab: nat)
    | Bcc(cond: Cond, lab: nat)
    | BN(lab: nat)
    | BccNW(cond: Cond, lab: nat, wide: bool)
    | BL(lab: nat)
    | MovI16(top: bool, reg: nat, i16: int)
    | MovI32(reg: nat, i32: int)
    | MovI32Optimised(reg: nat, i32: int)
    | MovI32Aligned(reg: nat, i32: int)

  // ---------- Encodings ----------

  function Half(op: nat): (bs: seq<Byte>)
    ensures |bs| == 2
  {
    [op % 256, op / 256 % 256]
  }

  function Halves(op1: nat, op2: nat): (bs: seq<Byte>)
    ensures |bs| == 4
  {
    Half(op1) + Half(op2)
  }

  /** x as a signed 32-bit machine integer. */
  function Signed32(x: int): int { (x + WORD / 2) % WORD - WORD / 2 }

  /** The distance to dest from the program counter, which is four bytes ahead. */
  function Rel(off: nat, dest: int): int { Signed32(dest - off) - 4 }

  /** All bits of x from the sign bit of the field upwards agree. */
  predicate SignedFit(x: int, half: nat) { x % WORD < half || x % WORD >= WORD - half }

  predicate UnsignedFit(x: int, bound: nat) { x % WORD < bound }

  function OpBN(rel: int): nat { 0xe000 + rel / 2 % 2048 }

  function OpBccN(cond: Cond, rel: int): nat { 0xd000 + cond * 256 + rel / 2 % 256 }

  function OpBccWHi(cond: Cond, rel: int): nat { 0xf000 + cond * 64 + rel / 0x100000 % 2 * 0x400 + rel / 0x4000 % 64 }

  function OpBccWLo(rel: int): nat { 0x8000 + rel / 0x2000 % 2 * 0x2000 + rel / 2 % 0x1000 }

  function OpBwHi(rel: int): nat { 0xf000 + rel / 0x1000 % 2048 }

  function OpBwLo(rel: int): nat { 0xb800 + rel / 2 % 2048 }

  function OpBlLo(rel: int): nat { 0xf800 + rel / 2 % 2048 }

  function MovHi(top: bool, i16: int): nat {
    (if top then OP_MOVT else OP_MOVW) + i16 / 0x800 % 2 * 0x400 + i16 / 0x1000 % 16
  }

  function MovLo(reg: nat, i16: int): nat { i16 / 0x100 % 8 * 0x1000 + reg * 0x100 + i16 % 256 }

  function MovI16Bytes(top: bool, reg: nat, i16: int): (bs: seq<Byte>)
    ensures |bs| == 4
  {
    Halves(MovHi(top, i16), MovLo(reg, i16))
  }

  function MovI32Bytes(reg: nat, i32: int): (bs: seq<Byte>)
    ensures |bs| == 8
  {
    MovI16Bytes(false, reg, i32) + MovI16Bytes(true, reg, i32 / 0x10000)
  }

  function MovI32OptimisedBytes(reg: nat, i32: int): seq<Byte> {
    if reg < 8 && UnsignedFit(i32, 0x100) then Half(0x2000 + reg * 256 + i32 % 256)
    else if UnsignedFit(i32, 0x10000) then MovI16Bytes(false, reg, i32)
    else MovI32Bytes(reg, i32)
  }

  function MovI32AlignedBytes(off: nat, reg: nat, i32: int): seq<Byte> {
    (if off % 4 == 0 then Half(OP_NOP) else []) + Half(OpBN(2)) + LittleEndian(i32, 4) + MovI32OptimisedBytes(reg, i32)
  }

  /** A backward branch is narrow when it fits; anything else is assumed large. */
  predicate Narrow(off: nat, dest: int, half: nat) {
    dest != NO_OFFSET && Rel(off, dest) <= -4 && SignedFit(Rel(off, dest), half)
  }

  function BBytes(off: nat, dest: int): seq<Byte> {
    if Narrow(off, dest, 0x800) then Half(OpBN(Rel(off, dest)))
    else Halves(OpBwHi(Rel(off, dest)), OpBwLo(Rel(off, dest)))
  }

  function BccWBytes(cond: Cond, rel: int): seq<Byte> { Halves(OpBccWHi(cond, rel), OpBccWLo(rel)) }

  function BccBytes(cond: Cond, off: nat, dest: int): seq<Byte> {
    if Narrow(off, dest, 0x100) then Half(OpBccN(cond, Rel(off, dest))) else BccWBytes(cond, Rel(off, dest))
  }

  /** None is a failed assertion on the label number or the register. */
  function Encode(i: Instr, off: nat, labels: seq<int>): Option<seq<Byte>> {
    match i
    case Op16(op) => Some(Half(op))
    case Op32(op1, op2) => Some(Halves(op1, op2))
    case Word(n, val) => Some(LittleEndian(val, n))
    case B(l) => if l < |labels| then Some(BBytes(off, labels[l])) else None
    case Bcc(c, l) => if l < |labels| then Some(BccBytes(c, off, labels[l])) else None
    case BN(l) => if l < |labels| then Some(Half(OpBN(Rel(off, labels[l])))) else None
    case BccNW(c, l, wide) =>
      if l >= |labels| then None
      else if wide then Some(BccWBytes(c, Rel(off, labels[l])))
      else Some(Half(OpBccN(c, Rel(off, labels[l]))))
    case BL(l) => if l < |labels| then Some(Halves(OpBwHi(Rel(off, labels[l])), OpBlLo(Rel(off, labels[l])))) else None
    case MovI16(top, reg, i16) => if reg < 15 then Some(MovI16Bytes(top, reg, i16)) else None
    case MovI32(reg, i32) => if reg < 15 then Some(MovI32Bytes(reg, i32)) else None
    case MovI32Optimised(reg, i32) => if reg < 15 then Some(MovI32OptimisedBytes(reg, i32)) else None
    case MovI32Aligned(reg, i32) => if reg < 15 then Some(MovI32AlignedBytes(off, reg, i32)) else None
  }

  // ---------- Two passes choose the same sizes ----------

  /** A label found later than the branch never makes it narrow. */
  lemma ForwardIsWide(off: nat, dest: int, half: nat)
    requires half <= 0x800 && off + 4 <= dest <= LIMIT
    ensures !Narrow(off, dest, half)
  {
  }

  lemma EncodeIsStableAt(i: Instr, off: nat, now: seq<int>, later: seq<int>)
    ensures StableAt(Encode, LIMIT, i, off, now, later)
  {
    if i.B? && i.lab < |now| && i.lab < |later| && off + 4 <= later[i.lab] <= LIMIT {
      ForwardIsWide(off, later[i.lab], 0x800);
    }
    if i.Bcc? && i.lab < |now| && i.lab < |later| && off + 4 <= later[i.lab] <= LIMIT {
      ForwardIsWide(off, later[i.lab], 0x100);
    }
  }

  lemma EncodeIsStable()
    ensures Stable(Encode, LIMIT)
  {
    forall i: Instr, off: nat, now: seq<int>, later: seq<int> ensures StableAt(Encode, LIMIT, i, off, now, later) {
      EncodeIsStableAt(i, off, now, later);
    }
  }

  lemma NarrowMeans(off: nat, dest: int, half: nat)
    requires off <= LIMIT && 0 <= dest <= LIMIT && half <= 0x800
    ensures Narrow(off, dest, half) <==> dest <= off && off + 4 - dest <= half
  {
    assert Signed32(dest - off) == dest - off;
    if dest <= off { ModUnique(dest - off - 4, WORD, -1, WORD + (dest - off - 4)); }
  }

  /** A branch is two bytes long exactly if its label is known, not ahead, and in the reach of
      the narrow form. */
  lemma ShortestBranches(off: nat, dest: int, cond: Cond)
    requires off <= LIMIT && -1 <= dest <= LIMIT
    ensures |BBytes(off, dest)| == if 0 <= dest <= off && off + 4 - dest <= 0x800 then 2 else 4
    ensures |BccBytes(cond, off, dest)| == if 0 <= dest <= off && off + 4 - dest <= 0x100 then 2 else 4
  {
    hide Rel, SignedFit, OpBN, OpBwHi, OpBwLo, OpBccN, OpBccWHi, OpBccWLo, Half;
    if dest >= 0 {
      hide Narrow;
      NarrowMeans(off, dest, 0x800);
      NarrowMeans(off, dest, 0x100);
    }
  }

  /** A constant load is as short as its register and value allow. */
  lemma ShortestLoads(reg: nat, i32: nat)
    requires i32 < WORD
    ensures |MovI32OptimisedBytes(reg, i32)| == if reg < 8 && i32 < 0x100 then 2 else if i32 < 0x10000 then 4 else 8
  {
    hide MovI16Bytes, MovI32Bytes, Half;
  }

  predicate UsesLabel(i: Instr, n: nat) {
    match i
    case B(l) => l < n
    case Bcc(_, l) => l < n
    case BN(l) => l < n
    case BccNW(_, l, _) => l < n
    case BL(l) => l < n
    case MovI16(_, reg, _) => reg < 15
    case MovI32(reg, _) => reg < 15
    case MovI32Optimised(reg, _) => reg < 15
    case MovI32Aligned(reg, _) => reg < 15
    case _ => true
  }

  /** Labels are assigned once, and every label and register named exists. */
  ghost predicate ValidProgram(items: seq<Item<Instr>>, n: nat) {
    && LabelsOnce(items, n)
    && (forall k :: 0 <= k < |items| && items[k].Ins? ==> UsesLabel(items[k].op, n))
  }

  lemma ProgramIsEncodable(items: seq<Item<Instr>>, n: nat)
    requires ValidProgram(items, n)
    ensures Encodable(Encode, items, n)
  {
  }

  /** No assertion fails in either pass, and every item stands at the same offset in both. */
  lemma ThumbTwoPass(items: seq<Item<Instr>>, n: nat, k: nat, buffer: seq<Byte>)
    requires ValidProgram(items, n) && k <= |items|
    ensures RunTo(Encode, items, |items|, StartCompute(n)).Some?
    ensures RunTo(Encode, items, |items|, StartCompute(n)).value.off <= LIMIT
            && RunTo(Encode, items, |items|, StartCompute(n)).value.off <= |buffer| ==>
              Retraces(Encode, items, n, k, buffer)
  {
    ProgramIsEncodable(items, n);
    EncodeIsStable();
    ComputeRuns(Encode, items, |items|, n);
    if RunTo(Encode, items, |items|, StartCompute(n)).value.off <= LIMIT
       && RunTo(Encode, items, |items|, StartCompute(n)).value.off <= |buffer|
    {
      EmitRetraces(Encode, items, n, k, buffer, LIMIT);
    }
  }

  // ---------- Decoding ----------

  datatype Jump = Jump(cond: Option<Cond>, link: bool, target: int)

  function HalfAt(code: seq<Byte>, i: nat): nat
    requires i + 2 <= |code|
  {
    var lo: int, hi: int := code[i], code[i + 1];
    lo + 256 * hi
  }

  function SignExtend(x: int, half: int): int { if x >= half then x - 2 * half else x }

  /** S:I1:I2:imm10:imm11:'0' with I1 = NOT(J1 EOR S), I2 = NOT(J2 EOR S). */
  function DispT4(h1: nat, h2: nat): int {
    var s := h1 / 0x400 % 2;
    var i1 := if h2 / 0x2000 % 2 == s then 1 else 0;
    var i2 := if h2 / 0x800 % 2 == s then 1 else 0;
    SignExtend(s * 0x1000000 + i1 * 0x800000 + i2 * 0x400000 + h1 % 1024 * 0x1000 + h2 % 2048 * 2, 0x1000000)
  }

  /** S:J2:J1:imm6:imm11:'0' */
  function DispT3(h1: nat, h2: nat): int {
    var s := h1 / 0x400 % 2;
    var j1 := h2 / 0x2000 % 2;
    var j2 := h2 / 0x800 % 2;
    SignExtend(s * 0x100000 + j2 * 0x80000 + j1 * 0x40000 + h1 % 64 * 0x1000 + h2 % 2048 * 2, 0x100000)
  }

  /** The branch the processor sees at off, if any. */
  function Decode(code: seq<Byte>, off: nat): Option<Jump> {
    if off + 2 > |code| then None
    else
      var h1 := HalfAt(code, off);
      if h1 / 2048 == 0x1c then Some(Jump(None, false, off + 4 + SignExtend(h1 % 2048 * 2, 0x800)))
      else if h1 / 4096 == 0xd && h1 / 256 % 16 < 14 then
        Some(Jump(Some(h1 / 256 % 16), false, off + 4 + SignExtend(h1 % 256 * 2, 0x100)))
      else if h1 / 2048 == 0x1e && off + 4 <= |code| then
        var h2 := HalfAt(code, off + 2);
        var kind := h2 / 0x4000 * 2 + h2 / 0x1000 % 2;
        if kind == 5 then Some(Jump(None, false, off + 4 + DispT4(h1, h2)))
        else if kind == 7 then Some(Jump(None, true, off + 4 + DispT4(h1, h2)))
        else if kind == 4 && h1 / 64 % 16 < 14 then
          Some(Jump(Some(h1 / 64 % 16), false, off + 4 + DispT3(h1, h2)))
        else None
      else None
  }

  lemma NarrowRoundTrip(rel: int)
    requires rel % 2 == 0
    ensures OpBN(rel) < 0x10000 && OpBN(rel) / 2048 == 0x1c
    ensures SignExtend(OpBN(rel) % 2048 * 2, 0x800) == rel <==> -0x800 <= rel < 0x800
  {
  }

  lemma NarrowCondRoundTrip(cond: Cond, rel: int)
    requires rel % 2 == 0
    ensures var h := OpBccN(cond, rel); h < 0x10000 && h / 4096 == 0xd && h / 256 % 16 == cond && h / 2048 != 0x1c
    ensures SignExtend(OpBccN(cond, rel) % 256 * 2, 0x100) == rel <==> -0x100 <= rel < 0x100
  {
    var low := rel / 2 % 256;
    var h := OpBccN(cond, rel);
    assert h == 0xd000 + cond * 256 + low;
    assert h / 256 == 0xd0 + cond && h % 256 == low;
    LowBits(rel);
  }

  lemma LowBits(rel: int)
    requires rel % 2 == 0
    ensures rel == rel / 512 * 512 + rel / 2 % 256 * 2
  {
  }

  // The fields of the two halfwords of a wide branch, as the processor extracts them.

  lemma WideHiFields(s: nat, imm: nat)
    requires s < 2 && imm < 1024
    ensures var h := 0xf000 + s * 0x400 + imm;
            h < 0x10000 && h / 2048 == 0x1e && h / 0x400 % 2 == s && h % 1024 == imm
  {
  }

  lemma CondHiFields(s: nat, cond: Cond, imm6: nat)
    requires s < 2 && imm6 < 64
    ensures var h := 0xf000 + cond * 64 + s * 0x400 + imm6;
            h < 0x10000 && h / 2048 == 0x1e && h / 0x400 % 2 == s && h / 64 % 16 == cond && h % 64 == imm6
  {
    WideHiFields(s, cond * 64 + imm6);
    var h := 0xf000 + cond * 64 + s * 0x400 + imm6;
    assert h / 64 == 960 + cond + 16 * s;
  }

  lemma LoFields(base: nat, j1: nat, j2: nat, imm11: nat)
    requires base in {0x8000, 0x9000, 0xd000} && j1 < 2 && j2 < 2 && imm11 < 2048
    ensures var h := base + j1 * 0x2000 + j2 * 0x800 + imm11;
            && h < 0x10000 && h / 0x4000 == base / 0x4000 && h / 0x1000 % 2 == base / 0x1000 % 2
            && h / 0x2000 % 2 == j1 && h / 0x800 % 2 == j2 && h % 2048 == imm11
  {
  }

  lemma WideRoundTrip(rel: int)
    requires rel % 2 == 0
    ensures OpBwHi(rel) < 0x10000 && OpBwHi(rel) / 2048 == 0x1e
    ensures OpBwLo(rel) < 0x10000 && OpBwLo(rel) / 0x4000 == 2 && OpBwLo(rel) / 0x1000 % 2 == 1
    ensures OpBlLo(rel) < 0x10000 && OpBlLo(rel) / 0x4000 == 3 && OpBlLo(rel) / 0x1000 % 2 == 1
    ensures DispT4(OpBwHi(rel), OpBwLo(rel)) == rel <==> -0x400000 <= rel < 0x400000
    ensures DispT4(OpBwHi(rel), OpBlLo(rel)) == rel <==> -0x400000 <= rel < 0x400000
  {
    hide DispT4, OpBwHi, OpBwLo, OpBlLo;
    var q, s, imm10, imm11 := WideFields(rel);
    WideHiFields(s, imm10);
    LoFields(0x9000, 1, 1, imm11);
    LoFields(0xd000, 1, 1, imm11);
    WideAgreement(OpBwHi(rel), OpBwLo(rel), rel, q, s, imm10, imm11);
    WideAgreement(OpBwHi(rel), OpBlLo(rel), rel, q, s, imm10, imm11);
  }

  lemma WideFields(rel: int) returns (q: int, s: nat, imm10: nat, imm11: nat)
    requires rel % 2 == 0
    ensures s < 2 && imm10 < 1024 && imm11 < 2048
    ensures rel == 0x800000 * q + 0x400000 * s + 0x1000 * imm10 + 2 * imm11
    ensures OpBwHi(rel) == 0xf000 + s * 0x400 + imm10
    ensures OpBwLo(rel) == 0xb800 + imm11 && OpBlLo(rel) == 0xf800 + imm11
  {
    imm11 := rel / 2 % 2048;
    var high := rel / 0x1000;
    assert rel == 0x1000 * high + 2 * imm11;
    imm10 := high % 1024;
    var r := high / 1024;
    s := r % 2;
    q := r / 2;
    assert high % 2048 == s * 1024 + imm10;
  }

  lemma WideAgreement(h1: nat, h2: nat, rel: int, q: int, s: nat, imm10: nat, imm11: nat)
    requires s < 2 && imm10 < 1024 && imm11 < 2048
    requires rel == 0x800000 * q + 0x400000 * s + 0x1000 * imm10 + 2 * imm11
    requires h1 / 0x400 % 2 == s && h1 % 1024 == imm10 && h2 / 0x2000 % 2 == 1 && h2 / 0x800 % 2 == 1 &&
             h2 % 2048 == imm11
    ensures DispT4(h1, h2) == rel <==> -0x400000 <= rel < 0x400000
  {
    var d := DispT4(h1, h2);
    assert d == SignExtend(s * 0x1c00000 + imm10 * 0x1000 + imm11 * 2, 0x1000000);
    assert d == 0x1000 * imm10 + 2 * imm11 - 0x400000 * s;
  }

  /** Where the wide conditional encoding means what the processor reads: the eight
      bits below the sign are all equal. Besides [-4096, 4095] this holds in two
      windows at the ends of the 21-bit range. */
  predicate BccWAgrees(rel: int) {
    || -0x1000 <= rel < 0x1000
    || 0xff000 <= rel < 0x100000
    || -0x100000 <= rel < -0xff000
  }

  /** The bits of rel, from the top. */
  lemma BccWFields(rel: int) returns (q: int, s: nat, a: nat, b: nat, c: nat, imm11: nat)
    requires rel % 2 == 0
    ensures s < 2 && a < 64 && b < 2 && c < 2 && imm11 < 2048
    ensures rel == 0x200000 * q + 0x100000 * s + 0x4000 * a + 0x2000 * b + 0x1000 * c + 2 * imm11
  {
    var r := rel / 2;
    imm11, r := r % 2048, r / 2048;
    c, r := r % 2, r / 2;
    b, r := r % 2, r / 2;
    a, r := r % 64, r / 64;
    s, q := r % 2, r / 2;
  }

  /** The two macros take rel apart along these bits. */
  lemma BccWMacros(cond: Cond, rel: int, q: int, s: nat, a: nat, b: nat, c: nat, imm11: nat)
    requires s < 2 && a < 64 && b < 2 && c < 2 && imm11 < 2048
    requires rel == 0x200000 * q + 0x100000 * s + 0x4000 * a + 0x2000 * b + 0x1000 * c + 2 * imm11
    ensures OpBccWHi(cond, rel) == 0xf000 + cond * 64 + s * 0x400 + a
    ensures OpBccWLo(rel) == 0x8000 + b * 0x2000 + c * 0x800 + imm11
  {
    var top := 2 * q + s;
    ModUnique(rel, 0x100000, top, 0x4000 * a + 0x2000 * b + 0x1000 * c + 2 * imm11);
    ModUnique(top, 2, q, s);
    ModUnique(rel, 0x4000, 64 * top + a, 0x2000 * b + 0x1000 * c + 2 * imm11);
    ModUnique(64 * top + a, 64, top, a);
    ModUnique(rel, 0x2000, 128 * top + 2 * a + b, 0x1000 * c + 2 * imm11);
    ModUnique(128 * top + 2 * a + b, 2, 64 * top + a, b);
    var half := 0x1000 * (128 * top + 2 * a + b) + (0x800 * c + imm11);
    ModUnique(rel, 2, half, 0);
    ModUnique(half, 0x1000, 128 * top + 2 * a + b, 0x800 * c + imm11);
  }

  lemma WideCondRoundTrip(cond: Cond, rel: int)
    requires rel % 2 == 0
    ensures var h := OpBccWHi(cond, rel); h < 0x10000 && h / 2048 == 0x1e && h / 64 % 16 == cond
    ensures var h := OpBccWLo(rel); h < 0x10000 && h / 0x4000 == 2 && h / 0x1000 % 2 == 0
    ensures DispT3(OpBccWHi(cond, rel), OpBccWLo(rel)) == rel <==> BccWAgrees(rel)
  {
    hide OpBccWHi, OpBccWLo, DispT3, BccWAgrees;
    var q, s, a, b, c, imm11 := BccWFields(rel);
    BccWMacros(cond, rel, q, s, a, b, c, imm11);
    CondHiFields(s, cond, a);
    LoFields(0x8000, b, c, imm11);
    CondAgreement(OpBccWHi(cond, rel), OpBccWLo(rel), rel, q, s, a, b, c, imm11);
  }

  /** The first displacement that goes astray: 4096 is read as 0x80000. */
  lemma WideCondGoesAstray(cond: Cond)
    ensures DispT3(OpBccWHi(cond, 4096), OpBccWLo(4096)) == 0x80000
  {
    BccWMacros(cond, 4096, 0, 0, 0, 0, 1, 0);
    CondHiFields(0, cond, 0);
    LoFields(0x8000, 0, 1, 0);
  }

  lemma CondAgreement(h1: nat, h2: nat, rel: int, q: int, s: nat, a: nat, b: nat, c: nat, imm11: nat)
    requires s < 2 && a < 64 && b < 2 && c < 2 && imm11 < 2048
    requires rel == 0x200000 * q + 0x100000 * s + 0x4000 * a + 0x2000 * b + 0x1000 * c + 2 * imm11
    requires h1 / 0x400 % 2 == s && h1 % 64 == a && h2 / 0x2000 % 2 == b && h2 / 0x800 % 2 == c && h2 % 2048 == imm11
    ensures DispT3(h1, h2) == rel <==> BccWAgrees(rel)
  {
    hide BccWAgrees;
    var d := DispT3(h1, h2);
    assert d == SignExtend(s * 0x100000 + c * 0x80000 + b * 0x40000 + a * 0x1000 + imm11 * 2, 0x100000);
    assert d == c * 0x80000 + b * 0x40000 + a * 0x1000 + imm11 * 2 - s * 0x100000;
    AgreesInWindows(rel, d, q, s, a, b, c, imm11);
  }

  lemma AgreesInWindows(rel: int, d: int, q: int, s: nat, a: nat, b: nat, c: nat, imm11: nat)
    requires s < 2 && a < 64 && b < 2 && c < 2 && imm11 < 2048
    requires rel == 0x200000 * q + 0x100000 * s + 0x4000 * a + 0x2000 * b + 0x1000 * c + 2 * imm11
    requires d == c * 0x80000 + b * 0x40000 + a * 0x1000 + imm11 * 2 - s * 0x100000
    ensures d == rel <==> BccWAgrees(rel)
  {
    assert d - rel == 0x7f000 * c + 0x3e000 * b - 0x3000 * a - 0x200000 * (q + s);
  }

  // ---------- Every branch lands on its label ----------

  predicate IsBranch(i: Instr) { i.B? || i.Bcc? || i.BN? || i.BccNW? || i.BL? }

  function CondOf(i: Instr): Option<Cond> {
    match i
    case Bcc(c, _) => Some(c)
    case BccNW(c, _, _) => Some(c)
    case _ => None
  }

  /** The displacements each branch can express. */
  predicate InReach(i: Instr, rel: int)
    requires IsBranch(i)
  {
    match i
    case B(_) => -0x400000 <= rel < 0x400000
    case BL(_) => -0x400000 <= rel < 0x400000
    case BN(_) => -0x800 <= rel < 0x800
    case Bcc(_, _) => BccWAgrees(rel)
    case BccNW(_, _, wide) => if wide then BccWAgrees(rel) else -0x100 <= rel < 0x100
  }

  lemma HalfHeld(code: seq<Byte>, off: nat, op: nat)
    requires op < 0x10000 && Holds(code, off, Half(op))
    ensures off + 2 <= |code| && HalfAt(code, off) == op
  {
    assert code[off] == Half(op)[0] && code[off + 1] == Half(op)[1];
  }

  lemma HalvesHeld(code: seq<Byte>, off: nat, op1: nat, op2: nat)
    requires op1 < 0x10000 && op2 < 0x10000 && Holds(code, off, Halves(op1, op2))
    ensures off + 4 <= |code| && HalfAt(code, off) == op1 && HalfAt(code, off + 2) == op2
  {
    var bs := code[off..off + 4];
    assert bs == Half(op1) + Half(op2);
    assert code[off..off + 2] == bs[..2] == Half(op1);
    assert code[off + 2..off + 4] == bs[2..] == Half(op2);
    HalfHeld(code, off, op1);
    HalfHeld(code, off + 2, op2);
  }

  lemma DecodedIsEven(code: seq<Byte>, off: nat)
    ensures Decode(code, off).Some? ==> (Decode(code, off).value.target - off) % 2 == 0
  {
    hide HalfAt, SignExtend, DispT3, DispT4;
    if off + 2 <= |code| {
      var h1 := HalfAt(code, off);
      NarrowIsEven(h1);
      if off + 4 <= |code| { WideIsEven(h1, HalfAt(code, off + 2)); }
    }
  }

  lemma ExtendsEven(x: int, y: int)
    ensures SignExtend(x * 2, 2 * y) % 2 == 0
  {
  }

  lemma NarrowIsEven(h: nat)
    ensures SignExtend(h % 2048 * 2, 0x800) % 2 == 0 && SignExtend(h % 256 * 2, 0x100) % 2 == 0
  {
    ExtendsEven(h % 2048, 0x400);
    ExtendsEven(h % 256, 0x80);
  }

  lemma WideIsEven(h1: nat, h2: nat)
    ensures DispT4(h1, h2) % 2 == 0 && DispT3(h1, h2) % 2 == 0
  {
    hide SignExtend;
    var s := h1 / 0x400 % 2;
    var i1, i2 := if h2 / 0x2000 % 2 == s then 1 else 0, if h2 / 0x800 % 2 == s then 1 else 0;
    ExtendsEven(s * 0x800000 + i1 * 0x400000 + i2 * 0x200000 + h1 % 1024 * 0x800 + h2 % 2048, 0x800000);
    var j1, j2 := h2 / 0x2000 % 2, h2 / 0x800 % 2;
    ExtendsEven(s * 0x80000 + j2 * 0x40000 + j1 * 0x20000 + h1 % 64 * 0x800 + h2 % 2048, 0x80000);
  }

  lemma DecodesNarrow(code: seq<Byte>, off: nat, rel: int)
    requires rel % 2 == 0 && Holds(code, off, Half(OpBN(rel)))
    ensures Decode(code, off) == Some(Jump(None, false, off + 4 + rel)) <==> -0x800 <= rel < 0x800
  {
    hide HalfAt, Holds, SignExtend, OpBN;
    NarrowRoundTrip(rel);
    HalfHeld(code, off, OpBN(rel));
  }

  lemma DecodesNarrowCond(code: seq<Byte>, off: nat, cond: Cond, rel: int)
    requires rel % 2 == 0 && Holds(code, off, Half(OpBccN(cond, rel)))
    ensures Decode(code, off) == Some(Jump(Some(cond), false, off + 4 + rel)) <==> -0x100 <= rel < 0x100
  {
    hide HalfAt, Holds, SignExtend, OpBccN;
    NarrowCondRoundTrip(cond, rel);
    HalfHeld(code, off, OpBccN(cond, rel));
  }

  lemma DecodesWide(code: seq<Byte>, off: nat, rel: int)
    requires rel % 2 == 0 && Holds(code, off, Halves(OpBwHi(rel), OpBwLo(rel)))
    ensures Decode(code, off) == Some(Jump(None, false, off + 4 + rel)) <==> -0x400000 <= rel < 0x400000
  {
    hide HalfAt, Holds, OpBwHi, OpBwLo, DispT4, DispT3;
    WideRoundTrip(rel);
    HalvesHeld(code, off, OpBwHi(rel), OpBwLo(rel));
  }

  lemma DecodesLink(code: seq<Byte>, off: nat, rel: int)
    requires rel % 2 == 0 && Holds(code, off, Halves(OpBwHi(rel), OpBlLo(rel)))
    ensures Decode(code, off) == Some(Jump(None, true, off + 4 + rel)) <==> -0x400000 <= rel < 0x400000
  {
    hide HalfAt, Holds, OpBwHi, OpBlLo, DispT4, DispT3;
    WideRoundTrip(rel);
    HalvesHeld(code, off, OpBwHi(rel), OpBlLo(rel));
  }

  lemma DecodesWideCond(code: seq<Byte>, off: nat, cond: Cond, rel: int)
    requires rel % 2 == 0 && Holds(code, off, BccWBytes(cond, rel))
    ensures Decode(code, off) == Some(Jump(Some(cond), false, off + 4 + rel)) <==> BccWAgrees(rel)
  {
    hide HalfAt, Holds, OpBccWHi, OpBccWLo, DispT4, DispT3, BccWAgrees;
    WideCondRoundTrip(cond, rel);
    HalvesHeld(code, off, OpBccWHi(cond, rel), OpBccWLo(rel));
  }

  function LabelOf(i: Instr): nat
    requires IsBranch(i)
  {
    i.lab
  }

  /** Wherever the bytes of a branch stand, the processor goes to the label exactly
      when the distance is even and in reach. */
  lemma BranchDecodes(i: Instr, off: nat, labels: seq<int>, code: seq<Byte>)
    requires IsBranch(i) && LabelOf(i) < |labels|
    requires off <= LIMIT && 0 <= labels[LabelOf(i)] <= LIMIT
    requires Holds(code, off, Encode(i, off, labels).value)
    ensures var dest := labels[LabelOf(i)];
            Decode(code, off) == Some(Jump(CondOf(i), i.BL?, dest)) <==>
              (dest - off) % 2 == 0 && InReach(i, dest - off - 4)
  {
    hide Holds, Decode, OpBN, OpBccN, OpBccWHi, OpBccWLo, OpBwHi, OpBwLo, OpBlLo, Half, Halves, BccWBytes;
    var dest := labels[LabelOf(i)];
    var rel := dest - off - 4;
    assert Rel(off, dest) == rel;
    DecodedIsEven(code, off);
    if rel % 2 == 0 {
      match i
      case B(_) => if Narrow(off, dest, 0x800) { DecodesNarrow(code, off, rel); } else { DecodesWide(code, off, rel); }
      case Bcc(c, _) =>
        if Narrow(off, dest, 0x100) {
          DecodesNarrowCond(code, off, c, rel);
        } else {
          DecodesWideCond(code, off, c, rel);
        }
      case BN(_) => DecodesNarrow(code, off, rel);
      case BccNW(c, _, wide) =>
        if wide { DecodesWideCond(code, off, c, rel); } else { DecodesNarrowCond(code, off, c, rel); }
      case BL(_) => DecodesLink(code, off, rel);
    }
  }

  /** In the assembled program the branch at item k, read as the processor reads it,
      goes to the offset where its label item j stands, exactly when that is an even
      distance in reach. */
  lemma BranchLands(items: seq<Item<Instr>>, n: nat, k: nat, j: nat, buffer: seq<Byte>)
    requires ValidProgram(items, n) && k < |items| && j < |items|
    requires items[k].Ins? && IsBranch(items[k].op)
    requires items[j] == Label(LabelOf(items[k].op))
    requires TotalSize(Encode, items, n) <= LIMIT && TotalSize(Encode, items, n) <= |buffer|
    ensures var i, off, dest := items[k].op, OffsetOf(Encode, items, n, k), OffsetOf(Encode, items, n, j);
            Decode(FinalCode(Encode, items, n, buffer), off) == Some(Jump(CondOf(i), i.BL?, dest)) <==>
              (dest - off) % 2 == 0 && InReach(i, dest - off - 4)
  {
    hide RunTo, StartCompute, Encodable, Stable, LabelsOnce, Encode, Decode, InReach, Holds;
    ProgramIsEncodable(items, n);
    EncodeIsStable();
    var off, labels, code := EmittedBytes(Encode, items, n, k, buffer, LIMIT);
    LabelStands(Encode, items, n, j);
    var bs := Encode(items[k].op, off, labels).value;
    HoldsIntro(code, off, bs);
    assert labels[items[j].l] == OffsetOf(Encode, items, n, j);
    BranchDecodes(items[k].op, off, labels, code);
  }

  lemma HoldsIntro(code: seq<Byte>, off: nat, bs: seq<Byte>)
    requires off + |bs| <= |code| && code[off..off + |bs|] == bs
    ensures Holds(code, off, bs)
  {
  }
}
