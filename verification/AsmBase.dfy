/** The two-pass scheme shared by the assemblers: pass COMPUTE finds sizes and
    label offsets, pass EMIT replays the same program and writes the bytes. */
module AsmBase {
  import opened Options
  import opened Arithmetic

  datatype Pass = Compute | Emit

  /** What label_offsets holds for a label not assigned yet: (size_t)-1. */
  const NO_OFFSET := -1

  datatype State = AsmState(pass: Pass, off: nat, labels: seq<int>, code: seq<Byte>)

  /** A program is a list of labels, alignments and instructions, replayed in each pass. */
  datatype Item<Op> = Label(l: nat) | Align(a: nat) | Ins(op: Op)

  // ---------- The primitive operations as functions; None is a failed assertion ----------

  function Splice(code: seq<Byte>, off: nat, bs: seq<Byte>): seq<Byte>
    requires off + |bs| <= |code|
  {
    code[..off] + bs + code[off + |bs|..]
  }

  function Write(st: State, bs: seq<Byte>): Option<State> {
    if st.pass == Compute then Some(st.(off := st.off + |bs|))
    else if st.off + |bs| <= |st.code| then Some(st.(off := st.off + |bs|, code := Splice(st.code, st.off, bs)))
    else None
  }

  /** One write after the other. */
  function WriteBoth(st: State, a: seq<Byte>, b: seq<Byte>): Option<State> {
    var mid := Write(st, a);
    if mid.Some? then Write(mid.value, b) else None
  }

  lemma SpliceConcat(code: seq<Byte>, off: nat, a: seq<Byte>, b: seq<Byte>)
    requires off + |a| + |b| <= |code|
    ensures Splice(code, off, a + b) == Splice(Splice(code, off, a), off + |a|, b)
  {
    var mid := Splice(code, off, a);
    assert mid[..off + |a|] == code[..off] + a;
    assert mid[off + |a| + |b|..] == code[off + |a + b|..];
  }

  lemma WriteConcat(st: State, a: seq<Byte>, b: seq<Byte>)
    ensures Write(st, a + b) == WriteBoth(st, a, b)
  {
    if st.pass == Emit && st.off + |a + b| <= |st.code| { SpliceConcat(st.code, st.off, a, b); }
  }

  lemma WriteNothing(st: State)
    ensures st.off <= |st.code| || st.pass == Compute ==> Write(st, []) == Some(st)
    ensures st.off > |st.code| && st.pass == Emit ==> Write(st, []) == None && forall bs :: Write(st, bs) == None
  {
    if st.off <= |st.code| { assert Splice(st.code, st.off, []) == st.code; }
  }

  lemma WriteMoves(st: State, bs: seq<Byte>)
    ensures Write(st, bs).Some? ==> Write(st, bs).value.off == st.off + |bs|
  {
  }

  function Assign(st: State, l: nat): Option<State> {
    if l >= |st.labels| then None
    else if st.pass == Compute then
      if st.labels[l] == NO_OFFSET then Some(st.(labels := st.labels[l := st.off])) else None
    else if st.labels[l] == st.off then Some(st)
    else None
  }

  /** Bitwise and of two naturals. */
  function BitAnd(x: nat, m: nat): nat
    decreases x
  {
    if x == 0 || m == 0 then 0 else (if x % 2 == 1 && m % 2 == 1 then 1 else 0) + 2 * BitAnd(x / 2, m / 2)
  }

  /** (off + a - 1) & ~(a - 1) */
  function Aligned(off: nat, a: nat): int {
    if a == 0 then off else off + a - 1 - BitAnd(off + a - 1, a - 1)
  }

  lemma {:induction false} BitAndIsSmall(x: nat, m: nat)
    ensures BitAnd(x, m) <= m && BitAnd(x, m) <= x
    decreases x
  {
    if x != 0 && m != 0 { BitAndIsSmall(x / 2, m / 2); }
  }

  /** Masking with 2^k - 1 is the remainder modulo 2^k. */
  lemma {:induction false} BitAndMask(x: nat, k: nat)
    ensures Pow2(k) > 0 && BitAnd(x, Pow2(k) - 1) == x % Pow2(k)
    decreases k
  {
    if k > 0 {
      BitAndMask(x / 2, k - 1);
      HalfMod(x, Pow2(k - 1));
      BitAndOdd(x, Pow2(k - 1) - 1);
    }
  }

  lemma BitAndOdd(x: nat, m: nat)
    ensures BitAnd(x, 2 * m + 1) == x % 2 + 2 * BitAnd(x / 2, m)
  {
    assert (2 * m + 1) / 2 == m && (2 * m + 1) % 2 == 1;
  }

  /** Alignment never moves backwards, and to a power of two it moves to the next multiple. */
  lemma AlignedIsAhead(off: nat, a: nat)
    ensures off <= Aligned(off, a)
    ensures a > 0 ==> Aligned(off, a) < off + a
  {
    if a > 0 { BitAndIsSmall(off + a - 1, a - 1); }
  }

  lemma AlignedIsMultiple(off: nat, k: nat)
    ensures Pow2(k) > 0 && Aligned(off, Pow2(k)) % Pow2(k) == 0
    ensures off <= Aligned(off, Pow2(k)) < off + Pow2(k)
  {
    hide Pow2, BitAnd;
    BitAndMask(off, k);
    BitAndMask(off + Pow2(k) - 1, k);
    AlignedIsAhead(off, Pow2(k));
    DroppingTheRemainder(off + Pow2(k) - 1, Pow2(k));
  }

  // ---------- Running a program ----------

  /** The bytes of an instruction, given where it stands and the label table. */
  type Encoder<!Op> = (Op, nat, seq<int>) -> Option<seq<Byte>>

  function Step<Op>(enc: Encoder<Op>, st: State, item: Item<Op>): Option<State> {
    match item
    case Label(l) => Assign(st, l)
    case Align(a) => AlignedIsAhead(st.off, a); Some(st.(off := Aligned(st.off, a)))
    case Ins(op) =>
      var bs := enc(op, st.off, st.labels);
      if bs.Some? then Write(st, bs.value) else None
  }

  /** The state after the first k items. */
  function RunTo<Op>(enc: Encoder<Op>, items: seq<Item<Op>>, k: nat, st: State): Option<State>
    requires k <= |items|
  {
    if k == 0 then Some(st)
    else
      var before := RunTo(enc, items, k - 1, st);
      if before.Some? then Step(enc, before.value, items[k - 1]) else None
  }

  function StartCompute(n: nat): State { AsmState(Compute, 0, seq(n, _ => NO_OFFSET), []) }

  /** Pass EMIT starts over with the labels found and a buffer of the size found. */
  function StartEmit(found: State, buffer: seq<Byte>): State
    requires |buffer| >= found.off
  {
    AsmState(Emit, 0, found.labels, buffer)
  }

  // ---------- Sizes are stable ----------

  /** later knows every label that now knows, and places the others at or after end. */
  ghost predicate Extends(now: seq<int>, later: seq<int>, end: nat, limit: nat) {
    && |now| == |later|
    && forall l :: 0 <= l < |now| ==>
         if now[l] != NO_OFFSET then later[l] == now[l] else later[l] == NO_OFFSET || end <= later[l] <= limit
  }

  /** The size an instruction gets while later labels are unknown is the size it
      has once they are known. */
  ghost predicate Stable<Op(!new)>(enc: Encoder<Op>, limit: nat) {
    forall op: Op, off: nat, now: seq<int>, later: seq<int> ::
      StableAt(enc, limit, op, off, now, later)
  }

  ghost predicate StableAt<Op>(enc: Encoder<Op>, limit: nat, op: Op, off: nat, now: seq<int>, later: seq<int>) {
    enc(op, off, now).Some? && off + |enc(op, off, now).value| <= limit
    && Extends(now, later, off + |enc(op, off, now).value|, limit)
    && (forall l :: 0 <= l < |now| && now[l] != NO_OFFSET ==> 0 <= now[l] <= off) ==>
      enc(op, off, later).Some? && |enc(op, off, later).value| == |enc(op, off, now).value|
  }

  /** Label items name labels in range, each at most once. */
  ghost predicate LabelsOnce<Op>(items: seq<Item<Op>>, n: nat) {
    && (forall i :: 0 <= i < |items| && items[i].Label? ==> items[i].l < n)
    && (forall i, j :: 0 <= i < j < |items| && items[i].Label? && items[j].Label? ==> items[i].l != items[j].l)
  }

  /** Every instruction can be encoded in pass COMPUTE: its label numbers are in range. */
  ghost predicate Encodable<Op(!new)>(enc: Encoder<Op>, items: seq<Item<Op>>, n: nat) {
    forall i, off: nat, labels: seq<int> ::
      0 <= i < |items| && items[i].Ins? && |labels| == n ==> enc(items[i].op, off, labels).Some?
  }

  lemma RunStep<Op>(enc: Encoder<Op>, items: seq<Item<Op>>, k: nat, st: State)
    requires k < |items|
    ensures RunTo(enc, items, k + 1, st) ==
            if RunTo(enc, items, k, st).Some? then Step(enc, RunTo(enc, items, k, st).value, items[k]) else None
  {
  }

  /** The invariant of pass COMPUTE after k items. */
  ghost predicate ComputeOk<Op>(items: seq<Item<Op>>, k: nat, n: nat, st: State)
    requires k <= |items|
  {
    && st.pass == Compute && |st.labels| == n
    && (forall l :: 0 <= l < n && st.labels[l] != NO_OFFSET ==>
          0 <= st.labels[l] <= st.off && Label(l) in items[..k])
  }

  lemma {:induction false} ComputeRuns<Op(!new)>(enc: Encoder<Op>, items: seq<Item<Op>>, k: nat, n: nat)
    requires k <= |items| && LabelsOnce(items, n) && Encodable(enc, items, n)
    ensures RunTo(enc, items, k, StartCompute(n)).Some?
    ensures ComputeOk(items, k, n, RunTo(enc, items, k, StartCompute(n)).value)
  {
    if k > 0 {
      ComputeRuns(enc, items, k - 1, n);
      ComputeStepOk(enc, items, k - 1, n, RunTo(enc, items, k - 1, StartCompute(n)).value);
    }
  }

  lemma ComputeStepOk<Op(!new)>(enc: Encoder<Op>, items: seq<Item<Op>>, k: nat, n: nat, st: State)
    requires k < |items| && LabelsOnce(items, n) && Encodable(enc, items, n) && ComputeOk(items, k, n, st)
    ensures Step(enc, st, items[k]).Some?
    ensures ComputeOk(items, k + 1, n, Step(enc, st, items[k]).value)
  {
    var item := items[k];
    assert items[..k + 1] == items[..k] + [item];
    match item
    case Label(l) => assert Label(l) !in items[..k];
    case Align(a) => AlignedIsAhead(st.off, a);
    case Ins(op) =>
  }

  lemma ComputeStepGrows<Op>(enc: Encoder<Op>, item: Item<Op>, st: State, n: nat)
    requires st.pass == Compute && |st.labels| == n && Step(enc, st, item).Some?
    ensures var st' := Step(enc, st, item).value;
            st.off <= st'.off && Extends(st.labels, st'.labels, st.off, st'.off)
  {
    if item.Align? { AlignedIsAhead(st.off, item.a); }
  }

  lemma ExtendsTransitive(a: seq<int>, b: seq<int>, c: seq<int>, end: nat, mid: nat, limit: nat)
    requires end <= mid <= limit && Extends(a, b, end, mid) && Extends(b, c, mid, limit)
    ensures Extends(a, c, end, limit)
  {
  }

  /** From j items to k items the labels known stay, and new ones lie at or after
      where item j stood. */
  lemma {:induction false} LabelsGrow<Op(!new)>(enc: Encoder<Op>, items: seq<Item<Op>>, j: nat, k: nat, n: nat)
    requires j <= k <= |items| && LabelsOnce(items, n) && Encodable(enc, items, n)
    ensures RunTo(enc, items, j, StartCompute(n)).Some? && RunTo(enc, items, k, StartCompute(n)).Some?
    ensures var a, b := RunTo(enc, items, j, StartCompute(n)).value, RunTo(enc, items, k, StartCompute(n)).value;
            a.off <= b.off && Extends(a.labels, b.labels, a.off, b.off)
    decreases k
  {
    hide RunTo, Step, Encodable, StartCompute;
    ComputeRuns(enc, items, j, n);
    ComputeRuns(enc, items, k, n);
    if j < k {
      LabelsGrow(enc, items, j, k - 1, n);
      ComputeRuns(enc, items, k - 1, n);
      RunStep(enc, items, k - 1, StartCompute(n));
      var a := RunTo(enc, items, j, StartCompute(n)).value;
      var m := RunTo(enc, items, k - 1, StartCompute(n)).value;
      var b := RunTo(enc, items, k, StartCompute(n)).value;
      ComputeStepGrows(enc, items[k - 1], m, n);
      ExtendsTransitive(a.labels, m.labels, b.labels, a.off, m.off, b.off);
    }
  }

  // ---------- Pass EMIT retraces pass COMPUTE ----------

  /** Pass EMIT at k items: same offset, all labels final, nothing past the buffer. */
  ghost predicate Retraces<Op>(enc: Encoder<Op>, items: seq<Item<Op>>, n: nat, k: nat, buffer: seq<Byte>)
    requires k <= |items|
  {
    var c := RunTo(enc, items, k, StartCompute(n));
    var all := RunTo(enc, items, |items|, StartCompute(n));
    && c.Some? && all.Some? && all.value.off <= |buffer|
    && var e := RunTo(enc, items, k, StartEmit(all.value, buffer));
       && e.Some?
       && e.value.pass == Emit
       && e.value.off == c.value.off
       && e.value.labels == all.value.labels
       && |e.value.code| == |buffer|
  }

  /** Two-pass stability: at every item the offset is the one pass COMPUTE found,
      so no assertion on a label or on the buffer can fail in pass EMIT. */
  lemma {:induction false} EmitRetraces<Op(!new)>(enc: Encoder<Op>, items: seq<Item<Op>>, n: nat, k: nat,
                                           buffer: seq<Byte>, limit: nat)
    requires k <= |items| && LabelsOnce(items, n) && Encodable(enc, items, n) && Stable(enc, limit)
    requires RunTo(enc, items, |items|, StartCompute(n)).Some? ==>
               RunTo(enc, items, |items|, StartCompute(n)).value.off <= |buffer| &&
               RunTo(enc, items, |items|, StartCompute(n)).value.off <= limit
    ensures Retraces(enc, items, n, k, buffer)
  {
    ComputeRuns(enc, items, |items|, n);
    if k > 0 {
      hide RunTo, Step, Encodable, StartCompute, Stable, LabelsOnce, Retraces;
      EmitRetraces(enc, items, n, k - 1, buffer, limit);
      EmitStep(enc, items, n, k - 1, buffer, limit);
    }
  }

  lemma EmitStep<Op(!new)>(enc: Encoder<Op>, items: seq<Item<Op>>, n: nat, k: nat, buffer: seq<Byte>, limit: nat)
    requires k < |items| && LabelsOnce(items, n) && Encodable(enc, items, n) && Stable(enc, limit)
    requires Retraces(enc, items, n, k, buffer)
    requires RunTo(enc, items, |items|, StartCompute(n)).value.off <= limit
    ensures Retraces(enc, items, n, k + 1, buffer)
  {
    hide RunTo, Step, Encodable, StartCompute, Stable, LabelsOnce;
    ComputeRuns(enc, items, k, n);
    ComputeRuns(enc, items, k + 1, n);
    LabelsGrow(enc, items, k + 1, |items|, n);
    var all := RunTo(enc, items, |items|, StartCompute(n)).value;
    RunStep(enc, items, k, StartCompute(n));
    RunStep(enc, items, k, StartEmit(all, buffer));
    var c, c' := RunTo(enc, items, k, StartCompute(n)).value, RunTo(enc, items, k + 1, StartCompute(n)).value;
    var e := RunTo(enc, items, k, StartEmit(all, buffer)).value;
    StepRetraces(enc, items[k], c, c', e, all.off, limit);
  }

  /** One item: if the emitting pass stands where the computing pass stood, it
      ends where that one ended. */
  lemma StepRetraces<Op(!new)>(enc: Encoder<Op>, item: Item<Op>, c: State, c': State, e: State, end: nat, limit: nat)
    requires Stable(enc, limit) && c.pass == Compute && e.pass == Emit && e.off == c.off
    requires Step(enc, c, item) == Some(c') && end <= limit && end <= |e.code|
    requires c'.off <= end && Extends(c'.labels, e.labels, c'.off, end)
    requires forall l :: 0 <= l < |c.labels| && c.labels[l] != NO_OFFSET ==> 0 <= c.labels[l] <= c.off
    ensures Step(enc, e, item).Some?
    ensures var e' := Step(enc, e, item).value;
            e'.pass == Emit && e'.off == c'.off && e'.labels == e.labels && |e'.code| == |e.code|
  {
    match item
    case Label(l) => assert c'.labels[l] == c.off;
    case Align(a) => AlignedIsAhead(c.off, a);
    case Ins(op) =>
      assert StableAt(enc, limit, op, c.off, c.labels, e.labels);
  }

  /** Later items leave earlier bytes alone. */
  lemma {:induction false} CodeIsKept<Op>(enc: Encoder<Op>, items: seq<Item<Op>>, j: nat, k: nat, st: State)
    requires j <= k <= |items| && RunTo(enc, items, k, st).Some? && st.pass == Emit
    ensures RunTo(enc, items, j, st).Some?
    ensures KeepsCode(RunTo(enc, items, j, st).value, RunTo(enc, items, k, st).value)
    decreases k
  {
    if j < k {
      CodeIsKept(enc, items, j, k - 1, st);
      StepKeepsCode(enc, items[k - 1], RunTo(enc, items, k - 1, st).value);
    } else {
      EmitKeepsShape(enc, items, k, st);
    }
  }

  ghost predicate KeepsCode(a: State, b: State) {
    && a.pass == b.pass == Emit && |a.code| == |b.code| && a.off <= b.off && a.labels == b.labels
    && (forall i :: 0 <= i < a.off && i < |a.code| ==> b.code[i] == a.code[i])
  }

  lemma StepKeepsCode<Op>(enc: Encoder<Op>, item: Item<Op>, st: State)
    requires st.pass == Emit && Step(enc, st, item).Some?
    ensures KeepsCode(st, Step(enc, st, item).value)
  {
    if item.Align? { AlignedIsAhead(st.off, item.a); }
  }

  lemma {:induction false} EmitKeepsShape<Op>(enc: Encoder<Op>, items: seq<Item<Op>>, k: nat, st: State)
    requires k <= |items| && RunTo(enc, items, k, st).Some? && st.pass == Emit
    ensures RunTo(enc, items, k, st).value.pass == Emit
  {
    if k > 0 { EmitKeepsShape(enc, items, k - 1, st); }
  }

  /** In the finished code the bytes of item k stand where pass COMPUTE placed it,
      encoded with every label known. */
  lemma EmittedBytes<Op(!new)>(enc: Encoder<Op>, items: seq<Item<Op>>, n: nat, k: nat, buffer: seq<Byte>, limit: nat)
      returns (off: nat, labels: seq<int>, code: seq<Byte>)
    requires k < |items| && items[k].Ins? && LabelsOnce(items, n) && Encodable(enc, items, n) && Stable(enc, limit)
    requires RunTo(enc, items, |items|, StartCompute(n)).Some? ==>
               RunTo(enc, items, |items|, StartCompute(n)).value.off <= |buffer| &&
               RunTo(enc, items, |items|, StartCompute(n)).value.off <= limit
    ensures RunTo(enc, items, k, StartCompute(n)).Some? && RunTo(enc, items, |items|, StartCompute(n)).Some?
    ensures off == RunTo(enc, items, k, StartCompute(n)).value.off
    ensures labels == RunTo(enc, items, |items|, StartCompute(n)).value.labels && |labels| == n
    ensures RunTo(enc, items, |items|, StartEmit(RunTo(enc, items, |items|, StartCompute(n)).value, buffer)).Some?
    ensures code ==
            RunTo(enc, items, |items|, StartEmit(RunTo(enc, items, |items|, StartCompute(n)).value, buffer)).value.code
    ensures enc(items[k].op, off, labels).Some?
    ensures off + |enc(items[k].op, off, labels).value| <= |code|
    ensures code[off..off + |enc(items[k].op, off, labels).value|] == enc(items[k].op, off, labels).value
    ensures forall l :: 0 <= l < n && labels[l] != NO_OFFSET ==> 0 <= labels[l] <= limit
    ensures off + |enc(items[k].op, off, labels).value| <= limit
  {
    hide RunTo, Step, Encodable, StartCompute, Stable, LabelsOnce, Splice;
    ComputeRuns(enc, items, |items|, n);
    EmitRetraces(enc, items, n, k, buffer, limit);
    EmitRetraces(enc, items, n, k + 1, buffer, limit);
    EmitRetraces(enc, items, n, |items|, buffer, limit);
    var all := RunTo(enc, items, |items|, StartCompute(n)).value;
    var st := StartEmit(all, buffer);
    off := RunTo(enc, items, k, StartCompute(n)).value.off;
    labels := all.labels;
    code := RunTo(enc, items, |items|, st).value.code;
    LabelsGrow(enc, items, k + 1, |items|, n);
    CodeIsKept(enc, items, k + 1, |items|, st);
    RunStep(enc, items, k, st);
    var e, e' := RunTo(enc, items, k, st).value, RunTo(enc, items, k + 1, st).value;
    InsWrites(enc, items[k].op, e, e');
    var bs := enc(items[k].op, off, labels).value;
    assert code[off..off + |bs|] == e'.code[off..off + |bs|];
  }

  lemma InsWrites<Op>(enc: Encoder<Op>, op: Op, e: State, e': State)
    requires e.pass == Emit && Step(enc, e, Ins(op)) == Some(e')
    ensures enc(op, e.off, e.labels).Some?
    ensures var bs := enc(op, e.off, e.labels).value;
            e'.off == e.off + |bs| <= |e'.code| && e'.code[e.off..e'.off] == bs
  {
    var bs := enc(op, e.off, e.labels).value;
    assert e'.code == Splice(e.code, e.off, bs);
  }

  /** A label ends up at the offset where its item stood. */
  lemma LabelStands<Op(!new)>(enc: Encoder<Op>, items: seq<Item<Op>>, n: nat, j: nat)
    requires j < |items| && items[j].Label? && LabelsOnce(items, n) && Encodable(enc, items, n)
    ensures RunTo(enc, items, j, StartCompute(n)).Some? && RunTo(enc, items, |items|, StartCompute(n)).Some?
    ensures var all := RunTo(enc, items, |items|, StartCompute(n)).value;
            |all.labels| == n && all.labels[items[j].l] == RunTo(enc, items, j, StartCompute(n)).value.off
  {
    hide RunTo, Encodable, StartCompute;
    ComputeRuns(enc, items, |items|, n);
    ComputeRuns(enc, items, j, n);
    ComputeRuns(enc, items, j + 1, n);
    LabelsGrow(enc, items, j + 1, |items|, n);
    RunStep(enc, items, j, StartCompute(n));
  }

  /** Where pass COMPUTE has item k; 0 if it fails before. */
  ghost function OffsetOf<Op(!new)>(enc: Encoder<Op>, items: seq<Item<Op>>, n: nat, k: nat): nat
    requires k <= |items|
  {
    var c := RunTo(enc, items, k, StartCompute(n));
    if c.Some? then c.value.off else 0
  }

  ghost function TotalSize<Op(!new)>(enc: Encoder<Op>, items: seq<Item<Op>>, n: nat): nat {
    OffsetOf(enc, items, n, |items|)
  }

  /** The code after both passes; empty if one fails or the buffer is short. */
  ghost function FinalCode<Op(!new)>(enc: Encoder<Op>, items: seq<Item<Op>>, n: nat, buffer: seq<Byte>): seq<Byte> {
    var all := RunTo(enc, items, |items|, StartCompute(n));
    var end :=
      if all.Some? && all.value.off <= |buffer| then RunTo(enc, items, |items|, StartEmit(all.value, buffer)) else None;
    if end.Some? then end.value.code else []
  }

  // ---------- Reading and running the finished code ----------

  /** The bytes bs stand in the code at off. */
  ghost predicate Holds(code: seq<Byte>, off: nat, bs: seq<Byte>) {
    off + |bs| <= |code| && code[off..off + |bs|] == bs
  }

  lemma HoldsParts(code: seq<Byte>, off: nat, a: seq<Byte>, b: seq<Byte>)
    requires Holds(code, off, a + b)
    ensures Holds(code, off, a) && Holds(code, off + |a|, b)
  {
    var bs := code[off..off + |a + b|];
    assert code[off..off + |a|] == bs[..|a|];
    assert code[off + |a|..off + |a| + |b|] == bs[|a|..];
  }

  datatype Cpu = Cpu(pc: nat, regs: seq<int>)

  /** One instruction of a processor, if it knows the bytes at the program counter. */
  type Processor = (seq<Byte>, Cpu) -> Option<Cpu>

  function ExecuteMany(execute: Processor, code: seq<Byte>, cpu: Cpu, steps: nat): Option<Cpu>
    decreases steps
  {
    if steps == 0 then Some(cpu)
    else
      var next := execute(code, cpu);
      if next.Some? then ExecuteMany(execute, code, next.value, steps - 1) else None
  }

  lemma ExecuteFirst(execute: Processor, code: seq<Byte>, cpu: Cpu, next: Cpu, steps: nat)
    requires execute(code, cpu) == Some(next)
    ensures ExecuteMany(execute, code, cpu, steps + 1) == ExecuteMany(execute, code, next, steps)
    ensures ExecuteMany(execute, code, cpu, 1) == Some(next)
  {
    assert ExecuteMany(execute, code, next, 0) == Some(next);
  }

  // ---------- For loops over a program ----------

  lemma RunNothing<Op>(enc: Encoder<Op>, items: seq<Item<Op>>, st: State)
    ensures RunTo(enc, items, 0, st) == Some(st)
  {
  }

  lemma {:induction false} StopsForGood<Op>(enc: Encoder<Op>, items: seq<Item<Op>>, j: nat, k: nat, st: State)
    requires j <= k <= |items| && RunTo(enc, items, j, st).None?
    ensures RunTo(enc, items, k, st).None?
    decreases k
  {
    if j < k {
      StopsForGood(enc, items, j, k - 1, st);
      RunStep(enc, items, k - 1, st);
    }
  }

  lemma OffsetsBelowTotal<Op(!new)>(enc: Encoder<Op>, items: seq<Item<Op>>, n: nat, k: nat)
    requires LabelsOnce(items, n) && Encodable(enc, items, n) && k <= |items|
    ensures RunTo(enc, items, k, StartCompute(n)).Some? && RunTo(enc, items, |items|, StartCompute(n)).Some?
    ensures RunTo(enc, items, k, StartCompute(n)).value.off <= RunTo(enc, items, |items|, StartCompute(n)).value.off
  {
    LabelsGrow(enc, items, k, |items|, n);
  }

  lemma StartedEmpty(a: Assembler, n: nat)
    requires a.State() == StartCompute(n).(code := a.code[..]) && a.code.Length == 0
    ensures a.State() == StartCompute(n)
  {
  }

  // ---------- The assembler object ----------

  /** The low n bytes of val, least significant first. */
  function LittleEndian(val: int, n: nat): (bs: seq<Byte>)
    ensures |bs| == n
    decreases n
  {
    if n == 0 then [] else [val % 256] + LittleEndian(val / 256, n - 1)
  }

  function FromLittleEndian(bs: seq<Byte>): nat {
    if bs == [] then 0 else bs[0] + 256 * FromLittleEndian(bs[1..])
  }

  function Pow256(n: nat): nat { if n == 0 then 1 else 256 * Pow256(n - 1) }

  /** Reading the bytes back gives the value modulo 2^(8n). */
  lemma {:induction false} LittleEndianReadsBack(val: int, n: nat)
    ensures Pow256(n) > 0 && FromLittleEndian(LittleEndian(val, n)) == val % Pow256(n)
    decreases n
  {
    if n > 0 {
      LittleEndianReadsBack(val / 256, n - 1);
      assert LittleEndian(val, n)[1..] == LittleEndian(val / 256, n - 1);
      Base256Step(val, Pow256(n - 1));
    }
  }

  /** Byte k is the k-th digit in base 256. */
  lemma {:induction false} LittleEndianByte(val: int, n: nat, k: nat)
    requires k < n
    ensures Pow256(k) > 0 && LittleEndian(val, n)[k] == val / Pow256(k) % 256
    decreases k
  {
    if k > 0 {
      LittleEndianByte(val / 256, n - 1, k - 1);
      DivTwice(val, Pow256(k - 1));
    }
  }

  class Assembler {
    var pass: Pass
    var codeOffset: nat
    var code: array<Byte>
    var labelOffsets: array<int>

    ghost function State(): State
      reads this, code, labelOffsets
    {
      AsmState(pass, codeOffset, labelOffsets[..], code[..])
    }

    constructor (maxLabels: nat)
      ensures fresh(code) && fresh(labelOffsets) && labelOffsets.Length == maxLabels && code.Length == 0
      ensures pass == Compute && codeOffset == 0
    {
      pass, codeOffset := Compute, 0;
      labelOffsets := new int[maxLabels];
      code := new Byte[0];
    }

    /** Pass COMPUTE forgets every label; pass EMIT allocates a buffer of the size found. */
    method StartPass(p: Pass)
      modifies this, labelOffsets
      ensures pass == p && codeOffset == 0
      ensures labelOffsets == old(labelOffsets) && (code == old(code) || fresh(code))
      ensures p == Compute ==> State() == StartCompute(labelOffsets.Length).(code := old(code[..])) && code == old(code)
      ensures p == Emit ==>
                code.Length == old(codeOffset) && State() == StartEmit(old(State()), code[..]) && fresh(code)
    {
      if p == Compute {
        for i := 0 to labelOffsets.Length
          invariant code == old(code) && labelOffsets == old(labelOffsets)
          invariant forall j :: 0 <= j < i ==> labelOffsets[j] == NO_OFFSET
        {
          labelOffsets[i] := NO_OFFSET;
        }
      } else {
        code := new Byte[codeOffset];
      }
      pass := p;
      codeOffset := 0;
    }

    /** Where the next bytes go, or nothing in pass COMPUTE; not ok is a failed bound assertion. */
    method GetCurToWriteBytes(n: nat) returns (ok: bool, c: Option<nat>)
      modifies this`codeOffset
      ensures ok <==> pass == Compute || old(codeOffset) + n <= code.Length
      ensures codeOffset == if ok then old(codeOffset) + n else old(codeOffset)
      ensures c == if ok && pass == Emit then Some(old(codeOffset)) else None
    {
      c := None;
      if pass == Emit {
        if codeOffset + n > code.Length { return false, None; }
        c := Some(codeOffset);
      }
      codeOffset := codeOffset + n;
      return true, c;
    }

    method LabelAssign(l: nat) returns (ok: bool)
      modifies labelOffsets
      ensures ok <==> Assign(old(State()), l).Some?
      ensures State() == if ok then Assign(old(State()), l).value else old(State())
    {
      if l >= labelOffsets.Length { return false; }
      if pass == Compute {
        if labelOffsets[l] != NO_OFFSET { return false; }
        labelOffsets[l] := codeOffset;
        return true;
      }
      return labelOffsets[l] == codeOffset;
    }

    method AlignTo(a: nat)
      modifies this`codeOffset
      ensures State() == old(State()).(off := codeOffset) && codeOffset == Aligned(old(codeOffset), a)
    {
      AlignedIsAhead(codeOffset, a);
      codeOffset := Aligned(codeOffset, a);
    }

    /** Writes the low bytesize bytes of val, least significant first. */
    method Data(bytesize: nat, val: int) returns (ok: bool)
      modifies this`codeOffset, code
      ensures ok <==> Write(old(State()), LittleEndian(val, bytesize)).Some?
      ensures ok ==> State() == Write(old(State()), LittleEndian(val, bytesize)).value
    {
      ghost var start := codeOffset;
      ghost var bs := LittleEndian(val, bytesize);
      var c;
      ok, c := GetCurToWriteBytes(bytesize);
      if ok && c.Some? {
        var v := val;
        for i := 0 to bytesize
          invariant LittleEndian(v, bytesize - i) == bs[i..]
          invariant codeOffset == start + bytesize && labelOffsets[..] == old(labelOffsets[..])
          invariant forall j :: 0 <= j < code.Length ==>
                      code[j] == if start <= j < start + i then bs[j - start] else old(code[j])
        {
          assert bs[i] == LittleEndian(v, bytesize - i)[0];
          assert bs[i + 1..] == LittleEndian(v, bytesize - i)[1..];
          code[c.value + i] := v % 256;
          v := v / 256;
        }
        assert code[..] == Splice(old(code[..]), start, bs);
      }
    }
  }
}
