/** The WebSocket stream: a resumable decoder over short reads, and the frame writer
    (sections 5.2 and 5.3 of RFC 6455). */
module WebSocket {
  import opened Options
  import opened Arithmetic

  const CONT := 0
  const TXT := 1
  const CLOSE := 8

  datatype Phase = Header | Opt | Payload | Control

  /** The decoder between two steps: got is the header buffer so far, need what it still lacks. */
  datatype Decoder = Decoder(phase: Phase, got: seq<Byte>, need: nat, mask: seq<Byte>, msgSize: nat, maskPos: Byte,
                             lastFlags: Byte, wsFlags: Byte)

  /** The socket: bytes to come, how many each read may deliver at most (0 is an error such as
      would-block), and what was written. */
  datatype Socket = Socket(incoming: seq<Byte>, chunks: seq<nat>, sent: seq<Byte>)

  /** Zero stands for the return value 0, Failed for MP_STREAM_ERROR, Aborted for a failed assertion. */
  datatype Outcome = Got(data: seq<Byte>) | Zero | Failed | Aborted

  // ---------- Bits ----------

  function Opcode(b: Byte): Byte { b % 16 }

  predicate Top(b: Byte) { b >= 128 }

  function Low7(b: Byte): Byte { b % 128 }

  predicate IsControl(flags: Byte) { Opcode(flags) >= CLOSE }

  function Xor(x: nat, y: nat): nat
    decreases x + y
  {
    if x == 0 && y == 0 then 0 else (x % 2 + y % 2) % 2 + 2 * Xor(x / 2, y / 2)
  }

  lemma {:induction false} XorBelow(x: nat, y: nat, k: nat)
    requires x < Pow2(k) && y < Pow2(k)
    ensures Xor(x, y) < Pow2(k)
    decreases k
  {
    if x != 0 || y != 0 { XorBelow(x / 2, y / 2, k - 1); }
  }

  /** Applying a mask byte twice gives the byte back. */
  lemma {:induction false} XorTwice(x: nat, y: nat)
    ensures Xor(Xor(x, y), y) == x
    decreases x + y
  {
    hide Xor;
    XorParts(x, y);
    if x != 0 || y != 0 {
      XorTwice(x / 2, y / 2);
      XorParts(Xor(x, y), y);
    }
  }

  lemma XorParts(x: nat, y: nat)
    ensures Xor(x, y) == (x % 2 + y % 2) % 2 + 2 * Xor(x / 2, y / 2)
    ensures x == y == 0 ==> Xor(x, y) == 0
  {
  }

  function XorByte(x: Byte, y: Byte): Byte {
    assert Pow2(8) == 256;
    XorBelow(x, y, 8);
    Xor(x, y)
  }

  /** Bit k of the result is set exactly if one of the two bits is. */
  lemma {:induction false} XorBits(x: nat, y: nat, k: nat)
    ensures BitSet(Xor(x, y), k) <==> BitSet(x, k) != BitSet(y, k)
    decreases k
  {
    hide Xor;
    XorParts(x, y);
    if k > 0 {
      XorBits(x / 2, y / 2, k - 1);
      BitOfHalf(x, k);
      BitOfHalf(y, k);
      BitOfHalf(Xor(x, y), k);
    }
  }

  lemma BitOfHalf(x: nat, k: nat)
    requires k > 0
    ensures BitSet(x, k) <==> BitSet(x / 2, k - 1)
  {
    var p := Pow2(k - 1);
    var q, r := x / 2 / p, x / 2 % p;
    assert x / 2 == p * q + r;
    assert (2 * p) * q == 2 * (p * q);
    ModUnique(x, 2 * p, q, 2 * r + x % 2);
  }

  function MaskByte(mask: seq<Byte>, pos: nat): Byte { if pos % 4 < |mask| then mask[pos % 4] else 0 }

  /** bs with the mask applied from position pos on. */
  function Unmask(bs: seq<Byte>, mask: seq<Byte>, pos: nat): (r: seq<Byte>)
    ensures |r| == |bs|
  {
    if bs == [] then [] else [XorByte(bs[0], MaskByte(mask, pos))] + Unmask(bs[1..], mask, pos + 1)
  }

  // ---------- The reading loop as a function ----------

  function Start(): Decoder { Decoder(Header, [], 2, [0, 0, 0, 0], 0, 0, 0, 0) }

  function At(s: seq<Byte>, i: nat): Byte { if i < |s| then s[i] else 0 }

  function Reset(d: Decoder): Decoder { d.(phase := Header, got := [], need := 2, maskPos := 0, msgSize := 0) }

  predicate HeaderAborts(got: seq<Byte>) { !Top(At(got, 0)) || Low7(At(got, 1)) == 127 }

  function ExtraSize(b: Byte): nat { (if Low7(b) == 126 then 2 else 0) + (if Top(b) then 4 else 0) }

  function AfterHeader(d: Decoder): Decoder {
    var b0, b1 := At(d.got, 0), At(d.got, 1);
    var extra := ExtraSize(b1);
    Decoder(if extra != 0 then Opt else if IsControl(b0) then Control else Payload,
      [], extra, [0, 0, 0, 0], Low7(b1), d.maskPos, b0,
      if Opcode(b0) == CONT then Opcode(d.wsFlags) + (b0 - Opcode(b0)) else b0)
  }

  function AfterOpt(d: Decoder): Decoder {
    var n := |d.got|;
    d.(phase := if IsControl(d.lastFlags) then Control else Payload,
       got := [],
       msgSize := if n % 4 == 2 then At(d.got, 0) * 256 + At(d.got, 1) else d.msgSize,
       mask := if n >= 4 then d.got[n - 4..] else d.mask)
  }

  function Min(a: nat, b: nat): nat { if a <= b then a else b }

  /** One read of at most k bytes from the socket; None is an error. */
  function Receive(io: Socket, k: nat): (r: (Option<seq<Byte>>, Socket))
    ensures r.0.Some? ==> |r.0.value| <= k && io.incoming == r.0.value + r.1.incoming
    ensures r.0.Some? ==> |r.1.chunks| < |io.chunks|
    ensures r.0.None? ==> r.1.incoming == io.incoming
    ensures r.0 == Some([]) ==> k == 0 || io.incoming == []
  {
    if io.chunks == [] then (None, io)
    else if io.chunks[0] == 0 then (None, io.(chunks := io.chunks[1..]))
    else
      var n := Min(io.chunks[0], Min(k, |io.incoming|));
      (Some(io.incoming[..n]), io.(incoming := io.incoming[n..], chunks := io.chunks[1..]))
  }

  function Rank(d: Decoder): nat {
    if d.need != 0 then 0 else match d.phase case Header => 3 case Opt => 2 case _ => 1
  }

  function Filled(d: Decoder, bs: seq<Byte>): Decoder
    requires |bs| <= d.need
  {
    d.(got := d.got + bs, need := d.need - |bs|)
  }

  function Consumed(d: Decoder, n: nat): Decoder
    requires n <= d.msgSize
  {
    d.(msgSize := d.msgSize - n, maskPos := (d.maskPos + n) % 256)
  }

  /** One call asking for size bytes, with opts for the reply to a close frame. */
  function Read(d: Decoder, io: Socket, size: nat, opts: Byte): (Outcome, Decoder, Socket)
    decreases |io.chunks|, Rank(d), 1
  {
    if d.need == 0 then Process(d, io, size, opts)
    else
      var (bs, io') := Receive(io, d.need);
      if bs.None? then (Failed, d, io')
      else if bs.value == [] then (Zero, d, io')
      else if |bs.value| < d.need then (Failed, Filled(d, bs.value), io')
      else Process(Filled(d, bs.value), io', size, opts)
  }

  /** The switch on the state, with everything it needs received. */
  function Process(d: Decoder, io: Socket, size: nat, opts: Byte): (Outcome, Decoder, Socket)
    requires d.need == 0
    decreases |io.chunks|, Rank(d), 0
  {
    match d.phase
    case Header => if HeaderAborts(d.got) then (Aborted, d, io) else Read(AfterHeader(d), io, size, opts)
    case Opt => Read(AfterOpt(d), io, size, opts)
    case _ =>
      if d.msgSize == 0 then
        if Closes(d) then (Zero, Reset(d), Replied(io, opts)) else Read(Reset(d), io, size, opts)
      else
        var (bs, io') := Receive(io, Min(size, d.msgSize));
        if bs.None? then (Failed, d, io')
        else if bs.value == [] then (Zero, d, io')
        else
          var n := |bs.value|;
          if n < d.msgSize then (Got(Unmask(bs.value, d.mask, d.maskPos)), Consumed(d, n), io')
          else if d.phase == Payload then (Got(Unmask(bs.value, d.mask, d.maskPos)), Reset(d), io')
          else if Closes(d) then (Zero, Reset(d), Replied(io', opts))
          else Read(Reset(d), io', size, opts)
  }

  predicate Closes(d: Decoder) { d.phase == Control && Opcode(d.lastFlags) == CLOSE }

  /** What a write of data puts on the socket. */
  function Written(opts: Byte, data: seq<Byte>): seq<Byte>
    requires |data| < 0x10000
  {
    [0x80 + Opcode(opts)]
    + (if |data| < 126 then [|data|] else [126, |data| / 256, |data| % 256])
    + data
  }

  /** The close reply goes through the ordinary writer. */
  function Replied(io: Socket, opts: Byte): Socket { io.(sent := io.sent + Written(opts, [0x88, 0])) }

  // ---------- The same stream, byte by byte ----------

  /** The state once everything that needs no more input has been done. */
  function Settle(d: Decoder): Decoder
    decreases Rank(d)
  {
    if d.need != 0 then d
    else match d.phase
      case Header => Settle(AfterHeader(d))
      case Opt => Settle(AfterOpt(d))
      case _ => if d.msgSize == 0 then Reset(d) else d
  }

  /** No assertion fails on the way, and a control frame is no close and has at most one byte. */
  predicate SettlesWell(d: Decoder)
    decreases Rank(d)
  {
    if d.need != 0 then true
    else match d.phase
      case Header => !HeaderAborts(d.got) && SettlesWell(AfterHeader(d))
      case Opt => SettlesWell(AfterOpt(d))
      case Payload => true
      case Control => Opcode(d.lastFlags) != CLOSE && d.msgSize <= 1
  }

  function Step(d: Decoder, b: Byte): Decoder {
    if d.need != 0 then Filled(d, [b])
    else if d.msgSize != 0 then Consumed(d, 1)
    else d
  }

  function StepOut(d: Decoder, b: Byte): seq<Byte> {
    if d.need == 0 && d.phase == Payload then Unmask([b], d.mask, d.maskPos) else []
  }

  /** The payload bytes in s, starting from state d. */
  function Decoded(d: Decoder, s: seq<Byte>): seq<Byte>
    decreases |s|
  {
    if s == [] then [] else StepOut(Settle(d), s[0]) + Decoded(Step(Settle(d), s[0]), s[1..])
  }

  /** The state after s. */
  function Final(d: Decoder, s: seq<Byte>): Decoder
    decreases |s|
  {
    if s == [] then Settle(d) else Final(Step(Settle(d), s[0]), s[1..])
  }

  /** s holds no close frame, no unfinished or 64-bit frame and no control payload above one byte. */
  predicate Plain(d: Decoder, s: seq<Byte>)
    decreases |s|
  {
    SettlesWell(d) && (s == [] || Plain(Step(Settle(d), s[0]), s[1..]))
  }

  // ---------- Chunks do not matter ----------

  lemma DecodedStep(d: Decoder, b: Byte, rest: seq<Byte>)
    requires d.need != 0 || (d.msgSize != 0 && d.phase == Payload)
    ensures Decoded(d, [b] + rest) == StepOut(d, b) + Decoded(Step(d, b), rest)
    ensures Plain(d, [b] + rest) <==> Plain(Step(d, b), rest)
    ensures Final(d, [b] + rest) == Final(Step(d, b), rest)
  {
    hide Unmask;
    assert ([b] + rest)[1..] == rest;
  }

  lemma {:induction false} FillChunk(d: Decoder, bs: seq<Byte>, rest: seq<Byte>)
    requires |bs| <= d.need
    ensures Decoded(d, bs + rest) == Decoded(Filled(d, bs), rest)
    ensures Plain(d, bs + rest) <==> Plain(Filled(d, bs), rest)
    ensures Final(d, bs + rest) == Final(Filled(d, bs), rest)
    decreases |bs|
  {
    hide Decoded, Plain, Final;
    if bs == [] {
      assert bs + rest == rest && d.got + bs == d.got;
    } else {
      assert bs + rest == [bs[0]] + (bs[1..] + rest);
      DecodedStep(d, bs[0], bs[1..] + rest);
      var d1 := Filled(d, [bs[0]]);
      FillChunk(d1, bs[1..], rest);
      assert d.got + [bs[0]] + bs[1..] == d.got + bs;
    }
  }

  lemma {:induction false} PayloadChunk(d: Decoder, bs: seq<Byte>, rest: seq<Byte>)
    requires d.need == 0 && d.phase == Payload && |bs| <= d.msgSize
    ensures Decoded(d, bs + rest) == Unmask(bs, d.mask, d.maskPos) + Decoded(Consumed(d, |bs|), rest)
    ensures Plain(d, bs + rest) <==> Plain(Consumed(d, |bs|), rest)
    ensures Final(d, bs + rest) == Final(Consumed(d, |bs|), rest)
    decreases |bs|
  {
    hide Decoded, Plain, Final, Unmask, Settle, SettlesWell;
    if bs == [] {
      assert bs + rest == rest;
      NothingToUnmask(d.mask, d.maskPos);
    } else {
      assert bs + rest == [bs[0]] + (bs[1..] + rest);
      DecodedStep(d, bs[0], bs[1..] + rest);
      var d1 := Consumed(d, 1);
      PayloadChunk(d1, bs[1..], rest);
      ConsumedTwice(d, |bs|);
      UnmaskFirst(bs, d.mask, d.maskPos);
      var first, after := Unmask([bs[0]], d.mask, d.maskPos), Decoded(Consumed(d, |bs|), rest);
      UnmaskPeriodic(bs[1..], d.mask, d.maskPos + 1, d1.maskPos);
      assert first + (Unmask(bs[1..], d.mask, d.maskPos + 1) + after) ==
             (first + Unmask(bs[1..], d.mask, d.maskPos + 1)) + after;
    }
  }

  /** Only the position modulo four matters, so the byte-wide counter may wrap. */
  lemma {:induction false} UnmaskPeriodic(bs: seq<Byte>, mask: seq<Byte>, p: nat, q: nat)
    requires p % 4 == q % 4
    ensures Unmask(bs, mask, p) == Unmask(bs, mask, q)
  {
    hide XorByte, MaskByte;
    if bs != [] {
      assert (p + 1) % 4 == (q + 1) % 4;
      UnmaskPeriodic(bs[1..], mask, p + 1, q + 1);
      SameMaskByte(mask, p, q);
    }
  }

  lemma SameMaskByte(mask: seq<Byte>, p: nat, q: nat)
    requires p % 4 == q % 4
    ensures MaskByte(mask, p) == MaskByte(mask, q)
  {
  }

  lemma ConsumedTwice(d: Decoder, n: nat)
    requires 1 <= n <= d.msgSize
    ensures Consumed(Consumed(d, 1), n - 1) == Consumed(d, n)
    ensures (d.maskPos + 1) % 4 == Consumed(d, 1).maskPos % 4
  {
    ModMod(d.maskPos + 1, 4, 64);
    var x := d.maskPos + 1;
    var y := x % 256 + (n - 1);
    ModUnique(x + (n - 1), 256, x / 256 + y / 256, y % 256);
  }

  /** The byte-wide counter wraps without losing the position modulo four. */
  lemma WrapsAlike(x: nat)
    ensures (x % 256 + 1) % 256 == (x + 1) % 256 && x % 256 % 4 == x % 4
  {
    ModMod(x, 4, 64);
    var q, r := x / 256, x % 256;
    if r == 255 { ModUnique(x + 1, 256, q + 1, 0); } else { ModUnique(x + 1, 256, q, r + 1); }
  }

  lemma NothingToUnmask(mask: seq<Byte>, pos: nat)
    ensures Unmask([], mask, pos) == []
  {
  }

  lemma UnmaskFirst(bs: seq<Byte>, mask: seq<Byte>, pos: nat)
    requires bs != []
    ensures Unmask(bs, mask, pos) == Unmask([bs[0]], mask, pos) + Unmask(bs[1..], mask, pos + 1)
  {
    assert [bs[0]][1..] == [];
  }

  /** Going round the loop without input changes nothing in what the rest of the stream means. */
  lemma SettledAlike(d: Decoder, e: Decoder, s: seq<Byte>)
    requires Settle(d) == Settle(e) && (SettlesWell(d) <==> SettlesWell(e))
    ensures Decoded(d, s) == Decoded(e, s) && (Plain(d, s) <==> Plain(e, s)) && Final(d, s) == Final(e, s)
  {
  }

  /** The bytes of an outcome. */
  function DataOf(r: Outcome): seq<Byte> { if r.Got? then r.data else [] }

  ghost predicate KeepsStream(d: Decoder, io: Socket, size: nat, r: (Outcome, Decoder, Socket)) {
    && r.0 != Aborted
    && Plain(r.1, r.2.incoming) && Settle(r.1) == r.1
    && Decoded(d, io.incoming) == DataOf(r.0) + Decoded(r.1, r.2.incoming)
    && Final(d, io.incoming) == Final(r.1, r.2.incoming)
    && (r.0.Got? ==> 0 < |r.0.data| <= size)
    && (r.0.Zero? ==> size == 0 || r.2.incoming == [])
    && r.2.sent == io.sent
  }

  /** What holds from the state reached holds from the state before. */
  lemma KeepsFrom(d: Decoder, io: Socket, e: Decoder, io': Socket, size: nat, r: (Outcome, Decoder, Socket))
    requires KeepsStream(e, io', size, r) && io'.sent == io.sent
    requires Decoded(d, io.incoming) == Decoded(e, io'.incoming) && Final(d, io.incoming) == Final(e, io'.incoming)
    ensures KeepsStream(d, io, size, r)
  {
    hide Decoded, Plain, Final, Settle;
  }

  /** However the socket cuts the stream, what a call returns and what is still to come make
      up what was to come. */
  lemma {:induction false} ReadKeepsStream(d: Decoder, io: Socket, size: nat, opts: Byte)
    requires Plain(d, io.incoming)
    ensures KeepsStream(d, io, size, Read(d, io, size, opts))
    decreases |io.chunks|, Rank(d), 1
  {
    hide Decoded, Plain, Final, Process, KeepsStream;
    if d.need == 0 {
      ProcessKeepsStream(d, io, size, opts);
    } else {
      var (bs, io') := Receive(io, d.need);
      if bs.None? || bs.value == [] {
        Waiting(d, io, io', size, if bs.None? then Failed else Zero);
      } else {
        var d1 := Filled(d, bs.value);
        FillChunk(d, bs.value, io'.incoming);
        if d1.need == 0 {
          ProcessKeepsStream(d1, io', size, opts);
        } else {
          Waiting(d1, io', io', size, Failed);
        }
        KeepsFrom(d, io, d1, io', size, Read(d, io, size, opts));
      }
    }
  }

  /** A call that returns nothing, from a state that waits for input. */
  lemma Waiting(d: Decoder, io: Socket, io': Socket, size: nat, o: Outcome)
    requires Plain(d, io.incoming) && Settle(d) == d && io'.incoming == io.incoming && io'.sent == io.sent
    requires o == Failed || (o == Zero && (size == 0 || io.incoming == []))
    ensures KeepsStream(d, io, size, (o, d, io'))
  {
    hide Decoded, Plain, Final, Settle;
    assert [] + Decoded(d, io.incoming) == Decoded(d, io.incoming);
  }

  lemma {:induction false} ProcessKeepsStream(d: Decoder, io: Socket, size: nat, opts: Byte)
    requires d.need == 0 && Plain(d, io.incoming)
    ensures KeepsStream(d, io, size, Process(d, io, size, opts))
    decreases |io.chunks|, Rank(d), 0, 1
  {
    hide Decoded, Plain, Final, Read, KeepsStream, AfterHeader, AfterOpt, HeaderAborts;
    PlainSettles(d, io.incoming);
    match d.phase
    case Header =>
      AfterHeaderRank(d);
      OnwardKeeps(d, AfterHeader(d), io, size, opts);
    case Opt =>
      AfterOptRank(d);
      OnwardKeeps(d, AfterOpt(d), io, size, opts);
    case Payload =>
      if d.msgSize == 0 { OnwardKeeps(d, Reset(d), io, size, opts); } else { PayloadKeepsStream(d, io, size, opts); }
    case Control =>
      if d.msgSize == 0 { OnwardKeeps(d, Reset(d), io, size, opts); } else { ControlKeepsStream(d, io, size, opts); }
  }

  /** Going round the loop. */
  lemma {:induction false} OnwardKeeps(d: Decoder, e: Decoder, io: Socket, size: nat, opts: Byte)
    requires Plain(d, io.incoming) && Settle(d) == Settle(e) && (SettlesWell(d) <==> SettlesWell(e))
    requires Rank(e) < Rank(d)
    ensures KeepsStream(d, io, size, Read(e, io, size, opts))
    decreases |io.chunks|, Rank(e), 2
  {
    hide Decoded, Plain, Final, Read, KeepsStream, Settle, SettlesWell;
    SettledAlike(d, e, io.incoming);
    ReadKeepsStream(e, io, size, opts);
    KeepsFrom(d, io, e, io, size, Read(e, io, size, opts));
  }

  lemma PayloadKeepsStream(d: Decoder, io: Socket, size: nat, opts: Byte)
    requires d.need == 0 && d.phase == Payload && d.msgSize != 0 && Plain(d, io.incoming)
    ensures KeepsStream(d, io, size, Process(d, io, size, opts))
  {
    hide Decoded, Plain, Final, Read, Unmask, AfterHeader, AfterOpt, HeaderAborts;
    var (bs, io') := Receive(io, Min(size, d.msgSize));
    if bs.None? || bs.value == [] {
      Waiting(d, io, io', size, if bs.None? then Failed else Zero);
    } else {
      var n := |bs.value|;
      PayloadChunk(d, bs.value, io'.incoming);
      if n == d.msgSize { SettledAlike(Consumed(d, n), Reset(d), io'.incoming); }
    }
  }

  lemma {:induction false} ControlKeepsStream(d: Decoder, io: Socket, size: nat, opts: Byte)
    requires d.need == 0 && d.phase == Control && d.msgSize != 0 && Plain(d, io.incoming)
    ensures KeepsStream(d, io, size, Process(d, io, size, opts))
    decreases |io.chunks|, Rank(d), 0, 0
  {
    hide Decoded, Plain, Final, Read, KeepsStream;
    PlainSettles(d, io.incoming);
    var (bs, io') := Receive(io, Min(size, d.msgSize));
    if bs.None? || bs.value == [] {
      Waiting(d, io, io', size, if bs.None? then Failed else Zero);
    } else {
      ControlByte(d, bs.value[0], io'.incoming);
      assert bs.value == [bs.value[0]];
      ReadKeepsStream(Reset(d), io', size, opts);
      KeepsFrom(d, io, Reset(d), io', size, Read(Reset(d), io', size, opts));
    }
  }

  lemma PlainSettles(d: Decoder, s: seq<Byte>)
    requires Plain(d, s)
    ensures SettlesWell(d)
  {
  }

  lemma AfterHeaderRank(d: Decoder)
    ensures Rank(AfterHeader(d)) < 3
  {
  }

  lemma AfterOptRank(d: Decoder)
    requires d.need == 0
    ensures Rank(AfterOpt(d)) == 1
  {
  }

  /** A control payload of one byte is dropped. */
  lemma ControlByte(d: Decoder, b: Byte, rest: seq<Byte>)
    requires d.need == 0 && d.phase == Control && d.msgSize == 1 && SettlesWell(d)
    ensures Decoded(d, [b] + rest) == Decoded(Reset(d), rest)
    ensures Plain(d, [b] + rest) <==> Plain(Reset(d), rest)
    ensures Final(d, [b] + rest) == Final(Reset(d), rest)
  {
    assert ([b] + rest)[1..] == rest;
    SettledAlike(Consumed(d, 1), Reset(d), rest);
  }

  // ---------- Frames ----------

  /** A final frame; long is the 16-bit length form. */
  datatype Frame = Frame(opcode: Byte, mask: Option<seq<Byte>>, payload: seq<Byte>, long: bool)

  predicate WellFormed(f: Frame) {
    && f.opcode < 16
    && (f.mask.Some? ==> |f.mask.value| == 4)
    && |f.payload| < (if f.long then 0x10000 else 126)
  }

  function LengthByte(f: Frame): Byte
    requires WellFormed(f)
  {
    (if f.mask.Some? then 128 else 0) + (if f.long then 126 else |f.payload|)
  }

  function Extra(f: Frame): seq<Byte>
    requires WellFormed(f)
  {
    (if f.long then [|f.payload| / 256, |f.payload| % 256] else []) + (if f.mask.Some? then f.mask.value else [])
  }

  function MaskOf(f: Frame): seq<Byte> { if f.mask.Some? then f.mask.value else [0, 0, 0, 0] }

  /** Section 5.3: a bit on the wire is set if it is set in the payload byte or in the key
      byte, but not in both. These are the bits from k on, bit k first. */
  function WireBits(b: Byte, key: Byte, k: nat): (r: nat)
    requires k <= 8
    ensures r < Pow2(8 - k)
    decreases 8 - k
  {
    if k == 8 then 0
    else (if BitSet(b, k) != BitSet(key, k) then 1 else 0) + 2 * WireBits(b, key, k + 1)
  }

  function WireByte(b: Byte, key: Byte): Byte {
    assert Pow2(8) == 256;
    WireBits(b, key, 0)
  }

  /** The key byte for byte i of the payload is that of i modulo 4. */
  function Masked(payload: seq<Byte>, key: seq<Byte>): seq<Byte>
    requires |key| == 4
  {
    seq(|payload|, i requires 0 <= i < |payload| => WireByte(payload[i], key[i % 4]))
  }

  /** Section 5.2: header, extended length, masking key, masked payload. */
  function Encode(f: Frame): seq<Byte>
    requires WellFormed(f)
  {
    [0x80 + f.opcode, LengthByte(f)] + Extra(f) + Masked(f.payload, MaskOf(f))
  }

  function EncodeAll(fs: seq<Frame>): seq<Byte>
    requires forall i :: 0 <= i < |fs| ==> WellFormed(fs[i])
  {
    if fs == [] then [] else Encode(fs[0]) + EncodeAll(fs[1..])
  }

  /** Data frames, and control frames other than close with at most one byte of payload. */
  predicate IsPlain(f: Frame) { f.opcode < CLOSE || (f.opcode != CLOSE && |f.payload| <= 1) }

  function Payloads(fs: seq<Frame>): seq<Byte> {
    if fs == [] then [] else (if fs[0].opcode < CLOSE then fs[0].payload else []) + Payloads(fs[1..])
  }

  /** The opcode of the last frame that is no continuation, or was. */
  function LastOpcode(was: Byte, fs: seq<Frame>): Byte
    decreases |fs|
  {
    if fs == [] then was else LastOpcode(if fs[0].opcode == CONT then was else fs[0].opcode, fs[1..])
  }

  /** The opcode of the last data frame that is no continuation, or was. */
  function LastDataOpcode(was: Byte, fs: seq<Frame>): Byte
    decreases |fs|
  {
    if fs == [] then was else LastDataOpcode(if CONT < fs[0].opcode < CLOSE then fs[0].opcode else was, fs[1..])
  }

  /** A control frame comes after the last data frame, continuations apart. */
  ghost predicate ControlFollows(fs: seq<Frame>) {
    exists i :: 0 <= i < |fs| && fs[i].opcode >= CLOSE && ContinuesFrom(fs, i + 1)
  }

  ghost predicate ContinuesFrom(fs: seq<Frame>, i: nat) {
    forall j :: i <= j < |fs| ==> fs[j].opcode == CONT || fs[j].opcode >= CLOSE
  }

  lemma {:induction false} UnmaskTwice(bs: seq<Byte>, mask: seq<Byte>, pos: nat)
    ensures Unmask(Unmask(bs, mask, pos), mask, pos) == bs
  {
    if bs != [] {
      XorTwice(bs[0], MaskByte(mask, pos));
      UnmaskTwice(bs[1..], mask, pos + 1);
    }
  }

  /** The bits of a number below a power of two decide it. */
  lemma {:induction false} BitsDecide(x: nat, y: nat, n: nat)
    requires x < Pow2(n) && y < Pow2(n) && forall k: nat :: k < n ==> (BitSet(x, k) <==> BitSet(y, k))
    ensures x == y
  {
    if n > 0 {
      forall k: nat | k < n - 1 ensures BitSet(x / 2, k) <==> BitSet(y / 2, k) {
        BitOfHalf(x, k + 1);
        BitOfHalf(y, k + 1);
      }
      BitsDecide(x / 2, y / 2, n - 1);
      assert BitSet(x, 0) <==> BitSet(y, 0);
    }
  }

  lemma {:induction false} WireBitsAre(b: Byte, key: Byte, k: nat, j: nat)
    requires k + j < 8
    ensures BitSet(WireBits(b, key, k), j) <==> BitSet(b, k + j) != BitSet(key, k + j)
    decreases j
  {
    hide BitSet;
    if j > 0 {
      BitOfHalf(WireBits(b, key, k), j);
      WireBitsAre(b, key, k + 1, j - 1);
    } else {
      BitZero(WireBits(b, key, k));
    }
  }

  lemma BitZero(x: nat)
    ensures BitSet(x, 0) <==> x % 2 == 1
  {
  }

  lemma XorIsWire(b: Byte, key: Byte)
    ensures XorByte(b, key) == WireByte(b, key)
  {
    hide Xor, WireBits, BitSet;
    assert Pow2(8) == 256;
    forall k: nat | k < 8 ensures BitSet(XorByte(b, key), k) <==> BitSet(WireByte(b, key), k) {
      XorBits(b, key, k);
      WireBitsAre(b, key, 0, k);
    }
    BitsDecide(XorByte(b, key), WireByte(b, key), 8);
  }

  /** Unmasking, byte by byte and bit by bit: the key byte is that of the position modulo 4. */
  lemma {:induction false} UnmaskedBit(bs: seq<Byte>, mask: seq<Byte>, pos: nat, i: nat, k: nat)
    requires |mask| == 4 && i < |bs| && k < 8
    ensures BitSet(Unmask(bs, mask, pos)[i], k) <==> BitSet(bs[i], k) != BitSet(mask[(pos + i) % 4], k)
    decreases i
  {
    hide XorByte, BitSet;
    if i == 0 { XorByteBits(bs[0], mask[pos % 4], k); } else { UnmaskedBit(bs[1..], mask, pos + 1, i - 1, k); }
  }

  lemma XorByteBits(x: Byte, y: Byte, k: nat)
    ensures BitSet(XorByte(x, y), k) <==> BitSet(x, k) != BitSet(y, k)
  {
    XorBits(x, y, k);
  }

  /** Applying the mask from the start is what the sender does. */
  lemma {:induction false} UnmaskIsMasked(bs: seq<Byte>, mask: seq<Byte>)
    requires |mask| == 4
    ensures Unmask(bs, mask, 0) == Masked(bs, mask)
  {
    hide XorByte, WireByte, Unmask;
    forall i | 0 <= i < |bs| ensures Unmask(bs, mask, 0)[i] == Masked(bs, mask)[i] {
      UnmaskAt(bs, mask, 0, i);
      XorIsWire(bs[i], mask[i % 4]);
    }
  }

  lemma {:induction false} UnmaskAt(bs: seq<Byte>, mask: seq<Byte>, pos: nat, i: nat)
    requires |mask| == 4 && i < |bs|
    ensures Unmask(bs, mask, pos)[i] == XorByte(bs[i], mask[(pos + i) % 4])
    decreases i
  {
    hide XorByte;
    if i > 0 { UnmaskAt(bs[1..], mask, pos + 1, i - 1); }
  }

  lemma {:induction false} ZeroMask(bs: seq<Byte>, pos: nat)
    ensures Unmask(bs, [0, 0, 0, 0], pos) == bs
  {
    if bs != [] {
      XorZero(bs[0]);
      ZeroMask(bs[1..], pos + 1);
    }
  }

  lemma {:induction false} XorZero(x: nat)
    ensures Xor(x, 0) == x
  {
    if x != 0 { XorZero(x / 2); }
  }

  /** What a decoder at a frame boundary holds once the header and its extension are in. */
  ghost predicate AtPayload(d: Decoder, f: Frame) {
    && d.need == 0 && d.phase == (if f.opcode >= CLOSE then Control else Payload)
    && d.msgSize == |f.payload| && d.mask == MaskOf(f) && d.maskPos == 0 && Opcode(d.lastFlags) == f.opcode
  }

  ghost predicate AtBoundary(d: Decoder) { d.phase == Header && d.got == [] && d.need == 2 && d.maskPos == 0 }

  lemma HeaderBytes(f: Frame)
    requires WellFormed(f)
    ensures LengthByte(f) < 256
    ensures Low7(LengthByte(f)) == (if f.long then 126 else |f.payload|)
    ensures Top(LengthByte(f)) <==> f.mask.Some?
    ensures Opcode(0x80 + f.opcode) == f.opcode && Top(0x80 + f.opcode)
    ensures ExtraSize(LengthByte(f)) == |Extra(f)|
  {
  }

  /** The two header bytes. */
  lemma HeaderIn(d: Decoder, f: Frame, rest: seq<Byte>) returns (e: Decoder)
    requires WellFormed(f) && AtBoundary(d)
    ensures e == AfterHeader(Filled(d, [0x80 + f.opcode, LengthByte(f)]))
    ensures Decoded(d, [0x80 + f.opcode, LengthByte(f)] + rest) == Decoded(e, rest)
    ensures Plain(d, [0x80 + f.opcode, LengthByte(f)] + rest) <==> Plain(e, rest)
    ensures Final(d, [0x80 + f.opcode, LengthByte(f)] + rest) == Final(e, rest)
  {
    hide Decoded, Plain, Final, LengthByte, AfterHeader, ExtraSize;
    HeaderBytes(f);
    var header := [0x80 + f.opcode, LengthByte(f)];
    FillChunk(d, header, rest);
    var d1 := Filled(d, header);
    assert d1.got == header;
    e := AfterHeader(d1);
    SettledAlike(d1, e, rest);
  }

  /** The extension, if there is one. */
  lemma ExtraIn(d: Decoder, x: seq<Byte>, rest: seq<Byte>) returns (e: Decoder)
    requires d.need == |x| && d.got == [] && (x != [] ==> d.phase == Opt)
    ensures e == if x == [] then d else AfterOpt(Filled(d, x))
    ensures Decoded(d, x + rest) == Decoded(e, rest)
    ensures Plain(d, x + rest) <==> Plain(e, rest)
    ensures Final(d, x + rest) == Final(e, rest)
  {
    hide Decoded, Plain, Final, AfterOpt;
    if x == [] {
      assert x + rest == rest;
      e := d;
    } else {
      FillChunk(d, x, rest);
      e := AfterOpt(Filled(d, x));
      SettledAlike(Filled(d, x), e, rest);
    }
  }

  lemma AfterHeaderIs(d: Decoder, f: Frame)
    requires WellFormed(f) && AtBoundary(d)
    ensures var e := AfterHeader(Filled(d, [0x80 + f.opcode, LengthByte(f)]));
            && e.need == |Extra(f)| && e.got == [] && e.mask == [0, 0, 0, 0] && e.maskPos == 0
            && e.msgSize == (if f.long then 126 else |f.payload|) && Opcode(e.lastFlags) == f.opcode
            && Opcode(e.wsFlags) == (if f.opcode == CONT then Opcode(d.wsFlags) else f.opcode)
            && e.phase == if Extra(f) != [] then Opt else if f.opcode >= CLOSE then Control else Payload
  {
    hide LengthByte, Extra, ExtraSize, Low7;
    HeaderBytes(f);
    var header := [0x80 + f.opcode, LengthByte(f)];
    assert Filled(d, header).got == header;
  }

  /** The header and its extension take the decoder to the payload. */
  lemma HeaderDecodes(d: Decoder, f: Frame, rest: seq<Byte>) returns (e: Decoder)
    requires WellFormed(f) && AtBoundary(d)
    ensures AtPayload(e, f)
    ensures Decoded(d, [0x80 + f.opcode, LengthByte(f)] + Extra(f) + rest) == Decoded(e, rest)
    ensures Plain(d, [0x80 + f.opcode, LengthByte(f)] + Extra(f) + rest) <==> Plain(e, rest)
    ensures Final(d, [0x80 + f.opcode, LengthByte(f)] + Extra(f) + rest) == Final(e, rest)
    ensures Opcode(e.wsFlags) == if f.opcode == CONT then Opcode(d.wsFlags) else f.opcode
  {
    hide Decoded, Plain, Final, LengthByte, Extra, AfterHeader;
    var header, extra := [0x80 + f.opcode, LengthByte(f)], Extra(f);
    assert header + extra + rest == header + (extra + rest);
    AfterHeaderIs(d, f);
    var d2 := HeaderIn(d, f, extra + rest);
    e := ExtraIn(d2, extra, rest);
    if extra == [] { NoExtra(f); } else { ExtraParts(f); }
  }

  lemma NoExtra(f: Frame)
    requires WellFormed(f) && Extra(f) == []
    ensures !f.long && f.mask.None?
  {
  }

  lemma ExtraParts(f: Frame)
    requires WellFormed(f)
    ensures var x := Extra(f);
            && (|x| % 4 == 2 <==> f.long) && (|x| >= 4 <==> f.mask.Some?)
            && (f.long ==> At(x, 0) * 256 + At(x, 1) == |f.payload|)
            && (f.mask.Some? ==> x[|x| - 4..] == f.mask.value)
  {
  }

  /** One frame from a boundary to the next. */
  lemma FrameDecodes(d: Decoder, f: Frame, rest: seq<Byte>) returns (e: Decoder)
    requires WellFormed(f) && IsPlain(f) && AtBoundary(d)
    ensures AtBoundary(e)
    ensures Decoded(d, Encode(f) + rest) == (if f.opcode < CLOSE then f.payload else []) + Decoded(e, rest)
    ensures Plain(d, Encode(f) + rest) <==> Plain(e, rest)
    ensures Final(d, Encode(f) + rest) == Final(e, rest)
    ensures Opcode(e.wsFlags) == if f.opcode == CONT then Opcode(d.wsFlags) else f.opcode
  {
    hide Decoded, Plain, Final, LengthByte, Extra, Unmask, Masked;
    UnmaskIsMasked(f.payload, MaskOf(f));
    var body := Masked(f.payload, MaskOf(f));
    var front := [0x80 + f.opcode, LengthByte(f)] + Extra(f);
    assert Encode(f) + rest == front + (body + rest);
    var p := HeaderDecodes(d, f, body + rest);
    e := Reset(p);
    if f.opcode < CLOSE {
      PayloadChunk(p, body, rest);
      SettledAlike(Consumed(p, |body|), e, rest);
      UnmaskTwice(f.payload, MaskOf(f), 0);
    } else if f.payload == [] {
      assert body + rest == rest;
      SettledAlike(p, e, rest);
    } else {
      assert body == [body[0]];
      ControlByte(p, body[0], rest);
    }
  }

  lemma {:induction false} FramesDecode(d: Decoder, fs: seq<Frame>)
    requires forall i :: 0 <= i < |fs| ==> WellFormed(fs[i]) && IsPlain(fs[i])
    requires AtBoundary(d)
    ensures Plain(d, EncodeAll(fs)) && Decoded(d, EncodeAll(fs)) == Payloads(fs)
    ensures AtBoundary(Final(d, EncodeAll(fs)))
    ensures Opcode(Final(d, EncodeAll(fs)).wsFlags) == LastOpcode(Opcode(d.wsFlags), fs)
    decreases |fs|
  {
    hide Encode;
    if fs != [] {
      var e := FrameDecodes(d, fs[0], EncodeAll(fs[1..]));
      FramesDecode(e, fs[1..]);
    }
  }

  lemma EncodedPlainly(f: Frame)
    requires WellFormed(f) && f.mask.None?
    ensures Encode(f) ==
            [0x80 + f.opcode] +
            (if f.long then [126, |f.payload| / 256, |f.payload| % 256] else [|f.payload|]) + f.payload
  {
    hide Masked, Unmask;
    ZeroMask(f.payload, 0);
    UnmaskIsMasked(f.payload, MaskOf(f));
  }

  /** Reading back what was written gives the bytes written. */
  lemma WrittenReadsBack(d: Decoder, opts: Byte, data: seq<Byte>)
    requires |data| < 0x10000 && Opcode(opts) < CLOSE && AtBoundary(d)
    ensures Plain(d, Written(opts, data)) && Decoded(d, Written(opts, data)) == data
  {
    hide Decoded, Plain, Encode, EncodeAll, Final, Payloads;
    var f := Frame(Opcode(opts), None, data, |data| >= 126);
    EncodedPlainly(f);
    assert Encode(f) == Written(opts, data);
    OneFrame(f);
    FramesDecode(d, [f]);
  }

  /** No final frame with the same unmasked payload is shorter. */
  lemma WrittenIsShortest(opts: Byte, data: seq<Byte>, f: Frame)
    requires |data| < 0x10000 && WellFormed(f) && f.payload == data
    ensures |Written(opts, data)| <= |Encode(f)|
  {
  }

  // ---------- What a call returns ----------

  /** A header that has come in fails the assertions exactly if it is not that of a final frame
      or announces a 64-bit length. */
  lemma HeaderRefused(d: Decoder, b0: Byte, b1: Byte, size: nat, opts: Byte)
    requires AtBoundary(d)
    ensures Read(d, Socket([b0, b1], [2], []), size, opts).0 == Aborted <==> b0 < 0x80 || b1 % 0x80 == 0x7f
  {
    var io := Socket([b0, b1], [2], []);
    var d1 := Filled(d, [b0, b1]);
    assert io.incoming[..2] == [b0, b1] && d1.got == [b0, b1];
    assert Receive(io, 2) == (Some([b0, b1]), Socket([], [], []));
    assert Read(d, io, size, opts) == Process(d1, Socket([], [], []), size, opts);
    if !HeaderAborts(d1.got) { NothingMore(AfterHeader(d1), size, opts); }
  }

  /** With nothing to come, a call from behind a header ends without data. */
  lemma NothingMore(d: Decoder, size: nat, opts: Byte)
    requires d.need != 0 || d.phase == Payload || d.phase == Control
    ensures Read(d, Socket([], [], []), size, opts).0 in {Failed, Zero}
  {
    var io := Socket([], [], []);
    assert Read(Reset(d), io, size, opts).0 == Failed;
    if d.need == 0 { assert Process(d, io, size, opts).0 in {Failed, Zero}; }
  }

  /** A socket that delivers all it has makes the call return data, if there is any. */
  lemma {:induction false} ReadDelivers(d: Decoder, io: Socket, size: nat, opts: Byte)
    requires Plain(d, io.incoming) && Decoded(d, io.incoming) != [] && size > 0
    requires |io.chunks| > |io.incoming| && forall i :: 0 <= i < |io.chunks| ==> io.chunks[i] >= |io.incoming| > 0
    ensures Read(d, io, size, opts).0.Got?
    decreases |io.chunks|, Rank(d)
  {
    hide Plain, Final, Decoded, Settle, AfterHeader, AfterOpt, HeaderAborts, Unmask;
    if d.need != 0 {
      var (bs, io') := Receive(io, d.need);
      FillChunk(d, bs.value, io'.incoming);
      var d1 := Filled(d, bs.value);
      if io'.incoming == [] {
        NothingDecodes(d1);
      } else if d1.need == 0 {
        ReadDelivers(d1, io', size, opts);
      }
    } else {
      PlainSettles(d, io.incoming);
      match d.phase
      case Header =>
        AfterHeaderRank(d);
        SettlesOn(d, AfterHeader(d), io.incoming);
        ReadDelivers(AfterHeader(d), io, size, opts);
      case Opt =>
        AfterOptRank(d);
        SettlesOn(d, AfterOpt(d), io.incoming);
        ReadDelivers(AfterOpt(d), io, size, opts);
      case Payload => if d.msgSize == 0 { SettlesOn(d, Reset(d), io.incoming); ReadDelivers(Reset(d), io, size, opts); }
      case Control => ControlDelivers(d, io, size, opts);
    }
  }

  lemma SettlesOn(d: Decoder, e: Decoder, s: seq<Byte>)
    requires d.need == 0 && SettlesWell(d)
    requires match d.phase
             case Header => e == AfterHeader(d)
             case Opt => e == AfterOpt(d)
             case _ => d.msgSize == 0 && e == Reset(d)
    ensures Decoded(d, s) == Decoded(e, s) && (Plain(d, s) <==> Plain(e, s))
  {
    SettledAlike(d, e, s);
  }

  lemma NothingDecodes(d: Decoder)
    ensures Decoded(d, []) == []
  {
  }

  lemma {:induction false} ControlDelivers(d: Decoder, io: Socket, size: nat, opts: Byte)
    requires d.need == 0 && d.phase == Control
    requires Plain(d, io.incoming) && Decoded(d, io.incoming) != [] && size > 0
    requires |io.chunks| > |io.incoming| && forall i :: 0 <= i < |io.chunks| ==> io.chunks[i] >= |io.incoming| > 0
    ensures Read(d, io, size, opts).0.Got?
    decreases |io.chunks|, Rank(d), 0
  {
    hide Plain, Final, Decoded, Settle, AfterHeader, AfterOpt, HeaderAborts, Unmask;
    PlainSettles(d, io.incoming);
    if d.msgSize == 0 {
      SettlesOn(d, Reset(d), io.incoming);
      ReadDelivers(Reset(d), io, size, opts);
    } else {
      var (bs, io') := Receive(io, 1);
      assert bs.value == [bs.value[0]];
      ControlByte(d, bs.value[0], io'.incoming);
      if io'.incoming == [] { NothingDecodes(Reset(d)); } else { ReadDelivers(Reset(d), io', size, opts); }
    }
  }

  // ---------- Where chunks do matter ----------

  /** A control payload of two bytes or more: if it comes in one piece it is dropped, if it
      comes a byte at a time its first byte is returned as data. */
  lemma ControlPayloadDependsOnChunks(d: Decoder, incoming: seq<Byte>, size: nat, opts: Byte)
    requires d.phase == Control && d.need == 0 && d.msgSize >= 2 && Opcode(d.lastFlags) != CLOSE
    requires |incoming| >= d.msgSize && size >= d.msgSize
    ensures Read(d, Socket(incoming, [1], []), size, opts).0 == Got(Unmask(incoming[..1], d.mask, d.maskPos))
    ensures Read(d, Socket(incoming, [d.msgSize], []), size, opts).0 == Failed
    ensures Read(d, Socket(incoming, [d.msgSize], []), size, opts).1 == Reset(d)
  {
    hide Unmask;
    var io := Socket(incoming, [d.msgSize], []);
    var (bs, io') := Receive(io, Min(size, d.msgSize));
    assert bs == Some(incoming[..d.msgSize]) && io'.chunks == [];
    assert Read(Reset(d), io', size, opts) == (Failed, Reset(d), io');
  }

  /** A header leaves the opcode recorded as it was exactly if it is a continuation or has
      that opcode already: a control frame is no exception. */
  lemma HeaderKeepsOpcode(d: Decoder)
    requires d.need == 0 && |d.got| == 2
    ensures Opcode(AfterHeader(d).wsFlags) == Opcode(d.wsFlags) <==>
              Opcode(d.got[0]) == CONT || Opcode(d.got[0]) == Opcode(d.wsFlags)
  {
    assert Opcode(Opcode(d.wsFlags) + (d.got[0] - Opcode(d.got[0]))) == Opcode(d.wsFlags);
  }

  /** After any frames the opcode recorded is that of the last data frame exactly when no
      control frame follows it. */
  lemma {:induction false} ControlReplacesOpcode(was: Byte, fs: seq<Frame>)
    requires was < CLOSE && forall i :: 0 <= i < |fs| ==> WellFormed(fs[i])
    ensures LastOpcode(was, fs) == LastDataOpcode(was, fs) <==> !ControlFollows(fs)
  {
    LastOpcodeSplits(was, was, fs);
  }

  lemma {:induction false} LastOpcodeSplits(was: Byte, data: Byte, fs: seq<Frame>)
    requires data < CLOSE && (was == data || was >= CLOSE)
    ensures LastDataOpcode(data, fs) < CLOSE
    ensures LastOpcode(was, fs) == LastDataOpcode(data, fs) || LastOpcode(was, fs) >= CLOSE
    ensures LastOpcode(was, fs) >= CLOSE <==> ControlFollows(fs) || (was >= CLOSE && ContinuesFrom(fs, 0))
    decreases |fs|
  {
    if fs != [] {
      var op, rest := fs[0].opcode, fs[1..];
      LastOpcodeSplits(if op == CONT then was else op, if CONT < op < CLOSE then op else data, rest);
      ContinuesTail(fs);
      assert ControlFollows(fs) <==>
               ControlFollows(rest) || (op >= CLOSE && ContinuesFrom(rest, 0)) by { FollowsTail(fs); }
    }
  }

  lemma ContinuesTail(fs: seq<Frame>)
    requires fs != []
    ensures ContinuesFrom(fs, 0) <==> (fs[0].opcode == CONT || fs[0].opcode >= CLOSE) && ContinuesFrom(fs[1..], 0)
    ensures ContinuesFrom(fs, 1) <==> ContinuesFrom(fs[1..], 0)
  {
    forall i: nat ensures ContinuesFrom(fs, i + 1) <==> ContinuesFrom(fs[1..], i) { ContinuesShift(fs, i); }
  }

  lemma ContinuesShift(fs: seq<Frame>, i: nat)
    requires fs != []
    ensures ContinuesFrom(fs, i + 1) <==> ContinuesFrom(fs[1..], i)
  {
    var rest := fs[1..];
    if ContinuesFrom(fs, i + 1) {
      forall j | i <= j < |rest| ensures rest[j].opcode == CONT || rest[j].opcode >= CLOSE {
        assert rest[j] == fs[j + 1];
      }
    }
    if ContinuesFrom(rest, i) {
      forall j | i + 1 <= j < |fs| ensures fs[j].opcode == CONT || fs[j].opcode >= CLOSE {
        assert fs[j] == rest[j - 1];
      }
    }
  }

  lemma FollowsTail(fs: seq<Frame>)
    requires fs != []
    ensures ControlFollows(fs) <==> ControlFollows(fs[1..]) || (fs[0].opcode >= CLOSE && ContinuesFrom(fs[1..], 0))
  {
    var rest := fs[1..];
    ContinuesTail(fs);
    if i :| 0 <= i < |fs| && fs[i].opcode >= CLOSE && ContinuesFrom(fs, i + 1) {
      if i > 0 {
        ContinuesShift(fs, i);
        assert rest[i - 1].opcode >= CLOSE && ContinuesFrom(rest, i - 1 + 1);
      }
    }
    if i :| 0 <= i < |rest| && rest[i].opcode >= CLOSE && ContinuesFrom(rest, i + 1) {
      ContinuesShift(fs, i + 1);
      assert fs[i + 1].opcode >= CLOSE && ContinuesFrom(fs, i + 1 + 1);
    }
  }

  /** A text frame and a ping: the opcode recorded is that of the ping. */
  lemma PingReplacesDataFlags(d: Decoder, text: seq<Byte>)
    requires AtBoundary(d) && |text| < 126
    ensures var s := [0x81, |text|] + text + [0x89, 0];
            Decoded(d, s) == text && Opcode(Final(d, s).wsFlags) == 9
  {
    hide Decoded, Final, Plain, Encode;
    var f, ping := Frame(TXT, None, text, false), Frame(9, None, [], false);
    ZeroMask(text, 0);
    EncodedPlainly(f);
    EncodedPlainly(ping);
    assert [0x89, 0] + [] == [0x89, 0];
    assert EncodeAll([f, ping]) == Encode(f) + EncodeAll([f, ping][1..]);
    assert [f, ping][1..] == [ping] && [ping][1..] == [] && EncodeAll([]) == [];
    assert EncodeAll([ping]) == Encode(ping) + EncodeAll([ping][1..]) == [0x89, 0];
    assert EncodeAll([f, ping]) == [0x81, |text|] + text + [0x89, 0];
    FramesDecode(d, [f, ping]);
    assert Payloads([f, ping]) == text + Payloads([ping]) && Payloads([ping]) == [] + Payloads([]);
    assert text + [] == text;
    assert LastOpcode(Opcode(d.wsFlags), [f, ping]) == LastOpcode(TXT, [ping]) == LastOpcode(9, []) == 9;
  }

  /** "hi" masked with 1, 2, 3, 4. */
  lemma MaskedTextIsRead()
    ensures Decoded(Start(), [0x81, 0x82, 1, 2, 3, 4, 0x69, 0x6b]) == [0x68, 0x69]
  {
    hide Decoded, Plain, Final, Encode, WireByte, EncodeAll, Payloads, Start;
    var f := Frame(TXT, Some([1, 2, 3, 4]), [0x68, 0x69], false);
    HiOnTheWire();
    EncodedMasked(f, [1, 2, 3, 4]);
    assert Encode(f) == [0x81, 0x82, 1, 2, 3, 4, 0x69, 0x6b];
    OneFrame(f);
    StartsAtBoundary();
    FramesDecode(Start(), [f]);
  }

  lemma EncodedMasked(f: Frame, key: seq<Byte>)
    requires WellFormed(f) && f.mask == Some(key) && !f.long
    ensures Encode(f) == [0x80 + f.opcode, 128 + |f.payload|] + key + Masked(f.payload, key)
  {
  }

  lemma OneFrame(f: Frame)
    requires WellFormed(f)
    ensures EncodeAll([f]) == Encode(f) && Payloads([f]) == if f.opcode < CLOSE then f.payload else []
  {
    assert [f][1..] == [];
    assert Encode(f) + [] == Encode(f) && f.payload + [] == f.payload;
  }

  lemma StartsAtBoundary()
    ensures AtBoundary(Start())
  {
  }

  lemma HiOnTheWire()
    ensures WireByte(0x68, 1) == 0x69 && WireByte(0x69, 2) == 0x6b
  {
    hide WireByte, BitSet, Xor;
    XorIsWire(0x68, 1);
    XorIsWire(0x69, 2);
    XorParts(0x68, 1);
    XorZero(0x34);
    XorParts(0x69, 2);
    XorParts(0x34, 1);
    XorZero(0x1a);
  }

  /** The reply to a close frame is written with the stream's own opcode: it starts like a
      control frame exactly if that is a control opcode, and like a close frame exactly if it
      is CLOSE. */
  lemma CloseReplyIs(io: Socket, opts: Byte)
    ensures var sent := Replied(io, opts).sent;
            && sent == io.sent + [0x80 + Opcode(opts), 2, 0x88, 0]
            && (IsControl(sent[|io.sent|]) <==> Opcode(opts) >= CLOSE)
            && (Opcode(sent[|io.sent|]) == CLOSE <==> Opcode(opts) == CLOSE)
  {
    assert Written(opts, [0x88, 0]) == [0x80 + Opcode(opts), 2, 0x88, 0];
    var sent := Replied(io, opts).sent;
    assert sent[|io.sent|] == 0x80 + Opcode(opts);
  }
}
