/** The stream object: its fields, the reading loop and the writer. */
module WebSocketStream {
  import opened Arithmetic
  import opened WebSocket

  const BLOCKING_WRITE: Byte := 0x80

  class SocketObject {
    var io: Socket

    constructor (io: Socket)
      ensures this.io == io
    {
      this.io := io;
    }

    /** Reads at most k bytes to dst from at on; negative is an error. */
    method ReadInto(dst: array<Byte>, at: nat, k: nat) returns (n: int)
      requires at + k <= dst.Length
      modifies this, dst
      ensures io == Receive(old(io), k).1
      ensures var bs := Receive(old(io), k).0;
              if bs.None? then n == -1 && dst[..] == old(dst[..])
              else n == |bs.value| && dst[..] == old(dst[..at]) + bs.value + old(dst[at + n..])
    {
      var (bs, io') := Receive(io, k);
      io := io';
      if bs.None? { return -1; }
      n := |bs.value|;
      for i := 0 to n
        invariant io == io'
        invariant forall j :: 0 <= j < dst.Length ==>
                    dst[j] == if at <= j < at + i then bs.value[j - at] else old(dst[j])
      {
        dst[at + i] := bs.value[i];
      }
      assert dst[..] == old(dst[..at]) + bs.value + old(dst[at + n..]);
    }

    method WriteExactly(data: seq<Byte>)
      modifies this
      ensures io == old(io).(sent := old(io).sent + data)
    {
      io := io.(sent := io.sent + data);
    }
  }

  /** Count(0) is also what end of stream returns. */
  datatype Return = Count(n: nat) | Error | Abort

  ghost predicate Returns(o: Outcome, r: Return, buf: seq<Byte>) {
    match o
    case Got(data) => r == Count(|data|) && |data| <= |buf| && buf[..|data|] == data
    case Zero => r == Count(0)
    case Failed => r == Error
    case Aborted => r == Abort
  }

  class Stream {
    const sock: SocketObject
    const buf: array<Byte>
    const mask: array<Byte>
    var msgSz: nat
    var state: Phase
    var toRecv: nat
    var maskPos: Byte
    var bufPos: nat
    var opts: Byte
    var wsFlags: Byte
    var lastFlags: Byte

    ghost predicate Valid()
      reads this
    {
      && buf.Length == 6 && mask.Length == 4 && buf != mask
      && bufPos + toRecv <= 6
      && (state in {Payload, Control} ==> toRecv == 0 && bufPos == 0)
      && (state == Header ==> bufPos + toRecv == 2)
      && (state == Opt ==> bufPos + toRecv in {2, 4, 6})
    }

    ghost function Abs(): Decoder
      reads this, buf, mask
      requires Valid()
    {
      Decoder(state, buf[..bufPos], toRecv, mask[..], msgSz, maskPos, lastFlags, wsFlags)
    }

    constructor (sock: SocketObject, blockingWrite: bool)
      ensures Valid() && Abs() == Start() && this.sock == sock
      ensures Opcode(opts) == TXT && fresh(buf) && fresh(mask)
    {
      this.sock := sock;
      buf := new Byte[6];
      mask := new Byte[4](_ => 0);
      msgSz, state, toRecv, maskPos, bufPos := 0, Header, 2, 0, 0;
      opts := if blockingWrite then TXT + BLOCKING_WRITE else TXT;
      wsFlags, lastFlags := 0, 0;
    }

    /** Receives what the header buffer lacks; stop says the call returns r. */
    method FillHeader(size: nat) returns (stop: bool, r: Return)
      requires Valid() && toRecv != 0
      modifies this`bufPos, this`toRecv, buf, sock
      ensures Valid() && opts == old(opts)
      ensures var o := Read(old(Abs()), old(sock.io), size, opts);
              if stop then o == (if r == Error then Failed else Zero, Abs(), sock.io) && (r == Error || r == Count(0))
              else toRecv == 0 && o == Process(Abs(), sock.io, size, opts)
      ensures !stop ==> |sock.io.chunks| < |old(sock.io).chunks|
    {
      hide Process;
      ghost var before := buf[..bufPos];
      var n := sock.ReadInto(buf, bufPos, toRecv);
      assert buf[..bufPos] == before;
      if n <= 0 { return true, if n == 0 then Count(0) else Error; }
      ghost var bs := Receive(old(sock.io), toRecv).0.value;
      assert buf[..bufPos + n] == before + bs;
      bufPos := bufPos + n;
      toRecv := toRecv - n;
      assert Abs() == Filled(old(Abs()), bs);
      if toRecv != 0 { return true, Error; }
      return false, Error;
    }

    method SetMask(m0: Byte, m1: Byte, m2: Byte, m3: Byte)
      requires mask.Length == 4
      modifies mask
      ensures mask[..] == [m0, m1, m2, m3]
    {
      mask[0], mask[1], mask[2], mask[3] := m0, m1, m2, m3;
    }

    method OnHeader() returns (abort: bool)
      requires Valid() && state == Header && toRecv == 0
      modifies this, mask
      ensures Valid() && opts == old(opts)
      ensures abort <==> HeaderAborts(old(buf[..bufPos]))
      ensures !abort ==> Abs() == AfterHeader(old(Abs()))
    {
      if !Top(buf[0]) { return true; }
      var frameType := buf[0];
      lastFlags := frameType;
      if Opcode(buf[0]) == CONT {
        wsFlags := Opcode(wsFlags) + (buf[0] - Opcode(buf[0]));
      } else {
        wsFlags := buf[0];
      }
      SetMask(0, 0, 0, 0);
      var recv := 0;
      var sz := Low7(buf[1]);
      if sz == 126 {
        recv := recv + 2;
      } else if sz == 127 {
        toRecv := recv;
        return true;
      }
      if Top(buf[1]) { recv := recv + 4; }
      bufPos := 0;
      toRecv := recv;
      msgSz := sz;
      if recv != 0 {
        state := Opt;
      } else if IsControl(frameType) {
        state := Control;
      } else {
        state := Payload;
      }
      return false;
    }

    method OnOpt()
      requires Valid() && state == Opt && toRecv == 0
      modifies this, mask
      ensures Valid() && opts == old(opts)
      ensures Abs() == AfterOpt(old(Abs()))
    {
      ghost var got := buf[..bufPos];
      if bufPos % 4 == 2 {
        var high: int, low: int := buf[0], buf[1];
        msgSz := high * 256 + low;
      }
      if bufPos >= 4 {
        var from := bufPos - 4;
        SetMask(buf[from], buf[from + 1], buf[from + 2], buf[from + 3]);
        assert mask[..] == got[from..];
      }
      bufPos := 0;
      state := if IsControl(lastFlags) then Control else Payload;
    }

    method ResetFrame()
      requires Valid() && toRecv == 0
      modifies this
      ensures Valid() && opts == old(opts)
      ensures Abs() == Reset(old(Abs()))
    {
      state, toRecv, maskPos, bufPos, msgSz := Header, 2, 0, 0, 0;
    }

    /** Applies the mask to the first n bytes of the caller's buffer, in place. */
    method UnmaskInPlace(dst: array<Byte>, n: nat)
      requires Valid() && n <= dst.Length && dst != mask
      modifies this`maskPos, dst
      ensures maskPos == (old(maskPos) + n) % 256
      ensures dst[..n] == Unmask(old(dst[..n]), mask[..], old(maskPos))
    {
      for i := 0 to n
        invariant maskPos == (old(maskPos) + i) % 256
        invariant forall j :: 0 <= j < i ==> dst[j] == XorByte(old(dst[j]), MaskByte(mask[..], old(maskPos) + j))
        invariant forall j :: i <= j < dst.Length ==> dst[j] == old(dst[j])
      {
        dst[i] := XorByte(dst[i], mask[maskPos % 4]);
        WrapsAlike(old(maskPos) + i);
        maskPos := (maskPos + 1) % 256;
      }
      UnmaskIs(old(dst[..n]), mask[..], old(maskPos), dst[..n]);
    }

    /** Sends one frame with the current opcode. */
    method Write(data: seq<Byte>) returns (r: Return)
      modifies sock
      ensures |data| >= 0x10000 ==> r == Abort && sock.io == old(sock.io)
      ensures |data| < 0x10000 ==> r == Count(|data|)
      ensures |data| < 0x10000 ==> sock.io == old(sock.io).(sent := old(sock.io).sent + Written(opts, data))
    {
      var size := |data|;
      if size >= 0x10000 { return Abort; }
      var header: seq<Byte> := [0x80 + Opcode(opts)];
      if size < 126 {
        header := header + [size];
      } else {
        header := header + [126, size / 256, size % 256];
      }
      sock.WriteExactly(header);
      sock.WriteExactly(data);
      assert header + data == Written(opts, data);
      return Count(size);
    }

    /** Reads a piece of the payload to dst and unmasks it there. */
    method ReceivePayload(dst: array<Byte>, size: nat) returns (n: int)
      requires Valid() && state in {Payload, Control} && size <= dst.Length && dst != buf && dst != mask
      modifies this`maskPos, this`msgSz, sock, dst
      ensures Valid()
      ensures sock.io == Receive(old(sock.io), Min(size, old(msgSz))).1
      ensures var bs := Receive(old(sock.io), Min(size, old(msgSz))).0;
              if bs.None? then n == -1 && Abs() == old(Abs())
              else n == |bs.value| && Abs() == Consumed(old(Abs()), n) && n <= dst.Length
                   && dst[..n] == Unmask(bs.value, mask[..], old(maskPos))
    {
      hide Unmask;
      ghost var d, io := Abs(), sock.io;
      var sz := Min(size, msgSz);
      n := sock.ReadInto(dst, 0, sz);
      assert Abs() == d;
      if n < 0 { return; }
      assert dst[..n] == Receive(io, sz).0.value;
      UnmaskInPlace(dst, n);
      msgSz := msgSz - n;
    }

    /** Back to waiting for a header; a close frame is answered. */
    method EndFrame() returns (control: bool, closed: bool)
      requires Valid() && state in {Payload, Control}
      modifies this, sock
      ensures Valid() && opts == old(opts)
      ensures Abs() == Reset(old(Abs()))
      ensures control == (old(state) == Control) && closed == Closes(old(Abs()))
      ensures sock.io == if closed then Replied(old(sock.io), opts) else old(sock.io)
    {
      var last := state;
      control, closed := last == Control, false;
      ResetFrame();
      if last == Control && Opcode(lastFlags) == CLOSE {
        closed := true;
        var r := Write([0x88, 0]);
      }
    }

    /** The payload of the current frame, or its end; stop says the call returns r. */
    method OnPayload(dst: array<Byte>, size: nat) returns (stop: bool, r: Return)
      requires Valid() && state in {Payload, Control} && size <= dst.Length && dst != buf && dst != mask
      modifies this, sock, dst
      ensures Valid() && opts == old(opts)
      ensures var o := Process(old(Abs()), old(sock.io), size, opts);
              if stop then Returns(o.0, r, dst[..]) && o.1 == Abs() && o.2 == sock.io
              else o == Read(Abs(), sock.io, size, opts)
      ensures !stop ==>
                |sock.io.chunks| < |old(sock.io).chunks| ||
                (|sock.io.chunks| == |old(sock.io).chunks| && old(msgSz) == 0)
      ensures !stop ==> state == Header && toRecv == 2
    {
      hide Process, Read, Unmask;
      ghost var d := Abs();
      PayloadIs(d, sock.io, size, opts);
      var n := 0;
      if msgSz != 0 {
        n := ReceivePayload(dst, size);
        if n <= 0 {
          assert n == 0 ==> Abs() == d;
          return true, if n == 0 then Count(0) else Error;
        }
        if msgSz != 0 { return true, Count(n); }
      }
      var control, closed := EndFrame();
      assert Abs() == Reset(d);
      if closed { return true, Count(0); }
      if control { return false, Error; }
      if n != 0 { return true, Count(n); }
      return false, Error;
    }

    method ReadStream(dst: array<Byte>, size: nat) returns (r: Return)
      requires Valid() && size <= dst.Length && dst != buf && dst != mask
      modifies this, buf, mask, sock, dst
      ensures opts == old(opts)
      ensures var o := Read(old(Abs()), old(sock.io), size, opts);
              Returns(o.0, r, dst[..]) && (o.0 != Aborted ==> Valid() && Abs() == o.1 && sock.io == o.2)
    {
      hide Process, AfterHeader, AfterOpt, HeaderAborts;
      ghost var whole := Read(Abs(), sock.io, size, opts);
      while true
        invariant Valid() && opts == old(opts)
        invariant Read(Abs(), sock.io, size, opts) == whole
        decreases |sock.io.chunks|, Rank(Abs())
      {
        ghost var chunks, rank := |sock.io.chunks|, Rank(Abs());
        if toRecv != 0 {
          var stop;
          stop, r := FillHeader(size);
          if stop { return; }
        }
        assert Process(Abs(), sock.io, size, opts) == whole;
        ProcessIs(Abs(), sock.io, size, opts);
        match state
        case Header =>
          var abort := OnHeader();
          if abort { return Abort; }
        case Opt => OnOpt();
        case _ =>
          var stop;
          stop, r := OnPayload(dst, size);
          if stop { return; }
      }
    }

    /** The ioctl requests: the flags of the last header, and the opcode to write with. */
    method GetDataOpts() returns (r: Byte)
      ensures r == Opcode(wsFlags)
    {
      return Opcode(wsFlags);
    }

    method SetDataOpts(arg: Byte) returns (cur: Byte)
      modifies this`opts
      ensures cur == Opcode(old(opts)) && Opcode(opts) == Opcode(arg) && Top(opts) == Top(old(opts))
    {
      cur := Opcode(opts);
      opts := opts - Opcode(opts) + Opcode(arg);
    }

    /** A close frame that comes while arg is the opcode to write with. */
    method AnswerClose(arg: Byte) returns (was: Byte)
      requires Valid() && state == Control && Opcode(lastFlags) == CLOSE
      modifies this, sock
      ensures Valid() && |sock.io.sent| > |old(sock.io.sent)|
      ensures IsControl(sock.io.sent[|old(sock.io.sent)|]) <==> Opcode(arg) >= CLOSE
      ensures Opcode(sock.io.sent[|old(sock.io.sent)|]) == CLOSE <==> Opcode(arg) == CLOSE
    {
      was := SetDataOpts(arg);
      CloseReplyIs(sock.io, opts);
      var control, closed := EndFrame();
    }

    /** Any number of reads of any sizes, with whatever chunks the socket delivers: what they
        return is the payload of the stream, in order, up to what is still unread. */
    method ReadMany(dst: array<Byte>, sizes: seq<nat>) returns (out: seq<Byte>)
      requires Valid() && dst != buf && dst != mask
      requires forall i :: 0 <= i < |sizes| ==> sizes[i] <= dst.Length
      requires Plain(Abs(), sock.io.incoming)
      modifies this, buf, mask, sock, dst
      ensures Valid() && Plain(Abs(), sock.io.incoming)
      ensures out + Decoded(Abs(), sock.io.incoming) == Decoded(old(Abs()), old(sock.io.incoming))
      ensures sock.io.incoming == [] ==> out == Decoded(old(Abs()), old(sock.io.incoming))
      ensures Final(Abs(), sock.io.incoming) == Final(old(Abs()), old(sock.io.incoming))
      ensures old(Settle(Abs()) == Abs()) ==> Settle(Abs()) == Abs()
    {
      hide Read, Plain, Decoded, Final, Settle;
      out := [];
      ghost var all := Decoded(Abs(), sock.io.incoming);
      ghost var end := Final(Abs(), sock.io.incoming);
      for i := 0 to |sizes|
        invariant Valid() && Plain(Abs(), sock.io.incoming)
        invariant out + Decoded(Abs(), sock.io.incoming) == all
        invariant Final(Abs(), sock.io.incoming) == end
        invariant old(Settle(Abs()) == Abs()) ==> Settle(Abs()) == Abs()
      {
        ghost var d, io := Abs(), sock.io;
        ReadKeepsStream(d, io, sizes[i], opts);
        var r := ReadStream(dst, sizes[i]);
        if r.Count? { out := out + dst[..r.n]; }
      }
      NothingToDecode(Abs());
    }
  }

  lemma PayloadIs(d: Decoder, io: Socket, size: nat, opts: Byte)
    requires d.need == 0 && d.phase in {Payload, Control}
    ensures var o := Process(d, io, size, opts);
            if d.msgSize == 0 then
              o == if Closes(d) then (Zero, Reset(d), Replied(io, opts)) else Read(Reset(d), io, size, opts)
            else
              var (bs, io') := Receive(io, Min(size, d.msgSize));
              if bs.None? then o == (Failed, d, io')
              else if bs.value == [] then o == (Zero, d, io')
              else
                var n, data := |bs.value|, Unmask(bs.value, d.mask, d.maskPos);
                if n < d.msgSize then o == (Got(data), Consumed(d, n), io')
                else if d.phase == Payload then o == (Got(data), Reset(d), io')
                else if Closes(d) then o == (Zero, Reset(d), Replied(io', opts))
                else o == Read(Reset(d), io', size, opts)
  {
  }

  lemma NothingToDecode(d: Decoder)
    ensures Decoded(d, []) == []
  {
  }

  lemma UnmaskIs(bs: seq<Byte>, mask: seq<Byte>, pos: nat, r: seq<Byte>)
    requires |r| == |bs| && forall j :: 0 <= j < |bs| ==> r[j] == XorByte(bs[j], MaskByte(mask, pos + j))
    ensures r == Unmask(bs, mask, pos)
  {
    if bs != [] { UnmaskIs(bs[1..], mask, pos + 1, r[1..]); }
  }

  lemma ProcessIs(d: Decoder, io: Socket, size: nat, opts: Byte)
    requires d.need == 0
    ensures d.phase == Header && HeaderAborts(d.got) ==> Process(d, io, size, opts) == (Aborted, d, io)
    ensures d.phase == Header && !HeaderAborts(d.got) ==>
              Process(d, io, size, opts) == Read(AfterHeader(d), io, size, opts)
    ensures d.phase == Opt ==> Process(d, io, size, opts) == Read(AfterOpt(d), io, size, opts)
    ensures Rank(AfterHeader(d)) < 3 && Rank(AfterOpt(d)) <= 1
  {
  }

  /** A new stream over any such frames, cut into any chunks and read with any sizes,
      returns a prefix of the payloads; once the socket is drained, all of them, and then
      the opcode it reports is that of the last frame that is no continuation. */
  method ReadFrames(ghost fs: seq<Frame>, incoming: seq<Byte>, chunks: seq<nat>, sizes: seq<nat>)
      returns (out: seq<Byte>, drained: bool, opcode: Byte)
    requires forall i :: 0 <= i < |fs| ==> WellFormed(fs[i]) && IsPlain(fs[i])
    requires incoming == EncodeAll(fs)
    ensures out <= Payloads(fs)
    ensures drained ==> out == Payloads(fs) && opcode == LastOpcode(0, fs)
    ensures drained ==> (opcode == LastDataOpcode(0, fs) <==> !ControlFollows(fs))
  {
    hide Plain, Decoded, Start, Final, ControlFollows, LastOpcode, LastDataOpcode, Settle, EncodeAll, Payloads;
    var sock := new SocketObject(Socket(incoming, chunks, []));
    var stream := new Stream(sock, false);
    StartIsBoundary();
    FramesDecode(Start(), fs);
    ControlReplacesOpcode(0, fs);
    var max: nat := 0;
    for i := 0 to |sizes|
      invariant forall j :: 0 <= j < i ==> sizes[j] <= max
    {
      if sizes[i] > max { max := sizes[i]; }
    }
    var dst := new Byte[max];
    out := stream.ReadMany(dst, sizes);
    drained := sock.io.incoming == [];
    opcode := stream.GetDataOpts();
    FinalIsSettled(stream.Abs());
  }

  lemma FinalIsSettled(d: Decoder)
    requires Settle(d) == d
    ensures Final(d, []) == d
  {
  }

  lemma StartIsBoundary()
    ensures AtBoundary(Start()) && Settle(Start()) == Start() && Opcode(Start().wsFlags) == 0
  {
  }
}
