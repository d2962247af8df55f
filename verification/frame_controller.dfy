// The frame controller and the frame reader, updating their fields and the caller's buffer in place.
module FrameControllers {
  import opened Prelude
  import opened Masker
  import opened Frames
  import opened Wires
  import opened Sockets
  import opened FrameProtocol

  class FrameController {
    var isWaitForPong: bool
    var isWaitForCloseResponse: bool

    ghost function Value(): Flags
      reads this
    {
      Flags(isWaitForPong, isWaitForCloseResponse)
    }

    constructor ()
      ensures Value() == Flags(false, false)
    {
      isWaitForPong, isWaitForCloseResponse := false, false;
    }

    // Return a control frame's payload to the peer, unmasked, under another frame type.
    static method SendBack(header: FrameHeader, socket: Socket, as': FrameType) returns (r: Result<(), FrameReadError>)
      modifies socket
      ensures IO(r, socket.wire) == FrameProtocol.SendBack(header, old(socket.wire), as')
    {
      var body := socket.RecvPayload(header, MAX_CONTROL_FRAME_PAYLOAD_LEN);
      if body.Err? {
        return Err(body.error);
      }
      var reply := header.(maskKey := None, frameType := as');
      r := socket.SendHeader(reply);
      if r.Ok? {
        r := socket.SendPayload(reply, body.value);
      }
    }

    method ProcessControlFrames(c: Codec, socket: Socket) returns (r: Result<FrameHeader, FrameReadError>)
      modifies this, socket
      ensures Step(r, Value(), socket.wire) == FrameProtocol.ProcessControlFrames(c, old(Value()), old(socket.wire))
    {
      while true
        invariant FrameProtocol.ProcessControlFrames(c, Value(), socket.wire)
               == FrameProtocol.ProcessControlFrames(c, old(Value()), old(socket.wire))
        decreases |socket.wire.input|
      {
        var got := socket.RecvHeader(c);
        if got.Err? {
          return Err(got.error);
        }
        var header := got.value;
        match header.frameType {
          case Text(_) => return Ok(header);
          case Binary(_) => return Ok(header);
          case Continue(_) => return Ok(header);
          case Close =>
            if header.payloadLen > MAX_CONTROL_FRAME_PAYLOAD_LEN {
              return Err(InvalidControlFrame);
            }
            if isWaitForCloseResponse {
              isWaitForCloseResponse := false;
            } else {
              var back := SendBack(header, socket, FrameType.Close);
              if back.Err? {
                return Err(back.error);
              }
            }
            isWaitForPong := false;
            return Err(ClosedByPeer);
          case Ping =>
            if header.payloadLen > MAX_CONTROL_FRAME_PAYLOAD_LEN {
              return Err(InvalidControlFrame);
            }
            var back := SendBack(header, socket, FrameType.Pong);
            if back.Err? {
              return Err(back.error);
            }
          case Pong =>
            if header.payloadLen > MAX_CONTROL_FRAME_PAYLOAD_LEN {
              return Err(InvalidControlFrame);
            }
            if !isWaitForPong {
              return Err(InvalidControlFrame);
            }
            isWaitForPong := false;
        }
      }
    }

    method WaitDataFrame(c: Codec, socket: Socket) returns (r: Result<FrameReader, FrameReadError>)
      modifies this, socket
      ensures var s := FrameProtocol.WaitDataFrame(c, old(Value()), old(socket.wire));
              && Value() == s.flags && socket.wire == s.wire
              && match s.result
                 case Err(e) => r == Err(e)
                 case Ok(rd) => r.Ok? && fresh(r.value.Repr()) && r.value.Bounded() && r.value.Value() == rd
    {
      var got := ProcessControlFrames(c, socket);
      if got.Err? {
        return Err(got.error);
      }
      var header := got.value;
      match header.frameType {
        case Text(fragmented) =>
          var reader := new FrameReader(header, !fragmented, MessageType.Text);
          r := Ok(reader);
        case Binary(fragmented) =>
          var reader := new FrameReader(header, !fragmented, MessageType.Binary);
          r := Ok(reader);
        case _ => r := Err(InvalidFrame);
      }
    }

    method SendPing(socket: Socket) returns (r: Result<(), FrameReadError>)
      modifies this, socket
      ensures Step(r, Value(), socket.wire) == FrameProtocol.SendPing(old(Value()), old(socket.wire))
    {
      if isWaitForPong {
        return Ok(());
      }
      r := socket.SendHeader(FrameHeader(FrameType.Ping, 0, None));
      if r.Ok? {
        isWaitForPong := true;
      }
    }

    method SendClose(socket: Socket, code: seq<Byte>) returns (r: Result<(), FrameReadError>)
      requires |code| == 2
      modifies this, socket
      ensures Step(r, Value(), socket.wire) == FrameProtocol.SendClose(old(Value()), old(socket.wire), code)
    {
      if isWaitForCloseResponse {
        return Ok(());
      }
      var header := FrameHeader(FrameType.Close, 2, None);
      r := socket.SendHeader(header);
      if r.Err? {
        return;
      }
      r := socket.SendPayload(header, code);
      if r.Ok? {
        isWaitForCloseResponse := true;
      }
    }
  }

  class FrameReader {
    var masker: PayloadMasker?
    var payloadLen: usize
    var isFinal: bool
    const frameType: MessageType
    ghost var frameLen: usize  // the length in the header of the current frame

    ghost function Repr(): set<object>
      reads this
    {
      if masker == null then {this} else {this, masker}
    }

    ghost function Value(): Reader
      reads Repr()
    {
      Reader(if masker == null then None else Some(masker.Value()), payloadLen, isFinal, frameType)
    }

    constructor (header: FrameHeader, isFinal: bool, frameType: MessageType)
      ensures fresh(Repr()) && Bounded()
      ensures Value() == Reader(FreshMasker(header), header.payloadLen, isFinal, frameType)
    {
      this.isFinal, this.frameType := isFinal, frameType;
      payloadLen, frameLen := header.payloadLen, header.payloadLen;
      match header.maskKey {
        case None => masker := null;
        case Some(key) => masker := new PayloadMasker(key);
      }
    }

    // Between reads the masker's offset and the rest of the frame together stay within the frame's
    // length, so neither the offset nor the remaining length can wrap around.
    ghost predicate Bounded()
      reads Repr()
    {
      payloadLen <= frameLen && (masker != null ==> masker.offset + payloadLen <= frameLen)
    }

    method ReceiveFramePayload(e: Env, controller: FrameController, socket: Socket, buf: array<Byte>, cut: Cut)
      returns (r: Result<nat, FrameReadError>)
      requires e.rule.AsWritten? && Bounded()
      modifies Repr(), controller, socket, buf
      ensures Bounded() && fresh(Repr() - old(Repr()))
      ensures var c := FrameProtocol.ReceiveFramePayload(e, old(Value()), old(controller.Value()), old(socket.wire),
                                                         Slot(buf.Length, cut));
              && r == c.result && Value() == c.reader && controller.Value() == c.flags && socket.wire == c.wire
              && buf[..] == c.data + old(buf[|c.data|..])
    {
      hide Consume, ReadSome, NextFragment, FreshMasker, FrameProtocol.ProcessControlFrames;
      if buf.Length == 0 {
        return Ok(0);
      }
      ghost var slot := Slot(buf.Length, cut);
      ghost var goal := FrameProtocol.ReceiveFramePayload(e, Value(), controller.Value(), socket.wire, slot);
      while true
        invariant Bounded() && fresh(Repr() - old(Repr()))
        invariant buf[..] == old(buf[..])
        invariant FrameProtocol.ReceiveFramePayload(e, Value(), controller.Value(), socket.wire, slot) == goal
        decreases |socket.wire.input|
      {
        if payloadLen > 0 {
          r := ReadAndUnmask(e, socket, buf, cut, controller);
          return;
        }
        if isFinal {
          return Ok(0);
        }
        var next := controller.ProcessControlFrames(e.codec, socket);
        if next.Err? {
          return Err(next.error);
        }
        match next.value.frameType {
          case Continue(_) =>
            StartFragment(next.value);
          case _ => return Err(InvalidFrame);
        }
      }
    }

    // Take over the length, the final bit and a fresh masker from a continuation header.
    method StartFragment(header: FrameHeader)
      requires header.frameType.Continue?
      modifies this
      ensures Value() == NextFragment(old(Value()), header)
      ensures fresh(Repr() - {this}) && Bounded()
    {
      isFinal := header.frameType.final;
      payloadLen, frameLen := header.payloadLen, header.payloadLen;
      match header.maskKey {
        case None => masker := null;
        case Some(key) => masker := new PayloadMasker(key);
      }
    }

    // The branch of the loop that reads from the current frame.
    method ReadAndUnmask(e: Env, socket: Socket, buf: array<Byte>, cut: Cut, ghost controller: FrameController)
      returns (r: Result<nat, FrameReadError>)
      requires e.rule.AsWritten? && Bounded() && payloadLen > 0 && buf.Length > 0
      modifies Repr(), socket, buf
      ensures Bounded() && Repr() == old(Repr())
      ensures var c := FrameProtocol.ReceiveFramePayload(e, old(Value()), controller.Value(), old(socket.wire),
                                                         Slot(buf.Length, cut));
              && r == c.result && Value() == c.reader && controller.Value() == c.flags && socket.wire == c.wire
              && buf[..] == c.data + old(buf[|c.data|..])
    {
      hide Xor, Masked, ChunkMasked, FrameProtocol.ProcessControlFrames;
      var toRead := Min(buf.Length, payloadLen);
      r := socket.Read(buf, toRead);
      if r.Err? || r.value == 0 {
        return;
      }
      var n := r.value;
      payloadLen := payloadLen - n;
      if masker != null {
        masker.MaskChank(e.word, buf, 0, n, cut);
      }
    }

    method IsFinished() returns (b: bool)
      ensures b == FrameProtocol.IsFinished(Value())
    {
      b := payloadLen == 0 && isFinal;
    }
  }
}
