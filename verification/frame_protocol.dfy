// What the frame controller and the frame reader compute, as functions of the wire.
module FrameProtocol {
  import opened Prelude
  import opened WordMask
  import opened Masker
  import opened Frames
  import opened Wires

  // What stays fixed over a connection: the header codec, the masker's offset rule and the machine word.
  datatype Env = Env(codec: Codec, rule: OffsetRule, word: WordSize)

  datatype Flags = Flags(waitForPong: bool, waitForClose: bool)

  datatype Reader = Reader(masker: Option<Phase>, payloadLen: usize, isFinal: bool, messageType: MessageType)

  // A buffer handed to a read: its length, and the cut the masker makes of it.
  datatype Slot = Slot(len: nat, cut: Cut)

  datatype Step<T> = Step(result: Result<T, FrameReadError>, flags: Flags, wire: Wire)

  const CLOSE_NORMAL: seq<Byte> := [Byte(0x03), Byte(0xE8)]

  // Return a control frame's payload to the peer, unmasked, under another frame type.
  function SendBack(h: FrameHeader, w: Wire, as': FrameType): (r: IO<()>)
    ensures |r.wire.input| <= |w.input|
  {
    var body := RecvPayload(h, MAX_CONTROL_FRAME_PAYLOAD_LEN, w);
    if body.result.Err? then IO(Err(body.result.error), body.wire)
    else
      var reply := h.(maskKey := None, frameType := as');
      var head := SendHeader(reply, body.wire);
      if head.result.Err? then head else SendPayload(reply, body.result.value, head.wire)
  }

  // Answer or absorb control frames until a data frame arrives.
  function ProcessControlFrames(c: Codec, f: Flags, w: Wire): (r: Step<FrameHeader>)
    ensures |r.wire.input| <= |w.input|
    ensures r.result.Ok? ==> |r.wire.input| < |w.input|
    decreases |w.input|
  {
    var got := RecvHeader(c, w);
    if got.result.Err? then Step(got.result, f, got.wire)
    else
      var h := got.result.value;
      if !IsControl(h.frameType) then Step(Ok(h), f, got.wire)
      else if h.payloadLen > MAX_CONTROL_FRAME_PAYLOAD_LEN then Step(Err(InvalidControlFrame), f, got.wire)
      else match h.frameType
        case Close =>
          if f.waitForClose then Step(Err(ClosedByPeer), Flags(false, false), got.wire)
          else
            var back := SendBack(h, got.wire, FrameType.Close);
            if back.result.Err? then Step(Err(back.result.error), f, back.wire)
            else Step(Err(ClosedByPeer), f.(waitForPong := false), back.wire)
        case Ping =>
          var back := SendBack(h, got.wire, FrameType.Pong);
          if back.result.Err? then Step(Err(back.result.error), f, back.wire)
          else ProcessControlFrames(c, f, back.wire)
        case _ =>
          if f.waitForPong then ProcessControlFrames(c, f.(waitForPong := false), got.wire)
          else Step(Err(InvalidControlFrame), f, got.wire)
  }

  function FirstReader(h: FrameHeader, fragmented: bool, t: MessageType): Reader {
    Reader(FreshMasker(h), h.payloadLen, !fragmented, t)
  }

  function FreshMasker(h: FrameHeader): Option<Phase> {
    match h.maskKey
    case None => None
    case Some(k) => Some(Phase(0, k))
  }

  // Wait for the first frame of a message.
  function WaitDataFrame(c: Codec, f: Flags, w: Wire): (r: Step<Reader>)
    ensures |r.wire.input| <= |w.input|
    ensures r.result.Ok? ==> |r.wire.input| < |w.input|
  {
    var s := ProcessControlFrames(c, f, w);
    if s.result.Err? then Step(Err(s.result.error), s.flags, s.wire)
    else
      var h := s.result.value;
      match h.frameType
      case Text(fragmented) => Step(Ok(FirstReader(h, fragmented, MessageType.Text)), s.flags, s.wire)
      case Binary(fragmented) => Step(Ok(FirstReader(h, fragmented, MessageType.Binary)), s.flags, s.wire)
      case _ => Step(Err(InvalidFrame), s.flags, s.wire)
  }

  // Send a header-only Ping unless one is already outstanding.
  function SendPing(f: Flags, w: Wire): Step<()> {
    if f.waitForPong then Step(Ok(()), f, w)
    else
      var head := SendHeader(FrameHeader(FrameType.Ping, 0, None), w);
      if head.result.Err? then Step(head.result, f, head.wire)
      else Step(Ok(()), f.(waitForPong := true), head.wire)
  }

  // Send a Close frame unless its response is already awaited.
  function SendClose(f: Flags, w: Wire, code: seq<Byte>): Step<()>
    requires |code| == 2
  {
    if f.waitForClose then Step(Ok(()), f, w)
    else
      var header := FrameHeader(FrameType.Close, 2, None);
      var head := SendHeader(header, w);
      if head.result.Err? then Step(head.result, f, head.wire)
      else
        var body := SendPayload(header, code, head.wire);
        if body.result.Err? then Step(body.result, f, body.wire)
        else Step(Ok(()), f.(waitForClose := true), body.wire)
  }

  // A read of payload: the number of bytes, which land at the front of the buffer, and the new state.
  datatype Chunk = Chunk(result: Result<nat, FrameReadError>, data: seq<Byte>, reader: Reader, flags: Flags, wire: Wire)

  function Consume(e: Env, rd: Reader, cut: Cut, bytes: seq<Byte>): (r: (seq<Byte>, Reader))
    requires |bytes| <= rd.payloadLen
    ensures |r.0| == |bytes|
  {
    var rest := rd.(payloadLen := rd.payloadLen - |bytes|);
    match rd.masker
    case None => (bytes, rest)
    case Some(m) =>
      (ChunkMasked(e.rule, e.word, m, cut, bytes), rest.(masker := Some(ChunkPhase(e.rule, m, |bytes|))))
  }

  function ReceiveFramePayload(e: Env, rd: Reader, f: Flags, w: Wire, slot: Slot): (r: Chunk)
    ensures |r.wire.input| <= |w.input|
    ensures r.result.Ok? ==> r.result.value == |r.data| <= slot.len
    ensures r.result.Err? ==> r.data == []
    decreases |w.input|
  {
    if slot.len == 0 then Chunk(Ok(0), [], rd, f, w)
    else if rd.payloadLen > 0 then
      var io := ReadSome(Min(slot.len, rd.payloadLen), w);
      if io.result.Err? then Chunk(Err(io.result.error), [], rd, f, io.wire)
      else if io.result.value == [] then Chunk(Ok(0), [], rd, f, io.wire)
      else
        var (data, rest) := Consume(e, rd, slot.cut, io.result.value);
        Chunk(Ok(|data|), data, rest, f, io.wire)
    else if rd.isFinal then Chunk(Ok(0), [], rd, f, w)
    else
      var s := ProcessControlFrames(e.codec, f, w);
      if s.result.Err? then Chunk(Err(s.result.error), [], rd, s.flags, s.wire)
      else
        var h := s.result.value;
        if h.frameType.Continue? then
          ReceiveFramePayload(e, NextFragment(rd, h), s.flags, s.wire, slot)
        else Chunk(Err(InvalidFrame), [], rd, s.flags, s.wire)
  }

  function NextFragment(rd: Reader, h: FrameHeader): Reader
    requires h.frameType.Continue?
  {
    rd.(isFinal := h.frameType.final, payloadLen := h.payloadLen, masker := FreshMasker(h))
  }

  predicate IsFinished(rd: Reader) {
    rd.payloadLen == 0 && rd.isFinal
  }
}
