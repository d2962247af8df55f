// The operations of a WebSocket as functions of its state and of the wire under it.
module Sessions {
  import opened Prelude
  import opened Frames
  import opened Wires
  import opened FrameProtocol

  datatype WebSocketError = ConnectionReset | InvalidFrame | ConnectionAborted | Socket

  datatype SocketState = Ready | WsClosed | Closed

  // A session: the WebSocket's own fields, and its inner socket.
  datatype Session = Session(
    flags: Flags,
    reader: Option<Reader>,
    sendType: MessageType,
    state: SocketState,
    wire: Wire)

  function New(w: Wire): Session {
    Session(Flags(false, false), None, MessageType.Binary, SocketState.Ready, w)
  }

  function FromFrameReadError(e: FrameReadError): WebSocketError {
    match e
    case Socket => WebSocketError.Socket
    case ClosedByPeer => ConnectionReset
    case _ => WebSocketError.InvalidFrame
  }

  datatype Call<T> = Call(result: Result<T, WebSocketError>, session: Session)

  datatype ReadCall = ReadCall(result: Result<nat, WebSocketError>, data: seq<Byte>, session: Session)

  // Take the first frame of a message off the wire; a Close met here ends the session.
  function NextMessage(e: Env, s: Session): (r: Call<Reader>)
    ensures |r.session.wire.input| <= |s.wire.input|
    ensures r.result.Ok? ==> |r.session.wire.input| < |s.wire.input|
    ensures r.result.Ok? ==> r.session.reader == Some(r.result.value)
  {
    var step := WaitDataFrame(e.codec, s.flags, s.wire);
    var after := s.(flags := step.flags, wire := step.wire);
    match step.result
    case Ok(rd) => Call(Ok(rd), after.(reader := Some(rd)))
    case Err(err) =>
      Call(Err(FromFrameReadError(err)), if err.ClosedByPeer? then after.(state := WsClosed) else after)
  }

  function WaitMessage(e: Env, s: Session): Call<MessageType> {
    if s.state != SocketState.Ready then Call(Err(ConnectionReset), s)
    else if s.reader.Some? then Call(Ok(s.reader.value.messageType), s)
    else
      var next := NextMessage(e, s);
      match next.result
      case Ok(rd) => Call(Ok(rd.messageType), next.session)
      case Err(err) => Call(Err(err), next.session)
  }

  // Read with a frame reader in place.
  function ReadActive(e: Env, s: Session, slot: Slot): (r: ReadCall)
    requires s.reader.Some?
    ensures |r.session.wire.input| <= |s.wire.input|
    ensures r.result.Ok? ==> r.result.value == |r.data| <= slot.len
  {
    var c := ReceiveFramePayload(e, s.reader.value, s.flags, s.wire, slot);
    var after := s.(flags := c.flags, wire := c.wire, reader := Some(c.reader));
    match c.result
    case Err(err) => ReadCall(Err(FromFrameReadError(err)), [], after)
    case Ok(n) => ReadCall(Ok(n), c.data, if IsFinished(c.reader) then after.(reader := None) else after)
  }

  function Read(e: Env, s: Session, slot: Slot): (r: ReadCall)
    ensures |r.session.wire.input| <= |s.wire.input|
    ensures r.result.Ok? ==> r.result.value == |r.data| <= slot.len
  {
    if s.state != SocketState.Ready then ReadCall(Err(ConnectionReset), [], s)
    else if s.reader.Some? then ReadActive(e, s, slot)
    else
      var next := NextMessage(e, s);
      match next.result
      case Err(err) => ReadCall(Err(err), [], next.session)
      case Ok(_) => ReadActive(e, next.session, slot)
  }

  function FromWire<T>(r: Result<T, FrameReadError>): Result<T, WebSocketError> {
    match r
    case Ok(v) => Ok(v)
    case Err(e) => Err(FromFrameReadError(e))
  }

  function Write(s: Session, buf: Payload): Call<nat> {
    if s.state != SocketState.Ready then Call(Err(ConnectionReset), s)
    else
      var header := FrameHeader(ToFrameType(s.sendType, false), |buf|, None);
      var head := SendHeader(header, s.wire);
      match head.result
      case Err(err) => Call(Err(FromFrameReadError(err)), s.(wire := head.wire))
      case Ok(_) =>
        var body := SendPayload(header, buf, head.wire);
        Call(if body.result.Ok? then Ok(|buf|) else Err(FromFrameReadError(body.result.error)), s.(wire := body.wire))
  }

  function Flush(s: Session): Call<()> {
    if s.state != SocketState.Ready then Call(Err(ConnectionReset), s)
    else
      var io := Wires.Flush(s.wire);
      Call(FromWire(io.result), s.(wire := io.wire))
  }

  // Send a Close, flush, and wait for the peer's Close; a data frame instead is an error.
  function CloseHandshake(e: Env, s: Session): Call<()> {
    var sent := SendClose(s.flags, s.wire, CLOSE_NORMAL);
    var s1 := s.(flags := sent.flags, wire := sent.wire);
    if sent.result.Err? then Call(FromWire(sent.result), s1)
    else
      var flushed := Wires.Flush(s1.wire);
      var s2 := s1.(wire := flushed.wire);
      if flushed.result.Err? then Call(FromWire(flushed.result), s2)
      else
        var step := ProcessControlFrames(e.codec, s2.flags, s2.wire);
        var s3 := s2.(flags := step.flags, wire := step.wire);
        match step.result
        case Ok(_) => Call(Err(WebSocketError.InvalidFrame), s3)
        case Err(err) =>
          if err.ClosedByPeer? then Call(Ok(()), s3.(state := WsClosed))
          else Call(Err(FromFrameReadError(err)), s3)
  }

  // Close the inner socket after a completed handshake, abort it after a failed one.
  function Close(e: Env, s: Session): Call<()> {
    if s.state == Closed then Call(Ok(()), s)
    else
      var handshake := CloseHandshake(e, s);
      var shut := Shut(handshake.session.wire, handshake.result.Ok?);
      var after := handshake.session.(wire := shut.wire);
      if shut.result.Err? then Call(FromWire(shut.result), after)
      else Call(handshake.result, after.(state := Closed))
  }

  function Abort(s: Session): Call<()> {
    if s.state == Closed then Call(Ok(()), s)
    else
      var shut := Shut(s.wire, false);
      var after := s.(wire := shut.wire);
      if shut.result.Err? then Call(FromWire(shut.result), after)
      else Call(Ok(()), after.(state := Closed))
  }

  function CheckReady(s: Session): Call<bool> {
    if s.state != SocketState.Ready then Call(Err(ConnectionReset), s)
    else
      var io := Wires.Ready(s.wire);
      Call(FromWire(io.result), s.(wire := io.wire))
  }
}
