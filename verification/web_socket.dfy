// The WebSocket as an object over its inner socket, frame controller and active frame reader.
module WebSockets {
  import opened Prelude
  import opened Masker
  import opened Frames
  import opened Wires
  import opened Sockets
  import opened FrameProtocol
  import opened FrameControllers
  import opened Sessions

  class WebSocket {
    const inner: Socket
    const frameController: FrameController
    var activeFrameReader: FrameReader?
    var sendFrameType: MessageType
    var socketState: SocketState

    ghost function Repr(): set<object>
      reads this, activeFrameReader
    {
      {this, inner, frameController} + if activeFrameReader == null then {} else activeFrameReader.Repr()
    }

    ghost function Value(): Session
      reads Repr()
    {
      Session(
        frameController.Value(),
        if activeFrameReader == null then None else Some(activeFrameReader.Value()),
        sendFrameType,
        socketState,
        inner.wire)
    }

    ghost predicate Valid()
      reads Repr()
    {
      activeFrameReader != null ==> activeFrameReader.Bounded()
    }

    constructor (socket: Socket)
      ensures Valid() && fresh(Repr() - {socket}) && inner == socket
      ensures Value() == New(socket.wire)
    {
      inner := socket;
      frameController := new FrameController();
      activeFrameReader := null;
      sendFrameType := MessageType.Binary;
      socketState := SocketState.Ready;
    }

    method SetSendFrameType(t: MessageType)
      modifies this`sendFrameType
      ensures Value() == old(Value()).(sendType := t)
    {
      sendFrameType := t;
    }

    method IsMessagePending() returns (b: bool)
      ensures b == Value().reader.Some?
    {
      b := activeFrameReader != null;
    }

    // Install a reader for the next message, or fail; a Close met here ends the session.
    method NextMessage(e: Env) returns (r: Result<(), WebSocketError>)
      requires Valid() && activeFrameReader == null
      modifies Repr()
      ensures Valid() && fresh(Repr() - old(Repr()))
      ensures var c := Sessions.NextMessage(e, old(Value()));
              && Value() == c.session
              && (if c.result.Ok? then r.Ok? && activeFrameReader != null else r == Err(c.result.error))
    {
      var next := frameController.WaitDataFrame(e.codec, inner);
      match next {
        case Err(err) =>
          if err.ClosedByPeer? {
            socketState := WsClosed;
          }
          r := Err(FromFrameReadError(err));
        case Ok(reader) =>
          activeFrameReader := reader;
          r := Ok(());
      }
    }

    method WaitMessage(e: Env) returns (r: Result<MessageType, WebSocketError>)
      requires Valid()
      modifies Repr()
      ensures Valid() && fresh(Repr() - old(Repr()))
      ensures Call(r, Value()) == Sessions.WaitMessage(e, old(Value()))
    {
      if socketState != SocketState.Ready {
        return Err(ConnectionReset);
      }
      if activeFrameReader == null {
        var next := NextMessage(e);
        if next.Err? {
          return Err(next.error);
        }
      }
      r := Ok(activeFrameReader.frameType);
    }

    // The first n bytes of the buffer receive the data; the others keep their contents.
    method Read(e: Env, buf: array<Byte>, cut: Cut) returns (r: Result<nat, WebSocketError>)
      requires Valid() && e.rule.AsWritten?
      modifies Repr(), buf
      ensures Valid() && fresh(Repr() - old(Repr()))
      ensures var c := Sessions.Read(e, old(Value()), Slot(buf.Length, cut));
              && r == c.result && Value() == c.session
              && buf[..] == c.data + old(buf[|c.data|..])
    {
      hide FrameProtocol.ReceiveFramePayload, WaitDataFrame, FromFrameReadError;
      if socketState != SocketState.Ready {
        return Err(ConnectionReset);
      }
      if activeFrameReader == null {
        var next := NextMessage(e);
        if next.Err? {
          return Err(next.error);
        }
      }
      var read := activeFrameReader.ReceiveFramePayload(e, frameController, inner, buf, cut);
      if read.Err? {
        return Err(FromFrameReadError(read.error));
      }
      var finished := activeFrameReader.IsFinished();
      if finished {
        activeFrameReader := null;
      }
      r := Ok(read.value);
    }

    method Write(buf: Payload) returns (r: Result<nat, WebSocketError>)
      requires Valid()
      modifies inner
      ensures Valid() && Call(r, Value()) == Sessions.Write(old(Value()), buf)
    {
      if socketState != SocketState.Ready {
        return Err(ConnectionReset);
      }
      var header := FrameHeader(ToFrameType(sendFrameType, false), |buf|, None);
      var head := inner.SendHeader(header);
      if head.Err? {
        return Err(FromFrameReadError(head.error));
      }
      var body := inner.SendPayload(header, buf);
      if body.Err? {
        return Err(FromFrameReadError(body.error));
      }
      r := Ok(|buf|);
    }

    method Flush() returns (r: Result<(), WebSocketError>)
      requires Valid()
      modifies inner
      ensures Valid() && Call(r, Value()) == Sessions.Flush(old(Value()))
    {
      if socketState != SocketState.Ready {
        return Err(ConnectionReset);
      }
      var flushed := inner.Flush();
      r := FromWire(flushed);
    }

    method CloseHandshake(e: Env) returns (r: Result<(), WebSocketError>)
      requires Valid()
      modifies this, inner, frameController
      ensures Valid() && activeFrameReader == old(activeFrameReader)
      ensures Call(r, Value()) == Sessions.CloseHandshake(e, old(Value()))
    {
      var sent := frameController.SendClose(inner, CLOSE_NORMAL);
      if sent.Err? {
        return Err(FromFrameReadError(sent.error));
      }
      var flushed := inner.Flush();
      if flushed.Err? {
        return Err(FromFrameReadError(flushed.error));
      }
      var step := frameController.ProcessControlFrames(e.codec, inner);
      match step {
        case Ok(_) => r := Err(WebSocketError.InvalidFrame);
        case Err(err) =>
          if err.ClosedByPeer? {
            socketState := WsClosed;
            r := Ok(());
          } else {
            r := Err(FromFrameReadError(err));
          }
      }
    }

    method Close(e: Env) returns (r: Result<(), WebSocketError>)
      requires Valid()
      modifies this, inner, frameController
      ensures Valid() && activeFrameReader == old(activeFrameReader)
      ensures Call(r, Value()) == Sessions.Close(e, old(Value()))
    {
      hide Sessions.CloseHandshake;
      if socketState == Closed {
        return Ok(());
      }
      r := CloseHandshake(e);
      if r.Ok? {
        var closed := inner.Close();
        if closed.Err? {
          return Err(FromFrameReadError(closed.error));
        }
        socketState := Closed;
        return;
      }
      var aborted := inner.Abort();
      if aborted.Err? {
        return Err(FromFrameReadError(aborted.error));
      }
      socketState := Closed;
    }

    method Abort() returns (r: Result<(), WebSocketError>)
      requires Valid()
      modifies this, inner
      ensures Valid() && activeFrameReader == old(activeFrameReader)
      ensures Call(r, Value()) == Sessions.Abort(old(Value()))
    {
      if socketState == Closed {
        return Ok(());
      }
      var aborted := inner.Abort();
      if aborted.Err? {
        return Err(FromFrameReadError(aborted.error));
      }
      socketState := Closed;
      r := Ok(());
    }

    method CheckReady() returns (r: Result<bool, WebSocketError>)
      requires Valid()
      modifies inner
      ensures Valid() && Call(r, Value()) == Sessions.CheckReady(old(Value()))
    {
      if socketState != SocketState.Ready {
        return Err(ConnectionReset);
      }
      var ready := inner.Ready();
      r := FromWire(ready);
    }
  }
}
