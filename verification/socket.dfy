// The inner socket as an object; its calls are the assumed contracts of the transport and the codec.
module Sockets {
  import opened Prelude
  import opened Frames
  import opened Wires

  class Socket {
    var wire: Wire

    constructor (wire: Wire)
      ensures this.wire == wire
    {
      this.wire := wire;
    }

    method RecvHeader(c: Codec) returns (r: Result<FrameHeader, FrameReadError>)
      modifies this
      ensures IO(r, wire) == Wires.RecvHeader(c, old(wire))
    {
      var io := Wires.RecvHeader(c, wire);
      r, wire := io.result, io.wire;
    }

    method RecvPayload(h: FrameHeader, capacity: nat) returns (r: Result<seq<Byte>, FrameReadError>)
      modifies this
      ensures IO(r, wire) == Wires.RecvPayload(h, capacity, old(wire))
    {
      var io := Wires.RecvPayload(h, capacity, wire);
      r, wire := io.result, io.wire;
    }

    method SendHeader(h: FrameHeader) returns (r: Result<(), FrameReadError>)
      modifies this
      ensures IO(r, wire) == Wires.SendHeader(h, old(wire))
    {
      var io := Wires.SendHeader(h, wire);
      r, wire := io.result, io.wire;
    }

    method SendPayload(h: FrameHeader, payload: seq<Byte>) returns (r: Result<(), FrameReadError>)
      modifies this
      ensures IO(r, wire) == Wires.SendPayload(h, payload, old(wire))
    {
      var io := Wires.SendPayload(h, payload, wire);
      r, wire := io.result, io.wire;
    }

    // Reads into the front of the buffer and returns the number of bytes read.
    method Read(buf: array<Byte>, want: nat) returns (r: Result<nat, FrameReadError>)
      requires want <= buf.Length
      modifies this, buf
      ensures var io := ReadSome(want, old(wire));
              && wire == io.wire
              && match io.result
                 case Err(e) => r == Err(e) && buf[..] == old(buf[..])
                 case Ok(bytes) => r == Ok(|bytes|) && buf[..] == bytes + old(buf[|bytes|..])
    {
      var io := ReadSome(want, wire);
      wire := io.wire;
      match io.result {
        case Err(e) => r := Err(e);
        case Ok(bytes) =>
          for i := 0 to |bytes|
            invariant wire == io.wire && buf[..i] == bytes[..i] && buf[i..] == old(buf[i..])
          {
            buf[i] := bytes[i];
          }
          r := Ok(|bytes|);
      }
    }

    method Flush() returns (r: Result<(), FrameReadError>)
      modifies this
      ensures IO(r, wire) == Wires.Flush(old(wire))
    {
      var io := Wires.Flush(wire);
      r, wire := io.result, io.wire;
    }

    method Close() returns (r: Result<(), FrameReadError>)
      modifies this
      ensures IO(r, wire) == Shut(old(wire), true)
    {
      var io := Shut(wire, true);
      r, wire := io.result, io.wire;
    }

    method Abort() returns (r: Result<(), FrameReadError>)
      modifies this
      ensures IO(r, wire) == Shut(old(wire), false)
    {
      var io := Shut(wire, false);
      r, wire := io.result, io.wire;
    }

    method Ready() returns (r: Result<bool, FrameReadError>)
      modifies this
      ensures IO(r, wire) == Wires.Ready(old(wire))
    {
      var io := Wires.Ready(wire);
      r, wire := io.result, io.wire;
    }
  }
}
