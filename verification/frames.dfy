// Frames, their headers, and the wire form the external header codec gives them.
module Frames {
  import opened Prelude
  import opened WordMask
  import opened Masker

  const MAX_CONTROL_FRAME_PAYLOAD_LEN: nat := 125

  datatype MessageType = Binary | Text

  datatype FrameType =
    | Text(fragmented: bool)
    | Binary(fragmented: bool)
    | Continue(final: bool)
    | Ping
    | Pong
    | Close

  datatype FrameHeader = FrameHeader(frameType: FrameType, payloadLen: usize, maskKey: Option<Key>)

  function ToFrameType(t: MessageType, fragmented: bool): FrameType {
    match t
    case Binary => FrameType.Binary(fragmented)
    case Text => FrameType.Text(fragmented)
  }

  predicate IsControl(t: FrameType) {
    t.Ping? || t.Pong? || t.Close?
  }

  datatype FrameReadError = ClosedByPeer | InvalidFrame | InvalidControlFrame | Socket

  // The header codec lives in an external crate. It is a parameter: what it parses from the
  // unread input, with the number of bytes taken, and how it writes a header.
  datatype Parsed = Header(header: FrameHeader, size: nat) | Malformed(size: nat)

  datatype Codec = Codec(parse: seq<Byte> -> Parsed, encode: FrameHeader -> seq<Byte>)

  // All that is assumed of it: a written header is read back, whatever follows.
  ghost predicate Lawful(c: Codec) {
    forall h: FrameHeader, rest: seq<Byte> ::
      c.encode(h) != [] && c.parse(c.encode(h) + rest) == Header(h, |c.encode(h)|)
  }

  // Masking as the codec does it to a whole payload: from phase zero, or not at all.
  function ApplyKey(key: Option<Key>, s: seq<Byte>): (r: seq<Byte>)
    ensures |r| == |s|
  {
    match key
    case None => s
    case Some(k) => Masked(k, 0, s)
  }

  type Payload = p: seq<Byte> | |p| < USIZE_LIMIT witness []

  // A frame with its payload in the clear.
  datatype Frame = Frame(frameType: FrameType, maskKey: Option<Key>, payload: Payload)

  function HeaderOf(f: Frame): FrameHeader {
    FrameHeader(f.frameType, |f.payload|, f.maskKey)
  }

  function Encode(c: Codec, f: Frame): seq<Byte> {
    c.encode(HeaderOf(f)) + ApplyKey(f.maskKey, f.payload)
  }

  function EncodeAll(c: Codec, fs: seq<Frame>): seq<Byte> {
    if fs == [] then [] else Encode(c, fs[0]) + EncodeAll(c, fs[1..])
  }
}
