// The state of the inner socket and the codec calls made on it.
//
// Everything nondeterministic about the transport is drawn from a schedule of fates, one per call:
// how many bytes a read may return, or that the call fails. Quantifying over schedules covers every
// pattern of short reads and I/O errors.
module Wires {
  import opened Prelude
  import opened Masker
  import opened Frames

  datatype Fate = Grant(limit: nat) | Fail(lost: nat)

  // The observable history of a connection, in order.
  datatype Item =
    | Received(header: FrameHeader)
    | ReceivedPayload(payload: seq<Byte>)
    | Sent(header: FrameHeader)
    | SentPayload(payload: seq<Byte>)
    | Flushed
    | ShutDown(graceful: bool)
    | ReadFailed
    | WriteFailed

  // `input` is what the peer has sent and nobody has read, up to end of stream. A socket that was
  // closed or aborted fails every later call.
  datatype Wire = Wire(input: seq<Byte>, log: seq<Item>, fates: seq<Fate>, open: bool)

  datatype IO<T> = IO(result: Result<T, FrameReadError>, wire: Wire)

  function Next(w: Wire): Fate {
    if !w.open then Fail(0)
    else if w.fates == [] then Grant(|w.input|)
    else w.fates[0]
  }

  function Spend(w: Wire): Wire {
    if w.open && w.fates != [] then w.(fates := w.fates[1..]) else w
  }

  function Drop(s: seq<Byte>, n: nat): seq<Byte> {
    s[Min(n, |s|)..]
  }

  function Note(w: Wire, item: Item): Wire {
    w.(log := w.log + [item])
  }

  // Read one frame header. End of stream and malformed bytes are frame errors, not I/O errors.
  function RecvHeader(c: Codec, w: Wire): (r: IO<FrameHeader>)
    ensures |r.wire.input| <= |w.input|
    ensures r.result.Ok? ==> |r.wire.input| < |w.input|
  {
    match Next(w)
    case Fail(lost) => IO(Err(Socket), Note(Spend(w).(input := Drop(w.input, lost)), ReadFailed))
    case Grant(_) =>
      var p := c.parse(w.input);
      if p.Header? && 0 < p.size <= |w.input| then
        IO(Ok(p.header), Note(Spend(w).(input := w.input[p.size..]), Received(p.header)))
      else
        IO(Err(InvalidFrame), Note(Spend(w).(input := Drop(w.input, p.size)), ReadFailed))
  }

  // Read the whole payload announced by a header into a buffer of the given capacity, unmasked.
  function RecvPayload(h: FrameHeader, capacity: nat, w: Wire): (r: IO<seq<Byte>>)
    ensures |r.wire.input| <= |w.input|
    ensures r.result.Ok? ==> |r.result.value| == h.payloadLen
  {
    if h.payloadLen > capacity then IO(Err(InvalidFrame), w)
    else if h.payloadLen == 0 then IO(Ok([]), Note(w, ReceivedPayload([])))
    else
      match Next(w)
      case Fail(lost) => IO(Err(Socket), Note(Spend(w).(input := Drop(w.input, lost)), ReadFailed))
      case Grant(_) =>
        if |w.input| < h.payloadLen then
          IO(Err(InvalidFrame), Note(Spend(w).(input := []), ReadFailed))
        else
          var payload := ApplyKey(h.maskKey, w.input[..h.payloadLen]);
          IO(Ok(payload), Note(Spend(w).(input := w.input[h.payloadLen..]), ReceivedPayload(payload)))
  }

  function SendHeader(h: FrameHeader, w: Wire): (r: IO<()>)
    ensures r.wire.input == w.input
  {
    match Next(w)
    case Fail(_) => IO(Err(Socket), Note(Spend(w), WriteFailed))
    case Grant(_) => IO(Ok(()), Note(Spend(w), Sent(h)))
  }

  // Write a payload after its header; an empty one needs no call on the socket.
  function SendPayload(h: FrameHeader, payload: seq<Byte>, w: Wire): (r: IO<()>)
    ensures r.wire.input == w.input
  {
    if |payload| != h.payloadLen then IO(Err(InvalidFrame), w)
    else if payload == [] then IO(Ok(()), Note(w, SentPayload([])))
    else
      match Next(w)
      case Fail(_) => IO(Err(Socket), Note(Spend(w), WriteFailed))
      case Grant(_) => IO(Ok(()), Note(Spend(w), SentPayload(ApplyKey(h.maskKey, payload))))
  }

  // Read at most `want` bytes: at least one when there is one, none at end of stream.
  function ReadSome(want: nat, w: Wire): (r: IO<seq<Byte>>)
    ensures |r.wire.input| <= |w.input|
    ensures r.result.Ok? ==> |r.result.value| <= Min(want, |w.input|)
  {
    match Next(w)
    case Fail(_) => IO(Err(Socket), Spend(w))
    case Grant(limit) =>
      var n := Min(Min(want, |w.input|), Max(1, limit));
      IO(Ok(w.input[..n]), Spend(w).(input := w.input[n..]))
  }

  function Flush(w: Wire): IO<()> {
    match Next(w)
    case Fail(_) => IO(Err(Socket), Spend(w))
    case Grant(_) => IO(Ok(()), Note(Spend(w), Flushed))
  }

  // Close both streams gracefully, or abort.
  function Shut(w: Wire, graceful: bool): IO<()> {
    match Next(w)
    case Fail(_) => IO(Err(Socket), Spend(w))
    case Grant(_) => IO(Ok(()), Note(Spend(w).(open := false), ShutDown(graceful)))
  }

  // A readiness check; the schedule also supplies the answer.
  function Ready(w: Wire): IO<bool> {
    match Next(w)
    case Fail(_) => IO(Err(Socket), Spend(w))
    case Grant(limit) => IO(Ok(limit > 0), Spend(w))
  }
}
