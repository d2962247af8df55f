// An observer that sees only a connection's history and knows the rules of RFC 6455 for control
// frames (sections 5.5.1 to 5.5.3) and for a server's output (section 5.1). It rejects a history that
// breaks one of them, except the one rule the code does break, no data frame after a Close (section
// 5.5.1): those frames it counts and goes on, so that `lateData` says whether that rule was kept too.
// A write that fails releases the endpoint from the frame it was writing.
module Monitors {
  import opened Prelude
  import opened Masker
  import opened Frames
  import opened Wires
  import opened FrameProtocol

  // What the endpoint must do next.
  datatype Duty =
    | Idle
    | Answer(header: FrameHeader)                  // read the payload of a Ping or Close
    | Reply(frameType: FrameType, payload: seq<Byte>) // write the header of the answer to it
    | Finish(header: FrameHeader, expected: Option<seq<Byte>>, isAnswer: bool) // write the payload announced

  datatype Monitor = Monitor(
    duty: Duty,
    waitForPong: bool,
    waitForClose: bool,
    localCloses: nat,      // Close frames sent on the endpoint's own initiative
    closeResponses: nat,   // Close frames consumed as responses to those
    answeredCloses: nat,   // Close frames of the peer that were answered
    pings: nat,            // Pings sent
    pongs: nat,            // Pongs accepted
    forgivenPings: nat,    // Pings whose Pong is no longer awaited because of a Close
    lateData: nat)         // data frames begun after a Close frame was sent

  const START := Monitor(Idle, false, false, 0, 0, 0, 0, 0, 0, 0)

  // The Close frames sent in full, on the endpoint's initiative or as answers.
  function Closes(m: Monitor): nat {
    m.localCloses + m.answeredCloses
  }

  function StartData(m: Monitor, h: FrameHeader): Monitor {
    m.(duty := Finish(h, None, false), lateData := m.lateData + if Closes(m) > 0 then 1 else 0)
  }

  function PeerClosed(m: Monitor): Monitor {
    m.(duty := Idle, waitForPong := false, forgivenPings := m.forgivenPings + if m.waitForPong then 1 else 0)
  }

  // A header arrives. Oversized control frames and unsolicited Pongs are rejected without an answer.
  function ObserveReceived(m: Monitor, h: FrameHeader): Monitor {
    if !IsControl(h.frameType) || h.payloadLen > 125 then m
    else match h.frameType
      case Close =>
        if m.waitForClose then PeerClosed(m.(waitForClose := false, closeResponses := m.closeResponses + 1))
        else m.(duty := Answer(h))
      case Ping => m.(duty := Answer(h))
      case _ => if m.waitForPong then m.(waitForPong := false, pongs := m.pongs + 1) else m
  }

  // The endpoint starts a frame on its own initiative: never masked, never fragmented, no Ping or Close
  // while one is outstanding.
  function ObserveSent(m: Monitor, h: FrameHeader): Option<Monitor> {
    if h.maskKey.Some? then None
    else match h.frameType
      case Text(fragmented) => if fragmented then None else Some(StartData(m, h))
      case Binary(fragmented) => if fragmented then None else Some(StartData(m, h))
      case Close =>
        if m.waitForClose || h.payloadLen != 2 then None
        else Some(m.(duty := Finish(h, Some([Byte(0x03), Byte(0xE8)]), false)))
      case Ping =>
        if m.waitForPong || h.payloadLen != 0 then None
        else Some(m.(waitForPong := true, pings := m.pings + 1))
      case _ => None
  }

  function ObserveFinished(m: Monitor): Monitor
    requires m.duty.Finish?
  {
    if !m.duty.header.frameType.Close? then m.(duty := Idle)
    else if m.duty.isAnswer then PeerClosed(m.(answeredCloses := m.answeredCloses + 1))
    else m.(duty := Idle, waitForClose := true, localCloses := m.localCloses + 1)
  }

  // None is a violation.
  function Observe(m: Monitor, item: Item): Option<Monitor> {
    match m.duty
    case Idle =>
      (match item
       case Received(h) => Some(ObserveReceived(m, h))
       case Sent(h) => ObserveSent(m, h)
       case ReceivedPayload(_) => None
       case SentPayload(_) => None
       case _ => Some(m))
    case Answer(h) =>
      (match item
       case ReceivedPayload(p) =>
         if |p| != h.payloadLen then None
         else Some(m.(duty := Reply(if h.frameType.Ping? then FrameType.Pong else FrameType.Close, p)))
       case ReadFailed => Some(m.(duty := Idle))
       case _ => None)
    case Reply(t, p) =>
      (match item
       case Sent(h) =>
         if h.frameType == t && h.payloadLen == |p| && h.maskKey == None then Some(m.(duty := Finish(h, Some(p), true)))
         else None
       case WriteFailed => Some(m.(duty := Idle))
       case _ => None)
    case Finish(h, expected, _) =>
      (match item
       case SentPayload(p) =>
         if |p| != h.payloadLen || (expected.Some? && expected.value != p) then None else Some(ObserveFinished(m))
       case WriteFailed => Some(m.(duty := Idle))
       case _ => None)
  }

  function Watch(log: seq<Item>): Option<Monitor> {
    if log == [] then Some(START)
    else
      match Watch(log[..|log| - 1])
      case None => None
      case Some(m) => Observe(m, log[|log| - 1])
  }

  lemma {:induction false} WatchOneMore(log: seq<Item>, item: Item)
    requires Watch(log).Some?
    ensures Watch(log + [item]) == Observe(Watch(log).value, item)
  {
    assert (log + [item])[..|log|] == log;
  }

  // The observer accepts the history, expects nothing and agrees with the controller's flags.
  ghost predicate Follows(w: Wire, f: Flags) {
    var m := Watch(w.log);
    m.Some? && m.value.duty.Idle? && m.value.waitForPong == f.waitForPong && m.value.waitForClose == f.waitForClose
  }

  ghost function Tally(w: Wire): Monitor
    requires Watch(w.log).Some?
  {
    Watch(w.log).value
  }

  // What control frame processing adds to the tallies of Close and data frames.
  predicate OnlyAnswers(m: Monitor, m': Monitor, answered: bool) {
    && m'.localCloses == m.localCloses && m'.lateData == m.lateData
    && m'.answeredCloses == m.answeredCloses + if answered then 1 else 0
  }

  // ---- The controller follows the rules ----

  // A write of header and payload while the observer expects exactly that.
  lemma {:induction false} SendWhole(w: Wire, m: Monitor, h: FrameHeader, payload: seq<Byte>)
    requires Watch(w.log) == Some(m) && h.payloadLen == |payload| && h.maskKey == None
    requires m.duty.Idle? || m.duty.Reply?
    requires var m1 := Observe(m, Sent(h));
             && m1.Some? && m1.value.duty.Finish? && m1.value.duty.header == h
             && (m1.value.duty.expected.Some? ==> m1.value.duty.expected.value == payload)
    ensures var m1 := Observe(m, Sent(h)).value;
            var head := SendHeader(h, w);
            var body := SendPayload(h, payload, head.wire);
            if head.result.Err? then Watch(head.wire.log) == Some(m.(duty := Idle))
            else if body.result.Err? then Watch(body.wire.log) == Some(m1.(duty := Idle))
            else Watch(body.wire.log) == Some(ObserveFinished(m1))
  {
    hide Watch;
    var head := SendHeader(h, w);
    WatchOneMore(w.log, WriteFailed);
    WatchOneMore(w.log, Sent(h));
    if head.result.Ok? {
      WatchOneMore(head.wire.log, WriteFailed);
      WatchOneMore(head.wire.log, SentPayload(payload));
    }
  }

  lemma {:induction false} SendBackFollows(h: FrameHeader, w: Wire, m: Monitor, as': FrameType)
    requires Watch(w.log) == Some(m) && m.duty == Answer(h)
    requires h.payloadLen <= 125
    requires (h.frameType.Ping? && as'.Pong?) || (h.frameType.Close? && as'.Close?)
    ensures var back := SendBack(h, w, as');
            Watch(back.wire.log)
            == Some(if back.result.Ok? && as'.Close? then PeerClosed(m.(answeredCloses := m.answeredCloses + 1))
                    else m.(duty := Idle))
  {
    hide ApplyKey, Watch, SendHeader, SendPayload;
    var body := RecvPayload(h, MAX_CONTROL_FRAME_PAYLOAD_LEN, w);
    WatchOneMore(w.log, ReadFailed);
    if body.result.Ok? {
      var p := body.result.value;
      WatchOneMore(w.log, ReceivedPayload(p));
      var m1 := Watch(body.wire.log).value;
      SendWhole(body.wire, m1, h.(maskKey := None, frameType := as'), p);
    }
  }

  // An oversized control frame, an awaited Pong or Close, and a data frame leave nothing to do.
  lemma {:induction false} HeaderFollows(c: Codec, f: Flags, w: Wire)
    requires Follows(w, f)
    ensures var got := RecvHeader(c, w);
            if got.result.Err? then Watch(got.wire.log) == Watch(w.log)
            else Watch(got.wire.log) == Some(ObserveReceived(Tally(w), got.result.value))
  {
    hide Watch;
    WatchOneMore(w.log, ReadFailed);
    var got := RecvHeader(c, w);
    if got.result.Ok? {
      WatchOneMore(w.log, Received(got.result.value));
    }
  }

  // A Ping is answered, or not if a call fails; either way the tallies stay.
  lemma {:induction false} PingFollows(h: FrameHeader, w: Wire, m: Monitor)
    requires m.duty.Idle? && Watch(w.log) == Some(ObserveReceived(m, h))
    requires h.frameType.Ping? && h.payloadLen <= 125
    ensures var back := SendBack(h, w, FrameType.Pong);
            Watch(back.wire.log) == Some(m) && back.result != Err(ClosedByPeer)
  {
    hide Watch, SendBack;
    SendBackFollows(h, w, m.(duty := Answer(h)), FrameType.Pong);
    SendBackNeverCloses(h, w, FrameType.Pong);
  }

  // A Close that was not awaited is answered and counted, or not if a call fails.
  lemma {:induction false} CloseFollows(h: FrameHeader, w: Wire, m: Monitor)
    requires m.duty.Idle? && !m.waitForClose && Watch(w.log) == Some(ObserveReceived(m, h))
    requires h.frameType.Close? && h.payloadLen <= 125
    ensures var back := SendBack(h, w, FrameType.Close);
            && Watch(back.wire.log)
            == Some(if back.result.Ok? then PeerClosed(m.(answeredCloses := m.answeredCloses + 1)) else m)
            && back.result != Err(ClosedByPeer)
  {
    hide Watch, SendBack;
    SendBackFollows(h, w, m.(duty := Answer(h)), FrameType.Close);
    SendBackNeverCloses(h, w, FrameType.Close);
  }

  // Processing answers what it must and nothing else: a Close frame exactly when it reports the peer's Close
  // without having awaited one.
  ghost predicate Obeyed(f: Flags, w: Wire, r: Step<FrameHeader>)
    requires Watch(w.log).Some?
  {
    && Follows(r.wire, r.flags)
    && OnlyAnswers(Tally(w), Tally(r.wire), r.result == Err(ClosedByPeer) && !f.waitForClose)
    && (r.result != Err(ClosedByPeer) ==> r.flags.waitForClose == f.waitForClose)
  }

  lemma {:induction false} ControlFramesFollow(c: Codec, f: Flags, w: Wire)
    requires Follows(w, f)
    ensures Obeyed(f, w, ProcessControlFrames(c, f, w))
    decreases |w.input|
  {
    hide SendBack, Watch, RecvHeader;
    var m := Tally(w);
    HeaderFollows(c, f, w);
    var got := RecvHeader(c, w);
    if got.result.Err? {
      HeaderNeverCloses(c, w);
    } else if IsControl(got.result.value.frameType) && got.result.value.payloadLen <= MAX_CONTROL_FRAME_PAYLOAD_LEN {
      var h := got.result.value;
      match h.frameType {
        case Ping =>
          PingFollows(h, got.wire, m);
          var back := SendBack(h, got.wire, FrameType.Pong);
          if back.result.Ok? {
            ControlFramesFollow(c, f, back.wire);
          }
        case Close =>
          if !f.waitForClose {
            CloseFollows(h, got.wire, m);
          }
        case Pong =>
          if f.waitForPong {
            ControlFramesFollow(c, f.(waitForPong := false), got.wire);
          }
      }
    }
  }

  lemma {:induction false} HeaderNeverCloses(c: Codec, w: Wire)
    ensures RecvHeader(c, w).result != Err(ClosedByPeer)
  {
  }

  lemma {:induction false} SendBackNeverCloses(h: FrameHeader, w: Wire, as': FrameType)
    ensures SendBack(h, w, as').result != Err(ClosedByPeer)
  {
    hide ApplyKey;
  }
}
