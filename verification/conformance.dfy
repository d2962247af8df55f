// Every run conforms: its history is accepted by the observer, its ledger balances, and its output
// is a sequence of whole, unmasked frames.
module Conformance {
  import opened Prelude
  import opened Masker
  import opened Frames
  import opened Wires
  import opened FrameProtocol
  import opened Sessions
  import opened Runs
  import opened Monitors

  // ---- Each operation keeps to the rules ----

  ghost predicate Conforms(s: Session) {
    Follows(s.wire, s.flags)
  }

  // The handshake puts a whole Close frame on the wire.
  predicate SendsLocalClose(s: Session) {
    !s.flags.waitForClose && SendClose(s.flags, s.wire, CLOSE_NORMAL).result.Ok?
  }

  // So does the operation, or it reports the peer's Close without having awaited one.
  predicate SendsClose(e: Env, s: Session, op: Op) {
    match op
    case DoCloseHandshake => SendsLocalClose(s)
    case DoClose => s.state != Closed && SendsLocalClose(s)
    case DoWaitMessage =>
      s.state == SocketState.Ready && !s.flags.waitForClose && WaitMessage(e, s).result == Err(ConnectionReset)
    case DoRead(slot) =>
      s.state == SocketState.Ready && !s.flags.waitForClose && Read(e, s, slot).result == Err(ConnectionReset)
    case _ => false
  }

  // The operation puts the header of a data frame on the wire.
  predicate StartsData(s: Session, op: Op) {
    op.DoWrite? && s.state == SocketState.Ready && Next(s.wire).Grant?
  }

  // What an operation adds to the tallies of Close frames and of data frames sent after one.
  predicate Adds(m: Monitor, m': Monitor, close: bool, data: bool) {
    && Closes(m') == Closes(m) + (if close then 1 else 0)
    && m'.lateData == m.lateData + (if data && Closes(m) > 0 then 1 else 0)
  }

  lemma {:induction false} PayloadReadConforms(e: Env, rd: Reader, f: Flags, w: Wire, slot: Slot)
    requires Follows(w, f)
    ensures var c := ReceiveFramePayload(e, rd, f, w, slot);
            && Follows(c.wire, c.flags)
            && OnlyAnswers(Tally(w), Tally(c.wire), c.result == Err(ClosedByPeer) && !f.waitForClose)
    decreases |w.input|
  {
    hide ProcessControlFrames, Consume, Watch;
    if slot.len > 0 && rd.payloadLen > 0 {
      assert ReadSome(Min(slot.len, rd.payloadLen), w).wire.log == w.log;
    } else if slot.len > 0 && !rd.isFinal {
      ControlFramesFollow(e.codec, f, w);
      var s := ProcessControlFrames(e.codec, f, w);
      if s.result.Ok? && s.result.value.frameType.Continue? {
        PayloadReadConforms(e, NextFragment(rd, s.result.value), s.flags, s.wire, slot);
      }
    }
  }

  lemma {:induction false} NextMessageConforms(e: Env, s: Session)
    requires Conforms(s)
    ensures var next := NextMessage(e, s);
            && Conforms(next.session)
            && OnlyAnswers(Tally(s.wire), Tally(next.session.wire),
                           next.result == Err(ConnectionReset) && !s.flags.waitForClose)
            && (next.result.Ok? ==> next.session.flags.waitForClose == s.flags.waitForClose)
  {
    hide ProcessControlFrames, Watch;
    ControlFramesFollow(e.codec, s.flags, s.wire);
  }

  lemma {:induction false} ReadConforms(e: Env, s: Session, slot: Slot)
    requires Conforms(s) && s.state == SocketState.Ready
    ensures var r := Read(e, s, slot);
            && Conforms(r.session)
            && OnlyAnswers(Tally(s.wire), Tally(r.session.wire),
                           r.result == Err(ConnectionReset) && !s.flags.waitForClose)
  {
    hide NextMessage, ReceiveFramePayload, Watch;
    NextMessageConforms(e, s);
    var at := if s.reader.Some? then s else NextMessage(e, s).session;
    if s.reader.Some? || NextMessage(e, s).result.Ok? {
      PayloadReadConforms(e, at.reader.value, at.flags, at.wire, slot);
    }
  }

  lemma {:induction false} WriteConforms(s: Session, buf: Payload)
    requires Conforms(s) && s.state == SocketState.Ready
    ensures var after := Write(s, buf).session;
            Conforms(after) && Adds(Tally(s.wire), Tally(after.wire), false, Next(s.wire).Grant?)
  {
    hide Watch;
    SendWhole(s.wire, Watch(s.wire.log).value, FrameHeader(ToFrameType(s.sendType, false), |buf|, None), buf);
  }

  lemma {:induction false} SendCloseConforms(f: Flags, w: Wire)
    requires Follows(w, f)
    ensures var sent := SendClose(f, w, CLOSE_NORMAL);
            && Follows(sent.wire, sent.flags)
            && Adds(Tally(w), Tally(sent.wire), !f.waitForClose && sent.result.Ok?, false)
            && (sent.result.Ok? ==> sent.flags.waitForClose)
            && sent.result != Err(ClosedByPeer)
  {
    hide Watch;
    if !f.waitForClose {
      SendWhole(w, Watch(w.log).value, FrameHeader(FrameType.Close, 2, None), CLOSE_NORMAL);
    }
  }

  lemma {:induction false} SendPingConforms(s: Session)
    requires Conforms(s)
    ensures var after := PingCall(s).session;
            Conforms(after) && Adds(Tally(s.wire), Tally(after.wire), false, false)
  {
    hide Watch;
    WatchOneMore(s.wire.log, WriteFailed);
    WatchOneMore(s.wire.log, Sent(FrameHeader(FrameType.Ping, 0, None)));
  }

  lemma {:induction false} QuietCallsConform(w: Wire, f: Flags, graceful: bool)
    requires Follows(w, f)
    ensures forall w' | w' in {Wires.Flush(w).wire, Shut(w, graceful).wire, Wires.Ready(w).wire} ::
              Follows(w', f) && Adds(Tally(w), Tally(w'), false, false)
  {
    hide Watch;
    WatchOneMore(w.log, Flushed);
    WatchOneMore(w.log, ShutDown(graceful));
  }

  lemma {:induction false} HandshakeConforms(e: Env, s: Session)
    requires Conforms(s)
    ensures var after := CloseHandshake(e, s).session;
            Conforms(after) && Adds(Tally(s.wire), Tally(after.wire), SendsLocalClose(s), false)
  {
    hide Watch, ProcessControlFrames, SendClose, Wires.Flush;
    SendCloseConforms(s.flags, s.wire);
    var sent := SendClose(s.flags, s.wire, CLOSE_NORMAL);
    QuietCallsConform(sent.wire, sent.flags, false);
    ControlFramesFollow(e.codec, sent.flags, Wires.Flush(sent.wire).wire);
  }

  lemma {:induction false} ApplyConforms(e: Env, s: Session, op: Op)
    requires Conforms(s)
    ensures var after := Apply(e, s, op).session;
            && Conforms(after)
            && Adds(Tally(s.wire), Tally(after.wire), SendsClose(e, s, op), StartsData(s, op))
  {
    hide Watch, Read, NextMessage, CloseHandshake, Write, PingCall, Shut, Wires.Flush, Wires.Ready, SendsLocalClose;
    match op {
      case DoWaitMessage => NextMessageConforms(e, s);
      case DoRead(slot) =>
        if s.state == SocketState.Ready {
          ReadConforms(e, s, slot);
        } else {
          NotReadyReadsNothing(e, s, slot);
        }
      case DoWrite(buf) =>
        if s.state == SocketState.Ready {
          WriteConforms(s, buf);
        } else {
          NotReadyWritesNothing(s, buf);
        }
      case DoCloseHandshake => HandshakeConforms(e, s);
      case DoClose =>
        HandshakeConforms(e, s);
        var h := CloseHandshake(e, s);
        QuietCallsConform(h.session.wire, h.session.flags, h.result.Ok?);
      case DoSendPing => SendPingConforms(s);
      case DoSetSendFrameType(_) =>
      case _ => QuietCallsConform(s.wire, s.flags, false);
    }
  }

  lemma {:induction false} NotReadyReadsNothing(e: Env, s: Session, slot: Slot)
    requires s.state != SocketState.Ready
    ensures Read(e, s, slot).session == s
  {
  }

  lemma {:induction false} NotReadyWritesNothing(s: Session, buf: Payload)
    requires s.state != SocketState.Ready
    ensures Write(s, buf).session == s
  {
  }

  // In every run, whatever fails, the observer accepts the history and ends with the controller's own flags.
  lemma {:induction false} RunConforms(e: Env, s: Session, ops: seq<Op>)
    requires Conforms(s)
    ensures Conforms(Run(e, s, ops))
    decreases |ops|
  {
    hide Conforms, Apply;
    if ops != [] {
      ApplyConforms(e, s, ops[0]);
      RunConforms(e, Apply(e, s, ops[0]).session, ops[1..]);
    }
  }

  lemma {:induction false} StartConforms(w: Wire)
    requires w.log == []
    ensures Conforms(New(w)) && Tally(w) == START
  {
  }

  // ---- What an accepted history says ----

  // Closes sent locally are matched by responses but for one still awaited, and likewise for Pings.
  predicate Balanced(m: Monitor) {
    && m.localCloses == m.closeResponses + (if m.waitForClose then 1 else 0)
    && m.pings == m.pongs + m.forgivenPings + (if m.waitForPong then 1 else 0)
  }

  // The frames completed in a history, and the bytes it put on the wire.
  function SentFrames(log: seq<Item>): seq<Frame> {
    if log == [] then []
    else
      var before, last := log[..|log| - 1], log[|log| - 1];
      match last
      case Sent(h) =>
        if h.frameType.Ping? then SentFrames(before) + [Frame(h.frameType, h.maskKey, [])] else SentFrames(before)
      case SentPayload(p) =>
        if before != [] && before[|before| - 1].Sent? && |p| < USIZE_LIMIT then
          var h := before[|before| - 1].header;
          SentFrames(before) + [Frame(h.frameType, h.maskKey, p)]
        else SentFrames(before)
      case _ => SentFrames(before)
  }

  function SentBytes(c: Codec, log: seq<Item>): seq<Byte> {
    if log == [] then []
    else
      SentBytes(c, log[..|log| - 1]) +
      match log[|log| - 1]
      case Sent(h) => c.encode(h)
      case SentPayload(p) => p
      case _ => []
  }

  // A frame a server may send: unmasked, unfragmented, and short if it is a control frame.
  predicate ServerFrame(f: Frame) {
    && f.maskKey == None
    && (IsControl(f.frameType) ==> |f.payload| <= 125)
    && !f.frameType.Continue?
    && (f.frameType.Text? ==> !f.frameType.fragmented)
    && (f.frameType.Binary? ==> !f.frameType.fragmented)
  }

  function CountType(fs: seq<Frame>, t: FrameType): nat {
    if fs == [] then 0 else CountType(fs[..|fs| - 1], t) + (if fs[|fs| - 1].frameType == t then 1 else 0)
  }

  // What the observer's own state always satisfies.
  predicate Sound(m: Monitor) {
    && Balanced(m)
    && match m.duty
       case Answer(h) => (h.frameType.Ping? || h.frameType.Close?) && h.payloadLen <= 125
       case Reply(t, p) => (t.Pong? || t.Close?) && |p| <= 125
       case Finish(h, _, isAnswer) =>
         && h.maskKey == None && !h.frameType.Ping? && !h.frameType.Continue?
         && (IsControl(h.frameType) ==> h.payloadLen <= 125)
         && (h.frameType.Text? ==> !h.frameType.fragmented)
         && (h.frameType.Binary? ==> !h.frameType.fragmented)
         && (h.frameType.Close? && !isAnswer ==> !m.waitForClose)
       case _ => true
  }

  lemma {:induction false} ReceivedKeepsSound(m: Monitor, h: FrameHeader)
    requires Sound(m) && m.duty.Idle?
    ensures Sound(ObserveReceived(m, h))
  {
  }

  lemma {:induction false} SentKeepsSound(m: Monitor, h: FrameHeader)
    requires Sound(m) && m.duty.Idle? && ObserveSent(m, h).Some?
    ensures Sound(ObserveSent(m, h).value)
  {
  }

  lemma {:induction false} FinishedKeepsSound(m: Monitor)
    requires Sound(m) && m.duty.Finish?
    ensures Sound(ObserveFinished(m))
  {
  }

  lemma {:induction false} ObserveKeepsSound(m: Monitor, item: Item)
    requires Sound(m) && Observe(m, item).Some?
    ensures Sound(Observe(m, item).value)
  {
    hide ObserveReceived, ObserveSent, ObserveFinished;
    match m.duty {
      case Idle =>
        match item {
          case Received(h) => ReceivedKeepsSound(m, h);
          case Sent(h) => SentKeepsSound(m, h);
          case _ =>
        }
      case Finish(_, _, _) => FinishedKeepsSound(m);
      case _ =>
    }
  }

  lemma {:induction false} AcceptedIsSound(log: seq<Item>)
    requires Watch(log).Some?
    ensures Sound(Watch(log).value)
    decreases |log|
  {
    hide Sound, Observe;
    if log == [] {
      assert Sound(START) by { SoundStart(); }
    } else {
      AcceptedIsSound(log[..|log| - 1]);
      ObserveKeepsSound(Watch(log[..|log| - 1]).value, log[|log| - 1]);
    }
  }

  lemma {:induction false} SoundStart()
    ensures Sound(START)
  {
  }

  lemma {:induction false} EncodeAllAppend(c: Codec, fs: seq<Frame>, f: Frame)
    ensures EncodeAll(c, fs + [f]) == EncodeAll(c, fs) + Encode(c, f)
    decreases |fs|
  {
    hide Encode;
    if fs == [] {
      assert fs + [f] == [f];
    } else {
      EncodeAllAppend(c, fs[1..], f);
      assert (fs + [f])[1..] == fs[1..] + [f];
    }
  }

  // What the observer has seen of the output. The bytes are accounted for as long as no write has failed.
  ghost predicate Accounted(c: Codec, log: seq<Item>, m: Monitor) {
    var fs := SentFrames(log);
    && (m.duty.Finish? ==> log != [] && log[|log| - 1] == Sent(m.duty.header))
    && (forall i :: 0 <= i < |fs| ==> ServerFrame(fs[i]))
    && CountType(fs, FrameType.Close) == Closes(m)
    && CountType(fs, FrameType.Ping) == m.pings
    && (WriteFailed !in log ==>
          SentBytes(c, log) == EncodeAll(c, fs) + (if m.duty.Finish? then c.encode(m.duty.header) else []))
  }

  // One more whole frame.
  lemma {:induction false} OneMoreFrame(c: Codec, fs: seq<Frame>, f: Frame)
    requires ServerFrame(f) && forall i :: 0 <= i < |fs| ==> ServerFrame(fs[i])
    ensures EncodeAll(c, fs + [f]) == EncodeAll(c, fs) + c.encode(HeaderOf(f)) + f.payload
    ensures forall i :: 0 <= i < |fs + [f]| ==> ServerFrame((fs + [f])[i])
    ensures CountType(fs + [f], FrameType.Close) == CountType(fs, FrameType.Close) + if f.frameType.Close? then 1 else 0
    ensures CountType(fs + [f], FrameType.Ping) == CountType(fs, FrameType.Ping) + if f.frameType.Ping? then 1 else 0
  {
    hide EncodeAll;
    EncodeAllAppend(c, fs, f);
    assert EncodeAll(c, fs) + (c.encode(HeaderOf(f)) + f.payload) == EncodeAll(c, fs) + c.encode(HeaderOf(f)) + f.payload;
    assert (fs + [f])[..|fs|] == fs;
  }

  lemma {:induction false} Extended(log: seq<Item>, item: Item)
    ensures (log + [item])[..|log|] == log && (log + [item])[|log|] == item
  {
  }

  lemma {:induction false} HeaderAccounted(c: Codec, log: seq<Item>, m: Monitor, h: FrameHeader)
    requires Accounted(c, log, m) && Sound(m)
    requires Observe(m, Sent(h)).Some?
    ensures Accounted(c, log + [Sent(h)], Observe(m, Sent(h)).value)
  {
    hide EncodeAll, CountType, Watch;
    Extended(log, Sent(h));
    if h.frameType.Ping? {
      OneMoreFrame(c, SentFrames(log), Frame(h.frameType, None, []));
    }
  }

  lemma {:induction false} PayloadAccounted(c: Codec, log: seq<Item>, m: Monitor, p: seq<Byte>)
    requires Accounted(c, log, m) && Sound(m) && m.duty.Finish?
    requires Observe(m, SentPayload(p)).Some?
    ensures Accounted(c, log + [SentPayload(p)], Observe(m, SentPayload(p)).value)
  {
    hide EncodeAll, CountType, Watch;
    Extended(log, SentPayload(p));
    var f := Frame(m.duty.header.frameType, None, p);
    assert HeaderOf(f) == m.duty.header;
    OneMoreFrame(c, SentFrames(log), f);
  }

  lemma {:induction false} OtherAccounted(c: Codec, log: seq<Item>, m: Monitor, item: Item)
    requires Accounted(c, log, m) && Sound(m) && !item.Sent? && !item.SentPayload?
    requires Observe(m, item).Some?
    ensures Accounted(c, log + [item], Observe(m, item).value)
  {
    hide EncodeAll, ServerFrame, CountType;
    Extended(log, item);
  }

  lemma {:induction false} AcceptedIsAccounted(c: Codec, log: seq<Item>)
    requires Watch(log).Some?
    ensures Accounted(c, log, Watch(log).value)
    decreases |log|
  {
    hide Accounted, Sound, Observe;
    if log == [] {
      NothingAccounted(c);
    } else {
      var before, last := log[..|log| - 1], log[|log| - 1];
      var m := Watch(before).value;
      AcceptedIsAccounted(c, before);
      AcceptedIsSound(before);
      assert log == before + [last];
      match last {
        case Sent(h) => HeaderAccounted(c, before, m, h);
        case SentPayload(p) =>
          PayloadNeedsHeader(m, p);
          PayloadAccounted(c, before, m, p);
        case _ => OtherAccounted(c, before, m, last);
      }
    }
  }

  lemma {:induction false} NothingAccounted(c: Codec)
    ensures Accounted(c, [], START)
  {
    hide Accounted, START;
    assert START.duty.Idle? && Closes(START) == 0 && START.pings == 0 by { StartIsEmpty(); }
    NothingSent(c, []);
    AccountNothing(c, [], START);
  }

  lemma {:induction false} StartIsEmpty()
    ensures START.duty.Idle? && Closes(START) == 0 && START.pings == 0
  {
  }

  lemma {:induction false} NothingSent(c: Codec, log: seq<Item>)
    requires log == []
    ensures SentFrames(log) == [] && SentBytes(c, log) == [] && EncodeAll(c, []) == []
    ensures CountType([], FrameType.Close) == 0 && CountType([], FrameType.Ping) == 0
  {
  }

  lemma {:induction false} AccountNothing(c: Codec, log: seq<Item>, m: Monitor)
    requires SentFrames(log) == [] && SentBytes(c, log) == [] && EncodeAll(c, []) == []
    requires CountType([], FrameType.Close) == 0 && CountType([], FrameType.Ping) == 0
    requires m.duty.Idle? && Closes(m) == 0 && m.pings == 0
    ensures Accounted(c, log, m)
  {
    hide ServerFrame, Encode, SentFrames, SentBytes, EncodeAll, CountType, Closes;
    var none: seq<Byte> := [];
    assert none == none + [];
  }

  lemma {:induction false} PayloadNeedsHeader(m: Monitor, p: seq<Byte>)
    requires Observe(m, SentPayload(p)).Some?
    ensures m.duty.Finish?
  {
  }

  // ---- Over whole runs ----

  // Every frame completed in a run is one a server may send. Without a write error the output is exactly
  // these frames, so that no answer ever splits a data frame.
  lemma {:induction false} OutputIsWholeFrames(e: Env, w: Wire, ops: seq<Op>)
    requires w.log == []
    ensures var s := Run(e, New(w), ops);
            var fs := SentFrames(s.wire.log);
            && (forall i :: 0 <= i < |fs| ==> ServerFrame(fs[i]))
            && (WriteFailed !in s.wire.log ==> SentBytes(e.codec, s.wire.log) == EncodeAll(e.codec, fs))
  {
    hide Run, SentFrames, SentBytes, EncodeAll, ServerFrame, Watch;
    var s := Run(e, New(w), ops);
    StartConforms(w);
    RunConforms(e, New(w), ops);
    AcceptedIsAccounted(e.codec, s.wire.log);
    assert EncodeAll(e.codec, SentFrames(s.wire.log)) + [] == EncodeAll(e.codec, SentFrames(s.wire.log));
  }

  // Close and Ping accounting, whatever fails, against the controller's flags and the frames completed.
  lemma {:induction false} LedgersBalance(e: Env, w: Wire, ops: seq<Op>)
    requires w.log == []
    ensures var s := Run(e, New(w), ops);
            var fs := SentFrames(s.wire.log);
            && Watch(s.wire.log).Some?
            && var m := Tally(s.wire);
            && m.localCloses == m.closeResponses + (if s.flags.waitForClose then 1 else 0)
            && CountType(fs, FrameType.Close) == m.localCloses + m.answeredCloses
            && m.pings == m.pongs + m.forgivenPings + (if s.flags.waitForPong then 1 else 0)
            && CountType(fs, FrameType.Ping) == m.pings
  {
    hide Run, SentFrames, SentBytes, EncodeAll, ServerFrame, Watch, CountType;
    StartConforms(w);
    RunConforms(e, New(w), ops);
    AcceptedIsSound(Run(e, New(w), ops).wire.log);
    AcceptedIsAccounted(e.codec, Run(e, New(w), ops).wire.log);
  }

  // A WebSocket by itself never waits for a Pong.
  lemma {:induction false} NoPongAwaited(e: Env, s: Session, ops: seq<Op>)
    requires !s.flags.waitForPong && DoSendPing !in ops
    ensures !Run(e, s, ops).flags.waitForPong
    decreases |ops|
  {
    hide ProcessControlFrames, ReceiveFramePayload;
    if ops != [] {
      ApplyKeepsNoPong(e, s, ops[0]);
      NoPongAwaited(e, Apply(e, s, ops[0]).session, ops[1..]);
    }
  }

  lemma {:induction false} ControlFramesKeepNoPong(c: Codec, f: Flags, w: Wire)
    requires !f.waitForPong
    ensures !ProcessControlFrames(c, f, w).flags.waitForPong
    decreases |w.input|
  {
    hide SendBack;
    var got := RecvHeader(c, w);
    if got.result.Ok? && got.result.value.frameType.Ping? {
      ControlFramesKeepNoPong(c, f, SendBack(got.result.value, got.wire, FrameType.Pong).wire);
    }
  }

  lemma {:induction false} PayloadReadKeepsNoPong(e: Env, rd: Reader, f: Flags, w: Wire, slot: Slot)
    requires !f.waitForPong
    ensures !ReceiveFramePayload(e, rd, f, w, slot).flags.waitForPong
    decreases |w.input|
  {
    hide ProcessControlFrames;
    ControlFramesKeepNoPong(e.codec, f, w);
    var s := ProcessControlFrames(e.codec, f, w);
    if s.result.Ok? && s.result.value.frameType.Continue? {
      PayloadReadKeepsNoPong(e, NextFragment(rd, s.result.value), s.flags, s.wire, slot);
    }
  }

  lemma {:induction false} ApplyKeepsNoPong(e: Env, s: Session, op: Op)
    requires !s.flags.waitForPong && !op.DoSendPing?
    ensures !Apply(e, s, op).session.flags.waitForPong
  {
    hide ProcessControlFrames, ReceiveFramePayload;
    ControlFramesKeepNoPong(e.codec, s.flags, s.wire);
    match op {
      case DoRead(slot) =>
        var at := if s.reader.Some? then s else NextMessage(e, s).session;
        if at.reader.Some? {
          PayloadReadKeepsNoPong(e, at.reader.value, at.flags, at.wire, slot);
        }
      case DoCloseHandshake => HandshakeKeepsNoPong(e, s);
      case DoClose => HandshakeKeepsNoPong(e, s);
      case _ =>
    }
  }

  lemma {:induction false} HandshakeKeepsNoPong(e: Env, s: Session)
    requires !s.flags.waitForPong
    ensures !CloseHandshake(e, s).session.flags.waitForPong
  {
    hide ProcessControlFrames;
    var sent := SendClose(s.flags, s.wire, CLOSE_NORMAL);
    ControlFramesKeepNoPong(e.codec, sent.flags, Wires.Flush(sent.wire).wire);
  }
}
