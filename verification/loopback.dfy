// What one WebSocket writes, another one receives: message by message, types and empty messages included.
module Loopback {
  import opened Prelude
  import opened Masker
  import opened Frames
  import opened Wires
  import opened FrameProtocol
  import opened Sessions
  import opened Runs
  import opened Reading
  import opened Messages
  import opened Reassembly
  import opened Conformance

  datatype Message = Message(messageType: MessageType, payload: seq<Byte>)

  // ---- The writing side ----

  predicate IsWriterOp(op: Op) {
    op.DoWrite? || op.DoSetSendFrameType?
  }

  // The frames that writes with type changes between them stand for.
  function Written(t: MessageType, ops: seq<Op>): seq<Frame>
    decreases |ops|
  {
    if ops == [] then []
    else
      match ops[0]
      case DoSetSendFrameType(t') => Written(t', ops[1..])
      case DoWrite(buf) => [Frame(ToFrameType(t, false), None, buf)] + Written(t, ops[1..])
      case _ => Written(t, ops[1..])
  }

  lemma {:induction false} WriteIsOneFrame(c: Codec, s: Session, buf: Payload)
    requires s.state == SocketState.Ready && Benign(s.wire)
    ensures var r := Write(s, buf);
            && r.result == Ok(|buf|) && Benign(r.session.wire)
            && r.session == s.(wire := r.session.wire)
            && SentBytes(c, r.session.wire.log)
            == SentBytes(c, s.wire.log) + Encode(c, Frame(ToFrameType(s.sendType, false), None, buf))
  {
    var h := FrameHeader(ToFrameType(s.sendType, false), |buf|, None);
    var head := SendHeader(h, s.wire);
    assert Benign(head.wire);
    Extended(s.wire.log, Sent(h));
    Extended(s.wire.log + [Sent(h)], SentPayload(buf));
    assert Write(s, buf).session.wire.log == s.wire.log + [Sent(h)] + [SentPayload(buf)];
    assert SentBytes(c, s.wire.log) + c.encode(h) + buf == SentBytes(c, s.wire.log) + (c.encode(h) + buf);
  }

  lemma {:induction false} WritesAreFrames(e: Env, s: Session, ops: seq<Op>)
    requires s.state == SocketState.Ready && Benign(s.wire)
    requires forall i :: 0 <= i < |ops| ==> IsWriterOp(ops[i])
    ensures SentBytes(e.codec, Run(e, s, ops).wire.log)
         == SentBytes(e.codec, s.wire.log) + EncodeAll(e.codec, Written(s.sendType, ops))
    decreases |ops|
  {
    hide Write, SentBytes, Encode, Benign;
    if ops == [] {
      assert EncodeAll(e.codec, []) == [];
    } else {
      var s1 := Apply(e, s, ops[0]).session;
      match ops[0] {
        case DoWrite(buf) =>
          WriteIsOneFrame(e.codec, s, buf);
          var f := Frame(ToFrameType(s.sendType, false), None, buf);
          assert Written(s.sendType, ops)[1..] == Written(s.sendType, ops[1..]);
          WritesAreFrames(e, s1, ops[1..]);
        case DoSetSendFrameType(_) => WritesAreFrames(e, s1, ops[1..]);
      }
    }
  }

  // ---- The reading side ----

  datatype Inbox = Inbox(messages: seq<Message>, session: Session)

  // Wait for a message and read it to its end, once for each list of buffers.
  function Receive(e: Env, s: Session, rounds: seq<seq<Slot>>): Inbox
    decreases |rounds|
  {
    if rounds == [] then Inbox([], s)
    else
      var waited := WaitMessage(e, s);
      if waited.result.Err? then Inbox([], waited.session)
      else
        var d := Drain(e, waited.session, rounds[0]);
        if !d.ending.Complete? then Inbox([], d.session)
        else
          var more := Receive(e, d.session, rounds[1..]);
          Inbox([Message(waited.result.value, d.bytes)] + more.messages, more.session)
  }

  // The last frame of a message, if unmasked, is read tidily whatever the buffers.
  lemma {:induction false} UnmaskedIsTidy(e: Env, s: Session, slots: seq<Slot>)
    requires s.state == SocketState.Ready
    requires s.reader.Some? && s.reader.value.masker.None? && s.reader.value.isFinal
    ensures Tidy(e, s, slots)
    decreases |slots|
  {
    hide ChunkMasked;
    if slots != [] {
      var r := Read(e, s, slots[0]);
      if r.result.Ok? && r.session.reader.Some? {
        UnmaskedIsTidy(e, r.session, slots[1..]);
      }
    }
  }

  predicate WholeDataFrame(f: Frame) {
    f.maskKey == None && (f.frameType == FrameType.Text(false) || f.frameType == FrameType.Binary(false))
  }

  function TypeOf(f: Frame): MessageType {
    if f.frameType.Text? then MessageType.Text else MessageType.Binary
  }

  lemma {:induction false} OneFrameIsLegal(c: Codec, f: Frame)
    requires WholeDataFrame(f)
    ensures IsMessage(TypeOf(f), [f]) && Payloads([f]) == f.payload && EncodeAll(c, [f]) == Encode(c, f)
  {
    hide Encode;
    assert [f][1..] == [];
    assert DropPings([f]) == [f];
    assert f.payload + [] == f.payload && Encode(c, f) + [] == Encode(c, f);
  }

  lemma {:induction false} OneFrameIsOneMessage(e: Env, s: Session, f: Frame, rest: seq<Byte>, slots: seq<Slot>)
    requires Lawful(e.codec) && WholeDataFrame(f) && s.wire.input == Encode(e.codec, f) + rest
    requires s.state == SocketState.Ready && s.reader.None? && Benign(s.wire)
    requires NonEmpty(slots) && |slots| > |s.wire.input|
    ensures var waited := WaitMessage(e, s);
            var d := Drain(e, waited.session, slots);
            && waited.result == Ok(TypeOf(f)) && d.bytes == f.payload && d.ending == Complete
            && Benign(d.session.wire) && d.session.wire.input == rest
            && d.session == s.(wire := d.session.wire)
  {
    hide Drain, WholeMessage, Tidy, FailsAtBoundary, ProcessControlFrames, ReceiveFramePayload;
    var t := TypeOf(f);
    OneFrameIsLegal(e.codec, f);
    MessageIsReceived(e.codec, CalmSession(s), t, [f], rest);
    DataFrameIsReturned(e.codec, s.flags, Calm(s.wire), f, rest);
    ControlFramesCalm(e.codec, s.flags, s.wire);
    WaitingGivesType(e, s, t);
    NextMessageCalm(e, s);
    var at := WaitMessage(e, s).session;
    assert at.reader == Some(FirstReader(HeaderOf(f), false, t));
    UnmaskedIsTidy(e, at, slots);
    DrainIsWholeMessage(e, at, slots);
  }

  function AsMessages(fs: seq<Frame>): seq<Message> {
    if fs == [] then [] else [Message(TypeOf(fs[0]), fs[0].payload)] + AsMessages(fs[1..])
  }

  lemma {:induction false} FramesAreReceived(e: Env, s: Session, fs: seq<Frame>, rounds: seq<seq<Slot>>)
    requires Lawful(e.codec) && s.wire.input == EncodeAll(e.codec, fs) && |rounds| == |fs|
    requires forall i :: 0 <= i < |fs| ==> WholeDataFrame(fs[i])
    requires s.state == SocketState.Ready && s.reader.None? && Benign(s.wire)
    requires forall i :: 0 <= i < |rounds| ==> NonEmpty(rounds[i]) && |rounds[i]| > |s.wire.input|
    ensures var inbox := Receive(e, s, rounds);
            && inbox.messages == AsMessages(fs)
            && inbox.session == s.(wire := inbox.session.wire) && inbox.session.wire.input == []
    decreases |fs|
  {
    hide WaitMessage, Drain, Benign, NonEmpty, Encode, WholeDataFrame;
    if fs != [] {
      var rest := EncodeAll(e.codec, fs[1..]);
      assert WholeDataFrame(fs[0]) && NonEmpty(rounds[0]) && |rounds[0]| > |s.wire.input|;
      OneFrameIsOneMessage(e, s, fs[0], rest, rounds[0]);
      var d := Drain(e, WaitMessage(e, s).session, rounds[0]);
      assert |rest| <= |s.wire.input|;
      FramesAreReceived(e, d.session, fs[1..], rounds[1..]);
    }
  }

  lemma {:induction false} WrittenFramesAreWhole(t: MessageType, ops: seq<Op>)
    ensures forall i :: 0 <= i < |Written(t, ops)| ==> WholeDataFrame(Written(t, ops)[i])
    decreases |ops|
  {
    if ops != [] {
      WrittenFramesAreWhole(t, ops[1..]);
      if ops[0].DoSetSendFrameType? {
        WrittenFramesAreWhole(ops[0].t, ops[1..]);
      }
    }
  }

  // Feeding a writer's output to a second WebSocket delivers one message per write, with the type in
  // force at that write and the bytes written, for the code as it is and whatever buffers and schedule.
  lemma {:induction false} LoopbackDelivers(e: Env, writer: Session, ops: seq<Op>, reader: Session, rounds: seq<seq<Slot>>)
    requires Lawful(e.codec)
    requires writer.state == SocketState.Ready && Benign(writer.wire) && writer.wire.log == []
    requires forall i :: 0 <= i < |ops| ==> IsWriterOp(ops[i])
    requires reader.state == SocketState.Ready && reader.reader.None? && Benign(reader.wire)
    requires reader.wire.input == SentBytes(e.codec, Run(e, writer, ops).wire.log)
    requires |rounds| == |Written(writer.sendType, ops)|
    requires forall i :: 0 <= i < |rounds| ==> NonEmpty(rounds[i]) && |rounds[i]| > |reader.wire.input|
    ensures var inbox := Receive(e, reader, rounds);
            && inbox.messages == AsMessages(Written(writer.sendType, ops))
            && inbox.session.wire.input == []
  {
    hide Receive, Run, EncodeAll, WholeDataFrame, Benign, NonEmpty;
    WritesAreFrames(e, writer, ops);
    WrittenFramesAreWhole(writer.sendType, ops);
    assert SentBytes(e.codec, []) + EncodeAll(e.codec, Written(writer.sendType, ops))
        == EncodeAll(e.codec, Written(writer.sendType, ops));
    FramesAreReceived(e, reader, Written(writer.sendType, ops), rounds);
  }
}
