// How many Close frames a run sends, and when it sends data after one (section 5.5.1 of RFC 6455).
module CloseRules {
  import opened Prelude
  import opened Masker
  import opened Frames
  import opened Wires
  import opened FrameProtocol
  import opened Sessions
  import opened Runs
  import opened Reading
  import opened Messages
  import opened Monitors
  import opened Conformance
  import opened Shutdown

  // ---- Every reachable session ----

  ghost predicate Reached(s: Session) {
    Conforms(s) && Balanced(Tally(s.wire)) && ShutWhenClosed(s)
  }

  lemma {:induction false} StartIsReached(w: Wire)
    requires w.log == []
    ensures Reached(New(w)) && Tally(w) == START
  {
    hide Watch;
    StartConforms(w);
  }

  lemma {:induction false} StepIsReached(e: Env, s: Session, op: Op)
    requires Reached(s)
    ensures var after := Apply(e, s, op).session;
            && Reached(after) && Rank(s.state) <= Rank(after.state)
            && Adds(Tally(s.wire), Tally(after.wire), SendsClose(e, s, op), StartsData(s, op))
  {
    hide Apply, Watch, SendsClose, Balanced;
    ApplyConforms(e, s, op);
    ApplyMovesForward(e, s, op);
    var after := Apply(e, s, op).session;
    AcceptedIsSound(after.wire.log);
    assert Sound(Tally(after.wire));
    SoundIsBalanced(Tally(after.wire));
  }

  lemma {:induction false} SoundIsBalanced(m: Monitor)
    requires Sound(m)
    ensures Balanced(m)
  {
  }

  // What follows of the session before operation n of a run over a new WebSocket.
  lemma {:induction false} AllReached(e: Env, w: Wire, ops: seq<Op>, n: nat)
    requires w.log == [] && n <= |ops|
    ensures Reached(At(e, New(w), ops, n))
  {
    hide Reached, Apply;
    if n == 0 {
      AtEnds(e, New(w), ops);
      StartIsReached(w);
    } else {
      AllReached(e, w, ops, n - 1);
      AtStep(e, New(w), ops, n - 1);
      StepIsReached(e, At(e, New(w), ops, n - 1), ops[n - 1]);
    }
  }

  // ---- The number of Close frames ----

  function SentCloses(s: Session): nat {
    CountType(SentFrames(s.wire.log), FrameType.Close)
  }

  lemma {:induction false} OneMoreClose(fs: seq<Frame>, f: Frame)
    ensures CountType(fs + [f], FrameType.Close) == CountType(fs, FrameType.Close) + if f.frameType.Close? then 1 else 0
  {
    assert (fs + [f])[..|fs|] == fs;
  }

  // One more item in a history completes a Close frame only if it is the payload of one.
  lemma {:induction false} OneMoreItem(log: seq<Item>, item: Item)
    requires !item.SentPayload?
    ensures CountType(SentFrames(log + [item]), FrameType.Close) == CountType(SentFrames(log), FrameType.Close)
  {
    hide CountType;
    Extended(log, item);
    if item.Sent? && item.header.frameType.Ping? {
      OneMoreClose(SentFrames(log), Frame(item.header.frameType, item.header.maskKey, []));
    }
  }

  lemma {:induction false} OneMorePayload(log: seq<Item>, h: FrameHeader, p: Payload)
    ensures CountType(SentFrames(log + [Sent(h)] + [SentPayload(p)]), FrameType.Close)
         == CountType(SentFrames(log), FrameType.Close) + if h.frameType.Close? then 1 else 0
  {
    hide CountType;
    OneMoreItem(log, Sent(h));
    Extended(log, Sent(h));
    Extended(log + [Sent(h)], SentPayload(p));
    OneMoreClose(SentFrames(log + [Sent(h)]), Frame(h.frameType, h.maskKey, p));
  }

  lemma {:induction false} WholeSend(h: FrameHeader, payload: Payload, w: Wire)
    requires h.payloadLen == |payload| && h.maskKey == None
    ensures var head := SendHeader(h, w);
            var body := SendPayload(h, payload, head.wire);
            var n := CountType(SentFrames(w.log), FrameType.Close);
            && CountType(SentFrames(head.wire.log), FrameType.Close) == n
            && (head.result.Ok? ==>
                  CountType(SentFrames(body.wire.log), FrameType.Close)
                  == n + if h.frameType.Close? && body.result.Ok? then 1 else 0)
  {
    hide SentFrames, CountType;
    OneMoreItem(w.log, Sent(h));
    OneMoreItem(w.log, WriteFailed);
    OneMoreItem(w.log + [Sent(h)], WriteFailed);
    OneMorePayload(w.log, h, payload);
  }

  lemma {:induction false} PongIsNoClose(h: FrameHeader, w: Wire)
    requires h.payloadLen <= MAX_CONTROL_FRAME_PAYLOAD_LEN
    ensures CountType(SentFrames(SendBack(h, w, FrameType.Pong).wire.log), FrameType.Close)
         == CountType(SentFrames(w.log), FrameType.Close)
  {
    hide SentFrames, CountType, SendHeader, SendPayload, ApplyKey;
    OneMoreItem(w.log, ReadFailed);
    var body := RecvPayload(h, MAX_CONTROL_FRAME_PAYLOAD_LEN, w);
    if body.result.Ok? {
      OneMoreItem(w.log, ReceivedPayload(body.result.value));
      WholeSend(h.(maskKey := None, frameType := FrameType.Pong), body.result.value, body.wire);
    }
  }

  // While a response is awaited, no Close is sent.
  lemma {:induction false} NoCloseWhileAwaited(c: Codec, f: Flags, w: Wire)
    requires f.waitForClose
    ensures CountType(SentFrames(ProcessControlFrames(c, f, w).wire.log), FrameType.Close)
         == CountType(SentFrames(w.log), FrameType.Close)
    decreases |w.input|
  {
    hide SentFrames, CountType, SendBack;
    OneMoreItem(w.log, ReadFailed);
    var got := RecvHeader(c, w);
    if got.result.Ok? {
      OneMoreItem(w.log, Received(got.result.value));
      if IsControl(got.result.value.frameType) && got.result.value.payloadLen <= MAX_CONTROL_FRAME_PAYLOAD_LEN {
        if got.result.value.frameType.Ping? {
          PongIsNoClose(got.result.value, got.wire);
          NoCloseWhileAwaited(c, f, SendBack(got.result.value, got.wire, FrameType.Pong).wire);
        } else if f.waitForPong {
          NoCloseWhileAwaited(c, f.(waitForPong := false), got.wire);
        }
      }
    }
  }

  // One call of close or of the handshake, in any session: one more Close frame exactly if no response to an
  // earlier one is awaited and the two writes do not fail.
  lemma {:induction false} CloseSendsExactly(e: Env, s: Session)
    ensures SentCloses(CloseHandshake(e, s).session) == SentCloses(s) + (if SendsLocalClose(s) then 1 else 0)
    ensures s.state != Closed ==>
              SentCloses(Sessions.Close(e, s).session) == SentCloses(s) + (if SendsLocalClose(s) then 1 else 0)
    ensures Benign(s.wire) ==> (SendsLocalClose(s) <==> !s.flags.waitForClose)
  {
    hide SentFrames, CountType, ProcessControlFrames;
    WholeSend(FrameHeader(FrameType.Close, 2, None), CLOSE_NORMAL, s.wire);
    var sent := SendClose(s.flags, s.wire, CLOSE_NORMAL);
    OneMoreItem(sent.wire.log, Flushed);
    NoCloseWhileAwaited(e.codec, sent.flags.(waitForClose := true), Wires.Flush(sent.wire).wire);
    OneMoreItem(CloseHandshake(e, s).session.wire.log, ShutDown(true));
    OneMoreItem(CloseHandshake(e, s).session.wire.log, ShutDown(false));
  }

  // Operation i of a run puts a Close frame on the wire.
  predicate SendsCloseAt(e: Env, s: Session, ops: seq<Op>, i: nat)
    requires i < |ops|
  {
    SendsClose(e, At(e, s, ops, i), ops[i])
  }

  ghost predicate CloseBefore(e: Env, s: Session, ops: seq<Op>, n: nat)
    requires n <= |ops|
  {
    exists i: nat :: i < n && SendsCloseAt(e, s, ops, i)
  }

  ghost predicate TwoClosesBefore(e: Env, s: Session, ops: seq<Op>, n: nat)
    requires n <= |ops|
  {
    exists i: nat, j: nat :: i < j < n && SendsCloseAt(e, s, ops, i) && SendsCloseAt(e, s, ops, j)
  }

  lemma {:induction false} CloseBeforeStep(e: Env, s: Session, ops: seq<Op>, n: nat)
    requires n < |ops|
    ensures CloseBefore(e, s, ops, n + 1) <==> CloseBefore(e, s, ops, n) || SendsCloseAt(e, s, ops, n)
    ensures TwoClosesBefore(e, s, ops, n + 1)
            <==> TwoClosesBefore(e, s, ops, n) || (CloseBefore(e, s, ops, n) && SendsCloseAt(e, s, ops, n))
  {
    hide SendsCloseAt;
  }

  lemma {:induction false} ClosesCounted(e: Env, w: Wire, ops: seq<Op>, n: nat)
    requires w.log == [] && n <= |ops|
    ensures Reached(At(e, New(w), ops, n))
    ensures var k := SentCloses(At(e, New(w), ops, n));
            && (k > 0 <==> CloseBefore(e, New(w), ops, n))
            && (k > 1 <==> TwoClosesBefore(e, New(w), ops, n))
  {
    hide Apply, At, Watch, SendsClose, SentCloses, CloseBefore, TwoClosesBefore;
    AllReached(e, w, ops, n);
    CountedInOutput(e, At(e, New(w), ops, n));
    if n == 0 {
      AtEnds(e, New(w), ops);
      StartIsReached(w);
      NoneBefore(e, New(w), ops);
    } else {
      ClosesCounted(e, w, ops, n - 1);
      CountedInOutput(e, At(e, New(w), ops, n - 1));
      AtStep(e, New(w), ops, n - 1);
      StepIsReached(e, At(e, New(w), ops, n - 1), ops[n - 1]);
      CloseBeforeStep(e, New(w), ops, n - 1);
    }
  }

  lemma {:induction false} NoneBefore(e: Env, s: Session, ops: seq<Op>)
    ensures !CloseBefore(e, s, ops, 0) && !TwoClosesBefore(e, s, ops, 0)
    ensures !StaysReadyBefore(e, s, ops, 0) && !LateDataBefore(e, s, ops, 0)
  {
  }

  lemma {:induction false} CountedInOutput(e: Env, s: Session)
    requires Reached(s)
    ensures SentCloses(s) == Closes(Tally(s.wire))
  {
    hide Watch, SentFrames, CountType;
    AcceptedIsAccounted(e.codec, s.wire.log);
  }

  // A run sends at most one Close frame exactly when at most one of its operations starts a handshake with
  // no response awaited or answers a Close of the peer's, whatever fails.
  lemma {:induction false} OneCloseExactly(e: Env, w: Wire, ops: seq<Op>)
    requires w.log == []
    ensures SentCloses(Run(e, New(w), ops)) <= 1
            <==> !exists i: nat, j: nat ::
                   i < j < |ops| && SendsCloseAt(e, New(w), ops, i) && SendsCloseAt(e, New(w), ops, j)
  {
    hide Run, SentCloses, SendsCloseAt;
    ClosesCounted(e, w, ops, |ops|);
    AtEnds(e, New(w), ops);
  }

  // ---- Data after a Close ----

  // The operation leaves a Ready session Ready although a Close frame has been sent by then: a read that
  // answers a Close met inside a message, or a handshake that fails once its Close is out.
  predicate StaysReadyDespiteClose(e: Env, s: Session, op: Op) {
    var c := Apply(e, s, op);
    && s.state == SocketState.Ready && c.session.state == SocketState.Ready
    && match op
       case DoRead(_) => c.result == Err(ConnectionReset)
       case DoCloseHandshake => SendClose(s.flags, s.wire, CLOSE_NORMAL).result.Ok?
       case DoClose => SendClose(s.flags, s.wire, CLOSE_NORMAL).result.Ok?
       case _ => false
  }

  lemma {:induction false} ReadyStep(e: Env, s: Session, op: Op)
    requires Reached(s) && Apply(e, s, op).session.state == SocketState.Ready
    ensures var after := Apply(e, s, op).session;
            && Reached(after) && s.state == SocketState.Ready
            && (Closes(Tally(after.wire)) > 0 <==> Closes(Tally(s.wire)) > 0 || StaysReadyDespiteClose(e, s, op))
  {
    hide Watch, NextMessage, Read, CloseHandshake, SendClose;
    StepIsReached(e, s, op);
    if s.flags.waitForClose {
      AwaitedMeansSent(s);
    }
    if op.DoWaitMessage? {
      ResetWaitEnds(e, s);
    }
  }

  lemma {:induction false} AwaitedMeansSent(s: Session)
    requires Reached(s) && s.flags.waitForClose
    ensures Closes(Tally(s.wire)) > 0
  {
    hide Watch;
  }

  lemma {:induction false} ResetWaitEnds(e: Env, s: Session)
    ensures WaitMessage(e, s).result == Err(ConnectionReset) ==> WaitMessage(e, s).session.state != SocketState.Ready
  {
    hide ProcessControlFrames;
  }

  // The same from what a caller can know before the call, when nothing fails: a handshake whose next frame,
  // Pings aside, is no valid Close, or, between the frames of the message, a read that meets a Close inside it
  // before any byte of it. (For a handshake begun inside a frame the next frame is what the rest of the payload
  // and the bytes behind it spell.)
  lemma {:induction false} StaysReadyExactly(e: Env, s: Session, fs: seq<Frame>, rest: seq<Byte>, op: Op)
    requires Lawful(e.codec) && Benign(s.wire) && s.wire.input == EncodeAll(e.codec, fs) + rest && !s.flags.waitForPong
    requires s.state == SocketState.Ready && (op.DoRead? ==> op.slot.len > 0)
    requires rest == [] || (FirstWord(fs).Some? && (op.DoRead? ==> s.reader.Some? && s.reader.value.payloadLen > 0))
    ensures var closeFirst := FirstWord(fs).Some? && ValidClose(FirstWord(fs).value);
            StaysReadyDespiteClose(e, s, op) <==>
            match op
            case DoRead(_) =>
              (match s.reader
               case None => ErrorAhead(fs) == Some(ConnectionReset) && !closeFirst
               case Some(rd) => rd.payloadLen == 0 && !rd.isFinal && ErrorInside(fs) == Some(ConnectionReset))
            case DoCloseHandshake => !closeFirst
            case _ => false
  {
    hide ProcessControlFrames, Read, CloseHandshake, FirstWord, ValidClose, ErrorAhead, ErrorInside, EncodeAll;
    match op {
      case DoRead(slot) =>
        assert EncodeAll(e.codec, fs) + [] == EncodeAll(e.codec, fs);
        ReadErrorsExactly(e, s, fs, slot);
        if s.reader.None? {
          PeerCloseNoticedExactly(e, s, fs, rest, slot);
          StateAfterRead(e, s, slot);
        } else {
          PendingMessageKeepsState(e, s, slot);
          if s.reader.value.payloadLen == 0 && s.reader.value.isFinal {
            FinishedReadSucceeds(e, s, slot);
          }
        }
      case DoCloseHandshake => HandshakeCompletesExactly(e, s, fs, rest);
      case DoClose => CloseOutcomeExactly(e, s, fs, rest);
      case _ =>
    }
  }

  lemma {:induction false} FinishedReadSucceeds(e: Env, s: Session, slot: Slot)
    requires s.state == SocketState.Ready
    requires s.reader.Some? && s.reader.value.payloadLen == 0 && s.reader.value.isFinal
    ensures Read(e, s, slot).result == Ok(0)
  {
  }

  lemma {:induction false} StateAfterRead(e: Env, s: Session, slot: Slot)
    requires s.state == SocketState.Ready
    ensures Read(e, s, slot).session.state in {SocketState.Ready, WsClosed}
  {
    hide ProcessControlFrames, ReceiveFramePayload;
  }

  predicate StaysReadyAt(e: Env, s: Session, ops: seq<Op>, i: nat)
    requires i < |ops|
  {
    StaysReadyDespiteClose(e, At(e, s, ops, i), ops[i])
  }

  ghost predicate StaysReadyBefore(e: Env, s: Session, ops: seq<Op>, n: nat)
    requires n <= |ops|
  {
    exists i: nat :: i < n && StaysReadyAt(e, s, ops, i)
  }

  predicate StartsDataAt(e: Env, s: Session, ops: seq<Op>, i: nat)
    requires i < |ops|
  {
    StartsData(At(e, s, ops, i), ops[i])
  }

  ghost predicate LateDataBefore(e: Env, s: Session, ops: seq<Op>, n: nat)
    requires n <= |ops|
  {
    exists i: nat, j: nat :: i < j < n && StaysReadyAt(e, s, ops, i) && StartsDataAt(e, s, ops, j)
  }

  lemma {:induction false} LateDataBeforeStep(e: Env, s: Session, ops: seq<Op>, n: nat)
    requires n < |ops|
    ensures StaysReadyBefore(e, s, ops, n + 1) <==> StaysReadyBefore(e, s, ops, n) || StaysReadyAt(e, s, ops, n)
    ensures LateDataBefore(e, s, ops, n + 1)
            <==> LateDataBefore(e, s, ops, n) || (StaysReadyBefore(e, s, ops, n) && StartsDataAt(e, s, ops, n))
  {
    hide StaysReadyAt, StartsDataAt;
  }

  // The observer saw no data frame after a Close.
  ghost predicate NoDataAfterClose(s: Session) {
    Watch(s.wire.log).Some? && Tally(s.wire).lateData == 0
  }

  lemma {:induction false} LateDataCounted(e: Env, w: Wire, ops: seq<Op>, n: nat)
    requires w.log == [] && n <= |ops|
    ensures Reached(At(e, New(w), ops, n))
    ensures At(e, New(w), ops, n).state == SocketState.Ready ==>
              (SentCloses(At(e, New(w), ops, n)) > 0 <==> StaysReadyBefore(e, New(w), ops, n))
    ensures NoDataAfterClose(At(e, New(w), ops, n)) <==> !LateDataBefore(e, New(w), ops, n)
  {
    hide Apply, At, Watch, SendsClose, SentCloses, StaysReadyDespiteClose, StaysReadyBefore, LateDataBefore;
    AllReached(e, w, ops, n);
    CountedInOutput(e, At(e, New(w), ops, n));
    if n == 0 {
      AtEnds(e, New(w), ops);
      StartIsReached(w);
      NoneBefore(e, New(w), ops);
    } else {
      var before := At(e, New(w), ops, n - 1);
      LateDataCounted(e, w, ops, n - 1);
      CountedInOutput(e, before);
      AtStep(e, New(w), ops, n - 1);
      StepIsReached(e, before, ops[n - 1]);
      LateDataBeforeStep(e, New(w), ops, n - 1);
      if Apply(e, before, ops[n - 1]).session.state == SocketState.Ready {
        ReadyStep(e, before, ops[n - 1]);
      }
    }
  }

  // A session is Ready after a Close frame was sent exactly when, some time in the run, a Close was met inside
  // a message or a handshake failed with its Close sent.
  lemma {:induction false} ReadyAfterCloseExactly(e: Env, w: Wire, ops: seq<Op>)
    requires w.log == [] && Run(e, New(w), ops).state == SocketState.Ready
    ensures SentCloses(Run(e, New(w), ops)) > 0
            <==> exists i: nat :: i < |ops| && StaysReadyAt(e, New(w), ops, i)
  {
    hide Run, SentCloses, StaysReadyAt;
    LateDataCounted(e, w, ops, |ops|);
    AtEnds(e, New(w), ops);
  }

  // The rule that no data frame follows a Close is broken in a run exactly when a Ready session stays so
  // despite a Close, and a later write gets its header out; whatever fails.
  lemma {:induction false} DataAfterCloseExactly(e: Env, w: Wire, ops: seq<Op>)
    requires w.log == []
    ensures NoDataAfterClose(Run(e, New(w), ops))
            <==> !exists i: nat, j: nat ::
                   i < j < |ops| && StaysReadyAt(e, New(w), ops, i) && StartsDataAt(e, New(w), ops, j)
  {
    hide Run, SentCloses, StaysReadyAt, StartsDataAt, NoDataAfterClose;
    LateDataCounted(e, w, ops, |ops|);
    AtEnds(e, New(w), ops);
  }

  // It does happen: the handshake meets a data frame instead of the response, and the session writes on.
  lemma {:induction false} WritesAfterFailedHandshake(e: Env, w: Wire)
    requires Lawful(e.codec) && Quiet(w) && w.log == []
    requires w.input == Encode(e.codec, Frame(FrameType.Text(false), None, []))
    ensures var s := Run(e, New(w), [DoCloseHandshake, DoWrite([])]);
            && s.state == SocketState.Ready && !NoDataAfterClose(s)
            && s.wire.log == [Sent(CLOSE_SENT), SentPayload([Byte(0x03), Byte(0xE8)]), Flushed,
                              Received(FrameHeader(FrameType.Text(false), 0, None)),
                              Sent(FrameHeader(FrameType.Binary(false), 0, None)), SentPayload([])]
  {
    hide Encode, Watch, StaysReadyAt, StartsDataAt, NoDataAfterClose;
    var ops := [DoCloseHandshake, DoWrite([])];
    var f := Frame(FrameType.Text(false), None, []);
    var s0 := New(w);
    var s1 := Apply(e, s0, DoCloseHandshake).session;
    assert At(e, s0, ops, 0) == s0 && At(e, s0, ops, 1) == s1 by {
      AtEnds(e, s0, ops);
      AtStep(e, s0, ops, 0);
    }
    HandshakeMeetsData(e, s0, f);
    AtStep(e, s0, ops, 1);
    AtEnds(e, s0, ops);
    assert StaysReadyAt(e, s0, ops, 0) && StartsDataAt(e, s0, ops, 1) by { StaysThenWrites(e, s0, ops); }
    DataAfterCloseExactly(e, w, ops);
    assert [DoWrite([])][1..] == [] && ops[1..] == [DoWrite([])];
  }

  lemma {:induction false} StaysThenWrites(e: Env, s0: Session, ops: seq<Op>)
    requires ops == [DoCloseHandshake, DoWrite([])]
    requires At(e, s0, ops, 0) == s0 && At(e, s0, ops, 1) == Apply(e, s0, DoCloseHandshake).session
    requires s0.state == SocketState.Ready && Quiet(s0.wire)
    requires var s1 := Apply(e, s0, DoCloseHandshake).session; s1.state == SocketState.Ready && Quiet(s1.wire)
    ensures StaysReadyAt(e, s0, ops, 0) && StartsDataAt(e, s0, ops, 1)
  {
    hide At, CloseHandshake;
  }

  lemma {:induction false} HandshakeMeetsData(e: Env, s: Session, f: Frame)
    requires Lawful(e.codec) && Quiet(s.wire) && s == New(s.wire) && s.wire.log == []
    requires f == Frame(FrameType.Text(false), None, []) && s.wire.input == Encode(e.codec, f)
    ensures Apply(e, s, DoCloseHandshake).session
         == s.(flags := Flags(false, true),
               wire := Wire([], [Sent(CLOSE_SENT), SentPayload([Byte(0x03), Byte(0xE8)]), Flushed,
                                 Received(FrameHeader(FrameType.Text(false), 0, None))], [], true))
  {
    hide Encode;
    var sent := SendClose(s.flags, s.wire, CLOSE_NORMAL);
    var flushed := Wires.Flush(sent.wire).wire;
    assert flushed.input == Encode(e.codec, f) + [];
    HeaderIsRead(e.codec, flushed, f, []);
  }
}
