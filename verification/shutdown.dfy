// Closing: the state only moves forward, what is shut stays silent, and exactly when a handshake
// completes and a peer's Close is noticed.
module Shutdown {
  import opened Prelude
  import opened Masker
  import opened Frames
  import opened Wires
  import opened FrameProtocol
  import opened Sessions
  import opened Runs
  import opened Reading
  import opened Messages
  import opened Reassembly
  import opened Rejections
  import opened WireSync

  function Rank(s: SocketState): nat {
    match s
    case Ready => 0
    case WsClosed => 1
    case Closed => 2
  }

  // A closed session has shut its inner socket.
  predicate ShutWhenClosed(s: Session) {
    s.state == Closed ==> !s.wire.open
  }

  lemma {:induction false} ApplyMovesForward(e: Env, s: Session, op: Op)
    requires ShutWhenClosed(s)
    ensures var after := Apply(e, s, op).session; ShutWhenClosed(after) && Rank(s.state) <= Rank(after.state)
  {
    hide ProcessControlFrames, ReceiveFramePayload;
  }

  // Along every run the state moves only from Ready to WsClosed to Closed.
  lemma {:induction false} RunMovesForward(e: Env, s: Session, ops: seq<Op>)
    requires ShutWhenClosed(s)
    ensures var after := Run(e, s, ops); ShutWhenClosed(after) && Rank(s.state) <= Rank(after.state)
    decreases |ops|
  {
    hide Apply;
    if ops != [] {
      ApplyMovesForward(e, s, ops[0]);
      RunMovesForward(e, Apply(e, s, ops[0]).session, ops[1..]);
    }
  }

  // That the inner socket fails once shut is needed. Exactly a handshake that completes over a closed session
  // moves the state back, whatever fails; on a wire that still works, when the peer says Close first.
  lemma {:induction false} MovesBackExactly(e: Env, s: Session, op: Op, fs: seq<Frame>, rest: seq<Byte>)
    ensures var back := Rank(Apply(e, s, op).session.state) < Rank(s.state);
            && (back <==> s.state == Closed && op.DoCloseHandshake? && CloseHandshake(e, s).result.Ok?)
            && (Lawful(e.codec) && Benign(s.wire) && !s.flags.waitForPong && s.wire.input == EncodeAll(e.codec, fs) + rest &&
                (FirstWord(fs).Some? || rest == []) ==>
                  (back <==> s.state == Closed && op.DoCloseHandshake? &&
                             FirstWord(fs).Some? && ValidClose(FirstWord(fs).value)))
  {
    hide ProcessControlFrames, ReceiveFramePayload, EncodeAll, FirstWord, ValidClose, Lawful, Benign;
    if Lawful(e.codec) && Benign(s.wire) && !s.flags.waitForPong && s.wire.input == EncodeAll(e.codec, fs) + rest &&
       (FirstWord(fs).Some? || rest == []) {
      HandshakeCompletesExactly(e, s, fs, rest);
    }
  }

  predicate IsDataOp(op: Op) {
    op.DoWaitMessage? || op.DoRead? || op.DoWrite? || op.DoFlush? || op.DoCheckReady?
  }

  // Once non-Ready, every data operation fails with ConnectionReset and touches nothing; once closed,
  // so do close and abort, which succeed.
  lemma {:induction false} SilentOnceShut(e: Env, s: Session, ops: seq<Op>)
    requires s.state != SocketState.Ready
    requires forall i :: 0 <= i < |ops| ==> IsDataOp(ops[i]) || (s.state == Closed && (ops[i].DoClose? || ops[i].DoAbort?))
    ensures Run(e, s, ops) == s
    ensures forall i :: 0 <= i < |ops| ==>
              Apply(e, Run(e, s, ops[..i]), ops[i])
              == Call(if IsDataOp(ops[i]) then Err(ConnectionReset) else Ok(()), s)
    decreases |ops|
  {
    if ops != [] {
      assert Apply(e, s, ops[0]).session == s;
      SilentOnceShut(e, s, ops[1..]);
      forall i | 0 <= i < |ops|
        ensures Run(e, s, ops[..i]) == s
      {
        if i > 0 {
          SilentOnceShut(e, s, ops[..i][1..]);
        }
      }
    }
  }

  // If the inner socket can be shut, close ends in Closed whatever the handshake did: gracefully and
  // with Ok exactly when the handshake completed, by an abort and with its error otherwise.
  lemma {:induction false} CloseSettles(e: Env, s: Session)
    requires s.state != Closed
    ensures var h := CloseHandshake(e, s);
            var c := Sessions.Close(e, s);
            && (c.session.state == Closed <==> Next(h.session.wire).Grant?)
            && (c.session.state == Closed ==>
                  && c.result == h.result && !c.session.wire.open
                  && c.session.wire.log == h.session.wire.log + [ShutDown(h.result.Ok?)])
            && (c.session.state != Closed ==> c.result == Err(WebSocketError.Socket) && c.session.state == h.session.state)
            && c.session == h.session.(state := c.session.state, wire := c.session.wire)
            && c.session.wire.input == h.session.wire.input
  {
    hide ProcessControlFrames;
  }

  // ---- When a close handshake completes ----

  // The peer's Close is reported, whether it is an answer or answered, exactly when it is what the peer
  // says first.
  lemma {:induction false} CloseIsMet(c: Codec, fl: Flags, w: Wire, fs: seq<Frame>, rest: seq<Byte>)
    requires Lawful(c) && Benign(w) && w.input == EncodeAll(c, fs) + rest && !fl.waitForPong
    requires FirstWord(fs).Some? || rest == []
    ensures var r := ProcessControlFrames(c, fl, w);
            && Benign(r.wire)
            && (r.result == Err(ClosedByPeer) <==> FirstWord(fs).Some? && ValidClose(FirstWord(fs).value))
            && (r.result == Err(ClosedByPeer) ==> r.flags == Flags(false, false))
            && (r.result.Err? ==> !r.result.error.Socket?)
  {
    hide ProcessControlFrames, EncodeAll, History, LastItems, LeftOver, Leading, ValidClose, FirstWord;
    LeadingPings(fs);
    FirstWordIsMetAnyhow(c, fl, w, fs, rest);
    if Leading(fs) < |fs| {
      CloseVerdict(fs[Leading(fs)]);
    }
  }

  lemma {:induction false} CloseVerdict(g: Frame)
    ensures Verdict(g) == Err(ClosedByPeer) <==> ValidClose(g)
  {
  }

  // Without I/O errors the handshake completes exactly when the peer's next frame, Pings aside, is a Close of
  // at most 125 bytes. What follows that frame need not be whole frames.
  lemma {:induction false} HandshakeCompletesExactly(e: Env, s: Session, fs: seq<Frame>, rest: seq<Byte>)
    requires Lawful(e.codec) && Benign(s.wire) && s.wire.input == EncodeAll(e.codec, fs) + rest && !s.flags.waitForPong
    requires FirstWord(fs).Some? || rest == []
    ensures var h := CloseHandshake(e, s);
            && (h.result.Ok? <==> FirstWord(fs).Some? && ValidClose(FirstWord(fs).value))
            && (h.result.Ok? ==> h.session.state == WsClosed && h.session.flags == Flags(false, false))
            && (h.result.Err? ==> h.result == Err(WebSocketError.InvalidFrame) && h.session.state == s.state)
            && Benign(h.session.wire)
  {
    hide ProcessControlFrames, EncodeAll, FirstWord, ApplyKey, ValidClose;
    var sent := SendClose(s.flags, s.wire, CLOSE_NORMAL);
    assert sent.result.Ok? && Benign(sent.wire) && sent.flags.waitForClose;
    var w := Wires.Flush(sent.wire).wire;
    assert Benign(w) && w.input == s.wire.input;
    CloseIsMet(e.codec, sent.flags, w, fs, rest);
  }

  // So close ends in Closed, gracefully and with Ok exactly then.
  lemma {:induction false} CloseOutcomeExactly(e: Env, s: Session, fs: seq<Frame>, rest: seq<Byte>)
    requires Lawful(e.codec) && Benign(s.wire) && s.wire.input == EncodeAll(e.codec, fs) + rest && !s.flags.waitForPong
    requires FirstWord(fs).Some? || rest == []
    requires s.state != Closed
    ensures var c := Sessions.Close(e, s);
            var graceful := FirstWord(fs).Some? && ValidClose(FirstWord(fs).value);
            && c.session.state == Closed && !c.session.wire.open
            && c.session.wire.log != [] && c.session.wire.log[|c.session.wire.log| - 1] == ShutDown(graceful)
            && (c.result.Ok? <==> graceful)
            && (c.result.Err? ==> c.result == Err(WebSocketError.InvalidFrame))
  {
    hide CloseHandshake, FirstWord, ValidClose, EncodeAll;
    HandshakeCompletesExactly(e, s, fs, rest);
    CloseSettles(e, s);
  }

  // A handshake begun while a frame is half read takes the rest of its payload for headers. If that and what
  // is behind it reads as frames, be it across the end of the payload, the first of these decides, Pings aside:
  // a payload that spells a Close completes the handshake. If no header can be read, it fails.
  lemma {:induction false} HandshakeInsideFrame(e: Env, s: Session, fs: seq<Frame>, k: nat, gs: seq<Frame>, rest: seq<Byte>)
    requires Lawful(e.codec) && Benign(s.wire) && InSync(e.codec, s, fs, k)
    requires s.reader.Some? && s.reader.value.payloadLen > 0
    ensures var unread := Remainder(fs[k - 1], s.reader.value.payloadLen) + EncodeAll(e.codec, fs[k..]);
            var first := FirstWord(gs);
            && (unread == EncodeAll(e.codec, gs) + rest && (first.Some? || rest == []) ==>
                  (CloseHandshake(e, s).result.Ok? <==> first.Some? && ValidClose(first.value)))
            && (e.codec.parse(unread).Malformed? ==> CloseHandshake(e, s).result == Err(WebSocketError.InvalidFrame))
  {
    hide EncodeAll, FirstWord, Remainder, CloseHandshake;
    if s.wire.input == EncodeAll(e.codec, gs) + rest && (FirstWord(gs).Some? || rest == []) {
      HandshakeCompletesExactly(e, s, gs, rest);
    }
    if e.codec.parse(s.wire.input).Malformed? {
      HandshakeMeetsNoHeader(e, s);
    }
  }

  lemma {:induction false} HandshakeMeetsNoHeader(e: Env, s: Session)
    requires Benign(s.wire) && e.codec.parse(s.wire.input).Malformed?
    ensures CloseHandshake(e, s).result == Err(WebSocketError.InvalidFrame)
  {
    var sent := SendClose(s.flags, s.wire, CLOSE_NORMAL);
    assert sent.result.Ok? && Benign(sent.wire) && sent.wire.input == s.wire.input;
    var w := Wires.Flush(sent.wire).wire;
    assert Benign(w) && w.input == s.wire.input;
  }

  // The payload of a Close that was awaited stays on the wire, and a further handshake takes it for headers:
  // it completes exactly when the first frame spelled by that payload and what is behind it, Pings aside, is a
  // valid Close.
  lemma {:induction false} CloseResponsePayloadIsParsed(e: Env, s: Session, f: Frame, behind: seq<Byte>, gs: seq<Frame>,
                                                        rest: seq<Byte>)
    requires Lawful(e.codec) && Benign(s.wire) && !s.flags.waitForPong && ValidClose(f)
    requires s.wire.input == Encode(e.codec, f) + behind
    requires ApplyKey(f.maskKey, f.payload) + behind == EncodeAll(e.codec, gs) + rest
    requires FirstWord(gs).Some? || rest == []
    ensures var h := CloseHandshake(e, s);
            && h.result.Ok?
            && (CloseHandshake(e, h.session).result.Ok? <==> FirstWord(gs).Some? && ValidClose(FirstWord(gs).value))
  {
    hide EncodeAll, FirstWord, Encode, ProcessControlFrames;
    var sent := SendClose(s.flags, s.wire, CLOSE_NORMAL);
    assert sent.result.Ok? && Benign(sent.wire) && sent.flags.waitForClose && sent.wire.input == s.wire.input;
    var w := Wires.Flush(sent.wire).wire;
    assert Benign(w) && w.input == s.wire.input;
    ControlFramesCalm(e.codec, sent.flags, w);
    CloseResponsePayloadStays(e.codec, sent.flags, Calm(w), f, behind);
    HandshakeCompletesExactly(e, CloseHandshake(e, s).session, gs, rest);
  }

  // ---- When a peer's Close is noticed ----

  lemma {:induction false} ClosedByPeerClearsFlags(c: Codec, f: Flags, w: Wire)
    ensures var r := ProcessControlFrames(c, f, w);
            r.result == Err(ClosedByPeer) ==> r.flags == Flags(false, false)
    decreases |w.input|
  {
    hide SendBack;
    SendBackNeverCloses(c, w);
    var got := RecvHeader(c, w);
    if got.result.Ok? {
      ClosedByPeerClearsFlags(c, f.(waitForPong := false), got.wire);
      if got.result.value.frameType.Ping? {
        ClosedByPeerClearsFlags(c, f, SendBack(got.result.value, got.wire, FrameType.Pong).wire);
      }
    }
  }

  // Only a Close frame reads as closed by the peer.
  lemma {:induction false} SendBackNeverCloses(c: Codec, w: Wire)
    ensures RecvHeader(c, w).result != Err(ClosedByPeer)
    ensures forall h, w', t :: SendBack(h, w', t).result != Err(ClosedByPeer)
  {
    hide Masked;
  }

  // At a message boundary a read or a wait ends the session exactly when the peer's next frame, Pings aside,
  // is a Close of at most 125 bytes; it then reports the reset and clears both flags.
  lemma {:induction false} PeerCloseNoticedExactly(e: Env, s: Session, fs: seq<Frame>, rest: seq<Byte>, slot: Slot)
    requires Lawful(e.codec) && Benign(s.wire) && s.wire.input == EncodeAll(e.codec, fs) + rest && !s.flags.waitForPong
    requires FirstWord(fs).Some? || rest == []
    requires s.state == SocketState.Ready && s.reader.None?
    ensures var closed := FirstWord(fs).Some? && ValidClose(FirstWord(fs).value);
            var r, waited := Read(e, s, slot), WaitMessage(e, s);
            && (r.session.state == WsClosed <==> closed)
            && (waited.session.state == WsClosed <==> closed)
            && (closed ==>
                  && r.result == Err(ConnectionReset) && waited.result == Err(ConnectionReset)
                  && r.session.flags == waited.session.flags == Flags(false, false))
  {
    hide ProcessControlFrames, ReceiveFramePayload, FirstWord, ValidClose, EncodeAll;
    CloseIsMet(e.codec, s.flags, s.wire, fs, rest);
  }

  // With a message pending neither changes the state, whatever arrives or fails; a reset reported then is the
  // peer's Close, and clears both flags.
  lemma {:induction false} PendingMessageKeepsState(e: Env, s: Session, slot: Slot)
    requires s.reader.Some? && s.state == SocketState.Ready
    ensures Read(e, s, slot).session.state == WaitMessage(e, s).session.state == SocketState.Ready
    ensures var r := Read(e, s, slot);
            r.result == Err(ConnectionReset) ==> r.session.reader.Some? && r.session.flags == Flags(false, false)
  {
    hide ReceiveFramePayload;
    PayloadReadClosed(e, s.reader.value, s.flags, s.wire, slot);
  }

  lemma {:induction false} PayloadReadClosed(e: Env, rd: Reader, f: Flags, w: Wire, slot: Slot)
    ensures var c := ReceiveFramePayload(e, rd, f, w, slot);
            c.result == Err(ClosedByPeer) ==> c.flags == Flags(false, false)
    decreases |w.input|
  {
    hide ProcessControlFrames, Consume;
    ClosedByPeerClearsFlags(e.codec, f, w);
    var s := ProcessControlFrames(e.codec, f, w);
    if s.result.Ok? && s.result.value.frameType.Continue? {
      PayloadReadClosed(e, NextFragment(rd, s.result.value), s.flags, s.wire, slot);
    }
  }

  // What a read between the frames of a message fails with, if it does: behind valid Pings and empty fragments
  // it is the next frame, or the end of the stream, that decides.
  function ErrorInside(fs: seq<Frame>): Option<WebSocketError> {
    if fs == [] then Some(WebSocketError.InvalidFrame)
    else if ValidPing(fs[0]) || (fs[0].frameType == Continue(false) && fs[0].payload == []) then ErrorInside(fs[1..])
    else if fs[0].frameType.Continue? then None
    else if ValidClose(fs[0]) then Some(ConnectionReset)
    else Some(WebSocketError.InvalidFrame)
  }

  // The same for a read that starts a message.
  function ErrorAhead(fs: seq<Frame>): Option<WebSocketError> {
    if fs == [] then Some(WebSocketError.InvalidFrame)
    else if ValidPing(fs[0]) then ErrorAhead(fs[1..])
    else if fs[0].frameType.Text? || fs[0].frameType.Binary? then
      if fs[0].frameType.fragmented && fs[0].payload == [] then ErrorInside(fs[1..]) else None
    else if ValidClose(fs[0]) then Some(ConnectionReset)
    else Some(WebSocketError.InvalidFrame)
  }

  function ErrorOf<T>(r: Result<T, WebSocketError>): Option<WebSocketError> {
    if r.Err? then Some(r.error) else None
  }

  // The error a message breaks off with before giving a byte.
  function BreaksAtOnce(m: Whole): Option<WebSocketError> {
    if m.bytes == [] && m.ending.Broken? then Some(m.ending.error) else None
  }

  // A control frame that is no valid Ping ends the wait, with ClosedByPeer exactly for a valid Close.
  lemma {:induction false} OtherControlFrame(c: Codec, fl: Flags, w: Wire, f: Frame, rest: seq<Byte>)
    requires Lawful(c) && Quiet(w) && w.input == Encode(c, f) + rest && !fl.waitForPong
    requires IsControl(f.frameType) && !ValidPing(f)
    ensures var r := ProcessControlFrames(c, fl, w);
            r.result == Err(if ValidClose(f) then ClosedByPeer else InvalidControlFrame)
  {
    hide Encode;
    ThisFrameIsMet(c, fl, w, f, rest);
  }

  lemma {:induction false} TailBreaksExactly(c: Codec, rd: Reader, fl: Flags, w: Wire, fs: seq<Frame>)
    requires Carries(c, w, fs, []) && !fl.waitForPong && !rd.isFinal
    ensures BreaksAtOnce(AfterFrame(c, rd, fl, w)) == ErrorInside(fs)
    decreases |fs|
  {
    hide ProcessControlFrames, RestOfMessage, Encode, ValidClose;
    if fs == [] {
      NoFrame(c, fl, w);
    } else {
      var f, more := fs[0], EncodeAll(c, fs[1..]) + [];
      FirstFrame(c, w, fs, []);
      var w1 := Past(w, more, Handled(f));
      if ValidPing(f) {
        PingIsAnswered(c, fl, w, f, more);
        TailBreaksExactly(c, rd, fl, w1, fs[1..]);
      } else if IsControl(f.frameType) {
        OtherControlFrame(c, fl, w, f, more);
      } else {
        DataIsNoClose(f);
        DataFrameIsReturned(c, fl, w, f, more);
        if f.frameType.Continue? {
          var next := NextFragment(rd, HeaderOf(f));
          PayloadIsTaken(c, next, fl, Past(w, ApplyKey(f.maskKey, f.payload) + more, Handled(f)), f, more);
          if !f.frameType.final {
            TailBreaksExactly(c, next, fl, w1, fs[1..]);
          }
        }
      }
    }
  }

  lemma {:induction false} DataIsNoClose(f: Frame)
    requires !IsControl(f.frameType)
    ensures !ValidClose(f)
  {
  }

  lemma {:induction false} MessageBreaksExactly(c: Codec, s: Session, fs: seq<Frame>)
    requires Carries(c, s.wire, fs, []) && s.reader.None? && !s.flags.waitForPong
    ensures BreaksAtOnce(WholeMessage(c, s)) == ErrorAhead(fs)
    decreases |fs|
  {
    hide ProcessControlFrames, RestOfMessage, AfterFrame, Encode, ValidClose, ErrorInside;
    if fs == [] {
      NoFrame(c, s.flags, s.wire);
    } else {
      var f, more := fs[0], EncodeAll(c, fs[1..]) + [];
      FirstFrame(c, s.wire, fs, []);
      var w1 := Past(s.wire, more, Handled(f));
      if ValidPing(f) {
        PingIsAnswered(c, s.flags, s.wire, f, more);
        MessageBreaksExactly(c, s.(wire := w1), fs[1..]);
      } else if IsControl(f.frameType) {
        OtherControlFrame(c, s.flags, s.wire, f, more);
      } else {
        DataIsNoClose(f);
        DataFrameIsReturned(c, s.flags, s.wire, f, more);
        if !f.frameType.Continue? {
          var t := if f.frameType.Text? then MessageType.Text else MessageType.Binary;
          var first := FirstReader(HeaderOf(f), f.frameType == ToFrameType(t, true), t);
          PayloadIsTaken(c, first, s.flags, Past(s.wire, ApplyKey(f.maskKey, f.payload) + more, Handled(f)), f, more);
          if first.isFinal {
            FinalFrameCompletes(c, first, s.flags, w1);
          } else {
            TailBreaksExactly(c, first, s.flags, w1, fs[1..]);
          }
        }
      }
    }
  }

  lemma {:induction false} FinalFrameCompletes(c: Codec, rd: Reader, fl: Flags, w: Wire)
    requires rd.isFinal
    ensures AfterFrame(c, rd, fl, w).ending == Complete
  {
  }

  // Exactly when a read fails, and with which error: a read between the frames of a message, and one that
  // starts a message, with the error told by the frames on the wire; a read inside a frame, and one with the
  // message finished, not at all.
  lemma {:induction false} ReadErrorsExactly(e: Env, s: Session, fs: seq<Frame>, slot: Slot)
    requires Lawful(e.codec) && Benign(s.wire) && !s.flags.waitForPong && s.state == SocketState.Ready && slot.len > 0
    ensures var error := ErrorOf(Read(e, s, slot).result);
            match s.reader
            case None => s.wire.input == EncodeAll(e.codec, fs) ==> error == ErrorAhead(fs)
            case Some(rd) =>
              if rd.payloadLen > 0 || rd.isFinal then error == None
              else s.wire.input == EncodeAll(e.codec, fs) ==> error == ErrorInside(fs)
  {
    hide Read, ProcessControlFrames, AfterFrame, ErrorInside, ErrorAhead, EncodeAll;
    if s.reader.Some? && (s.reader.value.payloadLen > 0 || s.reader.value.isFinal) {
      NoErrorInsideFrame(e, s, slot);
    } else if s.wire.input == EncodeAll(e.codec, fs) {
      ErrorIsOfMessage(e, s, slot);
      assert EncodeAll(e.codec, fs) + [] == EncodeAll(e.codec, fs);
      if s.reader.None? {
        MessageBreaksExactly(e.codec, CalmSession(s), fs);
      } else {
        NothingToTake(e.codec, s.reader.value, s.flags, Calm(s.wire));
        TailBreaksExactly(e.codec, s.reader.value, s.flags, Calm(s.wire), fs);
      }
    }
  }

  lemma {:induction false} ErrorIsOfMessage(e: Env, s: Session, slot: Slot)
    requires s.state == SocketState.Ready && Benign(s.wire) && slot.len > 0
    ensures ErrorOf(Read(e, s, slot).result) == BreaksAtOnce(WholeMessage(e.codec, CalmSession(s)))
  {
    hide Read, WholeMessage;
    var r, m := Read(e, s, slot).result, WholeMessage(e.codec, CalmSession(s));
    if r.Err? {
      ReadFailsExactly(e, s, slot, r.error);
    }
    if m.ending.Broken? {
      ReadFailsExactly(e, s, slot, m.ending.error);
    }
  }

  lemma {:induction false} NoErrorInsideFrame(e: Env, s: Session, slot: Slot)
    requires s.state == SocketState.Ready && Benign(s.wire) && slot.len > 0
    requires s.reader.Some? && (s.reader.value.payloadLen > 0 || s.reader.value.isFinal)
    ensures Read(e, s, slot).result.Ok?
  {
    hide ReceiveFramePayload, Consume;
    if s.reader.value.payloadLen > 0 {
      FrameRead(e, s.reader.value, s.flags, s.wire, slot);
    } else {
      FinishedRead(e, s.reader.value, s.flags, s.wire, slot);
    }
  }

  // The two histories that contradict what one might expect.

  // A Close between the fragments of a message: the read reports a reset, the state stays Ready.
  lemma {:induction false} MidMessageCloseStaysReady(e: Env, w: Wire)
    requires Lawful(e.codec) && Quiet(w)
    requires w.input == EncodeAll(e.codec, [Frame(FrameType.Text(true), None, []), Frame(FrameType.Close, None, [])])
    ensures var r := Read(e, New(w), Slot(1, Cut(0, 0)));
            r.result == Err(ConnectionReset) && r.session.state == SocketState.Ready && r.session.reader.Some?
  {
    hide Encode;
    var f0, f1 := Frame(FrameType.Text(true), None, []), Frame(FrameType.Close, None, []);
    assert EncodeAll(e.codec, [f0, f1]) == Encode(e.codec, f0) + EncodeAll(e.codec, [f1]);
    assert EncodeAll(e.codec, [f1]) == Encode(e.codec, f1) + [];
    HeaderIsRead(e.codec, w, f0, EncodeAll(e.codec, [f1]));
    var w1 := RecvHeader(e.codec, w).wire;
    assert w1.input == Encode(e.codec, f1) + [];
    HeaderIsRead(e.codec, w1, f1, []);
  }

  const CLOSE_RECEIVED: FrameHeader := FrameHeader(FrameType.Close, 0, None)
  const CLOSE_SENT: FrameHeader := FrameHeader(FrameType.Close, 2, None)

  lemma {:induction false} PeerCloseIsAnswered(e: Env, w: Wire)
    requires Lawful(e.codec) && Quiet(w) && w.log == []
    requires w.input == Encode(e.codec, Frame(FrameType.Close, None, []))
    ensures var s := WaitMessage(e, New(w)).session;
            && s.state == WsClosed && s.flags == Flags(false, false)
            && s.wire == Wire([], [Received(CLOSE_RECEIVED), ReceivedPayload([]), Sent(CLOSE_RECEIVED), SentPayload([])],
                              [], true)
  {
    hide Encode;
    var f := Frame(FrameType.Close, None, []);
    assert w.input == Encode(e.codec, f) + [];
    HeaderIsRead(e.codec, w, f, []);
  }

  lemma {:induction false} CloseSendsAgain(e: Env, s: Session)
    requires Quiet(s.wire) && s.wire.input == [] && s.state == WsClosed && !s.flags.waitForClose
    ensures Sessions.Close(e, s).session.wire.log
         == s.wire.log + [Sent(CLOSE_SENT), SentPayload([Byte(0x03), Byte(0xE8)]), Flushed, ReadFailed, ShutDown(false)]
  {
    hide ProcessControlFrames;
    var sent := SendClose(s.flags, s.wire, CLOSE_NORMAL);
    assert sent.wire == s.wire.(log := s.wire.log + [Sent(CLOSE_SENT)] + [SentPayload([Byte(0x03), Byte(0xE8)])]);
    var w := Wires.Flush(sent.wire).wire;
    NoFrame(e.codec, sent.flags, w);
    assert s.wire.log + [Sent(CLOSE_SENT)] + [SentPayload([Byte(0x03), Byte(0xE8)])] + [Flushed] + [ReadFailed] + [ShutDown(false)]
        == s.wire.log + [Sent(CLOSE_SENT), SentPayload([Byte(0x03), Byte(0xE8)]), Flushed, ReadFailed, ShutDown(false)];
  }

  // Closing after the peer's Close was answered puts a second Close frame on the wire.
  lemma {:induction false} TwoCloseFrames(e: Env, w: Wire)
    requires Lawful(e.codec) && Quiet(w) && w.log == []
    requires w.input == Encode(e.codec, Frame(FrameType.Close, None, []))
    ensures Run(e, New(w), [DoWaitMessage, DoClose]).wire.log
         == [Received(CLOSE_RECEIVED), ReceivedPayload([]), Sent(CLOSE_RECEIVED), SentPayload([]),
             Sent(CLOSE_SENT), SentPayload([Byte(0x03), Byte(0xE8)]), Flushed, ReadFailed, ShutDown(false)]
  {
    hide Encode, WaitMessage, Sessions.Close;
    PeerCloseIsAnswered(e, w);
    var s := Apply(e, New(w), DoWaitMessage).session;
    CloseSendsAgain(e, s);
    assert [DoWaitMessage, DoClose][1..] == [DoClose];
    assert Run(e, s, [DoClose]) == Apply(e, s, DoClose).session;
  }
}
