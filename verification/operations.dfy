// What each operation answers and does, told by the schedule and the frames on the wire, with every constant
// written out, and what it leaves alone.
module Operations {
  import opened Prelude
  import opened WordMask
  import opened Masker
  import opened Frames
  import opened Wires
  import opened FrameProtocol
  import opened Sessions
  import opened Runs
  import opened Reading
  import opened Messages
  import opened Reassembly
  import opened Rejections
  import opened Shutdown

  // ---- Control frames ----

  // A control frame that comes next, by its type, its length and the flags: too long, it is rejected with
  // nothing but its header taken; a Ping or a Close that was not awaited is answered with its own payload,
  // unmasked; what was awaited is absorbed.
  lemma {:induction false} ControlFrameExactly(c: Codec, fl: Flags, w: Wire, f: Frame, rest: seq<Byte>)
    requires Lawful(c) && Quiet(w) && w.input == Encode(c, f) + rest
    requires f.frameType.Ping? || f.frameType.Pong? || f.frameType.Close?
    ensures var r := ProcessControlFrames(c, fl, w);
            var header := Received(FrameHeader(f.frameType, |f.payload|, f.maskKey));
            var headerOnly := Past(w, ApplyKey(f.maskKey, f.payload) + rest, [header]);
            var answered := Past(w, rest, [header, ReceivedPayload(f.payload),
                                           Sent(FrameHeader(if f.frameType.Ping? then FrameType.Pong else FrameType.Close,
                                                            |f.payload|, None)),
                                           SentPayload(f.payload)]);
            if |f.payload| > 125 then r == Step(Err(InvalidControlFrame), fl, headerOnly)
            else match f.frameType
              case Ping => r == ProcessControlFrames(c, fl, answered)
              case Pong =>
                if fl.waitForPong then r == ProcessControlFrames(c, Flags(false, fl.waitForClose), headerOnly)
                else r == Step(Err(InvalidControlFrame), fl, headerOnly)
              case _ =>
                if fl.waitForClose then r == Step(Err(ClosedByPeer), Flags(false, false), headerOnly)
                else r == Step(Err(ClosedByPeer), Flags(false, false), answered)
  {
    hide Encode, ApplyKey, SendBack;
    HeaderIsRead(c, w, f, rest);
    if |f.payload| <= 125 {
      if f.frameType.Ping? {
        PingIsAnswered(c, fl, w, f, rest);
      } else if f.frameType.Pong? {
        if fl.waitForPong {
          PongPayloadStays(c, fl, w, f, rest);
        }
      } else if fl.waitForClose {
        CloseResponsePayloadStays(c, fl, w, f, rest);
      } else {
        var header := Received(HeaderOf(f));
        var w1 := Past(w, ApplyKey(f.maskKey, f.payload) + rest, [header]);
        CloseIsAnswered(w1, f, rest);
        PastPast(w, w1.input, [header], rest, LastItems(false, f)[1..]);
        assert [header] + LastItems(false, f)[1..] == LastItems(false, f);
      }
    }
  }

  // A Ping, or a Close that was not awaited, whose payload the end of the stream cuts short is not answered: what
  // there is of it is taken, and the error is that of a malformed frame.
  lemma {:induction false} ControlFrameCutShort(c: Codec, fl: Flags, w: Wire, h: FrameHeader, part: seq<Byte>)
    requires Lawful(c) && Quiet(w) && w.input == c.encode(h) + part && |part| < h.payloadLen <= 125
    requires h.frameType.Ping? || (h.frameType.Close? && !fl.waitForClose)
    ensures ProcessControlFrames(c, fl, w)
         == Step(Err(FrameReadError.InvalidFrame), fl, Past(w, [], [Received(h), ReadFailed]))
  {
    var got := RecvHeader(c, w);
    assert got == IO(Ok(h), Past(w, part, [Received(h)]));
    assert w.log + [Received(h)] + [ReadFailed] == w.log + [Received(h), ReadFailed];
  }

  // ---- Waiting ----

  // What waiting answers at a message boundary, for every frame that may come next.
  lemma {:induction false} WaitAnswersExactly(e: Env, s: Session, fs: seq<Frame>, rest: seq<Byte>)
    requires Lawful(e.codec) && Benign(s.wire) && s.wire.input == EncodeAll(e.codec, fs) + rest && !s.flags.waitForPong
    requires FirstWord(fs).Some? || rest == []
    requires s.state == SocketState.Ready && s.reader.None?
    ensures WaitMessage(e, s).result
         == match FirstWord(fs)
            case None => Err(WebSocketError.InvalidFrame)
            case Some(g) =>
              (match g.frameType
               case Text(_) => Ok(MessageType.Text)
               case Binary(_) => Ok(MessageType.Binary)
               case Close => Err(if |g.payload| <= 125 then ConnectionReset else WebSocketError.InvalidFrame)
               case _ => Err(WebSocketError.InvalidFrame))
  {
    hide ProcessControlFrames, EncodeAll, History, LastItems, LeftOver, Leading, FirstWord;
    LeadingPings(fs);
    FirstWordIsMetAnyhow(e.codec, s.flags, s.wire, fs, rest);
  }

  // ---- The handshake ----

  // What a handshake does to the history, up to the frame it meets: the Close with code 1000 unless a response
  // is awaited already, the flush, the answered Pings, and that frame's header.
  lemma {:induction false} HandshakeExactly(e: Env, s: Session, fs: seq<Frame>, rest: seq<Byte>)
    requires Lawful(e.codec) && Benign(s.wire) && s.wire.input == EncodeAll(e.codec, fs) + rest && !s.flags.waitForPong
    requires FirstWord(fs).Some?
    ensures var h := CloseHandshake(e, s);
            var j := Leading(fs);
            var g := FirstWord(fs).value;
            && j < |fs| && fs[j] == g
            && h.session.wire.log
            == s.wire.log
               + (if s.flags.waitForClose then []
                  else [Sent(FrameHeader(FrameType.Close, 2, None)), SentPayload([Byte(0x03), Byte(0xE8)])])
               + [Flushed] + (History(fs[..j]) + [Received(FrameHeader(g.frameType, |g.payload|, g.maskKey))])
            && h.session.wire.input == ApplyKey(g.maskKey, g.payload) + (EncodeAll(e.codec, fs[j + 1..]) + rest)
            && h.session.flags == Flags(false, !ValidClose(g))
            && h.session == s.(flags := h.session.flags, state := h.session.state, wire := h.session.wire)
  {
    hide ProcessControlFrames, EncodeAll, History, Leading, FirstWord, ValidClose;
    LeadingPings(fs);
    CloseIsSent(s);
    var sent := SendClose(s.flags, s.wire, CLOSE_NORMAL);
    FirstWordIsMetAnyhow(e.codec, sent.flags, Wires.Flush(sent.wire).wire, fs, rest);
  }

  lemma {:induction false} CloseIsSent(s: Session)
    requires Benign(s.wire)
    ensures var sent := SendClose(s.flags, s.wire, CLOSE_NORMAL);
            var flushed := Wires.Flush(sent.wire);
            && sent.result.Ok? && sent.flags == Flags(s.flags.waitForPong, true) && flushed.result.Ok?
            && Benign(flushed.wire) && flushed.wire.input == s.wire.input
            && flushed.wire.log
            == s.wire.log
               + (if s.flags.waitForClose then []
                  else [Sent(FrameHeader(FrameType.Close, 2, None)), SentPayload([Byte(0x03), Byte(0xE8)])])
               + [Flushed]
  {
    SendCloseExactly(s.flags, s.wire, CLOSE_NORMAL);
    var nothing: seq<Item> := [];
    assert s.wire.log + nothing == s.wire.log;
  }

  // ---- Sending ----

  // The two writes of a Close frame, for any code: both, or the first that fails.
  lemma {:induction false} SendCloseExactly(f: Flags, w: Wire, code: seq<Byte>)
    requires |code| == 2
    ensures var r := SendClose(f, w, code);
            var header := Sent(FrameHeader(FrameType.Close, 2, None));
            && r.wire.input == w.input && r.wire.open == w.open
            && if f.waitForClose then r == Step(Ok(()), f, w)
               else if Next(w).Fail? then
                 r.result == Err(FrameReadError.Socket) && r.flags == f && r.wire.log == w.log + [WriteFailed]
               else if Next(Spend(w)).Fail? then
                 r.result == Err(FrameReadError.Socket) && r.flags == f && r.wire.log == w.log + [header, WriteFailed]
               else
                 r.result == Ok(()) && r.flags == Flags(f.waitForPong, true) && r.wire.log == w.log + [header, SentPayload(code)]
  {
    var header := Sent(FrameHeader(FrameType.Close, 2, None));
    assert w.log + [header] + [WriteFailed] == w.log + [header, WriteFailed];
    assert w.log + [header] + [SentPayload(code)] == w.log + [header, SentPayload(code)];
  }

  // A Ping is a bare header, sent unless one is outstanding.
  lemma {:induction false} SendPingExactly(f: Flags, w: Wire)
    ensures var r := SendPing(f, w);
            && r.wire.input == w.input
            && if f.waitForPong then r == Step(Ok(()), f, w)
               else if Next(w).Fail? then
                 r.result == Err(FrameReadError.Socket) && r.flags == f && r.wire.log == w.log + [WriteFailed]
               else
                 && r.result == Ok(()) && r.flags == Flags(true, f.waitForClose)
                 && r.wire.log == w.log + [Sent(FrameHeader(FrameType.Ping, 0, None))]
  {
  }

  // A write in state Ready succeeds exactly when both its calls are granted (an empty payload needs none), and
  // what is in the history then is one whole frame of the current type; nothing else of the session changes.
  lemma {:induction false} WriteExactly(s: Session, buf: Payload)
    requires s.state == SocketState.Ready
    ensures var r := Write(s, buf);
            var t := match s.sendType case Text => FrameType.Text(false) case Binary => FrameType.Binary(false);
            var header := Sent(FrameHeader(t, |buf|, None));
            var head, body := Next(s.wire).Grant?, buf == [] || Next(Spend(s.wire)).Grant?;
            && r.result == (if head && body then Ok(|buf|) else Err(WebSocketError.Socket))
            && r.session == s.(wire := r.session.wire) && r.session.wire.input == s.wire.input
            && r.session.wire.log
            == s.wire.log + (if !head then [WriteFailed] else if !body then [header, WriteFailed] else [header, SentPayload(buf)])
  {
    var t := match s.sendType case Text => FrameType.Text(false) case Binary => FrameType.Binary(false);
    var header := Sent(FrameHeader(t, |buf|, None));
    assert s.wire.log + [header] + [WriteFailed] == s.wire.log + [header, WriteFailed];
    assert s.wire.log + [header] + [SentPayload(buf)] == s.wire.log + [header, SentPayload(buf)];
  }

  // ---- Calls passed on to the inner socket ----

  // A flush in state Ready is the inner socket's flush.
  lemma {:induction false} FlushExactly(s: Session)
    requires s.state == SocketState.Ready
    ensures var r := Sessions.Flush(s);
            && r.result == (if Next(s.wire).Grant? then Ok(()) else Err(WebSocketError.Socket))
            && r.session == s.(wire := r.session.wire) && r.session.wire.input == s.wire.input
            && r.session.wire.log == s.wire.log + (if Next(s.wire).Grant? then [Flushed] else [])
            && r.session.wire.open == s.wire.open
  {
    var nothing: seq<Item> := [];
    assert s.wire.log + nothing == s.wire.log;
  }

  // A readiness check in state Ready gives the inner socket's answer and leaves no trace.
  lemma {:induction false} CheckReadyExactly(s: Session)
    requires s.state == SocketState.Ready
    ensures var r := CheckReady(s);
            && r.result == (match Next(s.wire)
                            case Grant(n) => Ok(n > 0)
                            case Fail(_) => Err(WebSocketError.Socket))
            && r.session == s.(wire := r.session.wire) && r.session.wire == s.wire.(fates := r.session.wire.fates)
  {
  }

  // An abort of a session that is not closed is the inner socket's abort; if that fails the session stays as it
  // is. Graceful closing is no part of it.
  lemma {:induction false} AbortExactly(s: Session)
    requires s.state != Closed
    ensures var r := Abort(s);
            && r.result == (if Next(s.wire).Grant? then Ok(()) else Err(WebSocketError.Socket))
            && r.session == s.(state := r.session.state, wire := r.session.wire)
            && r.session.wire.input == s.wire.input
            && (if Next(s.wire).Grant? then
                  && r.session.state == Closed && !r.session.wire.open
                  && r.session.wire.log == s.wire.log + [ShutDown(false)]
                else
                  && r.session.state == s.state && r.session.wire.open == s.wire.open
                  && r.session.wire.log == s.wire.log)
  {
  }

  // ---- Socket errors ----

  ghost predicate AnyFails(fates: seq<Fate>) {
    exists i :: 0 <= i < |fates| && fates[i].Fail?
  }

  // The calls on the inner socket between two wires, and whether one of them failed.
  ghost predicate Draws(w: Wire, w': Wire, failed: bool) {
    && |w'.fates| <= |w.fates|
    && var n := |w.fates| - |w'.fates|;
    && w.fates == w.fates[..n] + w'.fates
    && failed == AnyFails(w.fates[..n])
  }

  // From one wire to a later one: input is taken from the front only, the history only grows, and as long as
  // the socket is open `failed` says whether a call failed.
  ghost predicate Onward(w: Wire, w': Wire, failed: bool) {
    && |w'.input| <= |w.input| && w'.input == w.input[|w.input| - |w'.input|..]
    && w.log <= w'.log
    && (w.open ==> Draws(w, w', failed))
  }

  lemma {:induction false} Stays(w: Wire)
    ensures Onward(w, w, false)
  {
  }

  lemma {:induction false} AnyFailsJoins(a: seq<Fate>, b: seq<Fate>)
    ensures AnyFails(a + b) == (AnyFails(a) || AnyFails(b))
  {
    if AnyFails(a) {
      var i :| 0 <= i < |a| && a[i].Fail?;
      assert (a + b)[i].Fail?;
    }
    if AnyFails(b) {
      var i :| 0 <= i < |b| && b[i].Fail?;
      assert (a + b)[|a| + i].Fail?;
    }
  }

  lemma {:induction false} DrawsThrough(w: Wire, w1: Wire, f1: bool, w2: Wire, f2: bool)
    requires Draws(w, w1, f1) && Draws(w1, w2, f2)
    ensures Draws(w, w2, f1 || f2)
  {
    hide AnyFails;
    var a, b := w.fates[..|w.fates| - |w1.fates|], w1.fates[..|w1.fates| - |w2.fates|];
    AnyFailsJoins(a, b);
    assert w.fates == (a + b) + w2.fates;
    assert w.fates[..|w.fates| - |w2.fates|] == a + b;
  }

  lemma {:induction false} Through(w: Wire, w1: Wire, f1: bool, w2: Wire, f2: bool)
    requires Onward(w, w1, f1) && Onward(w1, w2, f2) && w1.open == w.open
    ensures Onward(w, w2, f1 || f2)
  {
    hide Draws;
    if w.open {
      DrawsThrough(w, w1, f1, w2, f2);
    }
  }

  // One call.
  lemma {:induction false} OneCall(w: Wire, w': Wire, n: nat)
    requires w'.fates == Spend(w).fates && n <= |w.input| && w'.input == w.input[n..] && w.log <= w'.log
    ensures Onward(w, w', Next(w).Fail?)
  {
    if w.open && w.fates != [] {
      var drawn := w.fates[..1];
      assert |w.fates| - |w'.fates| == 1 && drawn == [w.fates[0]] && w.fates == drawn + w'.fates;
      assert AnyFails(drawn) <==> drawn[0].Fail?;
    }
  }

  lemma {:induction false} RecvHeaderDraws(c: Codec, w: Wire)
    ensures var io := RecvHeader(c, w);
            Onward(w, io.wire, io.result == Err(FrameReadError.Socket)) && io.wire.open == w.open
  {
    hide Onward;
    var io := RecvHeader(c, w);
    OneCall(w, io.wire, |w.input| - |io.wire.input|);
  }

  lemma {:induction false} RecvPayloadDraws(h: FrameHeader, capacity: nat, w: Wire)
    ensures var io := RecvPayload(h, capacity, w);
            Onward(w, io.wire, io.result == Err(FrameReadError.Socket)) && io.wire.open == w.open
  {
    hide Onward, ApplyKey;
    var io := RecvPayload(h, capacity, w);
    if h.payloadLen > capacity {
      Stays(w);
    } else if h.payloadLen == 0 {
      NoCall(w, io.wire);
    } else {
      OneCall(w, io.wire, |w.input| - |io.wire.input|);
    }
  }

  lemma {:induction false} NoCall(w: Wire, w': Wire)
    requires w'.fates == w.fates && w'.input == w.input && w.log <= w'.log
    ensures Onward(w, w', false)
  {
  }

  lemma {:induction false} SendsDraw(h: FrameHeader, payload: seq<Byte>, w: Wire)
    ensures var io := SendHeader(h, w);
            Onward(w, io.wire, io.result == Err(FrameReadError.Socket)) && io.wire.open == w.open
    ensures var io := SendPayload(h, payload, w);
            Onward(w, io.wire, io.result == Err(FrameReadError.Socket)) && io.wire.open == w.open
  {
    hide Onward, ApplyKey;
    OneCall(w, SendHeader(h, w).wire, 0);
    var io := SendPayload(h, payload, w);
    if |payload| != h.payloadLen || payload == [] {
      NoCall(w, io.wire);
    } else {
      OneCall(w, io.wire, 0);
    }
  }

  lemma {:induction false} OtherCallsDraw(w: Wire, want: nat, graceful: bool)
    ensures var io := ReadSome(want, w);
            Onward(w, io.wire, io.result == Err(FrameReadError.Socket)) && io.wire.open == w.open
    ensures var io := Wires.Flush(w);
            Onward(w, io.wire, io.result == Err(FrameReadError.Socket)) && io.wire.open == w.open
    ensures var io := Shut(w, graceful);
            Onward(w, io.wire, io.result == Err(FrameReadError.Socket))
    ensures var io := Wires.Ready(w);
            Onward(w, io.wire, io.result == Err(FrameReadError.Socket))
  {
    hide Onward;
    OneCall(w, ReadSome(want, w).wire, |w.input| - |ReadSome(want, w).wire.input|);
    OneCall(w, Wires.Flush(w).wire, 0);
    OneCall(w, Shut(w, graceful).wire, 0);
    OneCall(w, Wires.Ready(w).wire, 0);
  }

  lemma {:induction false} SendBackDraws(h: FrameHeader, w: Wire, as': FrameType)
    ensures var io := SendBack(h, w, as');
            Onward(w, io.wire, io.result == Err(FrameReadError.Socket)) && io.wire.open == w.open
  {
    hide Onward, RecvPayload, SendHeader, SendPayload;
    RecvPayloadDraws(h, 125, w);
    var body := RecvPayload(h, 125, w);
    if body.result.Ok? {
      var reply := h.(maskKey := None, frameType := as');
      SendsDraw(reply, body.result.value, body.wire);
      SendHeaderFails(reply, body.wire);
      var head := SendHeader(reply, body.wire);
      Through(w, body.wire, false, head.wire, head.result.Err?);
      if head.result.Ok? {
        SendsDraw(reply, body.result.value, head.wire);
        var last := SendPayload(reply, body.result.value, head.wire);
        Through(w, head.wire, false, last.wire, last.result == Err(FrameReadError.Socket));
      }
    }
  }

  lemma {:induction false} SendHeaderFails(h: FrameHeader, w: Wire)
    ensures SendHeader(h, w).result.Err? ==> SendHeader(h, w).result == Err(FrameReadError.Socket)
  {
  }

  lemma {:induction false} ControlFramesDraw(c: Codec, f: Flags, w: Wire)
    ensures var r := ProcessControlFrames(c, f, w);
            Onward(w, r.wire, r.result == Err(FrameReadError.Socket)) && r.wire.open == w.open
    decreases |w.input|
  {
    hide Onward, RecvHeader, SendBack;
    RecvHeaderDraws(c, w);
    var got := RecvHeader(c, w);
    if got.result.Ok? && IsControl(got.result.value.frameType) && got.result.value.payloadLen <= 125 {
      var h := got.result.value;
      match h.frameType {
        case Ping =>
          SendBackDraws(h, got.wire, FrameType.Pong);
          var back := SendBack(h, got.wire, FrameType.Pong);
          Through(w, got.wire, false, back.wire, back.result == Err(FrameReadError.Socket));
          if back.result.Ok? {
            ControlFramesDraw(c, f, back.wire);
            var r := ProcessControlFrames(c, f, back.wire);
            Through(w, back.wire, false, r.wire, r.result == Err(FrameReadError.Socket));
          }
        case Close =>
          if !f.waitForClose {
            SendBackDraws(h, got.wire, FrameType.Close);
            var back := SendBack(h, got.wire, FrameType.Close);
            Through(w, got.wire, false, back.wire, back.result == Err(FrameReadError.Socket));
          }
        case Pong =>
          if f.waitForPong {
            ControlFramesDraw(c, f.(waitForPong := false), got.wire);
            var r := ProcessControlFrames(c, f.(waitForPong := false), got.wire);
            Through(w, got.wire, false, r.wire, r.result == Err(FrameReadError.Socket));
          }
      }
    }
  }

  lemma {:induction false} PayloadReadDraws(e: Env, rd: Reader, f: Flags, w: Wire, slot: Slot)
    ensures var c := ReceiveFramePayload(e, rd, f, w, slot);
            Onward(w, c.wire, c.result == Err(FrameReadError.Socket)) && c.wire.open == w.open
    decreases |w.input|
  {
    hide Onward, ProcessControlFrames, ReadSome, Consume;
    if slot.len == 0 || (rd.payloadLen == 0 && rd.isFinal) {
      Stays(w);
    } else if rd.payloadLen > 0 {
      OtherCallsDraw(w, Min(slot.len, rd.payloadLen), false);
    } else {
      ControlFramesDraw(e.codec, f, w);
      var s := ProcessControlFrames(e.codec, f, w);
      if s.result.Ok? && s.result.value.frameType.Continue? {
        var next := NextFragment(rd, s.result.value);
        PayloadReadDraws(e, next, s.flags, s.wire, slot);
        var c := ReceiveFramePayload(e, next, s.flags, s.wire, slot);
        Through(w, s.wire, false, c.wire, c.result == Err(FrameReadError.Socket));
      }
    }
  }

  lemma {:induction false} ReadDraws(e: Env, s: Session, slot: Slot)
    ensures var r := NextMessage(e, s);
            && Onward(s.wire, r.session.wire, r.result == Err(WebSocketError.Socket)) && r.session.wire.open == s.wire.open
    ensures var r := Read(e, s, slot);
            && Onward(s.wire, r.session.wire, r.result == Err(WebSocketError.Socket)) && r.session.wire.open == s.wire.open
  {
    hide Onward, ProcessControlFrames, ReceiveFramePayload;
    Stays(s.wire);
    ControlFramesDraw(e.codec, s.flags, s.wire);
    var at := if s.reader.Some? then s else NextMessage(e, s).session;
    if at.reader.Some? {
      PayloadReadDraws(e, at.reader.value, at.flags, at.wire, slot);
      if s.reader.None? && NextMessage(e, s).result.Ok? {
        var c := ReceiveFramePayload(e, at.reader.value, at.flags, at.wire, slot);
        Through(s.wire, at.wire, false, c.wire, c.result == Err(FrameReadError.Socket));
      }
    }
  }

  lemma {:induction false} WriteDraws(s: Session, buf: Payload)
    ensures var r := Write(s, buf); Onward(s.wire, r.session.wire, r.result == Err(WebSocketError.Socket))
  {
    hide Onward, SendHeader, SendPayload;
    Stays(s.wire);
    var h := FrameHeader(ToFrameType(s.sendType, false), |buf|, None);
    SendsDraw(h, buf, s.wire);
    SendHeaderFails(h, s.wire);
    var head := SendHeader(h, s.wire);
    if head.result.Ok? {
      SendsDraw(h, buf, head.wire);
      var body := SendPayload(h, buf, head.wire);
      Through(s.wire, head.wire, false, body.wire, body.result == Err(FrameReadError.Socket));
    }
  }

  lemma {:induction false} SendCloseDraws(f: Flags, w: Wire, code: seq<Byte>)
    requires |code| == 2
    ensures var r := SendClose(f, w, code);
            && Onward(w, r.wire, r.result == Err(FrameReadError.Socket)) && r.wire.open == w.open
            && (r.result.Err? ==> r.result == Err(FrameReadError.Socket))
  {
    hide Onward;
    Stays(w);
    var h := FrameHeader(FrameType.Close, 2, None);
    SendsDraw(h, code, w);
    var head := SendHeader(h, w);
    if head.result.Ok? {
      SendsDraw(h, code, head.wire);
      var body := SendPayload(h, code, head.wire);
      Through(w, head.wire, false, body.wire, body.result == Err(FrameReadError.Socket));
    }
  }

  lemma {:induction false} HandshakeDraws(e: Env, s: Session)
    ensures var r := CloseHandshake(e, s);
            Onward(s.wire, r.session.wire, r.result == Err(WebSocketError.Socket)) && r.session.wire.open == s.wire.open
  {
    hide Onward, ProcessControlFrames, SendClose;
    SendCloseDraws(s.flags, s.wire, CLOSE_NORMAL);
    var sent := SendClose(s.flags, s.wire, CLOSE_NORMAL);
    if sent.result.Ok? {
      OtherCallsDraw(sent.wire, 0, false);
      var flushed := Wires.Flush(sent.wire);
      Through(s.wire, sent.wire, false, flushed.wire, flushed.result.Err?);
      if flushed.result.Ok? {
        ControlFramesDraw(e.codec, sent.flags, flushed.wire);
        var step := ProcessControlFrames(e.codec, sent.flags, flushed.wire);
        Through(s.wire, flushed.wire, false, step.wire, step.result == Err(FrameReadError.Socket));
      }
    }
  }

  // Every operation takes its input from the front and only adds to the history; and over an open socket it
  // reports a socket error exactly when one of its calls on the inner socket failed: none is swallowed, and no
  // other error is called one.
  lemma {:induction false} SocketErrorsExactly(e: Env, s: Session, op: Op)
    ensures var c := Apply(e, s, op);
            Onward(s.wire, c.session.wire, c.result == Err(WebSocketError.Socket))
  {
    hide Onward, Read, NextMessage, Write, CloseHandshake, SendHeader;
    Stays(s.wire);
    OtherCallsDraw(s.wire, 0, false);
    match op {
      case DoWaitMessage => ReadDraws(e, s, Slot(0, Cut(0, 0)));
      case DoRead(slot) => ReadDraws(e, s, slot);
      case DoWrite(buf) => WriteDraws(s, buf);
      case DoCloseHandshake => HandshakeDraws(e, s);
      case DoClose =>
        HandshakeDraws(e, s);
        var h := CloseHandshake(e, s);
        OtherCallsDraw(h.session.wire, 0, h.result.Ok?);
        var shut := Shut(h.session.wire, h.result.Ok?);
        Through(s.wire, h.session.wire, h.result == Err(WebSocketError.Socket), shut.wire, shut.result.Err?);
      case DoSendPing =>
        SendsDraw(FrameHeader(FrameType.Ping, 0, None), [], s.wire);
        SendHeaderFails(FrameHeader(FrameType.Ping, 0, None), s.wire);
      case _ =>
    }
  }

  // ---- What an operation leaves alone ----

  lemma {:induction false} FieldsKept(e: Env, s: Session, op: Op)
    ensures var after := Apply(e, s, op).session;
            && after.sendType == (if op.DoSetSendFrameType? then op.t else s.sendType)
            && (!op.DoWaitMessage? && !op.DoRead? ==> after.reader == s.reader)
            && (op.DoWaitMessage? && s.reader.Some? ==> after == s)
            && (op.DoWrite? || op.DoFlush? || op.DoAbort? || op.DoCheckReady? || op.DoSetSendFrameType? ==>
                  after.flags == s.flags && after.wire.input == s.wire.input)
            && (op.DoWrite? || op.DoFlush? || op.DoCheckReady? || op.DoSetSendFrameType? || op.DoSendPing? ==>
                  after.state == s.state && after.wire.open == s.wire.open)
            && (op.DoSetSendFrameType? ==> after.wire == s.wire)
  {
    hide WaitDataFrame, ReceiveFramePayload, CloseHandshake, Write;
    match op {
      case DoWrite(buf) => WriteKeeps(s, buf);
      case DoCloseHandshake => HandshakeKeeps(e, s);
      case DoClose => HandshakeKeeps(e, s);
      case _ =>
    }
  }

  lemma {:induction false} WriteKeeps(s: Session, buf: Payload)
    ensures var after := Write(s, buf).session;
            after == s.(wire := after.wire) && after.wire.input == s.wire.input && after.wire.open == s.wire.open
  {
    hide ApplyKey;
  }

  lemma {:induction false} HandshakeKeeps(e: Env, s: Session)
    ensures var after := CloseHandshake(e, s).session; after.reader == s.reader && after.sendType == s.sendType
  {
    hide ProcessControlFrames, SendClose, Wires.Flush;
  }

  // ---- Cuts ----

  // Every split of a stretch whose middle is whole machine words of four or eight bytes is covered.
  lemma {:induction false} EveryCutIsCovered(word: WordSize, n: nat, p: nat, a: nat)
    requires p + a <= n && a % (if word.Bits32? then 4 else 8) == 0
    ensures Split(word, Cut(p, a / (if word.Bits32? then 4 else 8)), n) == (p, a)
    ensures forall cut: Cut :: Split(word, cut, n).1 % (if word.Bits32? then 4 else 8) == 0
  {
  }
}
