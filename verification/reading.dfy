// Reading a message piecemeal, through any buffers and any schedule of short reads, refines
// taking it off the wire in one go.
module Reading {
  import opened Prelude
  import opened Masker
  import opened MaskerLaws
  import opened Frames
  import opened Wires
  import opened FrameProtocol
  import opened Sessions

  // An open transport on which no call fails.
  ghost predicate Benign(w: Wire) {
    w.open && forall i :: 0 <= i < |w.fates| ==> w.fates[i].Grant?
  }

  // The same transport with nothing left to the schedule.
  function Calm(w: Wire): Wire {
    w.(fates := [])
  }

  function CalmSession(s: Session): Session {
    s.(wire := Calm(s.wire))
  }

  datatype Ending = Complete | Stalled(missing: nat) | Broken(error: WebSocketError) | OutOfBuffers

  datatype Whole = Whole(bytes: seq<Byte>, ending: Ending, flags: Flags, wire: Wire)

  function Prepend(bytes: seq<Byte>, m: Whole): Whole {
    m.(bytes := bytes + m.bytes)
  }

  function Unmask(masker: Option<Phase>, s: seq<Byte>): seq<Byte> {
    match masker
    case None => s
    case Some(m) => Masked(m.key, m.offset, s)
  }

  // The reference: the rest of a message in one step, frame by frame.
  function RestOfMessage(c: Codec, rd: Reader, f: Flags, w: Wire): Whole
    decreases |w.input|, 1
  {
    var n := Min(rd.payloadLen, |w.input|);
    var bytes := Unmask(rd.masker, w.input[..n]);
    var after := w.(input := w.input[n..]);
    if n < rd.payloadLen then Whole(bytes, Stalled(rd.payloadLen - n), f, after)
    else Prepend(bytes, AfterFrame(c, rd, f, after))
  }

  // What follows once the payload of the current frame is taken.
  function AfterFrame(c: Codec, rd: Reader, f: Flags, w: Wire): Whole
    decreases |w.input|, 0
  {
    if rd.isFinal then Whole([], Complete, f, w)
    else
      var s := ProcessControlFrames(c, f, w);
      match s.result
      case Err(e) => Whole([], Broken(FromFrameReadError(e)), s.flags, s.wire)
      case Ok(h) =>
        if h.frameType.Continue? then RestOfMessage(c, NextFragment(rd, h), s.flags, s.wire)
        else Whole([], Broken(WebSocketError.InvalidFrame), s.flags, s.wire)
  }

  function WholeMessage(c: Codec, s: Session): Whole {
    match s.reader
    case Some(rd) => RestOfMessage(c, rd, s.flags, s.wire)
    case None =>
      var step := WaitDataFrame(c, s.flags, s.wire);
      match step.result
      case Err(e) => Whole([], Broken(FromFrameReadError(e)), step.flags, step.wire)
      case Ok(rd) => RestOfMessage(c, rd, step.flags, step.wire)
  }

  // ---- The schedule does not show in control frame processing ----

  lemma {:induction false} RecvHeaderCalm(c: Codec, w: Wire)
    requires Benign(w)
    ensures var r, q := RecvHeader(c, w), RecvHeader(c, Calm(w));
            Benign(r.wire) && q.result == r.result && q.wire == Calm(r.wire)
  {
  }

  lemma {:induction false} RecvPayloadCalm(h: FrameHeader, w: Wire)
    requires Benign(w)
    ensures var r := RecvPayload(h, MAX_CONTROL_FRAME_PAYLOAD_LEN, w);
            var q := RecvPayload(h, MAX_CONTROL_FRAME_PAYLOAD_LEN, Calm(w));
            Benign(r.wire) && q.result == r.result && q.wire == Calm(r.wire)
  {
    hide ApplyKey;
  }

  lemma {:induction false} SendsCalm(h: FrameHeader, payload: seq<Byte>, w: Wire)
    requires Benign(w)
    ensures var r, q := SendHeader(h, w), SendHeader(h, Calm(w));
            Benign(r.wire) && q.result == r.result && q.wire == Calm(r.wire)
    ensures var r, q := SendPayload(h, payload, w), SendPayload(h, payload, Calm(w));
            Benign(r.wire) && q.result == r.result && q.wire == Calm(r.wire)
  {
    hide ApplyKey;
  }

  lemma {:induction false} SendBackCalm(h: FrameHeader, w: Wire, as': FrameType)
    requires Benign(w)
    ensures var r, q := SendBack(h, w, as'), SendBack(h, Calm(w), as');
            Benign(r.wire) && q.result == r.result && q.wire == Calm(r.wire)
  {
    hide RecvPayload, SendHeader, SendPayload, Benign;
    RecvPayloadCalm(h, w);
    var body := RecvPayload(h, MAX_CONTROL_FRAME_PAYLOAD_LEN, w);
    if body.result.Ok? {
      var reply := h.(maskKey := None, frameType := as');
      SendsCalm(reply, body.result.value, body.wire);
      SendsCalm(reply, body.result.value, SendHeader(reply, body.wire).wire);
    }
  }

  lemma {:induction false} ControlFramesCalm(c: Codec, f: Flags, w: Wire)
    requires Benign(w)
    ensures var r, q := ProcessControlFrames(c, f, w), ProcessControlFrames(c, f, Calm(w));
            Benign(r.wire) && q == r.(wire := Calm(r.wire))
    decreases |w.input|
  {
    hide SendBack, RecvHeader;
    RecvHeaderCalm(c, w);
    var got := RecvHeader(c, w);
    if got.result.Ok? {
      var h := got.result.value;
      SendBackCalm(h, got.wire, FrameType.Close);
      SendBackCalm(h, got.wire, FrameType.Pong);
      ControlFramesCalm(c, f.(waitForPong := false), got.wire);
      if h.frameType.Ping? {
        ControlFramesCalm(c, f, SendBack(h, got.wire, FrameType.Pong).wire);
      }
    }
  }

  // ---- One read ----

  // The masker of a frame with bytes left is where the code masks correctly from.
  predicate InPhase(e: Env, rd: Reader) {
    e.rule.AsWritten? && rd.masker.Some? && rd.payloadLen > 0 ==> rd.masker.value.offset % 4 == 0
  }

  // What the code as written needs of one read: if bytes of a masked frame stay unread,
  // the number taken was a multiple of four.
  predicate TidyChunk(e: Env, rd: Reader, n: nat) {
    e.rule.AsWritten? && rd.masker.Some? && rd.payloadLen > 0 ==> n % 4 == 0
  }

  // `rest` is the reader once n bytes of the current frame are taken.
  ghost predicate Advanced(rd: Reader, n: nat, rest: Reader) {
    && n <= rd.payloadLen
    && rest == rd.(payloadLen := rd.payloadLen - n, masker := rest.masker)
    && rd.masker.Some? == rest.masker.Some?
    && (rd.masker.Some? ==> rest.masker.value.key == rd.masker.value.key)
    && (rd.masker.Some? && n < rd.payloadLen ==>
          rest.masker.value.offset % 4 == (rd.masker.value.offset + n) % 4)
  }

  lemma {:induction false} UnmaskSplits(rd: Reader, n: nat, rest: Reader, s: seq<Byte>)
    requires Advanced(rd, n, rest) && n <= |s| <= rd.payloadLen
    ensures Unmask(rd.masker, s) == Unmask(rd.masker, s[..n]) + Unmask(rest.masker, s[n..])
  {
    hide Masked;
    if rd.masker.Some? {
      var m := rd.masker.value;
      MaskedSplit(m.key, m.offset, s, n);
      if n < rd.payloadLen {
        MaskedAnyPhase(m.key, m.offset + n, rest.masker.value.offset, s[n..]);
      } else {
        assert s[n..] == [] == Masked(rest.masker.value.key, rest.masker.value.offset, s[n..]);
      }
    }
  }

  // Taking n bytes of the current frame first changes nothing.
  lemma {:induction false} RestSplits(c: Codec, rd: Reader, f: Flags, w: Wire, n: nat, rest: Reader)
    requires n <= |w.input| && Advanced(rd, n, rest)
    ensures RestOfMessage(c, rd, f, w)
         == Prepend(Unmask(rd.masker, w.input[..n]), RestOfMessage(c, rest, f, w.(input := w.input[n..])))
  {
    hide Unmask, ProcessControlFrames;
    var all := Min(rd.payloadLen, |w.input|);
    var tail := w.input[n..];
    UnmaskSplits(rd, n, rest, w.input[..all]);
    assert w.input[..all][..n] == w.input[..n] && w.input[..all][n..] == tail[..all - n];
    assert w.input[all..] == tail[all - n..];
    assert AfterFrame(c, rd, f, w.(input := w.input[all..])) == AfterFrame(c, rest, f, w.(input := w.input[all..]));
  }

  lemma {:induction false} NothingToTake(c: Codec, rd: Reader, f: Flags, w: Wire)
    requires rd.payloadLen == 0
    ensures RestOfMessage(c, rd, f, w) == AfterFrame(c, rd, f, w)
  {
    hide Masked, ProcessControlFrames;
    assert w.input[..0] == [] && w.input[0..] == w.input;
    assert Unmask(rd.masker, []) == [];
  }

  // What the reader and the reference make of a call that starts between two fragments.
  lemma {:induction false} BetweenFragments(e: Env, rd: Reader, f: Flags, w: Wire, slot: Slot)
    requires Benign(w) && slot.len > 0 && rd.payloadLen == 0 && !rd.isFinal
    ensures var s := ProcessControlFrames(e.codec, f, w);
            var c := ReceiveFramePayload(e, rd, f, w, slot);
            var m := RestOfMessage(e.codec, rd, f, Calm(w));
            && Benign(s.wire)
            && match s.result
               case Err(err) =>
                 && c == Chunk(Err(err), [], rd, s.flags, s.wire)
                 && m == Whole([], Broken(FromFrameReadError(err)), s.flags, Calm(s.wire))
               case Ok(h) =>
                 if h.frameType.Continue? then
                   && c == ReceiveFramePayload(e, NextFragment(rd, h), s.flags, s.wire, slot)
                   && m == RestOfMessage(e.codec, NextFragment(rd, h), s.flags, Calm(s.wire))
                 else
                   && c == Chunk(Err(FrameReadError.InvalidFrame), [], rd, s.flags, s.wire)
                   && m == Whole([], Broken(WebSocketError.InvalidFrame), s.flags, Calm(s.wire))
  {
    hide ProcessControlFrames, RestOfMessage, Consume, ReadSome;
    NothingToTake(e.codec, rd, f, Calm(w));
    ControlFramesCalm(e.codec, f, w);
  }

  // A finished reader reads nothing and changes nothing.
  lemma {:induction false} FinishedRead(e: Env, rd: Reader, f: Flags, w: Wire, slot: Slot)
    requires IsFinished(rd) || slot.len == 0
    ensures ReceiveFramePayload(e, rd, f, w, slot) == Chunk(Ok(0), [], rd, f, w)
  {
  }

  // One call of the frame reader, against the reference.
  ghost predicate StepsAlong(e: Env, w: Wire, c: Chunk, m: Whole) {
    && Benign(c.wire)
    && match c.result
       case Err(err) => m == Whole([], Broken(FromFrameReadError(err)), c.flags, Calm(c.wire))
       case Ok(n) =>
         && |c.wire.input| + n <= |w.input|
         && (n == 0 ==> IsFinished(c.reader) || (c.reader.payloadLen > 0 && c.wire.input == []))
         && (TidyChunk(e, c.reader, n) ==>
               && InPhase(e, c.reader)
               && m == Prepend(c.data, RestOfMessage(e.codec, c.reader, c.flags, Calm(c.wire))))
  }

  lemma {:induction false} ReadStep(e: Env, rd: Reader, f: Flags, w: Wire, slot: Slot)
    requires Benign(w) && slot.len > 0 && InPhase(e, rd)
    ensures StepsAlong(e, w, ReceiveFramePayload(e, rd, f, w, slot), RestOfMessage(e.codec, rd, f, Calm(w)))
    decreases |w.input|
  {
    hide ReceiveFramePayload, RestOfMessage, ProcessControlFrames, Benign;
    if rd.payloadLen > 0 {
      ReadFromFrame(e, rd, f, w, slot);
    } else if rd.isFinal {
      FinishedRead(e, rd, f, w, slot);
      assert [] + RestOfMessage(e.codec, rd, f, Calm(w)).bytes == RestOfMessage(e.codec, rd, f, Calm(w)).bytes;
    } else {
      BetweenFragments(e, rd, f, w, slot);
      var s := ProcessControlFrames(e.codec, f, w);
      if s.result.Ok? && s.result.value.frameType.Continue? {
        ReadStep(e, NextFragment(rd, s.result.value), s.flags, s.wire, slot);
      }
    }
  }

  // The branch that reads from the current frame, spelled out.
  lemma {:induction false} FrameRead(e: Env, rd: Reader, f: Flags, w: Wire, slot: Slot)
    requires slot.len > 0 && rd.payloadLen > 0
    ensures var c := ReceiveFramePayload(e, rd, f, w, slot);
            var io := ReadSome(Min(slot.len, rd.payloadLen), w);
            && c.flags == f && c.wire == io.wire
            && (io.result.Err? ==> c.result == Err(io.result.error) && c.reader == rd && c.data == [])
            && (io.result.Ok? ==> c.result == Ok(|io.result.value|))
            && (io.result == Ok([]) ==> c.data == [] && c.reader == rd)
            && (io.result.Ok? && io.result.value != [] ==>
                  (c.data, c.reader) == Consume(e, rd, slot.cut, io.result.value))
  {
    hide ReadSome, Consume, ProcessControlFrames;
  }

  lemma {:induction false} ConsumeInPhase(e: Env, rd: Reader, cut: Cut, bytes: seq<Byte>)
    requires InPhase(e, rd) && 0 < |bytes| <= rd.payloadLen
    ensures var (data, rest) := Consume(e, rd, cut, bytes);
            && data == Unmask(rd.masker, bytes)
            && (TidyChunk(e, rest, |bytes|) ==> InPhase(e, rest) && Advanced(rd, |bytes|, rest))
  {
    hide Masked, ChunkMasked, Split;
    if rd.masker.Some? {
      ChunkIsMasked(e.rule, e.word, rd.masker.value, cut, bytes);
      if e.rule.AsWritten? {
        SamePhase(rd.masker.value.offset, 0, |bytes|);
      }
    }
  }

  lemma {:induction false} ReadFromFrame(e: Env, rd: Reader, f: Flags, w: Wire, slot: Slot)
    requires Benign(w) && slot.len > 0 && InPhase(e, rd) && rd.payloadLen > 0
    ensures var c := ReceiveFramePayload(e, rd, f, w, slot);
            var m := RestOfMessage(e.codec, rd, f, Calm(w));
            && Benign(c.wire) && c.result.Ok?
            && var n := c.result.value;
            && |c.wire.input| + n <= |w.input|
            && (n == 0 ==> c.reader.payloadLen > 0 && c.wire.input == [])
            && (TidyChunk(e, c.reader, n) ==>
                  && InPhase(e, c.reader)
                  && m == Prepend(c.data, RestOfMessage(e.codec, c.reader, c.flags, Calm(c.wire))))
  {
    hide ReceiveFramePayload, Consume, RestOfMessage, Unmask, InPhase, TidyChunk, Advanced;
    FrameRead(e, rd, f, w, slot);
    var io := ReadSome(Min(slot.len, rd.payloadLen), w);
    assert io.result.Ok?;
    var n := |io.result.value|;
    var c := ReceiveFramePayload(e, rd, f, w, slot);
    if n > 0 {
      ConsumeInPhase(e, rd, slot.cut, io.result.value);
      assert Calm(c.wire) == Calm(w).(input := w.input[n..]);
      if TidyChunk(e, c.reader, n) {
        RestSplits(e.codec, rd, f, Calm(w), n, c.reader);
      }
    }
  }

  // ---- Reading until the message is over ----

  datatype Drained = Drained(bytes: seq<Byte>, ending: Ending, session: Session)

  // Keep reading into the given buffers until no message is pending, the stream ends or a read fails.
  function Drain(e: Env, s: Session, slots: seq<Slot>): Drained
    decreases |slots|
  {
    if slots == [] then Drained([], OutOfBuffers, s)
    else
      var r := Read(e, s, slots[0]);
      match r.result
      case Err(err) => Drained([], Broken(err), r.session)
      case Ok(n) =>
        if r.session.reader.None? then Drained(r.data, Complete, r.session)
        else if n == 0 then Drained([], Stalled(r.session.reader.value.payloadLen), r.session)
        else
          var rest := Drain(e, r.session, slots[1..]);
          rest.(bytes := r.data + rest.bytes)
  }

  // The masker starts in phase and every read of the run is tidy. The additive masker asks nothing, and
  // neither do unmasked frames.
  predicate Tidy(e: Env, s: Session, slots: seq<Slot>)
    decreases |slots|
  {
    e.rule.Additive? ||
    (&& (s.reader.Some? ==> InPhase(e, s.reader.value))
     && (slots == [] ||
         var r := Read(e, s, slots[0]);
         r.result.Ok? && r.session.reader.Some? ==>
           && TidyChunk(e, r.session.reader.value, r.result.value)
           && Tidy(e, r.session, slots[1..])))
  }

  ghost predicate NonEmpty(slots: seq<Slot>) {
    forall i :: 0 <= i < |slots| ==> slots[i].len > 0
  }

  ghost predicate Readable(e: Env, s: Session) {
    s.state == SocketState.Ready && Benign(s.wire) && (s.reader.Some? ==> InPhase(e, s.reader.value))
  }

  lemma {:induction false} NextMessageCalm(e: Env, s: Session)
    requires Readable(e, s) && s.reader.None?
    ensures var next := NextMessage(e, s);
            && Benign(next.session.wire)
            && (next.result.Ok? <==> !FailsAtBoundary(e.codec, CalmSession(s)))
            && (next.result.Ok? ==>
                  && Readable(e, next.session)
                  && WholeMessage(e.codec, CalmSession(s))
                  == WholeMessage(e.codec, CalmSession(next.session)))
            && (next.result.Err? ==>
                  WholeMessage(e.codec, CalmSession(s))
                  == Whole([], Broken(next.result.error), next.session.flags, Calm(next.session.wire)))
  {
    hide ProcessControlFrames, RestOfMessage;
    ControlFramesCalm(e.codec, s.flags, s.wire);
  }

  // The wait for a message's first frame fails.
  ghost predicate FailsAtBoundary(c: Codec, s: Session) {
    s.reader.None? && WaitDataFrame(c, s.flags, s.wire).result.Err?
  }

  // The state in which a run over a Ready session ends, given how its message ended: only a Close
  // met at a message boundary ends the session, and only there is no reader left behind.
  ghost predicate EndState(c: Codec, s: Session, ending: Ending, end: Session) {
    && end.sendType == s.sendType
    && (end.reader.None? <==> FailsAtBoundary(c, s) || ending.Complete?)
    && (end.state == if FailsAtBoundary(c, s) && ending == Broken(ConnectionReset) then WsClosed else SocketState.Ready)
  }

  // One user read, against the reference.
  lemma {:induction false} UserReadStep(e: Env, s: Session, slot: Slot)
    requires Readable(e, s) && slot.len > 0
    ensures var r := Read(e, s, slot);
            var m := WholeMessage(e.codec, CalmSession(s));
            && Benign(r.session.wire)
            && match r.result
               case Err(err) =>
                 && m == Whole([], Broken(err), r.session.flags, Calm(r.session.wire))
                 && EndState(e.codec, CalmSession(s), Broken(err), r.session)
               case Ok(n) =>
                 && |r.session.wire.input| + n <= |s.wire.input|
                 && !FailsAtBoundary(e.codec, CalmSession(s))
                 && r.session.state == SocketState.Ready && r.session.sendType == s.sendType
                 && match r.session.reader
                    case None => m == Whole(r.data, Complete, r.session.flags, Calm(r.session.wire))
                    case Some(rd) =>
                      && (n == 0 ==> rd.payloadLen > 0 && r.session.wire.input == [])
                      && (TidyChunk(e, rd, n) ==>
                            && Readable(e, r.session)
                            && m == Prepend(r.data, WholeMessage(e.codec, CalmSession(r.session))))
  {
    hide ReceiveFramePayload, ProcessControlFrames, RestOfMessage;
    var at := if s.reader.Some? then s else NextMessage(e, s).session;
    if s.reader.None? {
      NextMessageCalm(e, s);
    }
    if s.reader.Some? || NextMessage(e, s).result.Ok? {
      assert Readable(e, at) && at.reader.Some?;
      ReadStep(e, at.reader.value, at.flags, at.wire, slot);
      var c := ReceiveFramePayload(e, at.reader.value, at.flags, at.wire, slot);
      if IsFinished(c.reader) {
        FinishedIsComplete(e.codec, c.reader, c.flags, Calm(c.wire));
        assert c.data + [] == c.data;
      }
    }
  }

  lemma {:induction false} FinishedIsComplete(c: Codec, rd: Reader, f: Flags, w: Wire)
    requires IsFinished(rd)
    ensures RestOfMessage(c, rd, f, w) == Whole([], Complete, f, w)
  {
    hide Masked;
    assert Unmask(rd.masker, w.input[..0]) == [];
  }

  // With tidy reads, the bytes are those of the reference too.
  lemma {:induction false} TidyDrain(e: Env, s: Session, slots: seq<Slot>)
    requires Readable(e, s) && NonEmpty(slots) && |slots| > |s.wire.input| && Tidy(e, s, slots)
    ensures var d := Drain(e, s, slots);
            var m := WholeMessage(e.codec, CalmSession(s));
            && Whole(d.bytes, d.ending, d.session.flags, Calm(d.session.wire)) == m
            && Benign(d.session.wire)
            && EndState(e.codec, CalmSession(s), d.ending, d.session)
    decreases |slots|
  {
    hide Read, WholeMessage, Benign;
    UserReadStep(e, s, slots[0]);
    var r := Read(e, s, slots[0]);
    if r.result.Ok? && r.session.reader.Some? {
      if r.result.value == 0 {
        NothingLeft(e, r.session);
      } else {
        assert NonEmpty(slots[1..]);
        TidyDrain(e, r.session, slots[1..]);
      }
    }
  }

  lemma {:induction false} NothingLeft(e: Env, s: Session)
    requires s.reader.Some? && s.reader.value.payloadLen > 0 && s.wire.input == []
    ensures WholeMessage(e.codec, CalmSession(s))
         == Whole([], Stalled(s.reader.value.payloadLen), s.flags, Calm(s.wire))
  {
    assert Unmask(s.reader.value.masker, []) == [];
  }

  // ---- The masker's offset shows in nothing but the bytes delivered ----

  function WithoutOffset(rd: Reader): Reader {
    match rd.masker
    case None => rd
    case Some(m) => rd.(masker := Some(m.(offset := 0)))
  }

  function WithoutOffsets(s: Session): Session {
    match s.reader
    case None => s
    case Some(rd) => s.(reader := Some(WithoutOffset(rd)))
  }

  lemma {:induction false} PayloadReadsAlike(e1: Env, rd1: Reader, e2: Env, rd2: Reader, f: Flags, w: Wire, slot: Slot)
    requires e1.codec == e2.codec && WithoutOffset(rd1) == WithoutOffset(rd2)
    ensures var c1, c2 := ReceiveFramePayload(e1, rd1, f, w, slot), ReceiveFramePayload(e2, rd2, f, w, slot);
            && c1.result == c2.result && |c1.data| == |c2.data| && c1.flags == c2.flags && c1.wire == c2.wire
            && WithoutOffset(c1.reader) == WithoutOffset(c2.reader)
    decreases |w.input|
  {
    hide ProcessControlFrames, ReadSome, ChunkMasked;
    var s := ProcessControlFrames(e1.codec, f, w);
    if rd1.payloadLen == 0 && !rd1.isFinal && s.result.Ok? && s.result.value.frameType.Continue? {
      PayloadReadsAlike(e1, NextFragment(rd1, s.result.value), e2, NextFragment(rd2, s.result.value), s.flags, s.wire,
                        slot);
    }
  }

  lemma {:induction false} ReadsAlike(e1: Env, s1: Session, e2: Env, s2: Session, slot: Slot)
    requires e1.codec == e2.codec && WithoutOffsets(s1) == WithoutOffsets(s2)
    ensures var r1, r2 := Read(e1, s1, slot), Read(e2, s2, slot);
            && r1.result == r2.result && |r1.data| == |r2.data|
            && WithoutOffsets(r1.session) == WithoutOffsets(r2.session)
  {
    hide ProcessControlFrames, ReceiveFramePayload;
    var at1 := if s1.reader.Some? then s1 else NextMessage(e1, s1).session;
    var at2 := if s2.reader.Some? then s2 else NextMessage(e2, s2).session;
    if at1.reader.Some? {
      PayloadReadsAlike(e1, at1.reader.value, e2, at2.reader.value, at1.flags, at1.wire, slot);
    }
  }

  // Two runs that differ only in the offset rule, the machine word and the offset they start from: the
  // same number of bytes, the same ending, and the same session but for the offset.
  lemma {:induction false} DrainsAlike(e1: Env, s1: Session, e2: Env, s2: Session, slots: seq<Slot>)
    requires e1.codec == e2.codec && WithoutOffsets(s1) == WithoutOffsets(s2)
    ensures var d1, d2 := Drain(e1, s1, slots), Drain(e2, s2, slots);
            && |d1.bytes| == |d2.bytes| && d1.ending == d2.ending
            && WithoutOffsets(d1.session) == WithoutOffsets(d2.session)
    decreases |slots|
  {
    hide Read;
    if slots != [] {
      ReadsAlike(e1, s1, e2, s2, slots[0]);
      var r1, r2 := Read(e1, s1, slots[0]), Read(e2, s2, slots[0]);
      if r1.result.Ok? {
        DrainsAlike(e1, r1.session, e2, r2.session, slots[1..]);
      }
    }
  }

  // Reading a message in any pieces gives the whole message: the same ending, number of bytes, controller
  // flags, rest of the wire and history, and an end state that depends on nothing else. With tidy reads the
  // bytes themselves are the same.
  lemma {:induction false} DrainIsWholeMessage(e: Env, s: Session, slots: seq<Slot>)
    requires s.state == SocketState.Ready && Benign(s.wire) && NonEmpty(slots) && |slots| > |s.wire.input|
    ensures var d := Drain(e, s, slots);
            var m := WholeMessage(e.codec, CalmSession(s));
            && |d.bytes| == |m.bytes| && d.ending == m.ending
            && d.session.flags == m.flags && Calm(d.session.wire) == m.wire
            && Benign(d.session.wire)
            && EndState(e.codec, CalmSession(s), d.ending, d.session)
            && (Tidy(e, s, slots) ==> d.bytes == m.bytes)
  {
    hide Drain, WholeMessage, Benign, NonEmpty, FailsAtBoundary;
    var intended := e.(rule := Additive);
    assert Readable(intended, s) && Tidy(intended, s, slots);
    TidyDrain(intended, s, slots);
    DrainsAlike(e, s, intended, s, slots);
    if Tidy(e, s, slots) {
      TidyDrain(e, s, slots);
    }
  }

  // Two runs over the same session and input, with different schedules of short reads, different
  // buffers, alignments and machine words, cannot be told apart, except that an untidy one may deliver
  // other bytes, as many as it should.
  lemma {:induction false} ScheduleIndependence(e1: Env, s1: Session, slots1: seq<Slot>,
                                                e2: Env, s2: Session, slots2: seq<Slot>)
    requires e1.codec == e2.codec && CalmSession(s1) == CalmSession(s2) && s1.state == SocketState.Ready
    requires Benign(s1.wire) && NonEmpty(slots1) && |slots1| > |s1.wire.input|
    requires Benign(s2.wire) && NonEmpty(slots2) && |slots2| > |s2.wire.input|
    ensures var d1, d2 := Drain(e1, s1, slots1), Drain(e2, s2, slots2);
            && |d1.bytes| == |d2.bytes| && d1.ending == d2.ending
            && d1.session.flags == d2.session.flags
            && d1.session.state == d2.session.state
            && d1.session.reader.Some? == d2.session.reader.Some?
            && Calm(d1.session.wire) == Calm(d2.session.wire)
            && (Tidy(e1, s1, slots1) && Tidy(e2, s2, slots2) ==> d1.bytes == d2.bytes)
  {
    hide Drain, WholeMessage, FailsAtBoundary, Benign, NonEmpty, Tidy;
    DrainIsWholeMessage(e1, s1, slots1);
    DrainIsWholeMessage(e2, s2, slots2);
  }

  // A reader counts as finished exactly when reading on takes nothing off any wire and completes.
  lemma {:induction false} FinishedExactly(c: Codec, f: Flags, rd: Reader)
    ensures IsFinished(rd) <==> forall w: Wire :: RestOfMessage(c, rd, f, w) == Whole([], Complete, f, w)
  {
    if IsFinished(rd) {
      forall w: Wire
        ensures RestOfMessage(c, rd, f, w) == Whole([], Complete, f, w)
      {
        FinishedIsComplete(c, rd, f, w);
      }
    } else {
      var shut := Wire([], [], [], false);
      assert RestOfMessage(c, rd, f, shut) != Whole([], Complete, f, shut) by {
        hide Masked;
        assert Unmask(rd.masker, shut.input[..0]) == [];
      }
    }
  }

  // ---- What a read of no bytes means ----

  lemma {:induction false} NothingReceived(e: Env, rd: Reader, f: Flags, w: Wire, slot: Slot)
    requires slot.len > 0
    ensures var c := ReceiveFramePayload(e, rd, f, w, slot);
            c.result == Ok(0) ==> IsFinished(c.reader) || (c.reader.payloadLen > 0 && c.wire.input == [])
    decreases |w.input|
  {
    hide ProcessControlFrames, ChunkMasked;
    var s := ProcessControlFrames(e.codec, f, w);
    if rd.payloadLen == 0 && !rd.isFinal && s.result.Ok? && s.result.value.frameType.Continue? {
      NothingReceived(e, NextFragment(rd, s.result.value), s.flags, s.wire, slot);
    }
  }

  // Whatever fails: Ok(0) with a message still pending is the end of the stream inside a frame, and after
  // any successful read a message is pending exactly when its reader is not finished.
  lemma {:induction false} ZeroUnderFaults(e: Env, s: Session, slot: Slot)
    requires slot.len > 0
    ensures var r := Read(e, s, slot);
            && (r.result == Ok(0) && r.session.reader.Some? ==>
                  r.session.reader.value.payloadLen > 0 && r.session.wire.input == [])
            && (r.result.Ok? && r.session.reader.Some? ==> !IsFinished(r.session.reader.value))
    ensures s.state == SocketState.Ready && s.reader.Some? && s.reader.value.payloadLen > 0 ==>
              (Read(e, s, slot).result == Ok(0) <==> Next(s.wire).Grant? && s.wire.input == [])
  {
    hide ReceiveFramePayload, WaitDataFrame, Consume;
    var at := if s.reader.Some? then s else NextMessage(e, s).session;
    if at.reader.Some? {
      NothingReceived(e, at.reader.value, at.flags, at.wire, slot);
      if at.reader.value.payloadLen > 0 {
        FrameRead(e, at.reader.value, at.flags, at.wire, slot);
      }
    }
  }

  // With room in the buffer and no I/O error, Ok(0) means exactly that the message will never give another
  // byte: it is complete, its final frame consumed, if none is pending afterwards, and the stream has ended
  // inside a frame if one is.
  lemma {:induction false} MeaningOfZero(e: Env, s: Session, slot: Slot)
    requires s.state == SocketState.Ready && Benign(s.wire) && slot.len > 0
    ensures var r := Read(e, s, slot);
            var m := WholeMessage(e.codec, CalmSession(s));
            && (r.result == Ok(0) <==> m.bytes == [] && (m.ending.Complete? || m.ending.Stalled?))
            && (r.result == Ok(0) ==>
                  && r.session.flags == m.flags && Calm(r.session.wire) == m.wire
                  && m.ending == match r.session.reader
                                 case None => Complete
                                 case Some(rd) => Stalled(rd.payloadLen))
  {
    hide Read, WholeMessage, Benign;
    var intended := e.(rule := Additive);
    ReadsAlike(e, s, intended, s, slot);
    UserReadStep(intended, s, slot);
    var r := Read(intended, s, slot);
    if r.result == Ok(0) && r.session.reader.Some? {
      NothingLeft(intended, r.session);
    }
  }

  // And a read fails exactly when the message breaks off before it gives another byte.
  lemma {:induction false} ReadFailsExactly(e: Env, s: Session, slot: Slot, err: WebSocketError)
    requires s.state == SocketState.Ready && Benign(s.wire) && slot.len > 0
    ensures var m := WholeMessage(e.codec, CalmSession(s));
            Read(e, s, slot).result == Err(err) <==> m.bytes == [] && m.ending == Broken(err)
  {
    hide Read, WholeMessage, Benign;
    var intended := e.(rule := Additive);
    ReadsAlike(e, s, intended, s, slot);
    UserReadStep(intended, s, slot);
    var r := Read(intended, s, slot);
    if r.result == Ok(0) && r.session.reader.Some? {
      NothingLeft(intended, r.session);
    }
  }

  // It does happen: a stream that ends right behind the header of a non-empty frame.
  lemma {:induction false} StreamEndsInsideFrame(e: Env, w: Wire, slot: Slot, t: MessageType, n: usize)
    requires Lawful(e.codec) && w.open && w.fates == [] && slot.len > 0 && n > 0
    requires w.input == e.codec.encode(FrameHeader(ToFrameType(t, false), n, None))
    ensures var r := Read(e, New(w), slot);
            r.result == Ok(0) && r.session.reader == Some(Reader(None, n, true, t))
  {
    assert w.input + [] == w.input;
  }

  // ---- The type of a pending message ----

  lemma {:induction false} PayloadReadKeepsType(e: Env, rd: Reader, f: Flags, w: Wire, slot: Slot)
    ensures ReceiveFramePayload(e, rd, f, w, slot).reader.messageType == rd.messageType
    decreases |w.input|
  {
    hide ProcessControlFrames, ChunkMasked, ReadSome;
    var s := ProcessControlFrames(e.codec, f, w);
    if rd.payloadLen == 0 && !rd.isFinal && s.result.Ok? && s.result.value.frameType.Continue? {
      PayloadReadKeepsType(e, NextFragment(rd, s.result.value), s.flags, s.wire, slot);
    }
  }

  // Once a wait has named a message's type, waiting again names the same type and does nothing, and it
  // still does after a read, with or without an error, as long as that message is pending.
  lemma {:induction false} TypeIsStable(e: Env, s: Session, slot: Slot)
    requires s.state == SocketState.Ready && WaitMessage(e, s).result.Ok?
    ensures var waited := WaitMessage(e, s);
            var read := Read(e, waited.session, slot).session;
            && WaitMessage(e, waited.session) == waited
            && (read.reader.Some? ==> WaitMessage(e, read) == Call(waited.result, read))
  {
    hide WaitDataFrame, ReceiveFramePayload;
    var at := WaitMessage(e, s).session;
    PayloadReadKeepsType(e, at.reader.value, at.flags, at.wire, slot);
  }
}
