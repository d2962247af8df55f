// How control frame processing ends on whole frames, and which frames an operation takes the header of but
// not the payload.
module Rejections {
  import opened Prelude
  import opened Masker
  import opened Frames
  import opened Wires
  import opened FrameProtocol
  import opened Sessions
  import opened Runs
  import opened Reading
  import opened Messages
  import opened Reassembly

  // ---- The first frame that is no valid Ping ----

  // How many valid Pings stand before it.
  function Leading(fs: seq<Frame>): (n: nat)
    ensures n <= |fs|
  {
    if fs != [] && ValidPing(fs[0]) then 1 + Leading(fs[1..]) else 0
  }

  lemma {:induction false} LeadingPings(fs: seq<Frame>)
    ensures forall i :: 0 <= i < Leading(fs) ==> ValidPing(fs[i])
    ensures FirstWord(fs) == if Leading(fs) == |fs| then None else Some(fs[Leading(fs)])
    ensures FirstWord(fs).Some? ==> !ValidPing(FirstWord(fs).value)
    decreases |fs|
  {
    hide ValidPing;
    if fs != [] && ValidPing(fs[0]) {
      LeadingPings(fs[1..]);
      forall i | 0 <= i < Leading(fs)
        ensures ValidPing(fs[i])
      {
        if i > 0 {
          assert fs[i] == fs[1..][i - 1];
        }
      }
    }
  }

  function Verdict(g: Frame): Result<FrameHeader, FrameReadError> {
    if !IsControl(g.frameType) then Ok(HeaderOf(g))
    else if ValidClose(g) then Err(ClosedByPeer)
    else Err(InvalidControlFrame)
  }

  // A Close that is answered is taken whole.
  predicate Answered(waiting: bool, g: Frame) {
    ValidClose(g) && !waiting
  }

  // What is left of the frame on the wire, and what it adds to the history.
  function LeftOver(waiting: bool, g: Frame): seq<Byte> {
    if Answered(waiting, g) then [] else ApplyKey(g.maskKey, g.payload)
  }

  function LastItems(waiting: bool, g: Frame): seq<Item> {
    if Answered(waiting, g) then
      [Received(HeaderOf(g)), ReceivedPayload(g.payload),
       Sent(FrameHeader(FrameType.Close, |g.payload|, None)), SentPayload(g.payload)]
    else [Received(HeaderOf(g))]
  }

  // How processing ends at frame g, with valid Pings before it.
  function Meeting(fl: Flags, w: Wire, pings: seq<Frame>, g: Frame, behind: seq<Byte>): Step<FrameHeader> {
    Step(Verdict(g), if ValidClose(g) then Flags(false, false) else fl,
         Past(w, LeftOver(fl.waitForClose, g) + behind, History(pings) + LastItems(fl.waitForClose, g)))
  }

  lemma {:induction false} ThisFrameIsMet(c: Codec, fl: Flags, w: Wire, g: Frame, behind: seq<Byte>)
    requires Lawful(c) && Quiet(w) && w.input == Encode(c, g) + behind && !fl.waitForPong && !ValidPing(g)
    ensures ProcessControlFrames(c, fl, w) == Meeting(fl, w, [], g, behind)
  {
    hide SendBack, Encode, ApplyKey;
    HeaderIsRead(c, w, g, behind);
    var w1 := Past(w, ApplyKey(g.maskKey, g.payload) + behind, [Received(HeaderOf(g))]);
    if Answered(fl.waitForClose, g) {
      CloseIsAnswered(w1, g, behind);
      PastPast(w, w1.input, [Received(HeaderOf(g))], behind, LastItems(false, g)[1..]);
      assert [] + behind == behind;
      assert [Received(HeaderOf(g))] + LastItems(false, g)[1..] == LastItems(false, g);
    }
    assert History([]) + LastItems(fl.waitForClose, g) == LastItems(fl.waitForClose, g);
  }

  lemma {:induction false} CloseIsAnswered(w: Wire, g: Frame, behind: seq<Byte>)
    requires Quiet(w) && w.input == ApplyKey(g.maskKey, g.payload) + behind && ValidClose(g)
    ensures SendBack(HeaderOf(g), w, FrameType.Close) == IO(Ok(()), Past(w, behind, LastItems(false, g)[1..]))
  {
    hide Encode;
    var body := ApplyKey(g.maskKey, g.payload);
    KeyAppliedTwice(g);
    assert w.input[..|g.payload|] == body && w.input[|g.payload|..] == behind;
    var back := SendBack(HeaderOf(g), w, FrameType.Close);
    assert back.result.Ok?;
    assert back.wire.log == w.log + LastItems(false, g)[1..];
  }

  lemma {:induction false} FirstWordIsMet(c: Codec, fl: Flags, w: Wire, fs: seq<Frame>, rest: seq<Byte>)
    requires Carries(c, w, fs, rest) && !fl.waitForPong && Leading(fs) < |fs|
    ensures var j := Leading(fs);
            ProcessControlFrames(c, fl, w) == Meeting(fl, w, fs[..j], fs[j], EncodeAll(c, fs[j + 1..]) + rest)
    decreases |fs|
  {
    hide ProcessControlFrames, Encode, ValidPing, Verdict, LeftOver, LastItems;
    var f, more := fs[0], EncodeAll(c, fs[1..]) + rest;
    FirstFrame(c, w, fs, rest);
    if ValidPing(f) {
      var j := Leading(fs[1..]);
      var w1 := Past(w, more, Handled(f));
      PingIsAnswered(c, fl, w, f, more);
      FirstWordIsMet(c, fl, w1, fs[1..], rest);
      assert fs[1..][j] == fs[j + 1] && fs[1..][j + 1..] == fs[j + 2..];
      assert fs[..j + 1][1..] == fs[1..][..j];
      var g := fs[j + 1];
      var left := LeftOver(fl.waitForClose, g) + (EncodeAll(c, fs[j + 2..]) + rest);
      var items := History(fs[1..][..j]) + LastItems(fl.waitForClose, g);
      PastPast(w, more, Handled(f), left, items);
      assert Handled(f) + items == History(fs[..j + 1]) + LastItems(fl.waitForClose, g);
    } else {
      ThisFrameIsMet(c, fl, w, f, more);
      assert fs[..0] == [];
    }
  }

  // With nothing but valid Pings on the wire, processing runs into the end of the stream.
  lemma {:induction false} NoWordIsMet(c: Codec, fl: Flags, w: Wire, fs: seq<Frame>)
    requires Carries(c, w, fs, []) && Leading(fs) == |fs|
    ensures ProcessControlFrames(c, fl, w)
         == Step(Err(FrameReadError.InvalidFrame), fl, Past(w, [], History(fs) + [ReadFailed]))
    decreases |fs|
  {
    hide ProcessControlFrames, Encode, ValidPing;
    if fs == [] {
      NoFrame(c, fl, w);
      assert History(fs) + [ReadFailed] == [ReadFailed];
    } else {
      var f, more := fs[0], EncodeAll(c, fs[1..]) + [];
      FirstFrame(c, w, fs, []);
      PingIsAnswered(c, fl, w, f, more);
      NoWordIsMet(c, fl, Past(w, more, Handled(f)), fs[1..]);
      PastPast(w, more, Handled(f), [], History(fs[1..]) + [ReadFailed]);
      assert Handled(f) + (History(fs[1..]) + [ReadFailed]) == History(fs) + [ReadFailed];
    }
  }

  // The same under any schedule without errors.
  lemma {:induction false} FirstWordIsMetAnyhow(c: Codec, fl: Flags, w: Wire, fs: seq<Frame>, rest: seq<Byte>)
    requires Lawful(c) && Benign(w) && w.input == EncodeAll(c, fs) + rest && !fl.waitForPong
    ensures var r := ProcessControlFrames(c, fl, w);
            var j := Leading(fs);
            && Benign(r.wire)
            && (j < |fs| ==>
                  r.(wire := Calm(r.wire))
                  == Meeting(fl, Calm(w), fs[..j], fs[j], EncodeAll(c, fs[j + 1..]) + rest))
            && (j == |fs| && rest == [] ==>
                  r.(wire := Calm(r.wire))
                  == Step(Err(FrameReadError.InvalidFrame), fl, Past(Calm(w), [], History(fs) + [ReadFailed])))
  {
    hide ProcessControlFrames, Meeting, Leading;
    ControlFramesCalm(c, fl, w);
    if Leading(fs) < |fs| {
      FirstWordIsMet(c, fl, Calm(w), fs, rest);
    } else if rest == [] {
      NoWordIsMet(c, fl, Calm(w), fs);
    }
  }

  // ---- Frames of which only the header is taken ----

  // A wait at a message boundary takes the header of a frame that starts no message, and no more of it.
  function RejectedByWait(waiting: bool, fs: seq<Frame>): (r: Option<Frame>)
    ensures r.Some? ==> Leading(fs) < |fs| && r.value == fs[Leading(fs)]
  {
    var j := Leading(fs);
    if j == |fs| || fs[j].frameType.Text? || fs[j].frameType.Binary? || Answered(waiting, fs[j]) then None
    else Some(fs[j])
  }

  // A read between the frames of a message goes on behind empty fragments.
  function RejectedInside(waiting: bool, fs: seq<Frame>): Option<Frame>
    decreases |fs|
  {
    var j := Leading(fs);
    if j == |fs| then None
    else if fs[j].frameType.Continue? then
      if fs[j].payload == [] && !fs[j].frameType.final then RejectedInside(waiting, fs[j + 1..]) else None
    else if Answered(waiting, fs[j]) then None
    else Some(fs[j])
  }

  function RejectedByRead(waiting: bool, fs: seq<Frame>): Option<Frame> {
    var j := Leading(fs);
    if j == |fs| then None
    else if fs[j].frameType.Text? || fs[j].frameType.Binary? then
      if fs[j].frameType.fragmented && fs[j].payload == [] then RejectedInside(waiting, fs[j + 1..]) else None
    else if Answered(waiting, fs[j]) then None
    else Some(fs[j])
  }

  // The frame among the unread ones of which an operation takes the header only. A handshake does so with
  // whatever it meets, a Close included.
  function HeaderOnly(s: Session, op: Op, fs: seq<Frame>): Option<Frame> {
    match op
    case DoWaitMessage =>
      if s.state == SocketState.Ready && s.reader.None? then RejectedByWait(s.flags.waitForClose, fs) else None
    case DoRead(slot) =>
      if s.state != SocketState.Ready then None
      else
        (match s.reader
         case None =>
           if slot.len == 0 then RejectedByWait(s.flags.waitForClose, fs) else RejectedByRead(s.flags.waitForClose, fs)
         case Some(rd) =>
           if slot.len == 0 || rd.payloadLen > 0 || rd.isFinal then None
           else RejectedInside(s.flags.waitForClose, fs))
    case DoCloseHandshake => FirstWord(fs)
    case DoClose => if s.state == Closed then None else FirstWord(fs)
    case _ => None
  }

  // The payload of a frame that a wait rejects is read next: the session stays Ready, and if the payload as it
  // stands on the wire, before the frames behind it, spells a message, that message is delivered.
  lemma {:induction false} RejectedPayloadIsDelivered(e: Env, s: Session, fs: seq<Frame>, t: MessageType, gs: seq<Frame>,
                                                      rest: seq<Byte>, slots: seq<Slot>)
    requires Lawful(e.codec) && Benign(s.wire) && s.wire.input == EncodeAll(e.codec, fs) && !s.flags.waitForPong
    requires s.state == SocketState.Ready && s.reader.None?
    requires var g := RejectedByWait(s.flags.waitForClose, fs);
             && g.Some? && !ValidClose(g.value)
             && ApplyKey(g.value.maskKey, g.value.payload) + EncodeAll(e.codec, fs[Leading(fs) + 1..])
             == EncodeAll(e.codec, gs) + rest
    requires IsMessage(t, gs)
    requires NonEmpty(slots) && |slots| > |s.wire.input|
    ensures var failed := WaitMessage(e, s);
            var waited := WaitMessage(e, failed.session);
            var d := Drain(e, waited.session, slots);
            && failed.result.Err? && failed.session.state == SocketState.Ready
            && waited.result == Ok(t)
            && d.ending == Complete && |d.bytes| == |Payloads(gs)|
            && (Tidy(e, waited.session, slots) ==> d.bytes == Payloads(gs))
            && d.session.wire.input == rest
  {
    hide Drain, WaitMessage, Tidy, IsMessage, EncodeAll, Payloads, NonEmpty, Benign, RejectedByWait;
    WaitRejects(e, s, fs);
    MessageIsRead(e, WaitMessage(e, s).session, t, gs, rest, slots);
  }

  // The user's view of a message that comes next.
  lemma {:induction false} MessageIsRead(e: Env, s: Session, t: MessageType, gs: seq<Frame>, rest: seq<Byte>,
                                         slots: seq<Slot>)
    requires Lawful(e.codec) && Benign(s.wire) && s.wire.input == EncodeAll(e.codec, gs) + rest && IsMessage(t, gs)
    requires s.state == SocketState.Ready && s.reader.None?
    requires NonEmpty(slots) && |slots| > |s.wire.input|
    ensures var waited := WaitMessage(e, s);
            var d := Drain(e, waited.session, slots);
            && waited.result == Ok(t) && d.ending == Complete && |d.bytes| == |Payloads(gs)|
            && (Tidy(e, waited.session, slots) ==> d.bytes == Payloads(gs))
            && d.session.wire.input == rest
  {
    hide Drain, WholeMessage, Tidy, IsMessage, FailsAtBoundary, EncodeAll, Payloads;
    MessageIsReceived(e.codec, CalmSession(s), t, gs, rest);
    NextMessageCalm(e.(rule := Additive), s);
    WaitingGivesType(e, s, t);
    DrainIsWholeMessage(e, WaitMessage(e, s).session, slots);
  }

  lemma {:induction false} WaitRejects(e: Env, s: Session, fs: seq<Frame>)
    requires Lawful(e.codec) && Benign(s.wire) && s.wire.input == EncodeAll(e.codec, fs) && !s.flags.waitForPong
    requires s.state == SocketState.Ready && s.reader.None?
    requires var g := RejectedByWait(s.flags.waitForClose, fs); g.Some? && !ValidClose(g.value)
    ensures var failed := WaitMessage(e, s);
            var j := Leading(fs);
            && failed.result.Err? && j < |fs|
            && failed.session == s.(wire := failed.session.wire) && Benign(failed.session.wire)
            && |failed.session.wire.input| <= |s.wire.input|
            && RejectedByWait(s.flags.waitForClose, fs) == Some(fs[j])
            && failed.session.wire.input
            == ApplyKey(fs[j].maskKey, fs[j].payload) + EncodeAll(e.codec, fs[j + 1..])
  {
    hide ProcessControlFrames, EncodeAll, Leading, FirstWord;
    LeadingPings(fs);
    assert EncodeAll(e.codec, fs) + [] == EncodeAll(e.codec, fs);
    FirstWordIsMetAnyhow(e.codec, s.flags, s.wire, fs, []);
    var j := Leading(fs);
    assert EncodeAll(e.codec, fs[j + 1..]) + [] == EncodeAll(e.codec, fs[j + 1..]);
  }
}
