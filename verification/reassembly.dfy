// Reassembly of fragmented messages, the language of accepted inputs, and the effect of Pings.
module Reassembly {
  import opened Prelude
  import opened WordMask
  import opened Masker
  import opened Frames
  import opened Wires
  import opened FrameProtocol
  import opened Sessions
  import opened Reading
  import opened Messages

  // The unread input is some whole frames and then anything.
  ghost predicate Carries(c: Codec, w: Wire, fs: seq<Frame>, rest: seq<Byte>) {
    Lawful(c) && Quiet(w) && w.input == EncodeAll(c, fs) + rest
  }

  lemma {:induction false} FirstFrame(c: Codec, w: Wire, fs: seq<Frame>, rest: seq<Byte>)
    requires Carries(c, w, fs, rest) && fs != []
    ensures w.input == Encode(c, fs[0]) + (EncodeAll(c, fs[1..]) + rest)
    ensures Carries(c, Past(w, EncodeAll(c, fs[1..]) + rest, Handled(fs[0])), fs[1..], rest)
  {
    hide Encode, Lawful, Handled;
    assert EncodeAll(c, fs) == Encode(c, fs[0]) + EncodeAll(c, fs[1..]);
    Regrouped(Encode(c, fs[0]), EncodeAll(c, fs[1..]), rest);
  }

  lemma {:induction false} Regrouped(a: seq<Byte>, b: seq<Byte>, d: seq<Byte>)
    ensures a + b + d == a + (b + d)
  {
  }

  lemma {:induction false} PastPast(w: Wire, i1: seq<Byte>, l1: seq<Item>, i2: seq<Byte>, l2: seq<Item>)
    ensures Past(Past(w, i1, l1), i2, l2) == Past(w, i2, l1 + l2)
  {
    assert w.log + l1 + l2 == w.log + (l1 + l2);
  }

  // ---- Legal input is received whole ----

  lemma {:induction false} TailIsReceived(c: Codec, rd: Reader, fl: Flags, w: Wire, fs: seq<Frame>, rest: seq<Byte>)
    requires Carries(c, w, fs, rest) && !rd.isFinal && IsTail(fs)
    ensures AfterFrame(c, rd, fl, w) == Whole(Payloads(fs), Complete, fl, Past(w, rest, History(fs)))
    decreases |fs|
  {
    hide ProcessControlFrames, RestOfMessage, IsTail, Encode;
    TailFromTheLeft(fs);
    var f, more := fs[0], EncodeAll(c, fs[1..]) + rest;
    FirstFrame(c, w, fs, rest);
    var w1 := Past(w, more, Handled(f));
    PastPast(w, more, Handled(f), rest, History(fs[1..]));
    if ValidPing(f) {
      PingIsAnswered(c, fl, w, f, more);
      TailIsReceived(c, rd, fl, w1, fs[1..], rest);
    } else {
      DataFrameIsReturned(c, fl, w, f, more);
      var next := NextFragment(rd, HeaderOf(f));
      PayloadIsTaken(c, next, fl, Past(w, ApplyKey(f.maskKey, f.payload) + more, Handled(f)), f, more);
      if |fs| > 1 {
        TailIsReceived(c, next, fl, w1, fs[1..], rest);
      } else {
        assert fs[1..] == [] && more == rest;
      }
    }
  }

  lemma {:induction false} MessageIsReceived(c: Codec, s: Session, t: MessageType, fs: seq<Frame>, rest: seq<Byte>)
    requires Carries(c, s.wire, fs, rest) && s.reader.None? && IsMessage(t, fs)
    ensures WholeMessage(c, s) == Whole(Payloads(fs), Complete, s.flags, Past(s.wire, rest, History(fs)))
    ensures var step := WaitDataFrame(c, s.flags, s.wire); step.result.Ok? && step.result.value.messageType == t
    decreases |fs|
  {
    hide ProcessControlFrames, RestOfMessage, IsMessage, IsTail, Encode;
    MessageFromTheLeft(t, fs);
    var f, more := fs[0], EncodeAll(c, fs[1..]) + rest;
    FirstFrame(c, s.wire, fs, rest);
    var w1 := Past(s.wire, more, Handled(f));
    PastPast(s.wire, more, Handled(f), rest, History(fs[1..]));
    if ValidPing(f) {
      PingIsAnswered(c, s.flags, s.wire, f, more);
      MessageIsReceived(c, s.(wire := w1), t, fs[1..], rest);
    } else {
      DataFrameIsReturned(c, s.flags, s.wire, f, more);
      var first := FirstReader(HeaderOf(f), |fs| > 1, t);
      PayloadIsTaken(c, first, s.flags, Past(s.wire, ApplyKey(f.maskKey, f.payload) + more, Handled(f)), f, more);
      if |fs| > 1 {
        TailIsReceived(c, first, s.flags, w1, fs[1..], rest);
      } else {
        assert fs[1..] == [] && more == rest;
        assert AfterFrame(c, first, s.flags, w1) == Whole([], Complete, s.flags, w1);
      }
    }
  }

  // The payload of an awaited Pong is read as frames: if, as it stands on the wire before what is behind it, it
  // spells the frames of a message, that message is received as if the peer had sent it.
  lemma {:induction false} PongPayloadIsParsed(c: Codec, s: Session, pong: Frame, behind: seq<Byte>, t: MessageType,
                                               gs: seq<Frame>, rest: seq<Byte>)
    requires Lawful(c) && Quiet(s.wire) && s.reader.None? && s.flags.waitForPong
    requires pong.frameType.Pong? && |pong.payload| <= 125
    requires s.wire.input == Encode(c, pong) + behind
    requires ApplyKey(pong.maskKey, pong.payload) + behind == EncodeAll(c, gs) + rest && IsMessage(t, gs)
    ensures WholeMessage(c, s)
         == Whole(Payloads(gs), Complete, s.flags.(waitForPong := false),
                  Past(s.wire, rest, [Received(HeaderOf(pong))] + History(gs)))
    ensures var step := WaitDataFrame(c, s.flags, s.wire); step.result.Ok? && step.result.value.messageType == t
  {
    hide ProcessControlFrames, RestOfMessage, Encode, EncodeAll, IsMessage, Payloads, History;
    var items := [Received(HeaderOf(pong))];
    PongPayloadStays(c, s.flags, s.wire, pong, behind);
    var next := s.(flags := s.flags.(waitForPong := false),
                   wire := Past(s.wire, EncodeAll(c, gs) + rest, items));
    assert WholeMessage(c, s) == WholeMessage(c, next);
    MessageIsReceived(c, next, t, gs, rest);
    PastPast(s.wire, EncodeAll(c, gs) + rest, items, rest, History(gs));
  }

  // ---- Nothing else is ----

  lemma {:induction false} TailGrows(fs: seq<Frame>, k: nat)
    requires fs != [] && k < |fs|
    requires (ValidPing(fs[0]) || fs[0].frameType == Continue(false)) ==> IsTail(fs[1..][..k])
    requires ValidPing(fs[0]) || fs[0].frameType == Continue(false) || (fs[0].frameType == Continue(true) && k == 0)
    ensures IsTail(fs[..k + 1])
  {
    hide IsTail;
    assert fs[..k + 1][1..] == fs[1..][..k];
    TailFromTheLeft(fs[1..][..k]);
    TailFromTheLeft(fs[..k + 1]);
  }

  lemma {:induction false} TailIsRecognised(c: Codec, rd: Reader, fl: Flags, w: Wire, fs: seq<Frame>) returns (k: nat)
    requires Carries(c, w, fs, []) && !rd.isFinal && !fl.waitForPong
    requires AfterFrame(c, rd, fl, w).ending.Complete?
    ensures k <= |fs| && IsTail(fs[..k])
    decreases |fs|
  {
    hide ProcessControlFrames, RestOfMessage, IsTail, Encode;
    k := 0;
    if fs == [] {
      NoFrame(c, fl, w);
    } else {
      var f, more := fs[0], EncodeAll(c, fs[1..]) + [];
      FirstFrame(c, w, fs, []);
      var w1 := Past(w, more, Handled(f));
      if ValidPing(f) {
        PingIsAnswered(c, fl, w, f, more);
        k := TailIsRecognised(c, rd, fl, w1, fs[1..]);
      } else if IsControl(f.frameType) {
        OtherControlFrameFails(c, fl, w, f, more);
      } else {
        DataFrameIsReturned(c, fl, w, f, more);
        assert f.frameType.Continue?;
        var next := NextFragment(rd, HeaderOf(f));
        PayloadIsTaken(c, next, fl, Past(w, ApplyKey(f.maskKey, f.payload) + more, Handled(f)), f, more);
        if !f.frameType.final {
          k := TailIsRecognised(c, next, fl, w1, fs[1..]);
        }
      }
      TailGrows(fs, k);
      k := k + 1;
    }
  }

  // At end of stream no header can be read.
  lemma {:induction false} NoFrame(c: Codec, fl: Flags, w: Wire)
    requires Quiet(w) && w.input == []
    ensures ProcessControlFrames(c, fl, w) == Step(Err(FrameReadError.InvalidFrame), fl, w.(log := w.log + [ReadFailed]))
  {
  }

  lemma {:induction false} MessageGrows(t: MessageType, fs: seq<Frame>, k: nat)
    requires fs != [] && k < |fs|
    requires ValidPing(fs[0]) ==> IsMessage(t, fs[1..][..k])
    requires fs[0].frameType == ToFrameType(t, true) ==> IsTail(fs[1..][..k])
    requires || ValidPing(fs[0])
             || fs[0].frameType == ToFrameType(t, true)
             || (fs[0].frameType == ToFrameType(t, false) && k == 0)
    ensures IsMessage(t, fs[..k + 1])
  {
    hide IsTail, IsMessage;
    assert fs[..k + 1][1..] == fs[1..][..k];
    TailFromTheLeft(fs[1..][..k]);
    MessageFromTheLeft(t, fs[1..][..k]);
    MessageFromTheLeft(t, fs[..k + 1]);
  }

  lemma {:induction false} MessageIsRecognised(c: Codec, s: Session, fs: seq<Frame>) returns (t: MessageType, k: nat)
    requires Carries(c, s.wire, fs, []) && s.reader.None? && !s.flags.waitForPong
    requires WholeMessage(c, s).ending.Complete?
    ensures k <= |fs| && IsMessage(t, fs[..k])
    decreases |fs|
  {
    hide ProcessControlFrames, RestOfMessage, IsMessage, IsTail, Encode;
    t, k := MessageType.Binary, 0;
    if fs == [] {
      NoFrame(c, s.flags, s.wire);
    } else {
      var f, more := fs[0], EncodeAll(c, fs[1..]) + [];
      FirstFrame(c, s.wire, fs, []);
      var w1 := Past(s.wire, more, Handled(f));
      if ValidPing(f) {
        PingIsAnswered(c, s.flags, s.wire, f, more);
        t, k := MessageIsRecognised(c, s.(wire := w1), fs[1..]);
      } else if IsControl(f.frameType) {
        OtherControlFrameFails(c, s.flags, s.wire, f, more);
      } else {
        DataFrameIsReturned(c, s.flags, s.wire, f, more);
        assert !f.frameType.Continue?;
        t := if f.frameType.Text? then MessageType.Text else MessageType.Binary;
        var fragmented := f.frameType == ToFrameType(t, true);
        var first := FirstReader(HeaderOf(f), fragmented, t);
        PayloadIsTaken(c, first, s.flags, Past(s.wire, ApplyKey(f.maskKey, f.payload) + more, Handled(f)), f, more);
        if fragmented {
          k := TailIsRecognised(c, first, s.flags, w1, fs[1..]);
        }
      }
      MessageGrows(t, fs, k);
      k := k + 1;
    }
  }

  lemma {:induction false} EncodeAllSplits(c: Codec, fs: seq<Frame>, k: nat)
    requires k <= |fs|
    ensures EncodeAll(c, fs) == EncodeAll(c, fs[..k]) + EncodeAll(c, fs[k..])
  {
    hide Encode;
    if k > 0 {
      EncodeAllSplits(c, fs[1..], k - 1);
      assert fs[..k][1..] == fs[1..][..k - 1] && fs[1..][k - 1..] == fs[k..];
    } else {
      assert fs[..0] == [] && fs[0..] == fs;
    }
  }

  lemma {:induction false} PrefixIsReceived(c: Codec, s: Session, t: MessageType, fs: seq<Frame>, k: nat)
    requires Carries(c, s.wire, fs, []) && s.reader.None? && k <= |fs| && IsMessage(t, fs[..k])
    ensures WholeMessage(c, s)
         == Whole(Payloads(fs[..k]), Complete, s.flags, Past(s.wire, EncodeAll(c, fs[k..]), History(fs[..k])))
  {
    hide WholeMessage, IsMessage, EncodeAll;
    EncodeAllSplits(c, fs, k);
    assert EncodeAll(c, fs) + [] == EncodeAll(c, fs[..k]) + EncodeAll(c, fs[k..]);
    MessageIsReceived(c, s, t, fs[..k], EncodeAll(c, fs[k..]));
  }

  // On whole frames a message is completed exactly when the frames start with a word of the grammar.
  lemma {:induction false} RecogniserEquivalence(c: Codec, s: Session, fs: seq<Frame>)
    requires Carries(c, s.wire, fs, []) && s.reader.None? && !s.flags.waitForPong
    ensures WholeMessage(c, s).ending.Complete? <==> exists t, k :: 0 <= k <= |fs| && IsMessage(t, fs[..k])
  {
    hide WholeMessage, IsMessage;
    if WholeMessage(c, s).ending.Complete? {
      var t, k := MessageIsRecognised(c, s, fs);
    } else if exists t, k :: 0 <= k <= |fs| && IsMessage(t, fs[..k]) {
      var t, k :| 0 <= k <= |fs| && IsMessage(t, fs[..k]);
      PrefixIsReceived(c, s, t, fs, k);
    }
  }

  // ---- The user's view ----

  // The frames of an encoder that fragments a message into the given parts.
  datatype Part = Part(maskKey: Option<Key>, payload: Payload)

  function Fragments(t: MessageType, parts: seq<Part>): seq<Frame> {
    seq(|parts|, i requires 0 <= i < |parts| =>
      Frame(FragmentType(t, i, |parts|), parts[i].maskKey, parts[i].payload))
  }

  function Joined(parts: seq<Part>): seq<Byte> {
    if parts == [] then [] else parts[0].payload + Joined(parts[1..])
  }

  // Concatenated payloads of a list of frames, control frames or not.
  function JoinedFrames(fs: seq<Frame>): seq<Byte> {
    if fs == [] then [] else fs[0].payload + JoinedFrames(fs[1..])
  }

  lemma {:induction false} PayloadsSkipPings(fs: seq<Frame>)
    ensures Payloads(fs) == JoinedFrames(DropPings(fs))
    decreases |fs|
  {
    if fs != [] {
      PayloadsSkipPings(fs[1..]);
    }
  }

  lemma {:induction false} JoinedParts(fs: seq<Frame>, parts: seq<Part>)
    requires |fs| == |parts| && forall i :: 0 <= i < |fs| ==> fs[i].payload == parts[i].payload
    ensures JoinedFrames(fs) == Joined(parts)
    decreases |fs|
  {
    if fs != [] {
      JoinedParts(fs[1..], parts[1..]);
    }
  }

  // Any interleaving of valid Pings into the encoder's frames, but not behind the last of them.
  ghost predicate Interleaves(fs: seq<Frame>, t: MessageType, parts: seq<Part>) {
    parts != [] && fs != [] && !ValidPing(fs[|fs| - 1]) && DropPings(fs) == Fragments(t, parts)
  }

  lemma {:induction false} EncoderIsLegal(fs: seq<Frame>, t: MessageType, parts: seq<Part>)
    requires Interleaves(fs, t, parts)
    ensures IsMessage(t, fs) && Payloads(fs) == Joined(parts)
  {
    PayloadsSkipPings(fs);
    JoinedParts(Fragments(t, parts), parts);
  }

  // Whatever the fragments, masks, Pings, buffers, alignments and short reads: waiting for a message
  // gives its type, reading until none is pending gives as many bytes as its fragments have together, each
  // Ping is answered, nothing else of the session changes and the wire is left at the next header. With tidy
  // reads the bytes are the concatenation of the fragments.
  lemma {:induction false} ReassemblyRoundTrip(e: Env, s: Session, t: MessageType, parts: seq<Part>, fs: seq<Frame>,
                                               rest: seq<Byte>, slots: seq<Slot>)
    requires Lawful(e.codec) && s.wire.input == EncodeAll(e.codec, fs) + rest && Interleaves(fs, t, parts)
    requires s.state == SocketState.Ready && s.reader.None? && Benign(s.wire)
    requires NonEmpty(slots) && |slots| > |s.wire.input|
    ensures var waited := WaitMessage(e, s);
            var d := Drain(e, waited.session, slots);
            && waited.result == Ok(t)
            && d.ending == Complete && |d.bytes| == |Joined(parts)|
            && Benign(d.session.wire)
            && CalmSession(d.session) == s.(wire := Past(Calm(s.wire), rest, History(fs)))
            && (Tidy(e, waited.session, slots) ==> d.bytes == Joined(parts))
  {
    hide Drain, WholeMessage, Tidy, IsMessage, Interleaves, FailsAtBoundary;
    EncoderIsLegal(fs, t, parts);
    MessageIsReceived(e.codec, CalmSession(s), t, fs, rest);
    NextMessageCalm(e.(rule := Additive), s);
    WaitingGivesType(e, s, t);
    DrainIsWholeMessage(e, WaitMessage(e, s).session, slots);
  }

  lemma {:induction false} WaitingGivesType(e: Env, s: Session, t: MessageType)
    requires s.state == SocketState.Ready && s.reader.None? && Benign(s.wire)
    requires var step := WaitDataFrame(e.codec, s.flags, Calm(s.wire));
             step.result.Ok? && step.result.value.messageType == t
    ensures var waited := WaitMessage(e, s);
            && waited.result == Ok(t) && waited.session == NextMessage(e, s).session
            && waited.session.state == SocketState.Ready && waited.session.sendType == s.sendType
            && NextMessage(e, s).result.Ok?
  {
    hide ProcessControlFrames;
    ControlFramesCalm(e.codec, s.flags, s.wire);
  }

  // Reads complete a message exactly when the whole frames on the wire start with a word of the grammar,
  // whatever the masks, buffers, alignments and short reads.
  lemma {:induction false} ReadsCompleteExactlyOnMessages(e: Env, s: Session, fs: seq<Frame>, slots: seq<Slot>)
    requires Lawful(e.codec) && s.wire.input == EncodeAll(e.codec, fs)
    requires s.state == SocketState.Ready && s.reader.None? && Benign(s.wire) && !s.flags.waitForPong
    requires NonEmpty(slots) && |slots| > |s.wire.input|
    ensures Drain(e, s, slots).ending.Complete? <==> exists t, k :: 0 <= k <= |fs| && IsMessage(t, fs[..k])
  {
    hide Drain, WholeMessage, Tidy, IsMessage, FailsAtBoundary;
    DrainIsWholeMessage(e, s, slots);
    assert s.wire.input == EncodeAll(e.codec, fs) + [];
    RecogniserEquivalence(e.codec, CalmSession(s), fs);
  }

  // A read at a message boundary gives Ok(0) exactly when the frames start with an empty message.
  lemma {:induction false} ZeroReadExactlyOnEmptyMessages(e: Env, s: Session, fs: seq<Frame>, slot: Slot)
    requires Lawful(e.codec) && s.wire.input == EncodeAll(e.codec, fs)
    requires s.state == SocketState.Ready && s.reader.None? && Benign(s.wire) && !s.flags.waitForPong
    requires slot.len > 0
    ensures Read(e, s, slot).result == Ok(0)
            <==> exists t, k :: 0 <= k <= |fs| && IsMessage(t, fs[..k]) && Payloads(fs[..k]) == []
  {
    hide Read, WholeMessage, IsMessage, Payloads, EncodeAll;
    MeaningOfZero(e, s, slot);
    var m := WholeMessage(e.codec, CalmSession(s));
    assert s.wire.input == EncodeAll(e.codec, fs) + [];
    if m.ending.Complete? {
      var t, k := MessageIsRecognised(e.codec, CalmSession(s), fs);
      PrefixIsReceived(e.codec, CalmSession(s), t, fs, k);
    } else if m.ending.Stalled? {
      WholeFramesNeverStall(e.codec, CalmSession(s), fs);
    }
    if exists t, k :: 0 <= k <= |fs| && IsMessage(t, fs[..k]) && Payloads(fs[..k]) == [] {
      var t, k :| 0 <= k <= |fs| && IsMessage(t, fs[..k]) && Payloads(fs[..k]) == [];
      PrefixIsReceived(e.codec, CalmSession(s), t, fs, k);
    }
  }

  // On whole frames the stream never ends inside a payload.
  lemma {:induction false} TailNeverStalls(c: Codec, rd: Reader, fl: Flags, w: Wire, fs: seq<Frame>)
    requires Carries(c, w, fs, []) && !fl.waitForPong
    ensures !AfterFrame(c, rd, fl, w).ending.Stalled?
    decreases |fs|
  {
    hide ProcessControlFrames, RestOfMessage, Encode;
    if rd.isFinal {
    } else if fs == [] {
      NoFrame(c, fl, w);
    } else {
      var f, more := fs[0], EncodeAll(c, fs[1..]) + [];
      FirstFrame(c, w, fs, []);
      var w1 := Past(w, more, Handled(f));
      if ValidPing(f) {
        PingIsAnswered(c, fl, w, f, more);
        TailNeverStalls(c, rd, fl, w1, fs[1..]);
      } else if IsControl(f.frameType) {
        OtherControlFrameFails(c, fl, w, f, more);
      } else {
        DataFrameIsReturned(c, fl, w, f, more);
        if f.frameType.Continue? {
          var next := NextFragment(rd, HeaderOf(f));
          PayloadIsTaken(c, next, fl, Past(w, ApplyKey(f.maskKey, f.payload) + more, Handled(f)), f, more);
          TailNeverStalls(c, next, fl, w1, fs[1..]);
        }
      }
    }
  }

  lemma {:induction false} WholeFramesNeverStall(c: Codec, s: Session, fs: seq<Frame>)
    requires Carries(c, s.wire, fs, []) && s.reader.None? && !s.flags.waitForPong
    ensures !WholeMessage(c, s).ending.Stalled?
    decreases |fs|
  {
    hide ProcessControlFrames, RestOfMessage, AfterFrame, Encode;
    if fs == [] {
      NoFrame(c, s.flags, s.wire);
    } else {
      var f, more := fs[0], EncodeAll(c, fs[1..]) + [];
      FirstFrame(c, s.wire, fs, []);
      var w1 := Past(s.wire, more, Handled(f));
      if ValidPing(f) {
        PingIsAnswered(c, s.flags, s.wire, f, more);
        WholeFramesNeverStall(c, s.(wire := w1), fs[1..]);
      } else if IsControl(f.frameType) {
        OtherControlFrameFails(c, s.flags, s.wire, f, more);
      } else {
        DataFrameIsReturned(c, s.flags, s.wire, f, more);
        if !f.frameType.Continue? {
          var t := if f.frameType.Text? then MessageType.Text else MessageType.Binary;
          var first := FirstReader(HeaderOf(f), f.frameType == ToFrameType(t, true), t);
          PayloadIsTaken(c, first, s.flags, Past(s.wire, ApplyKey(f.maskKey, f.payload) + more, Handled(f)), f, more);
          TailNeverStalls(c, first, s.flags, w1, fs[1..]);
        }
      }
    }
  }

  // ---- Pings leave no trace but their Pongs ----

  function IfSent(item: Item): seq<Item> {
    if item.Sent? || item.SentPayload? then [item] else []
  }

  // The output among the items of a history.
  function SentItems(log: seq<Item>): seq<Item> {
    if log == [] then [] else IfSent(log[0]) + SentItems(log[1..])
  }

  // One unmasked Pong per Ping, in order, with the Ping's payload.
  function Pongs(fs: seq<Frame>): seq<Item> {
    if fs == [] then []
    else if ValidPing(fs[0]) then
      [Sent(FrameHeader(FrameType.Pong, |fs[0].payload|, None)), SentPayload(fs[0].payload)] + Pongs(fs[1..])
    else Pongs(fs[1..])
  }

  lemma {:induction false} SentItemsConcat(a: seq<Item>, b: seq<Item>)
    ensures SentItems(a + b) == SentItems(a) + SentItems(b)
    decreases |a|
  {
    hide IfSent;
    if a == [] {
      assert a + b == b;
    } else {
      SentItemsConcat(a[1..], b);
      assert (a + b)[0] == a[0] && (a + b)[1..] == a[1..] + b;
    }
  }

  lemma {:induction false} HandledSendsPong(f: Frame)
    ensures SentItems(Handled(f)) == Pongs([f])
  {
    var h := Handled(f);
    if ValidPing(f) {
      assert h[1..][1..] == h[2..] && h[2..][1..] == h[3..] && h[3..][1..] == [];
      assert SentItems(h[3..]) == [h[3]] && SentItems(h[2..]) == [h[2], h[3]];
      assert SentItems(h[1..]) == [h[2], h[3]] && SentItems(h) == [h[2], h[3]];
    }
  }

  lemma {:induction false} HistorySendsPongs(fs: seq<Frame>)
    ensures SentItems(History(fs)) == Pongs(fs)
    decreases |fs|
  {
    hide Handled, ValidPing;
    if fs != [] {
      HistorySendsPongs(fs[1..]);
      SentItemsConcat(Handled(fs[0]), History(fs[1..]));
      HandledSendsPong(fs[0]);
      assert [fs[0]][1..] == [];
    }
  }

  lemma {:induction false} PingsDropped(fs: seq<Frame>)
    ensures DropPings(DropPings(fs)) == DropPings(fs) && Pongs(DropPings(fs)) == []
    decreases |fs|
  {
    hide ValidPing;
    if fs != [] {
      PingsDropped(fs[1..]);
      if !ValidPing(fs[0]) {
        assert DropPings(fs)[1..] == DropPings(fs[1..]);
      }
    }
  }

  lemma {:induction false} LastFrameStays(fs: seq<Frame>)
    requires fs != [] && !ValidPing(fs[|fs| - 1])
    ensures DropPings(fs) != [] && DropPings(fs)[|DropPings(fs)| - 1] == fs[|fs| - 1]
    decreases |fs|
  {
    hide ValidPing;
    if |fs| > 1 {
      LastFrameStays(fs[1..]);
    }
  }

  // Deleting all valid Pings from a legal input changes neither the message delivered, its type included, nor
  // the session afterwards; what they add to the output is one Pong each. (Bytes are compared for tidy reads, their
  // number for all.)
  lemma {:induction false} PingErasure(e: Env, s1: Session, s2: Session, t: MessageType, fs: seq<Frame>, rest: seq<Byte>,
                    slots1: seq<Slot>, slots2: seq<Slot>)
    requires Lawful(e.codec) && IsMessage(t, fs)
    requires s1.wire.input == EncodeAll(e.codec, fs) + rest
    requires s2 == s1.(wire := s1.wire.(input := EncodeAll(e.codec, DropPings(fs)) + rest))
    requires s1.state == SocketState.Ready && s1.reader.None? && Benign(s1.wire)
    requires NonEmpty(slots1) && |slots1| > |s1.wire.input|
    requires NonEmpty(slots2) && |slots2| > |s2.wire.input|
    ensures WaitMessage(e, s1).result == WaitMessage(e, s2).result == Ok(t)
    ensures var d1, d2 := Drain(e, s1, slots1), Drain(e, s2, slots2);
            && |d1.bytes| == |d2.bytes| && d1.ending == d2.ending == Complete
            && (Tidy(e, s1, slots1) && Tidy(e, s2, slots2) ==> d1.bytes == d2.bytes)
            && d1.session.(wire := d2.session.wire) == d2.session
            && d1.session.wire.input == d2.session.wire.input == rest
            && SentItems(d1.session.wire.log) == SentItems(s1.wire.log) + Pongs(fs)
            && SentItems(d2.session.wire.log) == SentItems(s1.wire.log)
  {
    hide Drain, WholeMessage, Tidy, FailsAtBoundary, EncodeAll;
    DrainIsWholeMessage(e, s1, slots1);
    DrainIsWholeMessage(e, s2, slots2);
    PingsDropped(fs);
    LastFrameStays(fs);
    PayloadsSkipPings(fs);
    PayloadsSkipPings(DropPings(fs));
    MessageIsReceived(e.codec, CalmSession(s1), t, fs, rest);
    MessageIsReceived(e.codec, CalmSession(s2), t, DropPings(fs), rest);
    WaitingGivesType(e, s1, t);
    WaitingGivesType(e, s2, t);
    SentItemsConcat(s1.wire.log, History(fs));
    SentItemsConcat(s1.wire.log, History(DropPings(fs)));
    HistorySendsPongs(fs);
    HistorySendsPongs(DropPings(fs));
  }
}
