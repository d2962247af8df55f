// Pings change nothing that is delivered, on any input of whole frames.
module PingErasures {
  import opened Prelude
  import opened Frames
  import opened Wires
  import opened FrameProtocol
  import opened Sessions
  import opened Reading
  import opened Messages
  import opened Reassembly
  import opened Rejections

  // The same outcome, the wire aside.
  predicate SameOutcome(m1: Whole, m2: Whole) {
    m1.bytes == m2.bytes && m1.ending == m2.ending && m1.flags == m2.flags
  }

  lemma {:induction false} DroppedFrom(fs: seq<Frame>)
    ensures var j := Leading(fs);
            DropPings(fs) == if j == |fs| then [] else [fs[j]] + DropPings(fs[j + 1..])
    ensures Leading(DropPings(fs)) == 0
    decreases |fs|
  {
    hide ValidPing;
    LeadingPings(fs);
    if fs != [] && ValidPing(fs[0]) {
      DroppedFrom(fs[1..]);
      var j := Leading(fs[1..]);
      assert j < |fs[1..]| ==> fs[1..][j] == fs[j + 1] && fs[1..][j + 1..] == fs[j + 2..];
    }
  }

  // Control frame processing meets the same frame with and without the Pings before it.
  lemma {:induction false} SameWord(c: Codec, fl: Flags, w1: Wire, w2: Wire, fs: seq<Frame>)
    requires Carries(c, w1, fs, []) && Carries(c, w2, DropPings(fs), []) && !fl.waitForPong
    ensures var r1, r2 := ProcessControlFrames(c, fl, w1), ProcessControlFrames(c, fl, w2);
            var j := Leading(fs);
            && r1.result == r2.result && r1.flags == r2.flags
            && (r1.result.Ok? ==>
                  && j < |fs| && r1.result.value == HeaderOf(fs[j]) && r1.flags == fl
                  && Quiet(r1.wire) && Quiet(r2.wire)
                  && r1.wire.input == ApplyKey(fs[j].maskKey, fs[j].payload) + EncodeAll(c, fs[j + 1..])
                  && r2.wire.input == ApplyKey(fs[j].maskKey, fs[j].payload) + EncodeAll(c, DropPings(fs[j + 1..])))
  {
    hide ProcessControlFrames, EncodeAll, ApplyKey, DropPings, Leading, History, LastItems;
    DroppedFrom(fs);
    var j, ds := Leading(fs), DropPings(fs);
    if j == |fs| {
      NoWordIsMet(c, fl, w1, fs);
      NoWordIsMet(c, fl, w2, ds);
    } else {
      assert ds[0] == fs[j] && ds[1..] == DropPings(fs[j + 1..]);
      FirstWordIsMet(c, fl, w1, fs, []);
      FirstWordIsMet(c, fl, w2, ds, []);
      assert EncodeAll(c, fs[j + 1..]) + [] == EncodeAll(c, fs[j + 1..]);
      assert EncodeAll(c, ds[1..]) + [] == EncodeAll(c, ds[1..]);
    }
  }

  lemma {:induction false} TailErasure(c: Codec, rd: Reader, fl: Flags, w1: Wire, w2: Wire, fs: seq<Frame>)
    requires Carries(c, w1, fs, []) && Carries(c, w2, DropPings(fs), []) && !fl.waitForPong
    ensures SameOutcome(AfterFrame(c, rd, fl, w1), AfterFrame(c, rd, fl, w2))
    decreases |fs|
  {
    hide ProcessControlFrames, RestOfMessage, EncodeAll, ApplyKey, DropPings, Leading;
    SameWord(c, fl, w1, w2, fs);
    var s1, s2 := ProcessControlFrames(c, fl, w1), ProcessControlFrames(c, fl, w2);
    if !rd.isFinal && s1.result.Ok? && s1.result.value.frameType.Continue? {
      PayloadErasure(c, NextFragment(rd, s1.result.value), fl, s1.wire, s2.wire, fs, Leading(fs));
    }
  }

  // The payload of frame j, and what is behind it.
  lemma {:induction false} PayloadErasure(c: Codec, rd: Reader, fl: Flags, w1: Wire, w2: Wire, fs: seq<Frame>, j: nat)
    requires Lawful(c) && Quiet(w1) && Quiet(w2) && !fl.waitForPong && j < |fs|
    requires rd.masker == FreshMasker(HeaderOf(fs[j])) && rd.payloadLen == |fs[j].payload|
    requires w1.input == ApplyKey(fs[j].maskKey, fs[j].payload) + EncodeAll(c, fs[j + 1..])
    requires w2.input == ApplyKey(fs[j].maskKey, fs[j].payload) + EncodeAll(c, DropPings(fs[j + 1..]))
    ensures SameOutcome(RestOfMessage(c, rd, fl, w1), RestOfMessage(c, rd, fl, w2))
    decreases |fs|, 0
  {
    hide RestOfMessage, AfterFrame, EncodeAll, ApplyKey, DropPings;
    var more := fs[j + 1..];
    PayloadIsTaken(c, rd, fl, w1, fs[j], EncodeAll(c, more));
    PayloadIsTaken(c, rd, fl, w2, fs[j], EncodeAll(c, DropPings(more)));
    assert EncodeAll(c, more) + [] == EncodeAll(c, more);
    assert EncodeAll(c, DropPings(more)) + [] == EncodeAll(c, DropPings(more));
    TailErasure(c, rd, fl, w1.(input := EncodeAll(c, more)), w2.(input := EncodeAll(c, DropPings(more))), more);
  }

  lemma {:induction false} MessageErasure(c: Codec, s1: Session, s2: Session, fs: seq<Frame>)
    requires Carries(c, s1.wire, fs, []) && Carries(c, s2.wire, DropPings(fs), []) && !s1.flags.waitForPong
    requires s1.reader.None? && s2.reader.None? && s1.flags == s2.flags
    ensures SameOutcome(WholeMessage(c, s1), WholeMessage(c, s2))
    ensures WaitDataFrame(c, s1.flags, s1.wire).result == WaitDataFrame(c, s2.flags, s2.wire).result
  {
    hide ProcessControlFrames, RestOfMessage, EncodeAll, ApplyKey, DropPings, Leading;
    SameWord(c, s1.flags, s1.wire, s2.wire, fs);
    var step1, step2 := WaitDataFrame(c, s1.flags, s1.wire), WaitDataFrame(c, s2.flags, s2.wire);
    if step1.result.Ok? {
      PayloadErasure(c, step1.result.value, s1.flags, step1.wire, step2.wire, fs, Leading(fs));
    }
  }

  // Deleting all valid Pings from any whole frames changes nothing a user sees: the result of waiting, how
  // reading ends, the number of bytes, with tidy reads the bytes, the flags, the state, and whether a message
  // is left pending.
  lemma {:induction false} PingsAreInvisible(e: Env, s1: Session, s2: Session, fs: seq<Frame>, slots1: seq<Slot>,
                                             slots2: seq<Slot>)
    requires Lawful(e.codec) && s1.wire.input == EncodeAll(e.codec, fs) && !s1.flags.waitForPong
    requires s2 == s1.(wire := s1.wire.(input := EncodeAll(e.codec, DropPings(fs))))
    requires s1.state == SocketState.Ready && s1.reader.None? && Benign(s1.wire)
    requires NonEmpty(slots1) && |slots1| > |s1.wire.input|
    requires NonEmpty(slots2) && |slots2| > |s2.wire.input|
    ensures WaitMessage(e, s1).result == WaitMessage(e, s2).result
    ensures var d1, d2 := Drain(e, s1, slots1), Drain(e, s2, slots2);
            && d1.ending == d2.ending && |d1.bytes| == |d2.bytes|
            && (Tidy(e, s1, slots1) && Tidy(e, s2, slots2) ==> d1.bytes == d2.bytes)
            && d1.session.flags == d2.session.flags && d1.session.state == d2.session.state
            && d1.session.reader.Some? == d2.session.reader.Some?
  {
    hide Drain, WholeMessage, Tidy, EncodeAll, DropPings, ProcessControlFrames;
    DrainIsWholeMessage(e, s1, slots1);
    DrainIsWholeMessage(e, s2, slots2);
    assert EncodeAll(e.codec, fs) + [] == EncodeAll(e.codec, fs);
    assert EncodeAll(e.codec, DropPings(fs)) + [] == EncodeAll(e.codec, DropPings(fs));
    MessageErasure(e.codec, CalmSession(s1), CalmSession(s2), fs);
    ControlFramesCalm(e.codec, s1.flags, s1.wire);
    ControlFramesCalm(e.codec, s2.flags, s2.wire);
  }
}
