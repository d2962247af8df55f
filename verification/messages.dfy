// Messages on the wire: the fragmentation grammar of section 5.4 of RFC 6455, and what the
// engine makes of encoded frames.
module Messages {
  import opened Prelude
  import opened Masker
  import opened MaskerLaws
  import opened Frames
  import opened Wires
  import opened FrameProtocol
  import opened Sessions
  import opened Reading

  // ---- The grammar ----

  predicate ValidPing(f: Frame) {
    f.frameType.Ping? && |f.payload| <= 125
  }

  function DropPings(fs: seq<Frame>): seq<Frame> {
    if fs == [] then []
    else if ValidPing(fs[0]) then DropPings(fs[1..])
    else [fs[0]] + DropPings(fs[1..])
  }

  // What the peer says first, valid Pings aside.
  function FirstWord(fs: seq<Frame>): Option<Frame> {
    if fs == [] then None
    else if ValidPing(fs[0]) then FirstWord(fs[1..])
    else Some(fs[0])
  }

  predicate ValidClose(f: Frame) {
    f.frameType.Close? && |f.payload| <= 125
  }

  // The frame type of fragment i of n: the first names the message type, the others continue it.
  function FragmentType(t: MessageType, i: nat, n: nat): FrameType {
    if i == 0 then ToFrameType(t, n > 1) else Continue(i == n - 1)
  }

  ghost predicate IsMessageOf(t: MessageType, d: seq<Frame>) {
    d != [] && forall i :: 0 <= i < |d| ==> d[i].frameType == FragmentType(t, i, |d|)
  }

  // Fragments of one message with valid Pings anywhere before the last of them.
  ghost predicate IsMessage(t: MessageType, fs: seq<Frame>) {
    fs != [] && !ValidPing(fs[|fs| - 1]) && IsMessageOf(t, DropPings(fs))
  }

  // The same for what follows the first fragment.
  ghost predicate IsTail(fs: seq<Frame>) {
    var d := DropPings(fs);
    fs != [] && !ValidPing(fs[|fs| - 1]) && forall i :: 0 <= i < |d| ==> d[i].frameType == Continue(i == |d| - 1)
  }

  function Payloads(fs: seq<Frame>): seq<Byte> {
    if fs == [] then [] else (if ValidPing(fs[0]) then [] else fs[0].payload) + Payloads(fs[1..])
  }

  // What handling a frame leaves in the history: a Ping is answered with its own payload, unmasked.
  function Handled(f: Frame): seq<Item> {
    if ValidPing(f) then
      [Received(HeaderOf(f)), ReceivedPayload(f.payload),
       Sent(FrameHeader(FrameType.Pong, |f.payload|, None)), SentPayload(f.payload)]
    else [Received(HeaderOf(f))]
  }

  function History(fs: seq<Frame>): seq<Item> {
    if fs == [] then [] else Handled(fs[0]) + History(fs[1..])
  }

  lemma {:induction false} LastOfTail(fs: seq<Frame>)
    requires |fs| > 1
    ensures fs[1..][|fs[1..]| - 1] == fs[|fs| - 1]
  {
  }

  lemma {:induction false} TailIsNotEmpty(fs: seq<Frame>)
    requires fs != [] && !ValidPing(fs[|fs| - 1])
    ensures DropPings(fs) != []
    decreases |fs|
  {
    if |fs| > 1 {
      TailIsNotEmpty(fs[1..]);
    }
  }

  lemma {:induction false} FirstStays(fs: seq<Frame>)
    requires fs != [] && !ValidPing(fs[0])
    ensures DropPings(fs) == [fs[0]] + DropPings(fs[1..])
    ensures forall i :: 0 < i < |DropPings(fs)| ==> DropPings(fs)[i] == DropPings(fs[1..])[i - 1]
    ensures forall i :: 0 <= i < |DropPings(fs[1..])| ==> DropPings(fs[1..])[i] == DropPings(fs)[i + 1]
  {
  }

  // The tail grammar read from the left.
  lemma {:induction false} TailFromTheLeft(fs: seq<Frame>)
    ensures IsTail(fs) <==>
              && fs != []
              && if ValidPing(fs[0]) then IsTail(fs[1..])
                 else if |fs| == 1 then fs[0].frameType == Continue(true)
                 else fs[0].frameType == Continue(false) && IsTail(fs[1..])
  {
    hide ValidPing;
    if |fs| == 1 {
      assert fs[1..] == [] && DropPings([]) == [];
      assert DropPings(fs) == if ValidPing(fs[0]) then [] else fs;
    } else if |fs| > 1 {
      LastOfTail(fs);
      if !ValidPing(fs[|fs| - 1]) {
        TailIsNotEmpty(fs[1..]);
      }
      if !ValidPing(fs[0]) {
        FirstStays(fs);
        var d, d' := DropPings(fs), DropPings(fs[1..]);
        assert d[0] == fs[0];
        if IsTail(fs) {
          forall i | 0 <= i < |d'|
            ensures d'[i].frameType == Continue(i == |d'| - 1)
          {
            assert d'[i] == d[i + 1];
          }
        }
        if fs[0].frameType == Continue(false) && IsTail(fs[1..]) {
          forall i | 0 <= i < |d|
            ensures d[i].frameType == Continue(i == |d| - 1)
          {
            assert i > 0 ==> d[i] == d'[i - 1];
          }
        }
      }
    }
  }

  // The message grammar read from the left.
  lemma {:induction false} MessageFromTheLeft(t: MessageType, fs: seq<Frame>)
    ensures IsMessage(t, fs) <==>
              && fs != []
              && if ValidPing(fs[0]) then IsMessage(t, fs[1..])
                 else if |fs| == 1 then fs[0].frameType == ToFrameType(t, false)
                 else fs[0].frameType == ToFrameType(t, true) && IsTail(fs[1..])
  {
    hide ValidPing, ToFrameType;
    if |fs| == 1 {
      assert fs[1..] == [] && DropPings([]) == [];
      assert DropPings(fs) == if ValidPing(fs[0]) then [] else fs;
    } else if |fs| > 1 {
      LastOfTail(fs);
      if !ValidPing(fs[|fs| - 1]) {
        TailIsNotEmpty(fs[1..]);
      }
      if !ValidPing(fs[0]) {
        FirstStays(fs);
        var d, d' := DropPings(fs), DropPings(fs[1..]);
        assert d[0] == fs[0];
        if IsMessage(t, fs) {
          forall i | 0 <= i < |d'|
            ensures d'[i].frameType == Continue(i == |d'| - 1)
          {
            assert d'[i] == d[i + 1];
          }
        }
        if fs[0].frameType == ToFrameType(t, true) && IsTail(fs[1..]) {
          forall i | 0 <= i < |d|
            ensures d[i].frameType == FragmentType(t, i, |d|)
          {
            assert i > 0 ==> d[i] == d'[i - 1];
          }
        }
      }
    }
  }

  // ---- One encoded frame ----

  ghost predicate Quiet(w: Wire) {
    w.open && w.fates == []
  }

  // The wire once the first n bytes are consumed and some items are noted.
  function Past(w: Wire, rest: seq<Byte>, items: seq<Item>): Wire {
    w.(input := rest, log := w.log + items)
  }

  lemma {:induction false} HeaderIsParsed(c: Codec, f: Frame, rest: seq<Byte>)
    requires Lawful(c)
    ensures var input := Encode(c, f) + rest;
            var n := |c.encode(HeaderOf(f))|;
            && c.parse(input) == Header(HeaderOf(f), n) && 0 < n <= |input|
            && input[n..] == ApplyKey(f.maskKey, f.payload) + rest
  {
    hide ApplyKey;
    var h, body := HeaderOf(f), ApplyKey(f.maskKey, f.payload);
    assert c.encode(h) + body + rest == c.encode(h) + (body + rest);
  }

  lemma {:induction false} HeaderIsRead(c: Codec, w: Wire, f: Frame, rest: seq<Byte>)
    requires Lawful(c) && Quiet(w) && w.input == Encode(c, f) + rest
    ensures RecvHeader(c, w) == IO(Ok(HeaderOf(f)), Past(w, ApplyKey(f.maskKey, f.payload) + rest, [Received(HeaderOf(f))]))
  {
    hide ApplyKey, Encode;
    HeaderIsParsed(c, f, rest);
  }

  lemma {:induction false} KeyAppliedTwice(f: Frame)
    ensures ApplyKey(f.maskKey, ApplyKey(f.maskKey, f.payload)) == f.payload
  {
    if f.maskKey.Some? {
      MaskedTwice(f.maskKey.value, 0, f.payload);
    }
  }

  // A valid Ping is answered and control frame processing goes on behind it.
  lemma {:induction false} PingIsAnswered(c: Codec, fl: Flags, w: Wire, f: Frame, rest: seq<Byte>)
    requires Lawful(c) && Quiet(w) && w.input == Encode(c, f) + rest && ValidPing(f)
    ensures ProcessControlFrames(c, fl, w) == ProcessControlFrames(c, fl, Past(w, rest, Handled(f)))
  {
    hide Masked;
    var h := HeaderOf(f);
    var body := ApplyKey(f.maskKey, f.payload);
    HeaderIsRead(c, w, f, rest);
    KeyAppliedTwice(f);
    var w1 := Past(w, body + rest, [Received(h)]);
    assert w1.input[..|f.payload|] == body && w1.input[|f.payload|..] == rest;
    var back := SendBack(h, w1, FrameType.Pong);
    assert back.result.Ok?;
    assert back.wire.log == w.log + Handled(f);
    assert back.wire == Past(w, rest, Handled(f));
  }

  // A frame that carries data is handed to the caller.
  lemma {:induction false} DataFrameIsReturned(c: Codec, fl: Flags, w: Wire, f: Frame, rest: seq<Byte>)
    requires Lawful(c) && Quiet(w) && w.input == Encode(c, f) + rest && !IsControl(f.frameType)
    ensures ProcessControlFrames(c, fl, w)
         == Step(Ok(HeaderOf(f)), fl, Past(w, ApplyKey(f.maskKey, f.payload) + rest, Handled(f)))
  {
    hide Masked;
    HeaderIsRead(c, w, f, rest);
  }

  // Any other control frame ends the wait with an error, as long as no Pong is awaited.
  lemma {:induction false} OtherControlFrameFails(c: Codec, fl: Flags, w: Wire, f: Frame, rest: seq<Byte>)
    requires Lawful(c) && Quiet(w) && w.input == Encode(c, f) + rest && !fl.waitForPong
    requires IsControl(f.frameType) && !ValidPing(f)
    ensures ProcessControlFrames(c, fl, w).result.Err?
  {
    hide Masked;
    HeaderIsRead(c, w, f, rest);
  }

  // An awaited Pong is absorbed but its payload is not: the next header is looked for right behind
  // the Pong's own.
  lemma {:induction false} PongPayloadStays(c: Codec, fl: Flags, w: Wire, f: Frame, rest: seq<Byte>)
    requires Lawful(c) && Quiet(w) && w.input == Encode(c, f) + rest && fl.waitForPong
    requires f.frameType.Pong? && |f.payload| <= 125
    ensures ProcessControlFrames(c, fl, w)
         == ProcessControlFrames(c, fl.(waitForPong := false),
                                 Past(w, ApplyKey(f.maskKey, f.payload) + rest, [Received(HeaderOf(f))]))
  {
    hide Encode, Masked;
    HeaderIsRead(c, w, f, rest);
  }

  // The same holds of an awaited Close response.
  lemma {:induction false} CloseResponsePayloadStays(c: Codec, fl: Flags, w: Wire, f: Frame, rest: seq<Byte>)
    requires Lawful(c) && Quiet(w) && w.input == Encode(c, f) + rest && fl.waitForClose
    requires f.frameType.Close? && |f.payload| <= 125
    ensures ProcessControlFrames(c, fl, w)
         == Step(Err(ClosedByPeer), Flags(false, false),
                 Past(w, ApplyKey(f.maskKey, f.payload) + rest, [Received(HeaderOf(f))]))
  {
    hide Encode, Masked;
    HeaderIsRead(c, w, f, rest);
  }

  // Its payload is unmasked in full when the frame is whole.
  lemma {:induction false} PayloadIsTaken(c: Codec, rd: Reader, fl: Flags, w: Wire, f: Frame, rest: seq<Byte>)
    requires rd.masker == FreshMasker(HeaderOf(f)) && rd.payloadLen == |f.payload|
    requires w.input == ApplyKey(f.maskKey, f.payload) + rest
    ensures RestOfMessage(c, rd, fl, w) == Prepend(f.payload, AfterFrame(c, rd, fl, w.(input := rest)))
  {
    hide Masked, ProcessControlFrames, AfterFrame;
    KeyAppliedTwice(f);
    assert w.input[..|f.payload|] == ApplyKey(f.maskKey, f.payload) && w.input[|f.payload|..] == rest;
  }
}
