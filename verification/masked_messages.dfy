// A whole masked message read by the code as written: exactly which buffers and short reads deliver it unharmed.
module MaskedMessages {
  import opened Prelude
  import opened WordMask
  import opened Masker
  import opened MaskerLaws
  import opened Frames
  import opened Wires
  import opened FrameProtocol
  import opened Sessions
  import opened Reading
  import opened MaskedFrames
  import opened Messages
  import opened Reassembly

  // ---- How the schedule and the buffers cut a message up ----

  function Later(fates: seq<Fate>): seq<Fate> {
    if fates == [] then [] else fates[1..]
  }

  // What a read takes of `want` bytes that are there.
  function Granted(want: nat, fates: seq<Fate>): (n: nat)
    ensures n <= want && (want > 0 ==> n > 0)
  {
    if fates == [] || fates[0].Fail? then want else Min(want, Max(1, fates[0].limit))
  }

  // The chunks read of a fragment with `left` bytes to come, and of the fragments behind it. Every header, and
  // every read that finds bytes, draws one fate.
  function Chunks(left: nat, more: seq<nat>, fates: seq<Fate>, slots: seq<Slot>): (r: seq<seq<Shape>>)
    ensures |r| == |more| + 1
    decreases |more| + |slots|
  {
    if left == 0 then
      if more == [] then [[]] else [[]] + Chunks(more[0], more[1..], Later(fates), slots)
    else if slots == [] then seq(|more| + 1, _ => [])
    else
      var n := Granted(Min(slots[0].len, left), fates);
      var rest := Chunks(left - n, more, Later(fates), slots[1..]);
      [[Shape(n, slots[0].cut)] + rest[0]] + rest[1..]
  }

  function Sum(lens: seq<nat>): nat {
    if lens == [] then 0 else lens[0] + Sum(lens[1..])
  }

  function PartLengths(parts: seq<Part>): (lens: seq<nat>)
    ensures |lens| == |parts|
  {
    seq(|parts|, i requires 0 <= i < |parts| => |parts[i].payload|)
  }

  predicate AllMasked(parts: seq<Part>) {
    forall i :: 0 <= i < |parts| ==> parts[i].maskKey.Some?
  }

  // The fragments behind the first.
  function Continued(parts: seq<Part>): (fs: seq<Frame>)
    ensures |fs| == |parts|
  {
    seq(|parts|, i requires 0 <= i < |parts| => Frame(Continue(i == |parts| - 1), parts[i].maskKey, parts[i].payload))
  }

  // The chunks cover the fragments.
  ghost predicate Covers(shapes: seq<seq<Shape>>, parts: seq<Part>) {
    |shapes| == |parts| && forall i :: 0 <= i < |parts| ==> Total(shapes[i]) == |parts[i].payload|
  }

  // What fresh maskers make of the masked fragments, chunk by chunk.
  ghost function Streams(word: WordSize, parts: seq<Part>, shapes: seq<seq<Shape>>): seq<Byte>
    requires Covers(shapes, parts) && AllMasked(parts)
  {
    if parts == [] then []
    else
      var key := parts[0].maskKey.value;
      Stream(AsWritten, word, Phase(0, key), shapes[0], Masked(key, 0, parts[0].payload))
      + Streams(word, parts[1..], shapes[1..])
  }

  // ---- What a run delivers ----

  lemma {:induction false} NextHeader(c: Codec, fl: Flags, w: Wire, f: Frame, rest: seq<Byte>)
    requires Lawful(c) && Benign(w) && w.input == Encode(c, f) + rest && !IsControl(f.frameType)
    ensures var r := ProcessControlFrames(c, fl, w);
            && r.result == Ok(HeaderOf(f)) && r.flags == fl && Benign(r.wire)
            && r.wire.input == ApplyKey(f.maskKey, f.payload) + rest && r.wire.fates == Later(w.fates)
  {
    hide ApplyKey, Encode;
    HeaderIsParsed(c, f, rest);
  }

  // The read that finds bytes of the current fragment.
  lemma {:induction false} ChunkIsRead(e: Env, s: Session, slot: Slot, m: Phase, body: seq<Byte>, rest: seq<Byte>)
    requires e.rule.AsWritten? && s.state == SocketState.Ready && Benign(s.wire) && slot.len > 0
    requires s.reader.Some? && s.reader.value.masker == Some(m) && s.reader.value.payloadLen == |body| > 0
    requires s.wire.input == body + rest
    ensures var n := Granted(Min(slot.len, |body|), s.wire.fates);
            var r := Read(e, s, slot);
            var left := s.reader.value.(payloadLen := |body| - n, masker := Some(m.(offset := n)));
            && 0 < n <= |body| && r.result == Ok(n)
            && r.data == ChunkMasked(AsWritten, e.word, m, slot.cut, body[..n])
            && r.session.state == SocketState.Ready && Benign(r.session.wire)
            && r.session.wire.input == body[n..] + rest && r.session.wire.fates == Later(s.wire.fates)
            && r.session.reader == if IsFinished(left) then None else Some(left)
  {
    hide ReceiveFramePayload, ChunkMasked;
    FrameRead(e, s.reader.value, s.flags, s.wire, slot);
    var n := Granted(Min(slot.len, |body|), s.wire.fates);
    assert s.wire.input[..n] == body[..n] && s.wire.input[n..] == body[n..] + rest;
  }

  // Between fragments a read starts with the next header.
  lemma {:induction false} FragmentIsStarted(e: Env, s: Session, slots: seq<Slot>, f: Frame, rest: seq<Byte>) returns (s': Session)
    requires Lawful(e.codec) && s.state == SocketState.Ready && Benign(s.wire) && slots != [] && NonEmpty(slots)
    requires s.reader.Some? && s.reader.value.payloadLen == 0 && !s.reader.value.isFinal && f.frameType.Continue?
    requires s.wire.input == Encode(e.codec, f) + rest
    ensures Drain(e, s', slots) == Drain(e, s, slots)
    ensures s'.state == SocketState.Ready && Benign(s'.wire) && s'.wire.fates == Later(s.wire.fates)
    ensures s'.wire.input == ApplyKey(f.maskKey, f.payload) + rest
    ensures s'.reader == Some(NextFragment(s.reader.value, HeaderOf(f)))
  {
    hide ProcessControlFrames, Encode, ApplyKey, Consume, ReadSome, Benign;
    NextHeader(e.codec, s.flags, s.wire, f, rest);
    var step := ProcessControlFrames(e.codec, s.flags, s.wire);
    var next := NextFragment(s.reader.value, HeaderOf(f));
    s' := s.(reader := Some(next), wire := step.wire);
    assert slots[0].len > 0;
    assert ReceiveFramePayload(e, s.reader.value, s.flags, s.wire, slots[0])
        == ReceiveFramePayload(e, next, s.flags, step.wire, slots[0]);
    assert Read(e, s, slots[0]) == Read(e, s', slots[0]);
  }

  lemma {:induction false} ContinuedFrom(parts: seq<Part>)
    requires parts != []
    ensures Continued(parts)[0] == Frame(Continue(|parts| == 1), parts[0].maskKey, parts[0].payload)
    ensures Continued(parts)[1..] == Continued(parts[1..])
    ensures PartLengths(parts)[0] == |parts[0].payload| && PartLengths(parts)[1..] == PartLengths(parts[1..])
  {
  }

  lemma {:induction false} EncodedFrom(c: Codec, parts: seq<Part>)
    requires parts != []
    ensures EncodeAll(c, Continued(parts)) == Encode(c, Continued(parts)[0]) + EncodeAll(c, Continued(parts[1..]))
  {
    hide Encode, Continued;
    ContinuedFrom(parts);
  }

  // From inside a fragment to the end of the message, each fragment comes out as its masker streams it.
  lemma {:induction false} MessageIsStreamed(e: Env, s: Session, m: Phase, body: seq<Byte>, parts: seq<Part>, slots: seq<Slot>)
    requires Lawful(e.codec) && e.rule.AsWritten? && s.state == SocketState.Ready && Benign(s.wire) && AllMasked(parts)
    requires s.reader.Some? && s.reader.value.masker == Some(m) && s.reader.value.payloadLen == |body|
    requires s.reader.value.isFinal <==> parts == []
    requires s.wire.input == body + EncodeAll(e.codec, Continued(parts))
    requires NonEmpty(slots) && |slots| > |body| + Sum(PartLengths(parts))
    ensures var shapes := Chunks(|body|, PartLengths(parts), s.wire.fates, slots);
            var d := Drain(e, s, slots);
            && Total(shapes[0]) == |body| && Covers(shapes[1..], parts) && d.ending == Complete
            && d.bytes == Stream(AsWritten, e.word, m, shapes[0], body) + Streams(e.word, parts, shapes[1..])
    decreases |parts| + |slots|
  {
    hide Read, Stream, ChunkMasked, EncodeAll, Masked, Benign, Continued, PartLengths;
    var shapes := Chunks(|body|, PartLengths(parts), s.wire.fates, slots);
    var rest := EncodeAll(e.codec, Continued(parts));
    assert slots[0].len > 0;
    if |body| > 0 {
      ChunkIsRead(e, s, slots[0], m, body, rest);
      var n := Granted(Min(slots[0].len, |body|), s.wire.fates);
      var r := Read(e, s, slots[0]);
      var m' := m.(offset := n);
      var later := Chunks(|body| - n, PartLengths(parts), Later(s.wire.fates), slots[1..]);
      assert shapes[0] == [Shape(n, slots[0].cut)] + later[0] && shapes[1..] == later[1..];
      if r.session.reader.None? {
        assert parts == [] && |body| == n && later == [[]] && body[n..] == [] by { NoPartLengths(parts); }
        StreamOfNothing(AsWritten, e.word, m');
        assert r.data + [] == r.data;
      } else {
        assert NonEmpty(slots[1..]);
        MessageIsStreamed(e, r.session, m', body[n..], parts, slots[1..]);
        JoinedAgain(r.data, Stream(AsWritten, e.word, m', later[0], body[n..]), Streams(e.word, parts, later[1..]));
      }
      StreamOfOneMore(AsWritten, e.word, m, Shape(n, slots[0].cut), later[0], body);
    } else if parts == [] {
      NoPartLengths(parts);
      FinalReadCompletes(e, s, slots);
      StreamOfNothing(AsWritten, e.word, m);
    } else {
      FragmentBehind(e, s, m, parts, slots);
    }
  }

  lemma {:induction false} JoinedAgain(a: seq<Byte>, b: seq<Byte>, c: seq<Byte>)
    ensures a + (b + c) == a + b + c
  {
  }

  lemma {:induction false} NoPartLengths(parts: seq<Part>)
    requires parts == []
    ensures PartLengths(parts) == []
  {
  }

  lemma {:induction false} FinalReadCompletes(e: Env, s: Session, slots: seq<Slot>)
    requires s.state == SocketState.Ready && slots != []
    requires s.reader.Some? && s.reader.value.payloadLen == 0 && s.reader.value.isFinal
    ensures Drain(e, s, slots).bytes == [] && Drain(e, s, slots).ending == Complete
  {
    assert Read(e, s, slots[0]).result == Ok(0);
  }

  lemma {:induction false} FragmentBehind(e: Env, s: Session, m: Phase, parts: seq<Part>, slots: seq<Slot>)
    requires Lawful(e.codec) && e.rule.AsWritten? && s.state == SocketState.Ready && Benign(s.wire) && AllMasked(parts)
    requires parts != [] && s.reader.Some? && s.reader.value.masker == Some(m)
    requires s.reader.value.payloadLen == 0 && !s.reader.value.isFinal
    requires s.wire.input == EncodeAll(e.codec, Continued(parts))
    requires NonEmpty(slots) && |slots| > Sum(PartLengths(parts))
    ensures var shapes := Chunks(0, PartLengths(parts), s.wire.fates, slots);
            var d := Drain(e, s, slots);
            && Total(shapes[0]) == 0 && Covers(shapes[1..], parts) && d.ending == Complete
            && d.bytes == Stream(AsWritten, e.word, m, shapes[0], []) + Streams(e.word, parts, shapes[1..])
    decreases |parts| + |slots|, 0
  {
    hide Drain, Stream, EncodeAll, Masked, Benign, NonEmpty, Continued, PartLengths;
    var f := Continued(parts)[0];
    var key, payload := parts[0].maskKey.value, parts[0].payload;
    ContinuedFrom(parts);
    EncodedFrom(e.codec, parts);
    var s' := FragmentIsStarted(e, s, slots, f, EncodeAll(e.codec, Continued(parts[1..])));
    var later := Chunks(|payload|, PartLengths(parts[1..]), s'.wire.fates, slots);
    MessageIsStreamed(e, s', Phase(0, key), Masked(key, 0, payload), parts[1..], slots);
    assert Chunks(0, PartLengths(parts), s.wire.fates, slots) == [[]] + later;
    assert ([[]] + later)[1..] == later;
    StreamOfNothing(AsWritten, e.word, m);
    OneStreamMore(e.word, parts, later);
    assert [] + Streams(e.word, parts, later) == Streams(e.word, parts, later);
  }

  lemma {:induction false} OneStreamMore(word: WordSize, parts: seq<Part>, shapes: seq<seq<Shape>>)
    requires parts != [] && |shapes| == |parts| && AllMasked(parts)
    requires Total(shapes[0]) == |parts[0].payload| && Covers(shapes[1..], parts[1..])
    ensures Covers(shapes, parts)
    ensures var key := parts[0].maskKey.value;
            Streams(word, parts, shapes)
            == Stream(AsWritten, word, Phase(0, key), shapes[0], Masked(key, 0, parts[0].payload))
               + Streams(word, parts[1..], shapes[1..])
  {
    hide Stream, Masked;
    forall i | 0 <= i < |parts|
      ensures Total(shapes[i]) == |parts[i].payload|
    {
      if i > 0 {
        assert shapes[1..][i - 1] == shapes[i] && parts[1..][i - 1] == parts[i];
      }
    }
  }

  // ---- The exact condition ----

  lemma {:induction false} StreamsRight(word: WordSize, parts: seq<Part>, shapes: seq<seq<Shape>>)
    requires Covers(shapes, parts) && AllMasked(parts)
    requires forall i :: 0 <= i < |shapes| ==> PhasesRight(word, 0, 0, shapes[i])
    ensures Streams(word, parts, shapes) == Joined(parts)
    decreases |parts|
  {
    hide Stream, Masked, PhasesRight;
    if parts != [] {
      var key := parts[0].maskKey.value;
      StreamInPhase(word, Phase(0, key), 0, shapes[0], Masked(key, 0, parts[0].payload));
      MaskedTwice(key, 0, parts[0].payload);
      StreamsRight(word, parts[1..], shapes[1..]);
    }
  }

  lemma {:induction false} StreamsWrong(word: WordSize, parts: seq<Part>, shapes: seq<seq<Shape>>, i: nat)
    requires Covers(shapes, parts) && forall j :: 0 <= j < |parts| ==> parts[j].maskKey == Some(DISTINCT)
    requires i < |shapes| && !PhasesRight(word, 0, 0, shapes[i])
    ensures Streams(word, parts, shapes) != Joined(parts)
    decreases |parts|
  {
    hide Stream, Masked, PhasesRight, DISTINCT;
    var masked := Masked(DISTINCT, 0, parts[0].payload);
    MaskedTwice(DISTINCT, 0, parts[0].payload);
    if i == 0 {
      StreamOutOfPhase(word, 0, 0, shapes[0], masked);
    } else {
      StreamsWrong(word, parts[1..], shapes[1..], i - 1);
    }
    JoinsDiffer(Stream(AsWritten, word, Phase(0, DISTINCT), shapes[0], masked), Streams(word, parts[1..], shapes[1..]),
                parts[0].payload, Joined(parts[1..]));
  }

  // The encoder's message, alone on a wire.
  function MessageWire(c: Codec, t: MessageType, parts: seq<Part>, fates: seq<Fate>): Wire {
    Wire(EncodeAll(c, Fragments(t, parts)), [], fates, true)
  }

  lemma {:induction false} FragmentsFrom(c: Codec, t: MessageType, parts: seq<Part>)
    requires parts != []
    ensures var f := Frame(ToFrameType(t, |parts| > 1), parts[0].maskKey, parts[0].payload);
            EncodeAll(c, Fragments(t, parts)) == Encode(c, f) + EncodeAll(c, Continued(parts[1..]))
  {
    hide Encode;
    var f := Frame(ToFrameType(t, |parts| > 1), parts[0].maskKey, parts[0].payload);
    var fs := Fragments(t, parts);
    assert fs[0] == f;
    assert fs[1..] == Continued(parts[1..]);
  }

  lemma {:induction false} WholeMessageIsStreamed(e: Env, t: MessageType, parts: seq<Part>, fates: seq<Fate>, slots: seq<Slot>)
    requires Lawful(e.codec) && e.rule.AsWritten? && parts != [] && AllMasked(parts)
    requires (forall i :: 0 <= i < |fates| ==> fates[i].Grant?) && NonEmpty(slots) && |slots| > Sum(PartLengths(parts))
    ensures var lens := PartLengths(parts);
            var shapes := Chunks(lens[0], lens[1..], Later(fates), slots);
            var d := Drain(e, New(MessageWire(e.codec, t, parts, fates)), slots);
            Covers(shapes, parts) && d.ending == Complete && d.bytes == Streams(e.word, parts, shapes)
  {
    hide ProcessControlFrames, ReceiveFramePayload, EncodeAll, Encode, Masked, Stream, NonEmpty, Continued, PartLengths, Fragments;
    var s := New(MessageWire(e.codec, t, parts, fates));
    var key, payload := parts[0].maskKey.value, parts[0].payload;
    var f := Frame(ToFrameType(t, |parts| > 1), parts[0].maskKey, payload);
    var rest := EncodeAll(e.codec, Continued(parts[1..]));
    FragmentsFrom(e.codec, t, parts);
    ContinuedFrom(parts);
    NextHeader(e.codec, s.flags, s.wire, f, rest);
    var at := NextMessage(e, s).session;
    assert Read(e, s, slots[0]) == Read(e, at, slots[0]);
    assert Drain(e, s, slots) == Drain(e, at, slots);
    MessageIsStreamed(e, at, Phase(0, key), Masked(key, 0, payload), parts[1..], slots);
    OneStreamMore(e.word, parts, Chunks(|payload|, PartLengths(parts[1..]), Later(fates), slots));
  }

  // Every masked message of these fragment lengths is delivered as it was sent.
  ghost predicate Unharmed(e: Env, t: MessageType, lens: seq<usize>, fates: seq<Fate>, slots: seq<Slot>) {
    forall parts: seq<Part> | AllMasked(parts) && PartLengths(parts) == lens ::
      Drain(e, New(MessageWire(e.codec, t, parts, fates)), slots).bytes == Joined(parts)
  }

  predicate AllInPhase(word: WordSize, shapes: seq<seq<Shape>>) {
    forall i :: 0 <= i < |shapes| ==> PhasesRight(word, 0, 0, shapes[i])
  }

  // Whole messages of masked fragments of given lengths, read by the code as written into given buffers under a
  // given schedule of short reads, come out as the joined fragments for all keys and payloads exactly when the
  // chunks read of each fragment keep its masker in phase.
  lemma {:induction false} MaskedMessagesReadExactly(e: Env, t: MessageType, lens: seq<usize>, fates: seq<Fate>, slots: seq<Slot>)
    requires Lawful(e.codec) && e.rule.AsWritten? && lens != []
    requires (forall i :: 0 <= i < |fates| ==> fates[i].Grant?) && NonEmpty(slots) && |slots| > Sum(lens)
    ensures Unharmed(e, t, lens, fates, slots)
            <==> AllInPhase(e.word, Chunks(lens[0], lens[1..], Later(fates), slots))
  {
    hide Drain, PhasesRight, Chunks, Streams, MessageWire, NonEmpty, DISTINCT;
    var shapes := Chunks(lens[0], lens[1..], Later(fates), slots);
    forall parts: seq<Part> | AllMasked(parts) && PartLengths(parts) == lens
      ensures Covers(shapes, parts)
      ensures Drain(e, New(MessageWire(e.codec, t, parts, fates)), slots).bytes == Streams(e.word, parts, shapes)
    {
      WholeMessageIsStreamed(e, t, parts, fates, slots);
    }
    if AllInPhase(e.word, shapes) {
      forall parts: seq<Part> | AllMasked(parts) && PartLengths(parts) == lens
        ensures Drain(e, New(MessageWire(e.codec, t, parts, fates)), slots).bytes == Joined(parts)
      {
        StreamsRight(e.word, parts, shapes);
      }
    } else {
      var i: nat :| i < |shapes| && !PhasesRight(e.word, 0, 0, shapes[i]);
      var parts := seq(|lens|, j requires 0 <= j < |lens| => Part(Some(DISTINCT), Zeros(lens[j])));
      assert PartLengths(parts) == lens;
      StreamsWrong(e.word, parts, shapes, i);
      assert Drain(e, New(MessageWire(e.codec, t, parts, fates)), slots).bytes != Joined(parts);
    }
  }
}
