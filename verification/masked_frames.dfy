// What the frame reader delivers of one masked frame, in any run: for which buffers, alignments and
// schedules the masker's offset does no harm.
module MaskedFrames {
  import opened Prelude
  import opened WordMask
  import opened Masker
  import opened MaskerLaws
  import opened Frames
  import opened Wires
  import opened FrameProtocol
  import opened Reading

  // Read from the current frame only: the bytes delivered and the shape of each chunk.
  function ReadFrame(e: Env, rd: Reader, f: Flags, w: Wire, slots: seq<Slot>): (r: (seq<Byte>, seq<Shape>))
    decreases |slots|
  {
    if slots == [] || rd.payloadLen == 0 then ([], [])
    else
      var c := ReceiveFramePayload(e, rd, f, w, slots[0]);
      if c.result.Err? || c.result.value == 0 then ([], [])
      else
        var (bytes, shapes) := ReadFrame(e, c.reader, c.flags, c.wire, slots[1..]);
        (c.data + bytes, [Shape(|c.data|, slots[0].cut)] + shapes)
  }

  // A masked frame comes out as its masker streams it, so `StreamExactly` says which runs of the
  // code as written deliver the payload the peer masked.
  lemma {:induction false} FrameIsStreamed(e: Env, rd: Reader, f: Flags, w: Wire, slots: seq<Slot>)
    requires rd.masker.Some?
    ensures var (bytes, shapes) := ReadFrame(e, rd, f, w, slots);
            && |bytes| == Total(shapes) <= |w.input|
            && bytes == Stream(e.rule, e.word, rd.masker.value, shapes, w.input[..|bytes|])
    decreases |slots|
  {
    hide ReceiveFramePayload, Stream, ChunkMasked, ChunkPhase;
    var (bytes, shapes) := ReadFrame(e, rd, f, w, slots);
    if shapes == [] {
      StreamOfNothing(e.rule, e.word, rd.masker.value);
    } else {
      var c := ReceiveFramePayload(e, rd, f, w, slots[0]);
      FrameChunk(e, rd, f, w, slots[0]);
      FrameIsStreamed(e, c.reader, c.flags, c.wire, slots[1..]);
      var (later, laterShapes) := ReadFrame(e, c.reader, c.flags, c.wire, slots[1..]);
      var n := |c.data|;
      assert w.input[..n + |later|][..n] == w.input[..n] && w.input[..n + |later|][n..] == c.wire.input[..|later|];
      StreamOfOneMore(e.rule, e.word, rd.masker.value, Shape(n, slots[0].cut), laterShapes, w.input[..n + |later|]);
    }
  }

  // The shapes depend on lengths and on the schedule only, not on the bytes or the key.
  lemma {:induction false} ShapesIgnoreContents(e: Env, rd1: Reader, w1: Wire, rd2: Reader, w2: Wire, f: Flags,
                                                slots: seq<Slot>)
    requires rd1.masker.Some? && rd2.masker.Some? && rd1.payloadLen == rd2.payloadLen
    requires |w1.input| == |w2.input| && w1.fates == w2.fates && w1.open == w2.open
    ensures ReadFrame(e, rd1, f, w1, slots).1 == ReadFrame(e, rd2, f, w2, slots).1
    decreases |slots|
  {
    hide ReceiveFramePayload, ChunkMasked, ChunkPhase;
    if slots != [] && rd1.payloadLen > 0 {
      if slots[0].len > 0 {
        FrameRead(e, rd1, f, w1, slots[0]);
        FrameRead(e, rd2, f, w2, slots[0]);
      } else {
        FinishedRead(e, rd1, f, w1, slots[0]);
        FinishedRead(e, rd2, f, w2, slots[0]);
      }
      var c1 := ReceiveFramePayload(e, rd1, f, w1, slots[0]);
      var c2 := ReceiveFramePayload(e, rd2, f, w2, slots[0]);
      if c1.result.Ok? && c1.result.value > 0 {
        ShapesIgnoreContents(e, c1.reader, c1.wire, c2.reader, c2.wire, f, slots[1..]);
      }
    }
  }

  // A frame masked with the given key, read by a fresh reader under the given schedule.
  function ReadMasked(e: Env, key: Key, payload: Payload, fates: seq<Fate>, slots: seq<Slot>): (seq<Byte>, seq<Shape>) {
    ReadFrame(e, Reader(Some(Phase(0, key)), |payload|, true, MessageType.Binary), Flags(false, false),
              Wire(Masked(key, 0, payload), [], fates, true), slots)
  }

  function Zeros(n: nat): (s: seq<Byte>)
    ensures |s| == n
  {
    seq(n, _ => Byte(0))
  }

  // For which buffers, alignments and schedules the code as written delivers every masked frame of
  // length n unharmed: exactly those whose chunks keep the masker in phase.
  lemma {:induction false} MaskedFramesReadExactly(e: Env, n: usize, fates: seq<Fate>, slots: seq<Slot>)
    requires e.rule.AsWritten?
    ensures (forall key: Key, payload: Payload | |payload| == n ::
               ReadMasked(e, key, payload, fates, slots).0 <= payload)
            <==> PhasesRight(e.word, 0, 0, ReadMasked(e, DISTINCT, Zeros(n), fates, slots).1)
  {
    hide ReadFrame, Masked, PhasesRight;
    var shapes := ReadMasked(e, DISTINCT, Zeros(n), fates, slots).1;
    forall key: Key, payload: Payload | |payload| == n
      ensures var (bytes, shapes') := ReadMasked(e, key, payload, fates, slots);
              && shapes' == shapes && |bytes| == Total(shapes) <= n
              && bytes == Stream(AsWritten, e.word, Phase(0, key), shapes, Masked(key, 0, payload)[..|bytes|])
              && Masked(key, 0, Masked(key, 0, payload)[..|bytes|]) == payload[..|bytes|]
    {
      MaskedReadIsStreamed(e, key, payload, fates, slots);
    }
    if PhasesRight(e.word, 0, 0, shapes) {
      forall key: Key, payload: Payload | |payload| == n
        ensures ReadMasked(e, key, payload, fates, slots).0 <= payload
      {
        var bytes := ReadMasked(e, key, payload, fates, slots).0;
        StreamInPhase(e.word, Phase(0, key), 0, shapes, Masked(key, 0, payload)[..|bytes|]);
      }
    } else {
      var payload: Payload := Zeros(n);
      var bytes := ReadMasked(e, DISTINCT, payload, fates, slots).0;
      StreamOutOfPhase(e.word, 0, 0, shapes, Masked(DISTINCT, 0, payload)[..|bytes|]);
      assert bytes != payload[..|bytes|];
    }
  }

  // ---- The same by the size of the buffers ----

  predicate AllOfLength(slots: seq<Slot>, len: nat) {
    forall i :: 0 <= i < |slots| ==> slots[i].len == len
  }

  // What n bytes are cut into by k buffers of one length when every read fills its buffer.
  function FullChunks(n: nat, len: nat, k: nat): seq<nat>
    decreases k
  {
    if k == 0 || n == 0 then [] else [Min(n, len)] + FullChunks(n - Min(n, len), len, k - 1)
  }

  lemma {:induction false} FullReads(e: Env, rd: Reader, f: Flags, w: Wire, slots: seq<Slot>, len: nat)
    requires len > 0 && AllOfLength(slots, len)
    requires w.open && w.fates == [] && |w.input| == rd.payloadLen
    ensures Lengths(ReadFrame(e, rd, f, w, slots).1) == FullChunks(rd.payloadLen, len, |slots|)
    decreases |slots|
  {
    hide ReceiveFramePayload, ChunkMasked;
    if slots != [] && rd.payloadLen > 0 {
      FrameRead(e, rd, f, w, slots[0]);
      var c := ReceiveFramePayload(e, rd, f, w, slots[0]);
      FullReads(e, c.reader, c.flags, c.wire, slots[1..], len);
    }
  }

  lemma {:induction false} FullChunksAligned(phase: nat, n: nat, len: nat, k: nat)
    requires len > 0 && len % 4 == 0 && (n > 0 ==> phase % 4 == 0)
    ensures StartsAligned(phase, FullChunks(n, len, k))
    decreases k
  {
    if k > 0 && n > 0 {
      var m := Min(n, len);
      assert n - m > 0 ==> (phase + m) % 4 == 0;
      FullChunksAligned(phase + m, n - m, len, k - 1);
      assert FullChunks(n, len, k)[1..] == FullChunks(n - m, len, k - 1);
    }
  }

  // Without short reads, buffers of one length read every masked frame of n bytes unharmed under every
  // alignment exactly when the frame fits one buffer or that length is a multiple of four.
  lemma {:induction false} FullBuffersReadExactly(e: Env, n: usize, len: nat)
    requires e.rule.AsWritten? && len > 0
    ensures (forall slots: seq<Slot>, key: Key, payload: Payload | AllOfLength(slots, len) && |payload| == n ::
               ReadMasked(e, key, payload, [], slots).0 <= payload)
            <==> n <= len || len % 4 == 0
  {
    hide ReadFrame, Masked, PhasesRight;
    var f := Flags(false, false);
    var rd := Reader(Some(Phase(0, DISTINCT)), n, true, MessageType.Binary);
    var w := Wire(Masked(DISTINCT, 0, Zeros(n)), [], [], true);
    if n <= len || len % 4 == 0 {
      forall slots: seq<Slot>, key: Key, payload: Payload | AllOfLength(slots, len) && |payload| == n
        ensures ReadMasked(e, key, payload, [], slots).0 <= payload
      {
        FullReads(e, rd, f, w, slots, len);
        if n <= len {
          OneChunkAligned(n, len, |slots|);
        } else {
          FullChunksAligned(0, n, len, |slots|);
        }
        AlignedStartsSuffice(e.word, 0, 0, ReadMasked(e, DISTINCT, Zeros(n), [], slots).1);
        MaskedFramesReadExactly(e, n, [], slots);
      }
    } else {
      var slots := [Slot(len, Cut(0, 0)), Slot(len, Cut(0, 0))];
      FullReads(e, rd, f, w, slots, len);
      var shapes := ReadMasked(e, DISTINCT, Zeros(n), [], slots).1;
      assert Lengths(shapes) == FullChunks(n, len, 2) == [len] + FullChunks(n - len, len, 1);
      SecondChunkMisplaced(e, rd, f, w, slots, len);
      MaskedFramesReadExactly(e, n, [], slots);
    }
  }

  lemma {:induction false} OneChunkAligned(n: nat, len: nat, k: nat)
    requires n <= len
    ensures StartsAligned(0, FullChunks(n, len, k))
  {
    if k > 0 && n > 0 {
      assert FullChunks(n, len, k) == [n] && [n][1..] == [];
    }
  }

  // The shapes begin with that of the first read.
  lemma {:induction false} FirstShape(e: Env, rd: Reader, f: Flags, w: Wire, slots: seq<Slot>, n: nat)
    requires slots != [] && 0 < n <= rd.payloadLen && n <= slots[0].len
    requires w.open && |w.input| == rd.payloadLen && w.fates <= [Grant(n)]
    requires w.fates == [] ==> n == Min(slots[0].len, rd.payloadLen)
    ensures var c := ReceiveFramePayload(e, rd, f, w, slots[0]);
            && c.wire.open && c.wire.fates == [] && |c.wire.input| == c.reader.payloadLen == rd.payloadLen - n
            && ReadFrame(e, rd, f, w, slots).1
            == [Shape(n, slots[0].cut)] + ReadFrame(e, c.reader, c.flags, c.wire, slots[1..]).1
  {
    hide ReceiveFramePayload, ChunkMasked, ChunkPhase, Split;
    FrameRead(e, rd, f, w, slots[0]);
  }

  // A second chunk taken as suffix at a position that is no multiple of four.
  lemma {:induction false} SecondChunkMisplaced(e: Env, rd: Reader, f: Flags, w: Wire, slots: seq<Slot>, first: nat)
    requires |slots| == 2 && slots[1].cut == Cut(0, 0) && slots[1].len > 0
    requires 0 < first < rd.payloadLen && first <= slots[0].len && first % 4 != 0
    requires w.open && |w.input| == rd.payloadLen && w.fates <= [Grant(first)]
    requires w.fates == [] ==> slots[0].len == first
    ensures !PhasesRight(e.word, 0, 0, ReadFrame(e, rd, f, w, slots).1)
  {
    hide ReceiveFramePayload, ReadFrame, PhasesRight;
    FirstShape(e, rd, f, w, slots, first);
    var c := ReceiveFramePayload(e, rd, f, w, slots[0]);
    assert slots[1..] == [slots[1]];
    var n := Min(slots[1].len, c.reader.payloadLen);
    FirstShape(e, c.reader, c.flags, c.wire, slots[1..], n);
    var d := ReceiveFramePayload(e, c.reader, c.flags, c.wire, slots[1]);
    MisplacedSuffix(e.word, first, slots[0].cut, n, ReadFrame(e, d.reader, d.flags, d.wire, slots[1..][1..]).1);
  }

  lemma {:induction false} MisplacedSuffix(word: WordSize, first: nat, cut: Cut, n: nat, rest: seq<Shape>)
    requires n > 0 && first % 4 != 0
    ensures !PhasesRight(word, 0, 0, [Shape(first, cut)] + ([Shape(n, Cut(0, 0))] + rest))
  {
    var second := [Shape(n, Cut(0, 0))] + rest;
    assert !PhasesRight(word, first, first, second);
    assert ([Shape(first, cut)] + second)[1..] == second;
  }

  // With short reads no size helps: only frames of at most one byte are safe under every schedule.
  lemma {:induction false} ShortReadsReadExactly(e: Env, n: usize)
    requires e.rule.AsWritten?
    ensures (forall fates: seq<Fate>, slots: seq<Slot>, key: Key, payload: Payload | |payload| == n ::
               ReadMasked(e, key, payload, fates, slots).0 <= payload)
            <==> n <= 1
  {
    hide ReadFrame, Masked, PhasesRight;
    if n <= 1 {
      forall fates: seq<Fate>, slots: seq<Slot>, key: Key, payload: Payload | |payload| == n
        ensures ReadMasked(e, key, payload, fates, slots).0 <= payload
      {
        MaskedReadIsStreamed(e, DISTINCT, Zeros(n), fates, slots);
        var shapes := ReadMasked(e, DISTINCT, Zeros(n), fates, slots).1;
        OneByteInPhase(e.word, 0, shapes);
        MaskedFramesReadExactly(e, n, fates, slots);
      }
    } else {
      var slots := [Slot(n, Cut(0, 0)), Slot(n, Cut(0, 0))];
      SecondChunkMisplaced(e, Reader(Some(Phase(0, DISTINCT)), n, true, MessageType.Binary), Flags(false, false),
                           Wire(Masked(DISTINCT, 0, Zeros(n)), [], [Grant(1)], true), slots, 1);
      MaskedFramesReadExactly(e, n, [Grant(1)], slots);
    }
  }

  lemma {:induction false} EmptyChunksInPhase(word: WordSize, offset: nat, phase: nat, shapes: seq<Shape>)
    requires Total(shapes) == 0
    ensures PhasesRight(word, offset, phase, shapes)
    decreases |shapes|
  {
    if shapes != [] {
      EmptyChunksInPhase(word, 0, phase, shapes[1..]);
    }
  }

  lemma {:induction false} OneByteInPhase(word: WordSize, offset: nat, shapes: seq<Shape>)
    requires Total(shapes) <= 1 && offset == 0
    ensures PhasesRight(word, offset, 0, shapes)
    decreases |shapes|
  {
    if shapes != [] {
      if shapes[0].len == 0 {
        OneByteInPhase(word, 0, shapes[1..]);
      } else {
        EmptyChunksInPhase(word, 1, 1, shapes[1..]);
      }
    }
  }

  lemma {:induction false} MaskedReadIsStreamed(e: Env, key: Key, payload: Payload, fates: seq<Fate>, slots: seq<Slot>)
    ensures var (bytes, shapes) := ReadMasked(e, key, payload, fates, slots);
            && shapes == ReadMasked(e, DISTINCT, Zeros(|payload|), fates, slots).1
            && |bytes| == Total(shapes) <= |payload|
            && bytes == Stream(e.rule, e.word, Phase(0, key), shapes, Masked(key, 0, payload)[..|bytes|])
            && Masked(key, 0, Masked(key, 0, payload)[..|bytes|]) == payload[..|bytes|]
  {
    hide ReadFrame, Masked;
    var f := Flags(false, false);
    var rd := Reader(Some(Phase(0, key)), |payload|, true, MessageType.Binary);
    var w := Wire(Masked(key, 0, payload), [], fates, true);
    FrameIsStreamed(e, rd, f, w, slots);
    ShapesIgnoreContents(e, rd, w, rd.(masker := Some(Phase(0, DISTINCT))),
                         Wire(Masked(DISTINCT, 0, Zeros(|payload|)), [], fates, true), f, slots);
    var n := |ReadMasked(e, key, payload, fates, slots).0|;
    MaskedSplit(key, 0, payload, n);
    assert Masked(key, 0, payload)[..n] == Masked(key, 0, payload[..n]);
    MaskedTwice(key, 0, payload[..n]);
  }

  lemma {:induction false} StreamOfNothing(rule: OffsetRule, word: WordSize, m: Phase)
    ensures Stream(rule, word, m, [], []) == []
  {
  }

  lemma {:induction false} StreamOfOneMore(rule: OffsetRule, word: WordSize, m: Phase, shape: Shape, shapes: seq<Shape>,
                                           s: seq<Byte>)
    requires |s| == shape.len + Total(shapes)
    ensures Total([shape] + shapes) == |s|
    ensures Stream(rule, word, m, [shape] + shapes, s)
         == ChunkMasked(rule, word, m, shape.cut, s[..shape.len])
            + Stream(rule, word, ChunkPhase(rule, m, shape.len), shapes, s[shape.len..])
  {
    hide ChunkMasked, ChunkPhase;
    assert ([shape] + shapes)[1..] == shapes;
  }

  lemma {:induction false} FrameChunk(e: Env, rd: Reader, f: Flags, w: Wire, slot: Slot)
    requires rd.masker.Some? && rd.payloadLen > 0
    ensures var c := ReceiveFramePayload(e, rd, f, w, slot);
            c.result.Ok? && c.result.value > 0 ==>
              && |c.data| <= rd.payloadLen && |c.data| <= |w.input|
              && c.data == ChunkMasked(e.rule, e.word, rd.masker.value, slot.cut, w.input[..|c.data|])
              && c.reader == rd.(payloadLen := rd.payloadLen - |c.data|,
                                 masker := Some(ChunkPhase(e.rule, rd.masker.value, |c.data|)))
              && c.wire.input == w.input[|c.data|..]
  {
    hide ReceiveFramePayload, ChunkMasked, ChunkPhase;
    if slot.len > 0 {
      FrameRead(e, rd, f, w, slot);
    } else {
      FinishedRead(e, rd, f, w, slot);
    }
  }
}
