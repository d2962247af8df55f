// Where the read position stands between operations, on input made of whole frames, exactly when an operation
// loses it, and what has been delivered and consumed by then.
module WireSync {
  import opened Prelude
  import opened Masker
  import opened MaskerLaws
  import opened Frames
  import opened Wires
  import opened FrameProtocol
  import opened Sessions
  import opened Runs
  import opened Reading
  import opened Messages
  import opened Reassembly
  import opened Rejections
  import opened Conformance

  // The payload of a frame on the wire, from where `missing` bytes of it are still to come.
  function Remainder(f: Frame, missing: nat): seq<Byte>
    requires missing <= |f.payload|
  {
    ApplyKey(f.maskKey, f.payload)[|f.payload| - missing..]
  }

  // A reader, if a message is pending, over a wire.
  datatype Place = Place(reader: Option<Reader>, wire: Wire)

  function PlaceOf(s: Session): Place {
    Place(s.reader, s.wire)
  }

  // k frames have been started. With a reader in place the unread input is exactly the rest of the payload of
  // frame k - 1, as long as the reader thinks, and then whole frames; without one it is whole frames.
  ghost predicate InPlace(c: Codec, p: Place, fs: seq<Frame>, k: nat) {
    && k <= |fs|
    && match p.reader
       case None => p.wire.input == EncodeAll(c, fs[k..])
       case Some(rd) =>
         && 0 < k && rd.payloadLen <= |fs[k - 1].payload|
         && p.wire.input == Remainder(fs[k - 1], rd.payloadLen) + EncodeAll(c, fs[k..])
  }

  ghost predicate InSync(c: Codec, s: Session, fs: seq<Frame>, k: nat) {
    !s.flags.waitForPong && InPlace(c, PlaceOf(s), fs, k)
  }

  // What is still to come of the current frame: how much, and what in the clear.
  function Missing(p: Place): nat {
    match p.reader
    case None => 0
    case Some(rd) => rd.payloadLen
  }

  function Unread(p: Place, fs: seq<Frame>, k: nat): seq<Byte>
    requires k <= |fs|
    requires p.reader.Some? ==> 0 < k && p.reader.value.payloadLen <= |fs[k - 1].payload|
  {
    match p.reader
    case None => []
    case Some(rd) => fs[k - 1].payload[|fs[k - 1].payload| - rd.payloadLen..]
  }

  // What frames carry for the user.
  function DataPayloads(fs: seq<Frame>): seq<Byte> {
    if fs == [] then []
    else (if IsControl(fs[0].frameType) then [] else fs[0].payload) + DataPayloads(fs[1..])
  }

  // The input bytes a history accounts for: headers, and payloads of control frames.
  function HistoryBytes(c: Codec, log: seq<Item>): nat {
    if log == [] then 0
    else
      HistoryBytes(c, log[..|log| - 1]) +
      match log[|log| - 1]
      case Received(h) => |c.encode(h)|
      case ReceivedPayload(p) => |p|
      case _ => 0
  }

  lemma {:induction false} HistoryGrows(c: Codec, log: seq<Item>, item: Item)
    ensures HistoryBytes(c, log + [item])
         == HistoryBytes(c, log) + match item
                                   case Received(h) => |c.encode(h)|
                                   case ReceivedPayload(p) => |p|
                                   case _ => 0
  {
    Extended(log, item);
  }

  // Input still unread, together with what the history accounts for.
  function Accountable(c: Codec, w: Wire): nat {
    |w.input| + HistoryBytes(c, w.log)
  }

  // From p to q frames k to k' have been started and `data` delivered: as many bytes as these frames carry,
  // but for what was and what is missing, and as many as the input lost beyond headers and control payloads.
  ghost predicate Carried(c: Codec, fs: seq<Frame>, p: Place, k: nat, data: seq<Byte>, q: Place, k': nat) {
    && k <= k' && InPlace(c, q, fs, k')
    && |data| + Missing(q) == Missing(p) + |DataPayloads(fs[k..k'])|
    && Accountable(c, q.wire) + |data| == Accountable(c, p.wire)
  }

  // With bytes of a frame still to come, the masker, if the frame is masked, has the frame's key and stands
  // where the reader does.
  ghost predicate InStep(p: Place, fs: seq<Frame>, k: nat)
    requires p.reader.Some? ==> 0 < k <= |fs| && p.reader.value.payloadLen <= |fs[k - 1].payload|
  {
    p.reader.Some? && p.reader.value.payloadLen > 0 ==>
      var rd, f := p.reader.value, fs[k - 1];
      match f.maskKey
      case None => rd.masker.None?
      case Some(key) =>
        && rd.masker.Some? && rd.masker.value.key == key
        && rd.masker.value.offset % 4 == (|f.payload| - rd.payloadLen) % 4
  }

  // The bytes delivered are those the frames carry.
  ghost predicate Delivers(c: Codec, fs: seq<Frame>, p: Place, k: nat, data: seq<Byte>, q: Place, k': nat)
    requires InPlace(c, p, fs, k) && InPlace(c, q, fs, k') && k <= k'
  {
    InStep(q, fs, k') && data + Unread(q, fs, k') == Unread(p, fs, k) + DataPayloads(fs[k..k'])
  }

  lemma {:induction false} DataPayloadsJoin(a: seq<Frame>, b: seq<Frame>)
    ensures DataPayloads(a + b) == DataPayloads(a) + DataPayloads(b)
    decreases |a|
  {
    if a == [] {
      assert a + b == b && [] + DataPayloads(b) == DataPayloads(b);
    } else {
      DataPayloadsJoin(a[1..], b);
      assert (a + b)[0] == a[0] && (a + b)[1..] == a[1..] + b;
      var first := if IsControl(a[0].frameType) then [] else a[0].payload;
      assert first + (DataPayloads(a[1..]) + DataPayloads(b)) == first + DataPayloads(a[1..]) + DataPayloads(b);
    }
  }

  lemma {:induction false} CarriedThrough(c: Codec, fs: seq<Frame>, p: Place, k: nat, d1: seq<Byte>, q: Place, k1: nat,
                                          d2: seq<Byte>, r: Place, k2: nat)
    requires InPlace(c, p, fs, k) && Carried(c, fs, p, k, d1, q, k1) && Carried(c, fs, q, k1, d2, r, k2)
    ensures Carried(c, fs, p, k, d1 + d2, r, k2)
    ensures Delivers(c, fs, p, k, d1, q, k1) && Delivers(c, fs, q, k1, d2, r, k2) ==>
              Delivers(c, fs, p, k, d1 + d2, r, k2)
  {
    hide InPlace, Accountable, Unread, Missing, DataPayloads, InStep;
    assert InPlace(c, q, fs, k1) && InPlace(c, r, fs, k2);
    PlaceInRange(c, fs, p, k);
    PlaceInRange(c, fs, q, k1);
    PlaceInRange(c, fs, r, k2);
    DataPayloadsJoin(fs[k..k1], fs[k1..k2]);
    assert fs[k..k2] == fs[k..k1] + fs[k1..k2];
    if Delivers(c, fs, p, k, d1, q, k1) && Delivers(c, fs, q, k1, d2, r, k2) {
      calc {
        d1 + d2 + Unread(r, fs, k2);
        d1 + (d2 + Unread(r, fs, k2));
        d1 + (Unread(q, fs, k1) + DataPayloads(fs[k1..k2]));
        d1 + Unread(q, fs, k1) + DataPayloads(fs[k1..k2]);
        Unread(p, fs, k) + DataPayloads(fs[k..k1]) + DataPayloads(fs[k1..k2]);
        Unread(p, fs, k) + (DataPayloads(fs[k..k1]) + DataPayloads(fs[k1..k2]));
      }
    }
  }

  lemma {:induction false} PlaceInRange(c: Codec, fs: seq<Frame>, p: Place, k: nat)
    requires InPlace(c, p, fs, k)
    ensures k <= |fs|
    ensures p.reader.Some? ==> 0 < k && p.reader.value.payloadLen <= |fs[k - 1].payload|
  {
  }

  // ---- Control frames ----

  lemma {:induction false} HeaderInSync(c: Codec, w: Wire, fs: seq<Frame>)
    requires Lawful(c) && w.input == EncodeAll(c, fs)
    ensures var got := RecvHeader(c, w);
            got.result.Ok? ==>
              && fs != [] && got.result.value == HeaderOf(fs[0])
              && got.wire.input == ApplyKey(fs[0].maskKey, fs[0].payload) + EncodeAll(c, fs[1..])
              && Accountable(c, got.wire) == Accountable(c, w)
  {
    hide ApplyKey, Encode, HistoryBytes;
    if fs != [] {
      HeaderIsParsed(c, fs[0], EncodeAll(c, fs[1..]));
      HistoryGrows(c, w.log, Received(HeaderOf(fs[0])));
    }
  }

  lemma {:induction false} SendsAccount(c: Codec, h: FrameHeader, payload: seq<Byte>, w: Wire)
    ensures Accountable(c, SendHeader(h, w).wire) == Accountable(c, w)
    ensures Accountable(c, SendPayload(h, payload, w).wire) == Accountable(c, w)
  {
    hide ApplyKey, HistoryBytes;
    HistoryGrows(c, w.log, WriteFailed);
    HistoryGrows(c, w.log, Sent(h));
    HistoryGrows(c, w.log, SentPayload(payload));
    HistoryGrows(c, w.log, SentPayload(ApplyKey(h.maskKey, payload)));
  }

  lemma {:induction false} AnswerInSync(c: Codec, h: FrameHeader, w: Wire, body: seq<Byte>, rest: seq<Byte>, as': FrameType)
    requires w.input == body + rest && |body| == h.payloadLen
    ensures var back := SendBack(h, w, as');
            back.result.Ok? ==> back.wire.input == rest && Accountable(c, back.wire) == Accountable(c, w)
  {
    hide ApplyKey, HistoryBytes, Accountable, SendHeader, SendPayload;
    assert w.input[|body|..] == rest;
    var got := RecvPayload(h, MAX_CONTROL_FRAME_PAYLOAD_LEN, w);
    if got.result.Ok? {
      HistoryGrows(c, w.log, ReceivedPayload(got.result.value));
      assert Accountable(c, got.wire) == Accountable(c, w) by { PayloadAccounts(c, w, got.wire, got.result.value); }
      var reply := h.(maskKey := None, frameType := as');
      SendsAccount(c, reply, got.result.value, got.wire);
      SendsAccount(c, reply, got.result.value, SendHeader(reply, got.wire).wire);
    }
  }

  lemma {:induction false} PayloadAccounts(c: Codec, w: Wire, w': Wire, p: seq<Byte>)
    requires |w'.input| + |p| == |w.input| && HistoryBytes(c, w'.log) == HistoryBytes(c, w.log) + |p|
    ensures Accountable(c, w') == Accountable(c, w)
  {
  }

  // A data frame header, when one is returned, is that of the frame whose payload comes next, and only Pings
  // stand before it.
  lemma {:induction false} ControlFramesInSync(c: Codec, f: Flags, w: Wire, fs: seq<Frame>) returns (k: nat)
    requires Lawful(c) && w.input == EncodeAll(c, fs) && !f.waitForPong
    ensures var s := ProcessControlFrames(c, f, w);
            s.result.Ok? ==>
              && k < |fs| && s.result.value == HeaderOf(fs[k]) && !IsControl(fs[k].frameType)
              && s.wire.input == ApplyKey(fs[k].maskKey, fs[k].payload) + EncodeAll(c, fs[k + 1..])
              && Accountable(c, s.wire) == Accountable(c, w)
              && DataPayloads(fs[..k + 1]) == fs[k].payload
    decreases |w.input|
  {
    hide SendBack, Encode, ApplyKey, Accountable;
    k := 0;
    HeaderInSync(c, w, fs);
    var got := RecvHeader(c, w);
    if got.result.Ok? {
      OnePayload(fs);
      if got.result.value.frameType.Ping? {
        var body := ApplyKey(fs[0].maskKey, fs[0].payload);
        AnswerInSync(c, got.result.value, got.wire, body, EncodeAll(c, fs[1..]), FrameType.Pong);
        var back := SendBack(got.result.value, got.wire, FrameType.Pong);
        if got.result.value.payloadLen <= MAX_CONTROL_FRAME_PAYLOAD_LEN && back.result.Ok? {
          k := ControlFramesInSync(c, f, back.wire, fs[1..]);
          k := k + 1;
          if k < |fs| {
            assert fs[1..][k - 1] == fs[k] && fs[1..][k..] == fs[k + 1..];
            assert fs[..k + 1][1..] == fs[1..][..k];
          }
        }
      }
    }
  }

  lemma {:induction false} OnePayload(fs: seq<Frame>)
    requires fs != []
    ensures DataPayloads(fs[..1]) == if IsControl(fs[0].frameType) then [] else fs[0].payload
  {
    assert fs[..1][1..] == [];
    assert fs[0].payload + [] == fs[0].payload;
  }

  lemma {:induction false} NothingRemains(f: Frame)
    ensures Remainder(f, 0) == [] && Remainder(f, |f.payload|) == ApplyKey(f.maskKey, f.payload)
  {
  }

  // The frame found behind frame k, with a reader for it in place.
  lemma {:induction false} FrameStarted(c: Codec, f: Flags, p: Place, fs: seq<Frame>, k: nat) returns (k': nat)
    requires Lawful(c) && !f.waitForPong && InPlace(c, p, fs, k) && Missing(p) == 0
    ensures var s := ProcessControlFrames(c, f, p.wire);
            s.result.Ok? ==>
              forall rd: Reader | rd.payloadLen == s.result.value.payloadLen && rd.masker == FreshMasker(s.result.value) ::
                var q := Place(Some(rd), s.wire);
                Carried(c, fs, p, k, [], q, k') && Delivers(c, fs, p, k, [], q, k')
  {
    hide ProcessControlFrames, EncodeAll, ApplyKey, DataPayloads, Accountable;
    k' := k;
    if p.reader.Some? {
      NothingRemains(fs[k - 1]);
    }
    assert p.wire.input == EncodeAll(c, fs[k..]);
    var j := ControlFramesInSync(c, f, p.wire, fs[k..]);
    var s := ProcessControlFrames(c, f, p.wire);
    if s.result.Ok? {
      k' := k + j + 1;
      NothingRemains(fs[k + j]);
      assert fs[k..][j] == fs[k + j] && fs[k..][j + 1..] == fs[k'..] && fs[k..][..j + 1] == fs[k..k'];
      assert Unread(p, fs, k) == [];
      forall rd: Reader | rd.payloadLen == s.result.value.payloadLen && rd.masker == FreshMasker(s.result.value)
        ensures var q := Place(Some(rd), s.wire);
                Carried(c, fs, p, k, [], q, k') && Delivers(c, fs, p, k, [], q, k')
      {
        var q := Place(Some(rd), s.wire);
        assert Unread(q, fs, k') == fs[k + j].payload;
      }
    }
  }

  // ---- One read ----

  lemma {:induction false} RemainderShrinks(c: Codec, p: Place, fs: seq<Frame>, k: nat, n: nat)
    requires InPlace(c, p, fs, k) && p.reader.Some? && n <= p.reader.value.payloadLen
    ensures var input, m := p.wire.input, p.reader.value.payloadLen;
            && n <= |input| && input[n..] == Remainder(fs[k - 1], m - n) + EncodeAll(c, fs[k..])
            && input[..n] == Remainder(fs[k - 1], m)[..n]
  {
    hide ApplyKey, EncodeAll;
    var body := Remainder(fs[k - 1], p.reader.value.payloadLen);
    assert body[n..] == Remainder(fs[k - 1], p.reader.value.payloadLen - n);
    assert p.wire.input[n..] == body[n..] + EncodeAll(c, fs[k..]);
  }

  // A piece of a frame's payload on the wire, unmasked from where it stands.
  lemma {:induction false} PieceInTheClear(f: Frame, masker: Option<Phase>, missing: nat, n: nat)
    requires n <= missing <= |f.payload|
    requires match f.maskKey
             case None => masker.None?
             case Some(key) =>
               masker.Some? && masker.value.key == key && masker.value.offset % 4 == (|f.payload| - missing) % 4
    ensures Unmask(masker, Remainder(f, missing)[..n]) == f.payload[|f.payload| - missing..][..n]
  {
    hide Masked;
    if f.maskKey.Some? {
      var key, at := f.maskKey.value, |f.payload| - missing;
      MaskedSplit(key, 0, f.payload, at);
      assert Remainder(f, missing) == Masked(key, at, f.payload[at..]);
      MaskedSplit(key, at, f.payload[at..], n);
      assert Remainder(f, missing)[..n] == Masked(key, at, f.payload[at..][..n]);
      MaskedAnyPhase(key, masker.value.offset, at, Masked(key, at, f.payload[at..][..n]));
      MaskedTwice(key, at, f.payload[at..][..n]);
    }
  }

  lemma {:induction false} FrameReadInSync(e: Env, rd: Reader, f: Flags, w: Wire, slot: Slot, fs: seq<Frame>, k: nat)
    requires InPlace(e.codec, Place(Some(rd), w), fs, k) && slot.len > 0 && rd.payloadLen > 0
    ensures var c := ReceiveFramePayload(e, rd, f, w, slot);
            var p, q := Place(Some(rd), w), Place(Some(c.reader), c.wire);
            c.result.Ok? ==>
              && Carried(e.codec, fs, p, k, c.data, q, k)
              && (InPhase(e, rd) && TidyChunk(e, c.reader, c.result.value) ==>
                    InPhase(e, c.reader) && (InStep(p, fs, k) ==> Delivers(e.codec, fs, p, k, c.data, q, k)))
  {
    hide ReceiveFramePayload, Consume, EncodeAll, Remainder, ReadSome, Unmask, InPhase, TidyChunk;
    FrameRead(e, rd, f, w, slot);
    var io := ReadSome(Min(slot.len, rd.payloadLen), w);
    var c := ReceiveFramePayload(e, rd, f, w, slot);
    var p, q := Place(Some(rd), w), Place(Some(c.reader), c.wire);
    assert fs[k..k] == [];
    if c.result.Ok? {
      var bytes := io.result.value;
      ReadFromFront(Min(slot.len, rd.payloadLen), w);
      RemainderShrinks(e.codec, p, fs, k, |bytes|);
      if bytes != [] {
        ConsumedLength(e, rd, slot.cut, bytes);
        if InPhase(e, rd) && TidyChunk(e, c.reader, |bytes|) {
          ConsumeInPhase(e, rd, slot.cut, bytes);
          if InStep(p, fs, k) {
            PieceInTheClear(fs[k - 1], rd.masker, rd.payloadLen, |bytes|);
            StepForward(e.codec, rd, w, c.reader, c.wire, fs, k, |bytes|, c.data);
          }
        }
      }
    }
  }

  lemma {:induction false} ReadFromFront(want: nat, w: Wire)
    ensures var io := ReadSome(want, w);
            && io.wire.log == w.log
            && (io.result.Ok? ==>
                  var n := |io.result.value|;
                  n <= |w.input| && io.result.value == w.input[..n] && io.wire.input == w.input[n..])
  {
  }

  lemma {:induction false} ConsumedLength(e: Env, rd: Reader, cut: Cut, bytes: seq<Byte>)
    requires |bytes| <= rd.payloadLen
    ensures var (data, rest) := Consume(e, rd, cut, bytes);
            |data| == |bytes| && rest.payloadLen == rd.payloadLen - |bytes|
  {
  }

  // The clear bytes taken, and the masker a little further on.
  lemma {:induction false} StepForward(c: Codec, rd: Reader, w: Wire, rest: Reader, w': Wire, fs: seq<Frame>, k: nat,
                                       n: nat, data: seq<Byte>)
    requires InPlace(c, Place(Some(rd), w), fs, k) && InStep(Place(Some(rd), w), fs, k)
    requires InPlace(c, Place(Some(rest), w'), fs, k) && Advanced(rd, n, rest)
    requires data == fs[k - 1].payload[|fs[k - 1].payload| - rd.payloadLen..][..n]
    ensures Delivers(c, fs, Place(Some(rd), w), k, data, Place(Some(rest), w'), k)
  {
    hide InPlace, DataPayloads, InStep, Advanced, Unread;
    PlaceInRange(c, fs, Place(Some(rd), w), k);
    PlaceInRange(c, fs, Place(Some(rest), w'), k);
    NoDataPayloads(fs[k..k]);
    assert rest.payloadLen == rd.payloadLen - n && n <= rd.payloadLen by { AdvancedLength(rd, n, rest); }
    PieceByPiece(fs[k - 1].payload, rd.payloadLen, n, data);
    MaskerForward(rd, w, rest, w', fs, k, n);
    UnreadOfFrame(rd, w, fs, k);
    UnreadOfFrame(rest, w', fs, k);
  }

  lemma {:induction false} UnreadOfFrame(rd: Reader, w: Wire, fs: seq<Frame>, k: nat)
    requires 0 < k <= |fs| && rd.payloadLen <= |fs[k - 1].payload|
    ensures Unread(Place(Some(rd), w), fs, k) == fs[k - 1].payload[|fs[k - 1].payload| - rd.payloadLen..]
  {
  }

  lemma {:induction false} AdvancedLength(rd: Reader, n: nat, rest: Reader)
    requires Advanced(rd, n, rest)
    ensures n <= rd.payloadLen && rest.payloadLen == rd.payloadLen - n
  {
  }

  lemma {:induction false} MaskerForward(rd: Reader, w: Wire, rest: Reader, w': Wire, fs: seq<Frame>, k: nat, n: nat)
    requires 0 < k <= |fs| && rd.payloadLen <= |fs[k - 1].payload| && Advanced(rd, n, rest)
    requires InStep(Place(Some(rd), w), fs, k)
    ensures InStep(Place(Some(rest), w'), fs, k)
  {
    var missing := |fs[k - 1].payload| - rd.payloadLen;
    if rd.masker.Some? && n < rd.payloadLen {
      SamePhase(rd.masker.value.offset, missing, n);
      assert missing + n == |fs[k - 1].payload| - rest.payloadLen;
    }
  }

  lemma {:induction false} NoDataPayloads(fs: seq<Frame>)
    requires fs == []
    ensures DataPayloads(fs) == []
  {
  }

  lemma {:induction false} PieceByPiece(clear: seq<Byte>, missing: nat, n: nat, data: seq<Byte>)
    requires n <= missing <= |clear| && data == clear[|clear| - missing..][..n]
    ensures data + clear[|clear| - (missing - n)..] == clear[|clear| - missing..] + []
  {
  }

  lemma {:induction false} PayloadReadInSync(e: Env, rd: Reader, f: Flags, w: Wire, slot: Slot, fs: seq<Frame>, k: nat)
    returns (k': nat)
    requires Lawful(e.codec) && !f.waitForPong && InPlace(e.codec, Place(Some(rd), w), fs, k)
    ensures var c := ReceiveFramePayload(e, rd, f, w, slot);
            var p, q := Place(Some(rd), w), Place(Some(c.reader), c.wire);
            c.result.Ok? ==>
              && Carried(e.codec, fs, p, k, c.data, q, k')
              && (InPhase(e, rd) && TidyChunk(e, c.reader, c.result.value) ==>
                    InPhase(e, c.reader) && (InStep(p, fs, k) ==> Delivers(e.codec, fs, p, k, c.data, q, k')))
    decreases |w.input|
  {
    hide ProcessControlFrames, Consume, ReadSome, InPlace, Carried, Delivers, InStep;
    k' := k;
    var c := ReceiveFramePayload(e, rd, f, w, slot);
    var p := Place(Some(rd), w);
    NothingCarried(e.codec, fs, p, k);
    if slot.len > 0 && rd.payloadLen > 0 {
      FrameReadInSync(e, rd, f, w, slot, fs, k);
    } else if slot.len > 0 && !rd.isFinal {
      ControlFramesKeepNoPong(e.codec, f, w);
      var k1 := FrameStarted(e.codec, f, p, fs, k);
      var s := ProcessControlFrames(e.codec, f, w);
      if s.result.Ok? && s.result.value.frameType.Continue? {
        var next := NextFragment(rd, s.result.value);
        var at := Place(Some(next), s.wire);
        assert Carried(e.codec, fs, p, k, [], at, k1);
        CarriedInPlace(e.codec, fs, p, k, [], at, k1);
        k' := PayloadReadInSync(e, next, s.flags, s.wire, slot, fs, k1);
        if c.result.Ok? {
          CarriedThrough(e.codec, fs, p, k, [], at, k1, c.data, Place(Some(c.reader), c.wire), k');
          assert [] + c.data == c.data;
        }
      }
    }
  }

  lemma {:induction false} NothingCarried(c: Codec, fs: seq<Frame>, p: Place, k: nat)
    requires InPlace(c, p, fs, k)
    ensures Carried(c, fs, p, k, [], p, k) && (InStep(p, fs, k) ==> Delivers(c, fs, p, k, [], p, k))
  {
    hide Accountable, Unread, EncodeAll;
    assert fs[k..k] == [];
    var unread := Unread(p, fs, k);
    assert [] + unread == unread + [];
  }

  lemma {:induction false} CarriedInPlace(c: Codec, fs: seq<Frame>, p: Place, k: nat, data: seq<Byte>, q: Place, k': nat)
    requires InPlace(c, p, fs, k) && Carried(c, fs, p, k, data, q, k')
    ensures k <= k' && InPlace(c, q, fs, k')
    ensures Delivers(c, fs, p, k, data, q, k') ==> InStep(q, fs, k')
  {
    hide InPlace;
  }

  // ---- One user operation ----

  predicate SessionInPhase(e: Env, s: Session) {
    s.reader.Some? ==> InPhase(e, s.reader.value)
  }

  // An operation's read, if it is one that leaves bytes of its frame unread, takes a multiple of four.
  predicate TidyOp(e: Env, s: Session, op: Op) {
    op.DoRead? ==>
      var r := Read(e, s, op.slot);
      r.result.Ok? && r.session.reader.Some? ==> TidyChunk(e, r.session.reader.value, r.result.value)
  }

  lemma {:induction false} NextMessageInSync(e: Env, s: Session, fs: seq<Frame>, k: nat) returns (k': nat)
    requires Lawful(e.codec) && InSync(e.codec, s, fs, k) && s.reader.None?
    ensures var next := NextMessage(e, s);
            next.result.Ok? ==>
              && InSync(e.codec, next.session, fs, k') && SessionInPhase(e, next.session)
              && Carried(e.codec, fs, PlaceOf(s), k, [], PlaceOf(next.session), k')
              && Delivers(e.codec, fs, PlaceOf(s), k, [], PlaceOf(next.session), k')
  {
    hide ProcessControlFrames, InPlace, Carried, Delivers;
    ControlFramesKeepNoPong(e.codec, s.flags, s.wire);
    k' := FrameStarted(e.codec, s.flags, PlaceOf(s), fs, k);
    var next := NextMessage(e, s);
    if next.result.Ok? {
      var rd := next.result.value;
      assert PlaceOf(next.session) == Place(Some(rd), ProcessControlFrames(e.codec, s.flags, s.wire).wire);
      assert Carried(e.codec, fs, PlaceOf(s), k, [], PlaceOf(next.session), k');
      CarriedInPlace(e.codec, fs, PlaceOf(s), k, [], PlaceOf(next.session), k');
    }
  }

  // With its frame finished a reader may be dropped.
  lemma {:induction false} ReaderDropped(c: Codec, fs: seq<Frame>, p: Place, k: nat, data: seq<Byte>, rd: Reader, w: Wire,
                                         k': nat)
    requires InPlace(c, p, fs, k) && Carried(c, fs, p, k, data, Place(Some(rd), w), k') && rd.payloadLen == 0
    ensures Carried(c, fs, p, k, data, Place(None, w), k')
    ensures Delivers(c, fs, p, k, data, Place(Some(rd), w), k') ==> Delivers(c, fs, p, k, data, Place(None, w), k')
  {
    hide Accountable, EncodeAll, DataPayloads;
    NothingRemains(fs[k' - 1]);
    assert [] + EncodeAll(c, fs[k'..]) == EncodeAll(c, fs[k'..]);
    assert Unread(Place(Some(rd), w), fs, k') == [] == Unread(Place(None, w), fs, k');
  }

  lemma {:induction false} ReadInSync(e: Env, s: Session, slot: Slot, fs: seq<Frame>, k: nat) returns (k': nat)
    requires Lawful(e.codec) && InSync(e.codec, s, fs, k)
    ensures var r := Read(e, s, slot);
            r.result.Ok? ==>
              && InSync(e.codec, r.session, fs, k')
              && Carried(e.codec, fs, PlaceOf(s), k, r.data, PlaceOf(r.session), k')
              && (SessionInPhase(e, s) && TidyOp(e, s, DoRead(slot)) ==>
                    && SessionInPhase(e, r.session)
                    && (InStep(PlaceOf(s), fs, k) ==>
                          Delivers(e.codec, fs, PlaceOf(s), k, r.data, PlaceOf(r.session), k')))
  {
    hide NextMessage, ReceiveFramePayload, InPlace, Carried, Delivers, InStep, InPhase, TidyChunk;
    k' := k;
    if s.state == SocketState.Ready {
      var at := s;
      NothingCarried(e.codec, fs, PlaceOf(s), k);
      if s.reader.None? {
        k' := NextMessageInSync(e, s, fs, k);
        at := NextMessage(e, s).session;
      }
      if s.reader.Some? || NextMessage(e, s).result.Ok? {
        var k1 := k';
        var rd := at.reader.value;
        var c := ReceiveFramePayload(e, rd, at.flags, at.wire, slot);
        PayloadReadKeepsNoPong(e, rd, at.flags, at.wire, slot);
        k' := PayloadReadInSync(e, rd, at.flags, at.wire, slot, fs, k1);
        if c.result.Ok? {
          var q := Place(Some(c.reader), c.wire);
          var r := Read(e, s, slot);
          CarriedThrough(e.codec, fs, PlaceOf(s), k, [], PlaceOf(at), k1, c.data, q, k');
          assert [] + c.data == c.data;
          CarriedInPlace(e.codec, fs, PlaceOf(s), k, [], PlaceOf(at), k1);
          CarriedInPlace(e.codec, fs, PlaceOf(s), k, c.data, q, k');
          if IsFinished(c.reader) {
            FinishedIsInPhase(e, c.reader, c.result.value);
            ReaderDropped(e.codec, fs, PlaceOf(s), k, c.data, c.reader, c.wire, k');
            CarriedInPlace(e.codec, fs, PlaceOf(s), k, c.data, Place(None, c.wire), k');
          }
        }
      }
    }
  }

  lemma {:induction false} FinishedIsInPhase(e: Env, rd: Reader, n: nat)
    requires IsFinished(rd)
    ensures InPhase(e, rd) && TidyChunk(e, rd, n)
  {
  }
}
