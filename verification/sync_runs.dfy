// The read position over whole runs, failing operations included: exactly when one of them loses it, and what
// holds of every run in which none does.
module SyncRuns {
  import opened Prelude
  import opened Masker
  import opened Frames
  import opened Wires
  import opened FrameProtocol
  import opened Sessions
  import opened Runs
  import opened Reading
  import opened Messages
  import opened Reassembly
  import opened Rejections
  import opened Conformance
  import opened WireSync

  // ---- What control frame processing takes ----

  lemma {:induction false} HistoryJoins(c: Codec, a: seq<Item>, b: seq<Item>)
    ensures HistoryBytes(c, a + b) == HistoryBytes(c, a) + HistoryBytes(c, b)
    decreases |b|
  {
    if b == [] {
      assert a + b == a;
    } else {
      var before, last := b[..|b| - 1], b[|b| - 1];
      HistoryJoins(c, a, before);
      assert b == before + [last] && a + b == (a + before) + [last];
      HistoryGrows(c, a + before, last);
      HistoryGrows(c, before, last);
    }
  }

  lemma {:induction false} FewItems(c: Codec, h: FrameHeader, p: seq<Byte>, g: FrameHeader)
    ensures HistoryBytes(c, [Received(h)]) == |c.encode(h)|
    ensures HistoryBytes(c, [Received(h), ReceivedPayload(p), Sent(g), SentPayload(p)]) == |c.encode(h)| + |p|
  {
    HistoryGrows(c, [], Received(h));
    HistoryGrows(c, [Received(h)], ReceivedPayload(p));
    HistoryGrows(c, [Received(h), ReceivedPayload(p)], Sent(g));
    HistoryGrows(c, [Received(h), ReceivedPayload(p), Sent(g)], SentPayload(p));
    assert [] + [Received(h)] == [Received(h)];
    assert [Received(h)] + [ReceivedPayload(p)] == [Received(h), ReceivedPayload(p)];
    assert [Received(h), ReceivedPayload(p)] + [Sent(g)] == [Received(h), ReceivedPayload(p), Sent(g)];
    assert [Received(h), ReceivedPayload(p), Sent(g)] + [SentPayload(p)]
        == [Received(h), ReceivedPayload(p), Sent(g), SentPayload(p)];
  }

  // Pings account for all their bytes and carry nothing for the user.
  lemma {:induction false} PingsAccount(c: Codec, pings: seq<Frame>)
    requires forall i :: 0 <= i < |pings| ==> ValidPing(pings[i])
    ensures HistoryBytes(c, History(pings)) == |EncodeAll(c, pings)| && DataPayloads(pings) == []
    decreases |pings|
  {
    hide HistoryBytes, ApplyKey;
    if pings == [] {
      NothingAccounts(c);
    } else {
      var f := pings[0];
      PingsAccount(c, pings[1..]);
      HistoryJoins(c, Handled(f), History(pings[1..]));
      FewItems(c, HeaderOf(f), f.payload, FrameHeader(FrameType.Pong, |f.payload|, None));
    }
  }

  lemma {:induction false} NothingAccounts(c: Codec)
    ensures HistoryBytes(c, []) == 0
  {
  }

  // The last frame met accounts for what is gone of it.
  lemma {:induction false} LastAccounts(c: Codec, waiting: bool, g: Frame)
    ensures HistoryBytes(c, LastItems(waiting, g)) + |LeftOver(waiting, g)| == |Encode(c, g)|
  {
    hide HistoryBytes;
    FewItems(c, HeaderOf(g), g.payload, FrameHeader(FrameType.Close, |g.payload|, None));
  }

  lemma {:induction false} EncodedLength(c: Codec, fs: seq<Frame>, j: nat)
    requires j < |fs|
    ensures |EncodeAll(c, fs)| == |EncodeAll(c, fs[..j])| + |Encode(c, fs[j])| + |EncodeAll(c, fs[j + 1..])|
    decreases j
  {
    hide Encode;
    if j == 0 {
      assert fs[..0] == [];
    } else {
      EncodedLength(c, fs[1..], j - 1);
      assert fs[..j][1..] == fs[1..][..j - 1] && fs[1..][j..] == fs[j + 1..];
    }
  }

  // What is taken up to the word at j, and of it, is accounted for.
  lemma {:induction false} MeetingAccounts(c: Codec, w: Wire, w': Wire, fs: seq<Frame>, j: nat, waiting: bool)
    requires j < |fs| && w.input == EncodeAll(c, fs) && forall i :: 0 <= i < j ==> ValidPing(fs[i])
    requires |w'.input| == |LeftOver(waiting, fs[j])| + |EncodeAll(c, fs[j + 1..])|
    requires w'.log == w.log + (History(fs[..j]) + LastItems(waiting, fs[j]))
    ensures Accountable(c, w') == Accountable(c, w)
  {
    hide EncodeAll, Encode, History, HistoryBytes, LeftOver, LastItems, DataPayloads, ValidPing;
    PingsAccount(c, fs[..j]);
    LastAccounts(c, waiting, fs[j]);
    HistoryJoins(c, w.log, History(fs[..j]) + LastItems(waiting, fs[j]));
    HistoryJoins(c, History(fs[..j]), LastItems(waiting, fs[j]));
    EncodedLength(c, fs, j);
  }

  // At the end of the stream everything is.
  lemma {:induction false} RunningOutAccounts(c: Codec, w: Wire, w': Wire, fs: seq<Frame>)
    requires w.input == EncodeAll(c, fs) && forall i :: 0 <= i < |fs| ==> ValidPing(fs[i])
    requires w'.input == [] && w'.log == w.log + (History(fs) + [ReadFailed])
    ensures Accountable(c, w') == Accountable(c, w)
  {
    hide EncodeAll, History, HistoryBytes, DataPayloads, ValidPing;
    PingsAccount(c, fs);
    HistoryJoins(c, w.log, History(fs) + [ReadFailed]);
    HistoryGrows(c, History(fs), ReadFailed);
  }

  // Whole frames under a schedule without errors: the verdict is that on the first frame that is no valid
  // Ping, everything before it is taken and accounted for, and of it what `LeftOver` does not say.
  lemma {:induction false} WordMetInSync(c: Codec, fl: Flags, w: Wire, fs: seq<Frame>)
    requires Lawful(c) && Benign(w) && w.input == EncodeAll(c, fs) && !fl.waitForPong
    ensures var r := ProcessControlFrames(c, fl, w);
            var j := Leading(fs);
            && Benign(r.wire) && !r.flags.waitForPong && DataPayloads(fs[..j]) == []
            && Accountable(c, r.wire) == Accountable(c, w)
            && (if j < |fs| then
                  && r.result == Verdict(fs[j]) && (r.result.Ok? ==> r.flags == fl)
                  && r.wire.input == LeftOver(fl.waitForClose, fs[j]) + EncodeAll(c, fs[j + 1..])
                else r.result == Err(FrameReadError.InvalidFrame) && r.wire.input == [])
  {
    hide ProcessControlFrames, EncodeAll, History, Accountable, LeftOver, LastItems, Leading, DataPayloads, ValidPing;
    var r, j := ProcessControlFrames(c, fl, w), Leading(fs);
    assert EncodeAll(c, fs) + [] == EncodeAll(c, fs);
    LeadingPings(fs);
    FirstWordIsMetAnyhow(c, fl, w, fs, []);
    PingsAccount(c, fs[..j]);
    if j < |fs| {
      var behind := EncodeAll(c, fs[j + 1..]);
      assert behind + [] == behind;
      MeetingAccounts(c, w, r.wire, fs, j, fl.waitForClose);
    } else {
      RunningOutAccounts(c, w, r.wire, fs);
    }
  }

  // ---- How a failing operation leaves the read position ----

  // The unread input starts with the payload of frame k - 1, which no reader is there for.
  ghost predicate Stranded(c: Codec, p: Place, fs: seq<Frame>, k: nat, g: Frame) {
    && 0 < k <= |fs| && fs[k - 1] == g && Missing(p) == 0
    && p.wire.input == ApplyKey(g.maskKey, g.payload) + EncodeAll(c, fs[k..])
  }

  // From p to q nothing was delivered, and no frame but `rejected` was left without its payload.
  ghost predicate Ends(c: Codec, fs: seq<Frame>, p: Place, k: nat, rejected: Option<Frame>, q: Place, k': nat)
    requires InPlace(c, p, fs, k)
  {
    && (rejected.Some? ==> Stranded(c, q, fs, k', rejected.value))
    && (rejected.None? || rejected.value.payload == [] ==>
          Carried(c, fs, p, k, [], q, k') && (InStep(p, fs, k) ==> Delivers(c, fs, p, k, [], q, k')))
  }

  // With nothing missing on either side and nothing carried between them.
  lemma {:induction false} BoundaryReached(c: Codec, fs: seq<Frame>, p: Place, k: nat, q: Place, k': nat)
    requires InPlace(c, p, fs, k) && k <= k' <= |fs| && Missing(p) == Missing(q) == 0
    requires q.reader.Some? ==> 0 < k'
    requires q.wire.input == EncodeAll(c, fs[k'..]) && DataPayloads(fs[k..k']) == []
    requires Accountable(c, q.wire) == Accountable(c, p.wire)
    ensures Carried(c, fs, p, k, [], q, k') && Delivers(c, fs, p, k, [], q, k')
  {
    hide EncodeAll, Accountable, DataPayloads, Remainder;
    if q.reader.Some? {
      NothingRemains(fs[k' - 1]);
      assert [] + EncodeAll(c, fs[k'..]) == EncodeAll(c, fs[k'..]);
    }
    assert Unread(p, fs, k) == [] == Unread(q, fs, k');
  }

  // Between frames the input is whole frames.
  lemma {:induction false} BetweenFrames(c: Codec, p: Place, fs: seq<Frame>, k: nat)
    requires InPlace(c, p, fs, k) && Missing(p) == 0
    ensures p.wire.input == EncodeAll(c, fs[k..])
  {
    hide EncodeAll, Remainder;
    if p.reader.Some? {
      NothingRemains(fs[k - 1]);
    }
  }

  // Processing that stops at the next word, or runs into the end of the stream, with no reader for it.
  lemma {:induction false} StopsAtWord(c: Codec, fl: Flags, w: Wire, p: Place, fs: seq<Frame>, k: nat, q: Place)
    returns (k': nat)
    requires Lawful(c) && Benign(w) && !fl.waitForPong && InPlace(c, p, fs, k) && Missing(p) == Missing(q) == 0
    requires w.input == p.wire.input && Accountable(c, w) == Accountable(c, p.wire)
    requires q.wire == ProcessControlFrames(c, fl, w).wire && (q.reader.Some? ==> p.reader.Some?)
    ensures var more := fs[k..];
            var j := Leading(more);
            Ends(c, fs, p, k, if j == |more| || Answered(fl.waitForClose, more[j]) then None else Some(more[j]), q, k')
  {
    hide ProcessControlFrames, EncodeAll, Accountable, Answered, Leading, Carried, Delivers, DataPayloads, Benign;
    BetweenFrames(c, p, fs, k);
    PlaceInRange(c, fs, p, k);
    var more := fs[k..];
    var j := Leading(more);
    WordMetInSync(c, fl, w, more);
    LeadingPings(more);
    if j == |more| {
      k' := |fs|;
      assert fs[k..k'] == more[..j] && fs[k'..] == [] && EncodeAll(c, []) == [] by { NothingEncoded(c); }
      BoundaryReached(c, fs, p, k, q, k');
    } else {
      k' := k + j + 1;
      var g := more[j];
      assert more[j + 1..] == fs[k'..] && fs[k..k'] == more[..j] + [g];
      DataPayloadsJoin(more[..j], [g]);
      OnlyPayload(g);
      if Answered(fl.waitForClose, g) || g.payload == [] {
        assert LeftOver(fl.waitForClose, g) == [] && DataPayloads(fs[k..k']) == [] by { NothingLeftOver(fl.waitForClose, g); }
        assert [] + EncodeAll(c, fs[k'..]) == EncodeAll(c, fs[k'..]);
        BoundaryReached(c, fs, p, k, q, k');
      }
      if !Answered(fl.waitForClose, g) {
        assert LeftOver(fl.waitForClose, g) == ApplyKey(g.maskKey, g.payload);
      }
    }
  }

  lemma {:induction false} NothingEncoded(c: Codec)
    ensures EncodeAll(c, []) == []
  {
  }

  lemma {:induction false} OnlyPayload(g: Frame)
    ensures DataPayloads([g]) == if IsControl(g.frameType) then [] else g.payload
  {
    assert [g][1..] == [] && g.payload + [] == g.payload;
  }

  lemma {:induction false} NothingLeftOver(waiting: bool, g: Frame)
    ensures Answered(waiting, g) || g.payload == [] ==>
              LeftOver(waiting, g) == [] && (IsControl(g.frameType) || g.payload == [])
  {
    assert |ApplyKey(g.maskKey, g.payload)| == |g.payload|;
  }

  // A data frame whose header was met, with a reader for it in place.
  lemma {:induction false} ReaderInPlace(c: Codec, fs: seq<Frame>, p: Place, k: nat, rd: Reader, w: Wire, k': nat)
    requires InPlace(c, p, fs, k) && Missing(p) == 0 && k < k' <= |fs|
    requires rd.payloadLen == |fs[k' - 1].payload| && rd.masker == FreshMasker(HeaderOf(fs[k' - 1]))
    requires w.input == ApplyKey(fs[k' - 1].maskKey, fs[k' - 1].payload) + EncodeAll(c, fs[k'..])
    requires DataPayloads(fs[k..k']) == fs[k' - 1].payload && Accountable(c, w) == Accountable(c, p.wire)
    ensures InPlace(c, Place(Some(rd), w), fs, k')
    ensures Carried(c, fs, p, k, [], Place(Some(rd), w), k')
    ensures Delivers(c, fs, p, k, [], Place(Some(rd), w), k')
  {
    hide EncodeAll, Accountable, DataPayloads, ApplyKey, Remainder, HistoryBytes;
    var g := fs[k' - 1];
    NothingRemains(g);
    assert [] + g.payload == g.payload;
    PlaceInRange(c, fs, p, k);
    UnreadOfFrame(rd, w, fs, k');
    assert g.payload[|g.payload| - rd.payloadLen..] == g.payload;
    assert Unread(p, fs, k) == [];
  }

  // Such a place is reached by processing control frames.
  lemma {:induction false} FragmentReached(c: Codec, fl: Flags, p: Place, fs: seq<Frame>, k: nat, rd: Reader, k': nat)
    requires Lawful(c) && Benign(p.wire) && !fl.waitForPong && InPlace(c, p, fs, k) && Missing(p) == 0
    requires k <= |fs| && k' == k + Leading(fs[k..]) + 1 <= |fs| && !IsControl(fs[k' - 1].frameType)
    requires rd.payloadLen == |fs[k' - 1].payload| && rd.masker == FreshMasker(HeaderOf(fs[k' - 1]))
    ensures var q := Place(Some(rd), ProcessControlFrames(c, fl, p.wire).wire);
            InPlace(c, q, fs, k') && Carried(c, fs, p, k, [], q, k') && Delivers(c, fs, p, k, [], q, k')
  {
    hide ProcessControlFrames, EncodeAll, Accountable, Leading, DataPayloads, Benign, ApplyKey, InPlace, Missing, Carried,
         Delivers;
    BetweenFrames(c, p, fs, k);
    var more := fs[k..];
    var j := Leading(more);
    var g := more[j];
    WordMetInSync(c, fl, p.wire, more);
    assert more[j + 1..] == fs[k'..] && fs[k..k'] == more[..j] + [g] && fs[k' - 1] == g;
    DataPayloadsJoin(more[..j], [g]);
    OnlyPayload(g);
    assert [] + g.payload == g.payload;
    ReaderInPlace(c, fs, p, k, rd, ProcessControlFrames(c, fl, p.wire).wire, k');
  }

  lemma {:induction false} EndsThrough(c: Codec, fs: seq<Frame>, p: Place, k: nat, at: Place, k1: nat,
                                       rejected: Option<Frame>, q: Place, k': nat)
    requires InPlace(c, p, fs, k) && Carried(c, fs, p, k, [], at, k1) && Delivers(c, fs, p, k, [], at, k1)
    requires Ends(c, fs, at, k1, rejected, q, k')
    ensures Ends(c, fs, p, k, rejected, q, k')
  {
    hide InPlace, Carried, Delivers, Stranded, InStep;
    CarriedInPlace(c, fs, p, k, [], at, k1);
    if rejected.None? || rejected.value.payload == [] {
      CarriedThrough(c, fs, p, k, [], at, k1, [], q, k');
      var nothing: seq<Byte> := [];
      assert nothing + [] == nothing;
    }
  }

  // ---- Waits and reads ----

  lemma {:induction false} PayloadReadEnds(e: Env, rd: Reader, f: Flags, w: Wire, slot: Slot, fs: seq<Frame>, k: nat)
    returns (k': nat)
    requires Lawful(e.codec) && Benign(w) && !f.waitForPong && InPlace(e.codec, Place(Some(rd), w), fs, k)
    requires slot.len > 0 && rd.payloadLen == 0 && !rd.isFinal
    ensures var c := ReceiveFramePayload(e, rd, f, w, slot);
            var rejected := RejectedInside(f.waitForClose, fs[k..]);
            && (rejected.Some? ==> c.result.Err?)
            && (c.result.Err? ==>
                  && Benign(c.wire) && c.reader.payloadLen == 0 && !c.reader.isFinal
                  && Ends(e.codec, fs, Place(Some(rd), w), k, rejected, Place(Some(c.reader), c.wire), k'))
    decreases |w.input|
  {
    hide ProcessControlFrames, InPlace, Carried, Delivers, Ends, Benign, Leading, EncodeAll, Answered, Consume, ReadSome;
    var p := Place(Some(rd), w);
    PlaceInRange(e.codec, fs, p, k);
    k' := k;
    var more := fs[k..];
    var j := Leading(more);
    BetweenFrames(e.codec, p, fs, k);
    WordMetInSync(e.codec, f, w, more);
    var s := ProcessControlFrames(e.codec, f, w);
    if j < |more| && more[j].frameType.Continue? {
      var next := NextFragment(rd, HeaderOf(more[j]));
      var at := Place(Some(next), s.wire);
      var k1 := k + j + 1;
      FragmentReached(e.codec, f, p, fs, k, next, k1);
      if more[j].payload != [] {
        GrantedRead(e, next, f, s.wire, slot);
      } else if !more[j].frameType.final {
        CarriedInPlace(e.codec, fs, p, k, [], at, k1);
        k' := PayloadReadEnds(e, next, s.flags, s.wire, slot, fs, k1);
        assert more[j + 1..] == fs[k1..];
        var c := ReceiveFramePayload(e, rd, f, w, slot);
        if c.result.Err? {
          EndsThrough(e.codec, fs, p, k, at, k1, RejectedInside(f.waitForClose, fs[k1..]),
                      Place(Some(c.reader), c.wire), k');
        }
      }
    } else {
      k' := StopsAtWord(e.codec, f, w, p, fs, k, Place(Some(rd), s.wire));
    }
  }

  lemma {:induction false} GrantedRead(e: Env, rd: Reader, f: Flags, w: Wire, slot: Slot)
    requires Benign(w) && rd.payloadLen > 0
    ensures ReceiveFramePayload(e, rd, f, w, slot).result.Ok?
  {
    hide Consume;
    if slot.len > 0 {
      FrameRead(e, rd, f, w, slot);
    }
  }

  lemma {:induction false} WaitEnds(e: Env, s: Session, fs: seq<Frame>, k: nat) returns (k': nat)
    requires Lawful(e.codec) && Benign(s.wire) && InSync(e.codec, s, fs, k) && s.reader.None?
    ensures var next := NextMessage(e, s);
            var rejected := RejectedByWait(s.flags.waitForClose, fs[k..]);
            && !next.session.flags.waitForPong && (rejected.Some? ==> next.result.Err?)
            && (next.result.Err? ==> Ends(e.codec, fs, PlaceOf(s), k, rejected, PlaceOf(next.session), k'))
  {
    hide ProcessControlFrames, InPlace, Ends, Benign, Leading, EncodeAll, Answered;
    PlaceInRange(e.codec, fs, PlaceOf(s), k);
    BetweenFrames(e.codec, PlaceOf(s), fs, k);
    WordMetInSync(e.codec, s.flags, s.wire, fs[k..]);
    k' := StopsAtWord(e.codec, s.flags, s.wire, PlaceOf(s), fs, k,
                      Place(None, ProcessControlFrames(e.codec, s.flags, s.wire).wire));
  }

  // A read that starts a message gets past its first frame only if that one is empty.
  lemma {:induction false} FirstReadEnds(e: Env, s: Session, slot: Slot, fs: seq<Frame>, k: nat) returns (k': nat)
    requires Lawful(e.codec) && Benign(s.wire) && InSync(e.codec, s, fs, k) && s.reader.None? && slot.len > 0
    requires NextMessage(e, s).result.Ok?
    ensures var at := NextMessage(e, s).session;
            var c := ReceiveFramePayload(e, at.reader.value, at.flags, at.wire, slot);
            var rejected := RejectedByRead(s.flags.waitForClose, fs[k..]);
            && (rejected.Some? ==> c.result.Err?)
            && (c.result.Err? ==>
                  Ends(e.codec, fs, PlaceOf(s), k, rejected, Place(Some(c.reader), c.wire), k'))
  {
    hide ProcessControlFrames, ReceiveFramePayload, InPlace, Carried, Delivers, Ends, Benign, Leading, EncodeAll, Answered;
    PlaceInRange(e.codec, fs, PlaceOf(s), k);
    k' := k;
    var more := fs[k..];
    var j := Leading(more);
    BetweenFrames(e.codec, PlaceOf(s), fs, k);
    WordMetInSync(e.codec, s.flags, s.wire, more);
    var at := NextMessage(e, s).session;
    var rd := at.reader.value;
    var k1 := k + j + 1;
    assert j < |more| && (more[j].frameType.Text? || more[j].frameType.Binary?);
    FragmentReached(e.codec, s.flags, PlaceOf(s), fs, k, rd, k1);
    CarriedInPlace(e.codec, fs, PlaceOf(s), k, [], PlaceOf(at), k1);
    var c := ReceiveFramePayload(e, rd, at.flags, at.wire, slot);
    if rd.payloadLen > 0 {
      GrantedRead(e, rd, at.flags, at.wire, slot);
    } else if rd.isFinal {
      FinishedRead(e, rd, at.flags, at.wire, slot);
    } else {
      k' := PayloadReadEnds(e, rd, at.flags, at.wire, slot, fs, k1);
      assert more[j + 1..] == fs[k1..];
      if c.result.Err? {
        EndsThrough(e.codec, fs, PlaceOf(s), k, PlaceOf(at), k1, RejectedInside(s.flags.waitForClose, fs[k1..]),
                    Place(Some(c.reader), c.wire), k');
      }
    }
  }

  lemma {:induction false} ReadEnds(e: Env, s: Session, slot: Slot, fs: seq<Frame>, k: nat) returns (k': nat)
    requires Lawful(e.codec) && Benign(s.wire) && InSync(e.codec, s, fs, k) && s.state == SocketState.Ready
    ensures var r := Read(e, s, slot);
            var rejected := HeaderOnly(s, DoRead(slot), fs[k..]);
            && (rejected.Some? ==> r.result.Err?)
            && (r.result.Err? ==>
                  && !r.session.flags.waitForPong
                  && Ends(e.codec, fs, PlaceOf(s), k, rejected, PlaceOf(r.session), k'))
  {
    hide NextMessage, ReceiveFramePayload, InPlace, Ends, Benign, RejectedByWait, RejectedByRead, RejectedInside;
    k' := k;
    if s.reader.None? {
      k' := WaitEnds(e, s, fs, k);
      var next := NextMessage(e, s);
      if next.result.Ok? {
        var rd := next.session.reader.value;
        PayloadReadKeepsNoPong(e, rd, next.session.flags, next.session.wire, slot);
        if slot.len == 0 {
          FinishedRead(e, rd, next.session.flags, next.session.wire, slot);
        } else {
          k' := FirstReadEnds(e, s, slot, fs, k);
        }
      } else if slot.len > 0 {
        FirstRejection(e, s, fs, k);
      }
    } else {
      var rd := s.reader.value;
      PayloadReadKeepsNoPong(e, rd, s.flags, s.wire, slot);
      if slot.len == 0 || (rd.payloadLen == 0 && rd.isFinal) {
        FinishedRead(e, rd, s.flags, s.wire, slot);
      } else if rd.payloadLen > 0 {
        GrantedRead(e, rd, s.flags, s.wire, slot);
      } else {
        k' := PayloadReadEnds(e, rd, s.flags, s.wire, slot, fs, k);
      }
    }
  }

  // What fails a wait fails a read at the same place.
  lemma {:induction false} FirstRejection(e: Env, s: Session, fs: seq<Frame>, k: nat)
    requires Lawful(e.codec) && Benign(s.wire) && InSync(e.codec, s, fs, k) && s.reader.None?
    requires NextMessage(e, s).result.Err?
    ensures RejectedByRead(s.flags.waitForClose, fs[k..]) == RejectedByWait(s.flags.waitForClose, fs[k..])
  {
    hide ProcessControlFrames, InPlace, Benign, Leading, EncodeAll, Answered;
    PlaceInRange(e.codec, fs, PlaceOf(s), k);
    BetweenFrames(e.codec, PlaceOf(s), fs, k);
    WordMetInSync(e.codec, s.flags, s.wire, fs[k..]);
  }

  // ---- Handshakes ----

  lemma {:induction false} HandshakeEnds(e: Env, s: Session, fs: seq<Frame>, k: nat) returns (k': nat)
    requires Lawful(e.codec) && Benign(s.wire) && InSync(e.codec, s, fs, k) && Missing(PlaceOf(s)) == 0
    ensures var after := CloseHandshake(e, s).session;
            && !after.flags.waitForPong && Benign(after.wire)
            && Ends(e.codec, fs, PlaceOf(s), k, FirstWord(fs[k..]), PlaceOf(after), k')
  {
    hide ProcessControlFrames, InPlace, Ends, Leading, FirstWord, EncodeAll, ValidClose, HistoryBytes;
    var sent := SendClose(s.flags, s.wire, CLOSE_NORMAL);
    CloseSentAccounts(e.codec, s);
    var w := Wires.Flush(sent.wire).wire;
    PlaceInRange(e.codec, fs, PlaceOf(s), k);
    BetweenFrames(e.codec, PlaceOf(s), fs, k);
    WordMetInSync(e.codec, sent.flags, w, fs[k..]);
    LeadingPings(fs[k..]);
    k' := StopsAtWord(e.codec, sent.flags, w, PlaceOf(s), fs, k, PlaceOf(CloseHandshake(e, s).session));
  }

  lemma {:induction false} CloseSentAccounts(c: Codec, s: Session)
    requires Benign(s.wire)
    ensures var sent := SendClose(s.flags, s.wire, CLOSE_NORMAL);
            var flushed := Wires.Flush(sent.wire);
            && sent.result.Ok? && sent.flags == Flags(s.flags.waitForPong, true) && flushed.result.Ok?
            && Benign(flushed.wire) && flushed.wire.input == s.wire.input
            && Accountable(c, flushed.wire) == Accountable(c, s.wire)
  {
    hide Accountable;
    var h := FrameHeader(FrameType.Close, 2, None);
    SendsAccount(c, h, CLOSE_NORMAL, s.wire);
    SendsAccount(c, h, CLOSE_NORMAL, SendHeader(h, s.wire).wire);
    QuietAccounts(c, SendClose(s.flags, s.wire, CLOSE_NORMAL).wire, false);
  }

  lemma {:induction false} CarriedAlike(c: Codec, fs: seq<Frame>, p: Place, k: nat, data: seq<Byte>, q: Place, k': nat,
                                        q': Place)
    requires InPlace(c, p, fs, k) && Carried(c, fs, p, k, data, q, k')
    requires q'.reader == q.reader && q'.wire.input == q.wire.input && Accountable(c, q'.wire) == Accountable(c, q.wire)
    ensures Carried(c, fs, p, k, data, q', k')
    ensures Delivers(c, fs, p, k, data, q, k') ==> Delivers(c, fs, p, k, data, q', k')
  {
    hide Accountable, EncodeAll, Remainder, DataPayloads, InStep, Unread;
    CarriedInPlace(c, fs, p, k, data, q, k');
    PlaceInRange(c, fs, q, k');
    assert InPlace(c, q', fs, k');
    InStepAlike(c, fs, q, k', q');
  }

  lemma {:induction false} InStepAlike(c: Codec, fs: seq<Frame>, q: Place, k: nat, q': Place)
    requires InPlace(c, q, fs, k) && InPlace(c, q', fs, k) && q'.reader == q.reader
    ensures InStep(q, fs, k) == InStep(q', fs, k) && Unread(q, fs, k) == Unread(q', fs, k)
  {
    hide EncodeAll, Remainder;
  }

  lemma {:induction false} EndsAlike(c: Codec, fs: seq<Frame>, p: Place, k: nat, rejected: Option<Frame>, q: Place, k': nat,
                                     q': Place)
    requires InPlace(c, p, fs, k) && Ends(c, fs, p, k, rejected, q, k')
    requires q'.reader == q.reader && q'.wire.input == q.wire.input && Accountable(c, q'.wire) == Accountable(c, q.wire)
    ensures Ends(c, fs, p, k, rejected, q', k')
  {
    hide Accountable, EncodeAll, InPlace, Carried, Delivers, InStep, ApplyKey;
    if rejected.None? || rejected.value.payload == [] {
      CarriedAlike(c, fs, p, k, [], q, k', q');
    }
  }

  lemma {:induction false} CloseEnds(e: Env, s: Session, fs: seq<Frame>, k: nat) returns (k': nat)
    requires Lawful(e.codec) && Benign(s.wire) && InSync(e.codec, s, fs, k) && Missing(PlaceOf(s)) == 0
    requires s.state != Closed
    ensures var after := Sessions.Close(e, s).session;
            && !after.flags.waitForPong
            && Ends(e.codec, fs, PlaceOf(s), k, FirstWord(fs[k..]), PlaceOf(after), k')
  {
    hide CloseHandshake, InPlace, Ends, Accountable;
    PlaceInRange(e.codec, fs, PlaceOf(s), k);
    k' := HandshakeEnds(e, s, fs, k);
    var h := CloseHandshake(e, s);
    QuietAccounts(e.codec, h.session.wire, h.result.Ok?);
    EndsAlike(e.codec, fs, PlaceOf(s), k, FirstWord(fs[k..]), PlaceOf(h.session), k',
              PlaceOf(Sessions.Close(e, s).session));
  }

  // ---- One operation ----

  lemma {:induction false} WriteAccounts(c: Codec, s: Session, buf: Payload)
    ensures var after := Write(s, buf).session;
            && after.flags == s.flags && after.reader == s.reader && after.wire.input == s.wire.input
            && Accountable(c, after.wire) == Accountable(c, s.wire)
  {
    hide Accountable;
    var h := FrameHeader(ToFrameType(s.sendType, false), |buf|, None);
    SendsAccount(c, h, buf, s.wire);
    SendsAccount(c, h, buf, SendHeader(h, s.wire).wire);
  }

  lemma {:induction false} QuietAccounts(c: Codec, w: Wire, graceful: bool)
    ensures Wires.Flush(w).wire.input == w.input && Accountable(c, Wires.Flush(w).wire) == Accountable(c, w)
    ensures Wires.Ready(w).wire.input == w.input && Accountable(c, Wires.Ready(w).wire) == Accountable(c, w)
    ensures Shut(w, graceful).wire.input == w.input && Accountable(c, Shut(w, graceful).wire) == Accountable(c, w)
  {
    hide HistoryBytes;
    HistoryGrows(c, w.log, Flushed);
    HistoryGrows(c, w.log, ShutDown(graceful));
  }

  lemma {:induction false} SameInput(c: Codec, s: Session, t: Session, fs: seq<Frame>, k: nat)
    requires InSync(c, s, fs, k) && t.flags == s.flags && t.reader == s.reader && t.wire.input == s.wire.input
    requires Accountable(c, t.wire) == Accountable(c, s.wire)
    ensures InSync(c, t, fs, k) && Carried(c, fs, PlaceOf(s), k, [], PlaceOf(t), k)
    ensures InStep(PlaceOf(s), fs, k) ==> Delivers(c, fs, PlaceOf(s), k, [], PlaceOf(t), k)
  {
    hide Accountable, EncodeAll, Remainder, Carried, Delivers, InStep;
    assert InPlace(c, PlaceOf(t), fs, k);
    SamePlace(c, fs, PlaceOf(s), PlaceOf(t), k);
  }

  lemma {:induction false} SamePlace(c: Codec, fs: seq<Frame>, p: Place, q: Place, k: nat)
    requires InPlace(c, p, fs, k) && InPlace(c, q, fs, k) && q.reader == p.reader
    requires Accountable(c, q.wire) == Accountable(c, p.wire)
    ensures Carried(c, fs, p, k, [], q, k) && (InStep(p, fs, k) ==> Delivers(c, fs, p, k, [], q, k))
  {
    hide Accountable, InPlace, DataPayloads;
    PlaceInRange(c, fs, p, k);
    PlaceInRange(c, fs, q, k);
    NoDataPayloads(fs[k..k]);
    var unread := Unread(p, fs, k);
    assert [] + unread == unread + [];
  }

  // Operations that read nothing.
  predicate IsBlind(s: Session, op: Op) {
    match op
    case DoWaitMessage => s.state != SocketState.Ready
    case DoRead(_) => s.state != SocketState.Ready
    case DoCloseHandshake => false
    case DoClose => s.state == Closed
    case DoSendPing => false
    case _ => true
  }

  lemma {:induction false} BlindOpInSync(e: Env, s: Session, op: Op, fs: seq<Frame>, k: nat)
    requires InSync(e.codec, s, fs, k) && IsBlind(s, op)
    ensures var after := Apply(e, s, op).session;
            && InSync(e.codec, after, fs, k) && Carried(e.codec, fs, PlaceOf(s), k, [], PlaceOf(after), k)
            && (InStep(PlaceOf(s), fs, k) ==> Delivers(e.codec, fs, PlaceOf(s), k, [], PlaceOf(after), k))
    ensures op.DoRead? ==> Read(e, s, op.slot).data == []
  {
    hide InSync, Carried, Delivers, InStep, Write, Wires.Flush, Wires.Ready, Shut, Accountable;
    QuietAccounts(e.codec, s.wire, false);
    match op {
      case DoWrite(buf) => WriteAccounts(e.codec, s, buf);
      case _ =>
    }
    SameInput(e.codec, s, Apply(e, s, op).session, fs, k);
  }

  // The position is lost for good in the sense that the unread input is no tail of the frames.
  lemma {:induction false} StrandedIsLost(c: Codec, q: Place, fs: seq<Frame>, k: nat, g: Frame, k': nat)
    requires Lawful(c) && Stranded(c, q, fs, k, g) && g.payload != []
    ensures !InPlace(c, q, fs, k')
  {
    hide Encode, EncodeAll, Remainder;
    if InPlace(c, q, fs, k') {
      BetweenFrames(c, q, fs, k');
      if k' < k {
        TailsShrink(c, fs, k', k - 1);
        FirstOfTail(c, fs, k - 1);
      } else {
        TailsShrink(c, fs, k, k');
      }
    }
  }

  lemma {:induction false} TailsShrink(c: Codec, fs: seq<Frame>, i: nat, j: nat)
    requires i <= j <= |fs|
    ensures |EncodeAll(c, fs[j..])| <= |EncodeAll(c, fs[i..])|
    decreases j - i
  {
    hide Encode;
    if i < j {
      TailsShrink(c, fs, i + 1, j);
      assert fs[i..][1..] == fs[i + 1..];
    }
  }

  lemma {:induction false} FirstOfTail(c: Codec, fs: seq<Frame>, i: nat)
    requires Lawful(c) && i < |fs|
    ensures |EncodeAll(c, fs[i..])| > |fs[i].payload| + |EncodeAll(c, fs[i + 1..])|
  {
    assert fs[i..][1..] == fs[i + 1..] && fs[i..][0] == fs[i];
    assert c.parse(c.encode(HeaderOf(fs[i])) + []).Header?;
  }

  // A failing wait or read, or any handshake, on whole frames without I/O errors.
  lemma {:induction false} OpEnds(e: Env, s: Session, op: Op, fs: seq<Frame>, k: nat) returns (k': nat)
    requires Lawful(e.codec) && Benign(s.wire) && InSync(e.codec, s, fs, k) && !IsBlind(s, op) && !op.DoSendPing?
    requires op.DoCloseHandshake? || op.DoClose? ==> Missing(PlaceOf(s)) == 0
    ensures var c := Apply(e, s, op);
            var rejected := HeaderOnly(s, op, fs[k..]);
            if (op.DoWaitMessage? || op.DoRead?) && c.result.Ok? then rejected.None?
            else
              && !c.session.flags.waitForPong
              && Ends(e.codec, fs, PlaceOf(s), k, rejected, PlaceOf(c.session), k')
  {
    hide Read, NextMessage, CloseHandshake, Sessions.Close, InPlace, Ends, Benign, FirstWord, RejectedByWait,
         RejectedByRead, RejectedInside;
    k' := k;
    match op {
      case DoWaitMessage =>
        if s.reader.None? {
          k' := WaitEnds(e, s, fs, k);
        }
      case DoRead(slot) => k' := ReadEnds(e, s, slot, fs, k);
      case DoCloseHandshake => k' := HandshakeEnds(e, s, fs, k);
      case DoClose => k' := CloseEnds(e, s, fs, k);
    }
  }

  // Exactly when an operation loses the read position, on whole frames and without I/O errors: when it takes
  // the header of a frame with a payload and not the payload. What it left is then read as headers.
  lemma {:induction false} SyncKeptExactly(e: Env, s: Session, op: Op, fs: seq<Frame>, k: nat)
    requires Lawful(e.codec) && Benign(s.wire) && InSync(e.codec, s, fs, k) && !op.DoSendPing?
    requires op.DoCloseHandshake? || op.DoClose? ==> s.reader.Some? ==> s.reader.value.payloadLen == 0
    ensures var rejected := HeaderOnly(s, op, fs[k..]);
            (exists k' :: InSync(e.codec, Apply(e, s, op).session, fs, k'))
            <==> rejected.None? || rejected.value.payload == []
  {
    hide Apply, InSync, Carried, Delivers, Stranded, Benign, HeaderOnly, InStep;
    var c := Apply(e, s, op);
    assert k <= |fs| by { SyncInRange(e.codec, s, fs, k); }
    var rejected := HeaderOnly(s, op, fs[k..]);
    if IsBlind(s, op) {
      BlindOpInSync(e, s, op, fs, k);
      BlindRejectsNothing(s, op, fs[k..]);
    } else {
      var k' := OpEnds(e, s, op, fs, k);
      if (op.DoWaitMessage? || op.DoRead?) && c.result.Ok? {
        var k2 := GoodOpInSync(e, s, op, fs, k);
      } else if rejected.None? || rejected.value.payload == [] {
        SyncFromPlace(e.codec, fs, s, k, c.session, k');
      } else {
        forall k2: nat
          ensures !InSync(e.codec, c.session, fs, k2)
        {
          LostFromPlace(e.codec, fs, c.session, k', rejected.value, k2);
        }
      }
    }
  }

  lemma {:induction false} SyncInRange(c: Codec, s: Session, fs: seq<Frame>, k: nat)
    requires InSync(c, s, fs, k)
    ensures k <= |fs|
  {
  }

  lemma {:induction false} BlindRejectsNothing(s: Session, op: Op, fs: seq<Frame>)
    requires IsBlind(s, op)
    ensures HeaderOnly(s, op, fs).None?
  {
  }

  lemma {:induction false} SyncFromPlace(c: Codec, fs: seq<Frame>, s: Session, k: nat, t: Session, k': nat)
    requires InSync(c, s, fs, k) && !t.flags.waitForPong && Carried(c, fs, PlaceOf(s), k, [], PlaceOf(t), k')
    ensures InSync(c, t, fs, k')
  {
    hide InPlace;
  }

  lemma {:induction false} LostFromPlace(c: Codec, fs: seq<Frame>, t: Session, k: nat, g: Frame, k': nat)
    requires Lawful(c) && Stranded(c, PlaceOf(t), fs, k, g) && g.payload != []
    ensures !InSync(c, t, fs, k')
  {
    hide InPlace, Stranded;
    StrandedIsLost(c, PlaceOf(t), fs, k, g, k');
  }

  // A wait or a read that succeeds, whatever the schedule.
  lemma {:induction false} GoodOpInSync(e: Env, s: Session, op: Op, fs: seq<Frame>, k: nat) returns (k': nat)
    requires Lawful(e.codec) && InSync(e.codec, s, fs, k) && s.state == SocketState.Ready
    requires (op.DoWaitMessage? || op.DoRead?) && Apply(e, s, op).result.Ok?
    ensures var after := Apply(e, s, op).session;
            var data := if op.DoRead? then Read(e, s, op.slot).data else [];
            && InSync(e.codec, after, fs, k') && Carried(e.codec, fs, PlaceOf(s), k, data, PlaceOf(after), k')
            && (SessionInPhase(e, s) && TidyOp(e, s, op) && InStep(PlaceOf(s), fs, k) ==>
                  Delivers(e.codec, fs, PlaceOf(s), k, data, PlaceOf(after), k'))
  {
    hide InPlace, Carried, Delivers, InStep, InPhase, TidyChunk, Read, NextMessage;
    k' := k;
    NothingCarried(e.codec, fs, PlaceOf(s), k);
    match op {
      case DoWaitMessage =>
        if s.reader.None? {
          k' := NextMessageInSync(e, s, fs, k);
        }
      case DoRead(slot) => k' := ReadInSync(e, s, slot, fs, k);
    }
  }

  // ---- Whole runs ----

  // Without I/O errors, and beginning between frames if it is a handshake, the operation takes the header alone
  // of no frame that has a payload.
  ghost predicate LeavesNothing(e: Env, s: Session, op: Op, fs: seq<Frame>) {
    && Benign(s.wire)
    && (op.DoCloseHandshake? || op.DoClose? ==> Missing(PlaceOf(s)) == 0)
    && forall k: nat :: InSync(e.codec, s, fs, k) ==>
         var g := HeaderOnly(s, op, fs[k..]);
         g.None? || g.value.payload == []
  }

  // No operation of the run loses the read position: waits and reads succeed, or leave nothing; handshakes
  // leave nothing; writes, flushes, aborts and ready checks may end as they like.
  ghost predicate CleanOp(e: Env, s: Session, op: Op, fs: seq<Frame>) {
    && !op.DoSendPing?
    && (|| IsBlind(s, op)
        || ((op.DoWaitMessage? || op.DoRead?) && Apply(e, s, op).result.Ok?)
        || LeavesNothing(e, s, op, fs))
  }

  ghost predicate CleanRun(e: Env, s: Session, ops: seq<Op>, fs: seq<Frame>)
    decreases |ops|
  {
    ops == [] || (CleanOp(e, s, ops[0], fs) && CleanRun(e, Apply(e, s, ops[0]).session, ops[1..], fs))
  }

  // The masker starts in phase and every read of the run is tidy.
  predicate TidyRun(e: Env, s: Session, ops: seq<Op>)
    decreases |ops|
  {
    e.rule.Additive? ||
    (&& SessionInPhase(e, s)
     && (ops == [] || (TidyOp(e, s, ops[0]) && TidyRun(e, Apply(e, s, ops[0]).session, ops[1..]))))
  }

  // All the bytes the reads of a run hand over.
  function Delivered(e: Env, s: Session, ops: seq<Op>): seq<Byte>
    decreases |ops|
  {
    if ops == [] then []
    else
      (if ops[0].DoRead? then Read(e, s, ops[0].slot).data else [])
      + Delivered(e, Apply(e, s, ops[0]).session, ops[1..])
  }

  lemma {:induction false} OpInSync(e: Env, s: Session, op: Op, fs: seq<Frame>, k: nat) returns (k': nat)
    requires Lawful(e.codec) && InSync(e.codec, s, fs, k) && CleanOp(e, s, op, fs)
    ensures var after := Apply(e, s, op).session;
            var data := if op.DoRead? then Read(e, s, op.slot).data else [];
            && InSync(e.codec, after, fs, k')
            && Carried(e.codec, fs, PlaceOf(s), k, data, PlaceOf(after), k')
            && (SessionInPhase(e, s) && TidyOp(e, s, op) && InStep(PlaceOf(s), fs, k) ==>
                  Delivers(e.codec, fs, PlaceOf(s), k, data, PlaceOf(after), k'))
  {
    hide Apply, InSync, Carried, Delivers, InStep, Stranded, HeaderOnly, SessionInPhase, TidyOp, Read;
    if IsBlind(s, op) {
      k' := k;
      BlindOpInSync(e, s, op, fs, k);
    } else if (op.DoWaitMessage? || op.DoRead?) && Apply(e, s, op).result.Ok? {
      k' := GoodOpInSync(e, s, op, fs, k);
    } else {
      k' := OpEnds(e, s, op, fs, k);
      FailedReadDeliversNothing(e, s, op);
      SyncFromPlace(e.codec, fs, s, k, Apply(e, s, op).session, k');
    }
  }

  lemma {:induction false} FailedReadDeliversNothing(e: Env, s: Session, op: Op)
    requires op.DoRead? ==> Apply(e, s, op).result.Err?
    ensures op.DoRead? ==> Read(e, s, op.slot).data == []
  {
    hide NextMessage, ReceiveFramePayload;
  }

  // After any clean run, whatever the schedule and the buffers, the read position is where the reader believes
  // it is and has only moved forward; the reads delivered as many bytes as the frames started since then carry,
  // but for what was and what is missing of the current one; and the input lost exactly these, the headers, and
  // the answered control payloads. If the reads were tidy, the bytes delivered are those the frames carry.
  lemma {:induction false} RunStaysInSync(e: Env, s: Session, ops: seq<Op>, fs: seq<Frame>, k: nat) returns (k': nat)
    requires Lawful(e.codec) && InSync(e.codec, s, fs, k) && CleanRun(e, s, ops, fs)
    ensures var end, data := Run(e, s, ops), Delivered(e, s, ops);
            && k <= k' && InSync(e.codec, end, fs, k')
            && |data| + Missing(PlaceOf(end)) == Missing(PlaceOf(s)) + |DataPayloads(fs[k..k'])|
            && |s.wire.input| - |end.wire.input|
            == HistoryBytes(e.codec, end.wire.log) - HistoryBytes(e.codec, s.wire.log) + |data|
            && (TidyRun(e, s, ops) && InStep(PlaceOf(s), fs, k) ==>
                  data + Unread(PlaceOf(end), fs, k') == Unread(PlaceOf(s), fs, k) + DataPayloads(fs[k..k']))
  {
    hide InPlace, Run, Delivered, InStep, TidyRun, Unread, Missing, DataPayloads, CleanRun;
    k' := RunCarries(e, s, ops, fs, k);
  }

  lemma {:induction false} RunCarries(e: Env, s: Session, ops: seq<Op>, fs: seq<Frame>, k: nat) returns (k': nat)
    requires Lawful(e.codec) && InSync(e.codec, s, fs, k) && CleanRun(e, s, ops, fs)
    ensures var end, data := Run(e, s, ops), Delivered(e, s, ops);
            && InSync(e.codec, end, fs, k')
            && Carried(e.codec, fs, PlaceOf(s), k, data, PlaceOf(end), k')
            && (TidyRun(e, s, ops) && InStep(PlaceOf(s), fs, k) ==>
                  Delivers(e.codec, fs, PlaceOf(s), k, data, PlaceOf(end), k'))
    decreases |ops|
  {
    hide InPlace, Carried, Delivers, InStep, TidyOp, SessionInPhase, Read, Apply, CleanOp;
    k' := k;
    NothingCarried(e.codec, fs, PlaceOf(s), k);
    if ops != [] {
      var next := Apply(e, s, ops[0]).session;
      var data := if ops[0].DoRead? then Read(e, s, ops[0].slot).data else [];
      var k1 := OpInSync(e, s, ops[0], fs, k);
      k' := RunCarries(e, next, ops[1..], fs, k1);
      var end := Run(e, next, ops[1..]);
      CarriedInPlace(e.codec, fs, PlaceOf(s), k, data, PlaceOf(next), k1);
      CarriedThrough(e.codec, fs, PlaceOf(s), k, data, PlaceOf(next), k1,
                     Delivered(e, next, ops[1..]), PlaceOf(end), k');
      if e.rule.Additive? {
        AlwaysInPhase(e, s, ops[0]);
      }
    }
  }

  lemma {:induction false} AlwaysInPhase(e: Env, s: Session, op: Op)
    requires e.rule.Additive?
    ensures SessionInPhase(e, s) && TidyOp(e, s, op)
  {
    hide Read;
  }

  // The payload of a frame that a read rejects inside a message is read next, as the rest of that message: if it
  // and what is behind it spells a legal tail, the message is completed with that.
  lemma {:induction false} RejectedPayloadContinues(e: Env, s: Session, slot: Slot, fs: seq<Frame>, k: nat) returns (k': nat)
    requires Lawful(e.codec) && Benign(s.wire) && InSync(e.codec, s, fs, k) && s.state == SocketState.Ready && slot.len > 0
    requires s.reader.Some? && s.reader.value.payloadLen == 0 && !s.reader.value.isFinal
    requires RejectedInside(s.flags.waitForClose, fs[k..]).Some?
    ensures var failed := Read(e, s, slot);
            var g := RejectedInside(s.flags.waitForClose, fs[k..]).value;
            && failed.result.Err? && failed.session.state == SocketState.Ready
            && 0 < k' <= |fs| && fs[k' - 1] == g
            && failed.session.wire.input == ApplyKey(g.maskKey, g.payload) + EncodeAll(e.codec, fs[k'..])
            && forall gs: seq<Frame>, rest: seq<Byte>, slots: seq<Slot> |
                 && failed.session.wire.input == EncodeAll(e.codec, gs) + rest && IsTail(gs)
                 && NonEmpty(slots) && |slots| > |failed.session.wire.input| ::
                 var d := Drain(e, failed.session, slots);
                 && d.ending == Complete && |d.bytes| == |Payloads(gs)| && d.session.wire.input == rest
                 && (Tidy(e, failed.session, slots) ==> d.bytes == Payloads(gs))
  {
    hide ReceiveFramePayload, Drain, EncodeAll, Payloads, IsTail, RejectedInside, Carried, Delivers, Benign, NonEmpty,
         Tidy, ApplyKey, InPlace;
    k' := PayloadReadEnds(e, s.reader.value, s.flags, s.wire, slot, fs, k);
    var failed := Read(e, s, slot).session;
    forall gs: seq<Frame>, rest: seq<Byte>, slots: seq<Slot> |
      && failed.wire.input == EncodeAll(e.codec, gs) + rest && IsTail(gs)
      && NonEmpty(slots) && |slots| > |failed.wire.input|
      ensures var d := Drain(e, failed, slots);
              && d.ending == Complete && |d.bytes| == |Payloads(gs)| && d.session.wire.input == rest
              && (Tidy(e, failed, slots) ==> d.bytes == Payloads(gs))
    {
      TailIsRead(e, failed, gs, rest, slots);
    }
  }

  lemma {:induction false} TailIsRead(e: Env, s: Session, gs: seq<Frame>, rest: seq<Byte>, slots: seq<Slot>)
    requires Lawful(e.codec) && Benign(s.wire) && s.wire.input == EncodeAll(e.codec, gs) + rest && IsTail(gs)
    requires s.state == SocketState.Ready
    requires s.reader.Some? && s.reader.value.payloadLen == 0 && !s.reader.value.isFinal
    requires NonEmpty(slots) && |slots| > |s.wire.input|
    ensures var d := Drain(e, s, slots);
            && d.ending == Complete && |d.bytes| == |Payloads(gs)| && d.session.wire.input == rest
            && (Tidy(e, s, slots) ==> d.bytes == Payloads(gs))
  {
    hide Drain, EncodeAll, Payloads, IsTail, Tidy, AfterFrame, FailsAtBoundary;
    DrainIsWholeMessage(e, s, slots);
    NothingToTake(e.codec, s.reader.value, s.flags, Calm(s.wire));
    TailIsReceived(e.codec, s.reader.value, s.flags, Calm(s.wire), gs, rest);
  }

  // It does happen: a handshake that meets a data frame leaves a Ready session in front of its payload.
  lemma {:induction false} HandshakeStrandsPayload(e: Env, w: Wire, b: Byte)
    requires Lawful(e.codec) && Benign(w) && w.input == Encode(e.codec, Frame(FrameType.Text(false), None, [b]))
    ensures var after := CloseHandshake(e, New(w)).session;
            after.state == SocketState.Ready && after.wire.input == [b]
  {
    hide ProcessControlFrames, EncodeAll, Encode, HistoryBytes;
    var f := Frame(FrameType.Text(false), None, [b]);
    CloseSentAccounts(e.codec, New(w));
    var sent := SendClose(Flags(false, false), w, CLOSE_NORMAL);
    OneFrame(e.codec, f);
    WordMetInSync(e.codec, sent.flags, Wires.Flush(sent.wire).wire, [f]);
    assert [f][1..] == [] && EncodeAll(e.codec, []) == [] by { NothingEncoded(e.codec); }
    assert Leading([f]) == 0;
  }

  lemma {:induction false} OneFrame(c: Codec, f: Frame)
    ensures EncodeAll(c, [f]) == Encode(c, f)
  {
    hide Encode;
    assert [f][1..] == [];
    assert Encode(c, f) + [] == Encode(c, f);
  }
}
