// Whole runs: any sequence of user operations on a WebSocket, against any input and schedule.
module Runs {
  import opened Prelude
  import opened Frames
  import opened Wires
  import opened FrameProtocol
  import opened Sessions

  // `SendPing` is the frame controller's; no operation of the WebSocket calls it.
  datatype Op =
    | DoWaitMessage
    | DoRead(slot: Slot)
    | DoWrite(buf: Payload)
    | DoFlush
    | DoCloseHandshake
    | DoClose
    | DoAbort
    | DoCheckReady
    | DoSetSendFrameType(t: MessageType)
    | DoSendPing

  function Outcome<T>(c: Call<T>): Call<()> {
    match c.result
    case Ok(_) => Call(Ok(()), c.session)
    case Err(e) => Call(Err(e), c.session)
  }

  function PingCall(s: Session): Call<()> {
    var step := SendPing(s.flags, s.wire);
    Call(FromWire(step.result), s.(flags := step.flags, wire := step.wire))
  }

  function Apply(e: Env, s: Session, op: Op): Call<()> {
    match op
    case DoWaitMessage => Outcome(WaitMessage(e, s))
    case DoRead(slot) => var r := Read(e, s, slot); Outcome(Call(r.result, r.session))
    case DoWrite(buf) => Outcome(Write(s, buf))
    case DoFlush => Sessions.Flush(s)
    case DoCloseHandshake => CloseHandshake(e, s)
    case DoClose => Sessions.Close(e, s)
    case DoAbort => Abort(s)
    case DoCheckReady => Outcome(CheckReady(s))
    case DoSetSendFrameType(t) => Call(Ok(()), s.(sendType := t))
    case DoSendPing => PingCall(s)
  }

  function Run(e: Env, s: Session, ops: seq<Op>): Session
    decreases |ops|
  {
    if ops == [] then s else Run(e, Apply(e, s, ops[0]).session, ops[1..])
  }

  // The session before operation i of a run.
  function At(e: Env, s: Session, ops: seq<Op>, i: nat): Session
    requires i <= |ops|
  {
    Run(e, s, ops[..i])
  }

  lemma {:induction false} RunOneMore(e: Env, s: Session, ops: seq<Op>, op: Op)
    ensures Run(e, s, ops + [op]) == Apply(e, Run(e, s, ops), op).session
    decreases |ops|
  {
    hide Apply;
    if ops == [] {
      assert [op][1..] == [] && ops + [op] == [op];
    } else {
      RunOneMore(e, Apply(e, s, ops[0]).session, ops[1..], op);
      assert (ops + [op])[0] == ops[0] && (ops + [op])[1..] == ops[1..] + [op];
    }
  }

  lemma {:induction false} AtStep(e: Env, s: Session, ops: seq<Op>, i: nat)
    requires i < |ops|
    ensures At(e, s, ops, i + 1) == Apply(e, At(e, s, ops, i), ops[i]).session
  {
    hide Apply;
    RunOneMore(e, s, ops[..i], ops[i]);
    assert ops[..i + 1] == ops[..i] + [ops[i]];
  }

  lemma {:induction false} AtEnds(e: Env, s: Session, ops: seq<Op>)
    ensures At(e, s, ops, 0) == s && At(e, s, ops, |ops|) == Run(e, s, ops)
  {
    hide Apply;
    assert ops[..0] == [] && ops[..|ops|] == ops;
  }
}
