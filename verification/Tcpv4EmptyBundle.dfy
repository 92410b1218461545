/** A run in which an acknowledgment cannot be placed: an empty bundle is accepted for
    transmission, but no segment of it is ever written, so no reply ever takes it off the
    window, and the acknowledgment of the next transfer finds it there. */
module Tcpv4EmptyBundle {
  import opened Octets
  import opened Options
  import opened Tcpv4Ext
  import opened Tcpv4Receive
  import opened Tcpv4Stream
  import opened Tcpv4EndToEnd
  import Tx = Tcpv4Tx
  import Rx = Tcpv4Rx

  const TINY := Ends(Config(1, 1), Tx.TxConfig(1, 1, 0, 0))

  const EMPTY_XFER := Tx.Xfer(0, 0, 0, false, false, false, false)
  const NEXT_XFER := Tx.Xfer(1, 1, 0, false, false, false, false)
  const GOING := NEXT_XFER.(id := 1, inFlight := true)
  const SEGMENT := Segment(3, 1, LengthExt(1), [7])

  const S0 := Tx.INITIAL
  const S1 := S0.(queue := [EMPTY_XFER], count := 1, accepted := [[]])
  const S2 := S1.(queue := [], window := [EMPTY_XFER.(inFlight := true)], nextId := 1, xmit := Tx.Sending(0, 0))
  const S3 := S2.(xmit := Tx.LettingGo(0, false))
  const S4 := S3.(xmit := Tx.Idle, window := [EMPTY_XFER])
  const S5 := S4.(queue := [NEXT_XFER], count := 2, bytes := 1, accepted := [[], [7]])
  const S6 := S5.(queue := [], window := [EMPTY_XFER, GOING], nextId := 2, xmit := Tx.Sending(1, 0))
  const S7 := S6.(sent := [SEGMENT], xmit := Tx.Checking(1, 1))

  const R0 := Rx.INITIAL
  const R1 := R0.(items := [Item(SEGMENT, false)], active := true, id := 1, pc := Rx.Taking(SEGMENT))
  const R2 := R1.(rx := [7], active := false, pc := Rx.HandingOver(3))
  const R3 := R2.(pc := Rx.Reading, dlv := [7], rx := [], dlvId := 1, dlvFlags := 3, pending := true)
  const R4 := R3.(dpc := Rx.Delivering)
  const R5 := R4.(log := [Deliver([7])], dpc := Rx.Acking)
  const R6 := R5.(log := [Deliver([7]), Ack(3, 1, 1)], dpc := Rx.Settling(false))

  lemma EmptyGoesNowhere(cfg: Tx.TxConfig)
    requires cfg == TINY.sender
    ensures Tx.Apply(cfg, S0, Tx.Enqueue([])) == Some(S1)
    ensures Tx.Apply(cfg, S1, Tx.BeginXfer) == Some(S2)
    ensures Tx.Apply(cfg, S2, Tx.LoopEnds) == Some(S3)
    ensures Tx.Apply(cfg, S3, Tx.LetGo) == Some(S4)
  {
    assert S0.queue + [EMPTY_XFER] == S1.queue && S0.accepted + [[]] == S1.accepted;
    assert S1.queue[1..] == S2.queue && S1.window + [S2.window[0]] == S2.window;
    assert S3.window[0 := EMPTY_XFER] == S4.window;
  }

  lemma NextIsWritten(cfg: Tx.TxConfig)
    requires cfg == TINY.sender
    ensures Tx.Apply(cfg, S4, Tx.Enqueue([7])) == Some(S5)
    ensures Tx.Apply(cfg, S5, Tx.BeginXfer) == Some(S6)
    ensures Tx.Apply(cfg, S6, Tx.WriteSegment) == Some(S7)
  {
    hide LengthExt;
    assert S4.queue + [NEXT_XFER] == S5.queue && S4.accepted + [[7]] == S5.accepted;
    assert S5.queue[1..] == S6.queue && S5.window + [GOING] == S6.window;
    assert Tx.FindId(S6.window, 1) == 1;
    assert Tx.CutSegment(cfg, 1, [7], 0) == SEGMENT by { assert [7][0..1] == [7]; }
    assert S6.sent + [SEGMENT] == S7.sent;
  }

  lemma SegmentIsTaken(cfg: Config)
    requires cfg == TINY.receiver
    ensures Rx.Apply(cfg, R0, Rx.Begin(SEGMENT)) == Some(R1)
    ensures Rx.Apply(cfg, R1, Rx.Take) == Some(R2)
    ensures Rx.Apply(cfg, R2, Rx.HandOver) == Some(R3)
  {
    hide LengthExt, Declares;
    LengthExtUnderstood(1);
    OnlyOneLength(1);
    assert R0.items + [Item(SEGMENT, false)] == R1.items;
    assert [] + SEGMENT.data == R2.rx;
  }

  /** The extension declares the length it carries and no other. */
  lemma OnlyOneLength(length: uint64)
    ensures forall n: uint64 :: Declares(LengthExt(length), n) ==> n == length
  {
    LengthExtUnderstood(length);
    forall n: uint64 | Declares(LengthExt(length), n) ensures n == length {
      DeclaresOnce(LengthExt(length), n, length);
    }
  }

  lemma BundleIsAcknowledged(cfg: Config)
    ensures Rx.Apply(cfg, R3, Rx.DlvPick) == Some(R4)
    ensures Rx.Apply(cfg, R4, Rx.DlvBundle(true)) == Some(R5)
    ensures Rx.Apply(cfg, R5, Rx.DlvAck(true)) == Some(R6)
  {
    assert R4.log + [Deliver([7])] == R5.log && R5.log + [Ack(3, 1, 1)] == R6.log;
  }

  lemma ThenSender(steps: seq<Step>, s: Tx.State, a: Tx.Action, t: Tx.State)
    requires Run(TINY, steps) == Some(Sys(s, R0, 0)) && Tx.Apply(TINY.sender, s, a) == Some(t)
    requires !a.RecvAck? && !a.RecvRefuse?
    ensures Run(TINY, steps + [SenderStep(a)]) == Some(Sys(t, R0, 0))
  {
    hide Run, Tx.Apply, Rx.Apply;
    Then(TINY, steps, Sys(s, R0, 0), SenderStep(a), Sys(t, R0, 0));
  }

  lemma ThenReceiver(steps: seq<Step>, r: Rx.State, b: Rx.Action, r': Rx.State)
    requires Run(TINY, steps) == Some(Sys(S7, r, 0)) && Rx.Apply(TINY.receiver, r, b) == Some(r')
    requires !b.Begin?
    ensures Run(TINY, steps + [ReceiverStep(b)]) == Some(Sys(S7, r', 0))
  {
    hide Run, Tx.Apply, Rx.Apply;
    Then(TINY, steps, Sys(S7, r, 0), ReceiverStep(b), Sys(S7, r', 0));
  }

  lemma SenderRuns() returns (steps: seq<Step>)
    ensures Run(TINY, steps) == Some(Sys(S7, R0, 0))
  {
    hide Tx.Apply, Apply;
    EmptyGoesNowhere(TINY.sender);
    NextIsWritten(TINY.sender);
    steps := [];
    assert Run(TINY, steps) == Some(Sys(S0, R0, 0));
    hide Run;
    ThenSender(steps, S0, Tx.Enqueue([]), S1);
    steps := steps + [SenderStep(Tx.Enqueue([]))];
    ThenSender(steps, S1, Tx.BeginXfer, S2);
    steps := steps + [SenderStep(Tx.BeginXfer)];
    ThenSender(steps, S2, Tx.LoopEnds, S3);
    steps := steps + [SenderStep(Tx.LoopEnds)];
    ThenSender(steps, S3, Tx.LetGo, S4);
    steps := steps + [SenderStep(Tx.LetGo)];
    ThenSender(steps, S4, Tx.Enqueue([7]), S5);
    steps := steps + [SenderStep(Tx.Enqueue([7]))];
    ThenSender(steps, S5, Tx.BeginXfer, S6);
    steps := steps + [SenderStep(Tx.BeginXfer)];
    ThenSender(steps, S6, Tx.WriteSegment, S7);
    steps := steps + [SenderStep(Tx.WriteSegment)];
  }

  lemma EmptyBundleBlocks() returns (steps: seq<Step>)
    ensures Run(TINY, steps).Some?
    ensures var sys := Run(TINY, steps).value;
            && sys.tx.accepted == [[], [7]] && sys.got == 0
            && Replies(sys.rx.log) == [Ack(3, 1, 1)] && Tx.AckUnexpected(sys.tx, 1, 1)
  {
    hide Rx.Apply, Run;
    steps := SenderRuns();
    SegmentIsTaken(TINY.receiver);
    BundleIsAcknowledged(TINY.receiver);
    Then(TINY, steps, Sys(S7, R0, 0), Arrive, Sys(S7, R1, 0));
    hide Apply;
    steps := steps + [Arrive];
    ThenReceiver(steps, R1, Rx.Take, R2);
    steps := steps + [ReceiverStep(Rx.Take)];
    ThenReceiver(steps, R2, Rx.HandOver, R3);
    steps := steps + [ReceiverStep(Rx.HandOver)];
    ThenReceiver(steps, R3, Rx.DlvPick, R4);
    steps := steps + [ReceiverStep(Rx.DlvPick)];
    ThenReceiver(steps, R4, Rx.DlvBundle(true), R5);
    steps := steps + [ReceiverStep(Rx.DlvBundle(true))];
    ThenReceiver(steps, R5, Rx.DlvAck(true), R6);
    steps := steps + [ReceiverStep(Rx.DlvAck(true))];
    RepliesOne(R6.log);
  }
}
