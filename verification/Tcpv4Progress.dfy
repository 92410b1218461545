/** No thread of a session waits for nothing: in every run, whatever the peer does, a thread that is
    in the middle of something can go on, or the thread it waits for can. */
module Tcpv4Progress {
  import opened Options
  import opened Tcpv4Receive
  import opened Tcpv4Stream
  import opened Tcpv4TxStream
  import Tx = Tcpv4Tx
  import Rx = Tcpv4Rx

  // ---- The receiver ------------------------------------------------------------------------------

  /** The delivery thread goes on, if BP and the peer take what it has. */
  predicate DeliveryGoes(b: Rx.Action) { b.DlvPick? || b == Rx.DlvBundle(true) || b == Rx.DlvAck(true) || b.DlvSettle? }

  /** The receiver thread goes on with the segment it is handling. */
  predicate ReceiverGoes(b: Rx.Action) {
    b.PassRefuse? || b.WriteRefuse? || b.Take? || b.PassAck? || b == Rx.WriteAck(true) || b.HandOver?
  }

  /** While a bundle is in the slot the delivery thread can go on. */
  lemma SlotIsServed(cfg: Config, actions: seq<Rx.Action>) returns (b: Rx.Action)
    requires Rx.Run(cfg, actions).Some? && Rx.Run(cfg, actions).value.pending
    ensures DeliveryGoes(b) && Rx.Apply(cfg, Rx.Run(cfg, actions).value, b).Some?
  {
    Rx.Always(cfg, actions);
    var s := Rx.Run(cfg, actions).value;
    hide Rx.Run, Rx.Tracks, Rx.Refines;
    b := if s.dpc.Waiting? then Rx.DlvPick else if s.dpc.Delivering? then Rx.DlvBundle(true)
         else if s.dpc.Acking? then Rx.DlvAck(true) else Rx.DlvSettle;
  }

  /** The two threads never block each other: while the receiver thread is handling a segment it
      can go on, or it waits for the slot and the delivery thread can. */
  lemma NeverStuck(cfg: Config, actions: seq<Rx.Action>) returns (b: Rx.Action)
    requires Rx.Run(cfg, actions).Some?
    requires !Rx.Run(cfg, actions).value.pc.Reading? && !Rx.Run(cfg, actions).value.pc.Gone?
    ensures var s := Rx.Run(cfg, actions).value;
            && Rx.Apply(cfg, s, b).Some?
            && (ReceiverGoes(b) || (DeliveryGoes(b) && s.pending && !s.stopped && !s.failed))
  {
    var s := Rx.Run(cfg, actions).value;
    if (s.pc.AwaitRefuse? || s.pc.AwaitAck? || s.pc.HandingOver?) && !Rx.Drained(s) {
      b := SlotIsServed(cfg, actions);
      return;
    }
    hide Rx.Run, Rx.ApplyBegin;
    match s.pc
    case AwaitRefuse(_, _) => b := Rx.PassRefuse;
    case SendRefuse(_, _) => b := Rx.WriteRefuse;
    case Taking(_) => b := Rx.Take;
    case AwaitAck(_) => b := Rx.PassAck;
    case SendAck(_) => b := Rx.WriteAck(true);
    case HandingOver(_) => b := Rx.HandOver;
  }

  // ---- The sender --------------------------------------------------------------------------------

  /** Sizes stay below 2^64. */
  predicate Sized(s: Tx.State) {
    && s.nextId <= 0x1_0000_0000_0000_0000
    && forall k :: 0 <= k < |s.accepted| ==> |s.accepted[k]| < 0x1_0000_0000_0000_0000
  }

  lemma StaysSized(cfg: Tx.TxConfig, s: Tx.State, a: Tx.Action)
    requires Sized(s) && Tx.Apply(cfg, s, a).Some?
    ensures Sized(Tx.Apply(cfg, s, a).value)
  {
    hide Tx.FindId, Tx.Without, Tx.CutSegment, Tx.BufferEnd, Tx.HasRoom, Tx.Reverse;
  }

  lemma {:induction false} AlwaysSized(cfg: Tx.TxConfig, actions: seq<Tx.Action>)
    requires Tx.Run(cfg, actions).Some?
    ensures Sized(Tx.Run(cfg, actions).value)
  {
    if actions != [] {
      hide Tx.Apply, Sized;
      var front := actions[..|actions| - 1];
      AlwaysSized(cfg, front);
      StaysSized(cfg, Tx.Run(cfg, front).value, actions[|actions| - 1]);
    }
  }

  /** The transmit thread waits only for a bundle: unless it has none to send, or has ended, it can
      write the next segment, look, let go, report, take the next transfer or end. */
  lemma TransmitGoes(cfg: Tx.TxConfig, actions: seq<Tx.Action>) returns (a: Tx.Action)
    requires cfg.segmentMtu >= 1 && Tx.Run(cfg, actions).Some?
    requires var s := Tx.Run(cfg, actions).value;
             !s.xmit.Exited? && (s.xmit.Idle? ==> s.stopped || (s.queue != [] && s.nextId < 0x1_0000_0000_0000_0000))
    ensures Tx.Apply(cfg, Tx.Run(cfg, actions).value, a).Some?
    ensures a.BeginXfer? || a.WriteSegment? || a.CheckRefused? || a.LoopEnds? || a.LetGo?
            || a.XmitReport? || a.XmitExit?
  {
    AlwaysWellSent(cfg, actions);
    AlwaysSized(cfg, actions);
    var s := Tx.Run(cfg, actions).value;
    hide Tx.Run;
    if s.xmit.Idle? {
      a := if s.stopped then Tx.XmitExit else Tx.BeginXfer;
    } else if s.xmit.Reporting? {
      a := Tx.XmitReport;
    } else {
      a := OnItsWay(cfg, s);
    }
  }

  /** In the middle of a transfer. */
  lemma OnItsWay(cfg: Tx.TxConfig, s: Tx.State) returns (a: Tx.Action)
    requires WellSent(s) && Sized(s) && Busy(s)
    ensures Tx.Apply(cfg, s, a).Some? && (a.WriteSegment? || a.CheckRefused? || a.LoopEnds? || a.LetGo?)
  {
    OnWindow(s);
    assert Windowed(s, |s.window| - 1);
    hide Tx.FindId, Tx.CutSegment, PositionSound, GoodStream;
    var x := s.window[|s.window| - 1];
    a := if s.xmit.Checking? then Tx.CheckRefused else if s.xmit.LettingGo? then Tx.LetGo
         else if s.xmit.off < x.length then Tx.WriteSegment else Tx.LoopEnds;
  }

  // ---- Once a session is stopping ----------------------------------------------------------------

  /** No bundle is accepted and no transfer begun. */
  predicate NoneBegun(s: Tx.State, t: Tx.State) {
    t.stopped && t.accepted == s.accepted && t.nextId == s.nextId
  }

  lemma StepBeginsNone(cfg: Tx.TxConfig, s: Tx.State, a: Tx.Action)
    requires s.stopped && Tx.Apply(cfg, s, a).Some?
    ensures NoneBegun(s, Tx.Apply(cfg, s, a).value)
  {
    hide Tx.FindId, Tx.Without, Tx.CutSegment, Tx.BufferEnd, Tx.HasRoom, Tx.Reverse;
  }

  /** Once a session is told to stop, no bundle is accepted and no transfer begins any more,
      whatever else happens. */
  lemma {:induction false} NoneAfterStop(cfg: Tx.TxConfig, actions: seq<Tx.Action>, more: seq<Tx.Action>)
    requires Tx.Run(cfg, actions).Some? && Tx.Run(cfg, actions).value.stopped && Tx.Run(cfg, actions + more).Some?
    ensures NoneBegun(Tx.Run(cfg, actions).value, Tx.Run(cfg, actions + more).value)
    decreases |more|
  {
    if more == [] {
      assert actions + more == actions;
    } else {
      var front, a := more[..|more| - 1], more[|more| - 1];
      assert (actions + more)[..|actions + more| - 1] == actions + front && (actions + more)[|actions + more| - 1] == a;
      NoneAfterStop(cfg, actions, front);
      hide Tx.Apply;
      StepBeginsNone(cfg, Tx.Run(cfg, actions + front).value, a);
    }
  }
}
