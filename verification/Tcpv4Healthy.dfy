/** What a receiver makes of a sender that keeps to its limits, while neither end wants to stop:
    it refuses nothing, ends nothing, and takes every transfer whole. */
module Tcpv4Healthy {
  import opened Octets
  import opened Options
  import opened Tcpv4Ext
  import opened Tcpv4Receive
  import opened Tcpv4Stream
  import opened Tcpv4TxStream
  import opened Tcpv4Abandoned
  import opened Tcpv4Bytes
  import opened Tcpv4EndToEnd
  import Tcpv4EmptyBundle
  import Tx = Tcpv4Tx
  import Rx = Tcpv4Rx

  /** The sender knows the receiver's limits. */
  predicate KeepsLimits(ends: Ends) {
    && 1 <= ends.sender.segmentMtu <= ends.receiver.segmentMru
    && ends.sender.transferMtu <= ends.receiver.transferMru
  }

  /** The receiver's end never begins to end the session. */
  predicate NeverEnding(steps: seq<Step>) {
    forall k :: 0 <= k < |steps| ==> steps[k] != ReceiverStep(Rx.EndSession)
  }

  predicate NoRefusal(events: seq<Event>) { forall k :: 0 <= k < |events| ==> !events[k].Refuse? }

  ghost predicate SenderWithin(ends: Ends, s: Tx.State) {
    && (forall k :: 0 <= k < |s.accepted| ==> |s.accepted[k]| <= ends.sender.transferMtu)
    && (forall k :: 0 <= k < |s.sent| ==> |s.sent[k].data| <= ends.sender.segmentMtu)
  }

  /** Every transfer whose END has come has been given to BP. */
  ghost predicate AllDelivered(accepted: seq<Octets>, items: seq<Item>, events: seq<Event>) {
    forall k :: 0 <= k < |items| && items[k].seg.End() ==>
      items[k].seg.id < |accepted| && Deliver(accepted[items[k].seg.id]) in events
  }

  ghost predicate ReceiverWell(cfg: Config, s: Rx.State) {
    && !s.ending && !After(cfg, s.items).over && !After(cfg, s.items).refused && NoRefusal(Events(cfg, s.items))
  }

  ghost predicate Healthy(ends: Ends, sys: Sys) {
    && SenderWithin(ends, sys.tx) && ReceiverWell(ends.receiver, sys.rx)
    && AllDelivered(sys.tx.accepted, sys.rx.items, Events(ends.receiver, sys.rx.items))
  }

  // ---- The sender --------------------------------------------------------------------------------

  lemma SenderStaysWithin(ends: Ends, s: Tx.State, a: Tx.Action)
    requires ends.sender.segmentMtu >= 1 && SenderWithin(ends, s) && Tx.Apply(ends.sender, s, a).Some?
    ensures SenderWithin(ends, Tx.Apply(ends.sender, s, a).value)
  {
    StepMakes(ends.sender, s, a);
    AcceptsWithin(ends.sender, s, a);
    hide Tx.Apply;
  }

  lemma AcceptsWithin(cfg: Tx.TxConfig, s: Tx.State, a: Tx.Action)
    requires Tx.Apply(cfg, s, a).Some?
    ensures var t := Tx.Apply(cfg, s, a).value;
            t.accepted == s.accepted || (exists b: Octets :: |b| <= cfg.transferMtu && t.accepted == s.accepted + [b])
  {
    RepliesAcceptNone(s, a);
    hide Tx.CutSegment, Tx.BufferEnd, Tx.FindId, Tx.Reverse, Tx.HasRoom, Tx.Without;
    hide Tx.ApplyAck, Tx.ApplyRefuse, Tx.ApplyLetGo;
    if a.Enqueue? {
      assert |a.bundle| <= cfg.transferMtu;
    }
  }

  lemma RepliesAcceptNone(s: Tx.State, a: Tx.Action)
    ensures a.RecvAck? ==> Tx.ApplyAck(s, a.id, a.length).accepted == s.accepted
    ensures a.RecvRefuse? ==> Tx.ApplyRefuse(s, a.reason, a.id).accepted == s.accepted
    ensures forall i: nat, failed :: i < |s.window| ==> Tx.ApplyLetGo(s, i, failed).accepted == s.accepted
  {
    hide Tx.FindId, Tx.Without;
  }

  // ---- A segment ---------------------------------------------------------------------------------

  /** A segment that continues the stream of such a sender is not refused. */
  lemma SegmentWelcome(cfg: Config, begun: seq<Octets>, sent: seq<Segment>, seg: Segment, r: Reassembly, tr: Track)
    requires Answered(begun, sent, r, tr) && !r.over && !r.refused && Follows(begun, sent, seg)
    requires !EndsSession(cfg, r, seg) && |begun[seg.id]| <= cfg.transferMru
    ensures var (r', events) := Receive(cfg, r, Item(seg, false));
            && !r'.over && !r'.refused && NoRefusal(events)
            && (seg.End() ==> Deliver(begun[seg.id]) in events)
  {
    FindsTransfer(cfg, begun, sent, seg, r, tr);
    var o := Opened(r, seg);
    var from := if seg.Start() then 0 else EndOff(sent);
    var n := |begun[seg.id]|;
    if seg.Start() {
      LengthExtUnderstood(n);
      Tcpv4EmptyBundle.OnlyOneLength(n);
    }
    hide Benign, Declares, LengthExt, Answered, EndsSession, Opened;
    assert Refusal(cfg, o, Item(seg, false)) == None;
    hide Refusal;
    JoinSlices(begun[seg.id], 0, from, from + |seg.data|);
    assert seg.End() ==> begun[seg.id][0..from + |seg.data|] == begun[seg.id];
  }

  lemma DeliveredStill(accepted: seq<Octets>, more: seq<Octets>, items: seq<Item>, events: seq<Event>)
    requires AllDelivered(accepted, items, events) && accepted <= more
    ensures AllDelivered(more, items, events)
  {}

  /** It has come in: it and the transfer it ends are where they should be. */
  lemma ArrivalWell(ends: Ends, sys: Sys, item: Item)
    requires Healthy(ends, sys) && !item.ending
    requires var (r', events) := Receive(ends.receiver, After(ends.receiver, sys.rx.items), item);
             && !r'.over && !r'.refused && NoRefusal(events)
             && (item.seg.End() ==> item.seg.id < |sys.tx.accepted|
                                    && Deliver(sys.tx.accepted[item.seg.id]) in events)
    ensures var items := sys.rx.items + [item];
            && !After(ends.receiver, items).over && !After(ends.receiver, items).refused
            && NoRefusal(Events(ends.receiver, items))
            && AllDelivered(sys.tx.accepted, items, Events(ends.receiver, items))
  {
    EventsSnoc(ends.receiver, sys.rx.items, item);
    hide Receive, After, Events;
  }

  /** No refusal has been heard, because there has been none. */
  lemma NoneLeft(ends: Ends, sys: Sys)
    requires Rx.Inv(ends.receiver, sys.rx) && NoRefusal(Events(ends.receiver, sys.rx.items))
    ensures NoRefusal(sys.rx.log) && !LeftRefused(sys)
  {
    LogIsPrefix(ends.receiver, sys.rx);
    hide Events, Rx.Inv, EndOff;
    assert NoRefusal(sys.rx.log);
    if LeftRefused(sys) {
      var heard := Replies(sys.rx.log)[..sys.got];
      var k :| 0 <= k < |heard| && heard[k].Refuse?;
      assert heard[k] in Replies(sys.rx.log);
      RepliesAreEvents(sys.rx.log, heard[k]);
      assert false;
    }
  }

  lemma ArriveStaysHealthy(ends: Ends, steps: seq<Step>)
    requires KeepsLimits(ends) && Run(ends, steps).Some? && Healthy(ends, Run(ends, steps).value)
    requires Apply(ends, Run(ends, steps).value, Arrive).Some?
    ensures var sys := Run(ends, steps).value; Healthy(ends, Apply(ends, sys, Arrive).value)
  {
    var sys := Run(ends, steps).value;
    ArrivesWell(ends, steps);
    Always(ends, steps);
    hide Run, Inv;
    ArriveWelcome(ends, sys);
  }

  lemma ArrivesWell(ends: Ends, steps: seq<Step>)
    requires KeepsLimits(ends) && Run(ends, steps).Some? && Healthy(ends, Run(ends, steps).value)
    requires var sys := Run(ends, steps).value; sys.rx.pc.Reading? && |sys.rx.items| < |sys.tx.sent|
    ensures Apply(ends, Run(ends, steps).value, Arrive).Some?
    ensures !Apply(ends, Run(ends, steps).value, Arrive).value.rx.pc.Gone?
  {
    var sys := Run(ends, steps).value;
    Always(ends, steps);
    WellSentIn(ends, sys);
    NoneLeft(ends, sys);
    SessionEndsExactlyWhenRefused(ends, steps);
    assert |sys.tx.sent[|sys.rx.items|].data| <= ends.sender.segmentMtu;
    hide Run, Inv, Apply, LeftRefused, Rx.Inv, ReceiverWell, AllDelivered;
  }

  lemma ArriveWelcome(ends: Ends, sys: Sys)
    requires KeepsLimits(ends) && Inv(ends, sys) && Healthy(ends, sys) && Apply(ends, sys, Arrive).Some?
    requires !Apply(ends, sys, Arrive).value.rx.pc.Gone?
    ensures Healthy(ends, Apply(ends, sys, Arrive).value)
  {
    var n, cfg, begun := |sys.rx.items|, ends.receiver, Begun(sys.tx);
    var seg, r := sys.tx.sent[n], After(cfg, sys.rx.items);
    NextArrival(ends, sys);
    Arrives(ends, sys);
    BeginEnds(cfg, sys.rx, r, seg);
    BegunIsPrefix(sys.tx);
    hide Inv, Apply, Follows, Answered, TrackOf, Replies, Events, Receive, EndsSession;
    hide Rx.Apply, Rx.ApplyBegin, Rx.Same;
    FollowsBegun(begun, sys.tx.sent[..n], seg);
    SegmentWelcome(cfg, begun, sys.tx.sent[..n], seg, r, TrackOf(begun, Replies(Events(cfg, sys.rx.items))));
    ArrivalWell(ends, sys, Item(seg, false));
  }

  lemma FollowsBegun(begun: seq<Octets>, sent: seq<Segment>, seg: Segment)
    requires Follows(begun, sent, seg)
    ensures seg.id < |begun|
  {}

  /** The receiver's other steps leave the stream as it is. */
  lemma ReceiverStaysWell(cfg: Config, s: Rx.State, b: Rx.Action)
    requires ReceiverWell(cfg, s) && !b.Begin? && b != Rx.EndSession && Rx.Apply(cfg, s, b).Some?
    ensures ReceiverWell(cfg, Rx.Apply(cfg, s, b).value) && Rx.Apply(cfg, s, b).value.items == s.items
  {
    hide Events, After, Rx.ApplyBegin;
  }

  lemma HealthyStep(ends: Ends, steps: seq<Step>, step: Step)
    requires KeepsLimits(ends) && Run(ends, steps).Some? && Healthy(ends, Run(ends, steps).value)
    requires step != ReceiverStep(Rx.EndSession) && Apply(ends, Run(ends, steps).value, step).Some?
    ensures Healthy(ends, Apply(ends, Run(ends, steps).value, step).value)
  {
    var sys := Run(ends, steps).value;
    if step.Arrive? {
      ArriveStaysHealthy(ends, steps);
      return;
    }
    hide Run, Rx.Apply, Tx.Apply, SenderWithin, ReceiverWell, AllDelivered, Events, Replies;
    if step.ReceiverStep? {
      ReceiverStaysWell(ends.receiver, sys.rx, step.b);
    } else {
      var a := if step.SenderStep? then step.a else HearAction(Replies(sys.rx.log)[sys.got]);
      SenderStaysWithin(ends, sys.tx, a);
      SenderGrows(ends.sender, sys.tx, a);
      DeliveredStill(sys.tx.accepted, Tx.Apply(ends.sender, sys.tx, a).value.accepted, sys.rx.items,
                     Events(ends.receiver, sys.rx.items));
    }
  }

  lemma {:induction false} AlwaysHealthy(ends: Ends, steps: seq<Step>)
    requires KeepsLimits(ends) && NeverEnding(steps) && Run(ends, steps).Some?
    ensures Healthy(ends, Run(ends, steps).value)
  {
    if steps == [] {
      assert Healthy(ends, INITIAL);
    } else {
      var front, step := steps[..|steps| - 1], steps[|steps| - 1];
      AlwaysHealthy(ends, front);
      hide Healthy, Apply;
      HealthyStep(ends, front, step);
    }
  }

  /** While a sender keeps to the receiver's limits and the receiver's end does not begin to end
      the session, the receiver refuses nothing, no segment ends the session, and every transfer
      whose END has come has been given to BP or is about to be, unless a thread has given up. */
  lemma NothingRefused(ends: Ends, steps: seq<Step>)
    requires KeepsLimits(ends) && NeverEnding(steps) && Run(ends, steps).Some?
    ensures var sys := Run(ends, steps).value;
            && (forall e :: e in sys.rx.log ==> !e.Refuse?)
            && (sys.rx.pc.Reading? && |sys.rx.items| < |sys.tx.sent| ==>
                  Apply(ends, sys, Arrive).Some? && !Apply(ends, sys, Arrive).value.rx.pc.Gone?)
            && (!Rx.Silenced(sys.rx) ==>
                  AllDelivered(sys.tx.accepted, sys.rx.items, sys.rx.log + Rx.DlvOwes(sys.rx) + Rx.RxOwes(sys.rx)))
  {
    AlwaysHealthy(ends, steps);
    Always(ends, steps);
    var sys := Run(ends, steps).value;
    WellSentIn(ends, sys);
    NoneLeft(ends, sys);
    if sys.rx.pc.Reading? && |sys.rx.items| < |sys.tx.sent| {
      ArrivesWell(ends, steps);
    }
    hide Run, Apply, Inv, AllDelivered, Events, SenderWithin, ReceiverWell, LeftRefused, Rx.Tracks, Rx.HandOffSound;
  }
}
