/** A sender never takes a transfer for delivered on the word of anything but an
    acknowledgment of its whole length. */
module Tcpv4Honest {
  import opened Octets
  import opened Options
  import opened Tcpv4Msg
  import opened Tcpv4Receive
  import opened Tcpv4TxStream
  import Tx = Tcpv4Tx

  /** The receiver gave BP exactly the n-th bundle and then acknowledged it whole. */
  ghost predicate Delivered(log: seq<Event>, accepted: seq<Octets>, n: nat) {
    n < |accepted|
    && exists k {:trigger log[k]} :: 0 < k < |log|
         && log[k - 1] == Deliver(accepted[n]) && log[k].Ack? && log[k].id == n && log[k].length == |accepted[n]|
  }

  lemma DeliveredLater(log: seq<Event>, more: seq<Event>, accepted: seq<Octets>, most: seq<Octets>, n: nat)
    requires Delivered(log, accepted, n) && log <= more && accepted <= most
    ensures Delivered(more, most, n)
  {
    var k :| 0 < k < |log|
      && log[k - 1] == Deliver(accepted[n]) && log[k].Ack? && log[k].id == n && log[k].length == |accepted[n]|;
    assert more[k] == log[k] && more[k - 1] == log[k - 1];
  }

  /** A transfer marked as succeeded was delivered. */
  ghost predicate Honest(log: seq<Event>, accepted: seq<Octets>, x: Tx.Xfer) {
    !x.completed && (x.acked ==> Delivered(log, accepted, x.serial))
  }

  ghost predicate AllHonest(log: seq<Event>, accepted: seq<Octets>, w: seq<Tx.Xfer>) {
    forall k :: 0 <= k < |w| ==> Honest(log, accepted, w[k])
  }

  ghost predicate HonestSender(log: seq<Event>, s: Tx.State) {
    && AllHonest(log, s.accepted, s.queue) && AllHonest(log, s.accepted, s.window) && AllHonest(log, s.accepted, s.dead)
    && (s.xmit.Reporting? ==> Honest(log, s.accepted, s.xmit.done))
    && (s.rcv.Retiring? ==> Honest(log, s.accepted, s.rcv.done))
    && (forall k :: 0 <= k < |s.reported| && s.reported[k].succeeded ==>
          Delivered(log, s.accepted, s.reported[k].serial))
  }

  lemma HonestLater(log: seq<Event>, more: seq<Event>, accepted: seq<Octets>, most: seq<Octets>, w: seq<Tx.Xfer>)
    requires AllHonest(log, accepted, w) && log <= more && accepted <= most
    ensures AllHonest(more, most, w)
  {
    hide Delivered;
    forall k | 0 <= k < |w| ensures Honest(more, most, w[k]) {
      if w[k].acked {
        DeliveredLater(log, more, accepted, most, w[k].serial);
      }
    }
  }

  lemma SenderHonestLater(log: seq<Event>, more: seq<Event>, s: Tx.State, most: seq<Octets>)
    requires HonestSender(log, s) && log <= more && s.accepted <= most
    ensures HonestSender(more, s.(accepted := most))
  {
    hide Delivered, Honest;
    HonestLater(log, more, s.accepted, most, s.queue);
    HonestLater(log, more, s.accepted, most, s.window);
    HonestLater(log, more, s.accepted, most, s.dead);
    if s.xmit.Reporting? {
      HonestLater(log, more, s.accepted, most, [s.xmit.done]);
      assert Honest(more, most, [s.xmit.done][0]);
    }
    if s.rcv.Retiring? {
      HonestLater(log, more, s.accepted, most, [s.rcv.done]);
      assert Honest(more, most, [s.rcv.done][0]);
    }
    forall k | 0 <= k < |s.reported| && s.reported[k].succeeded
      ensures Delivered(more, most, s.reported[k].serial)
    {
      DeliveredLater(log, more, s.accepted, most, s.reported[k].serial);
    }
  }

  lemma {:induction false} ReverseHonest(log: seq<Event>, accepted: seq<Octets>, w: seq<Tx.Xfer>)
    requires AllHonest(log, accepted, w)
    ensures AllHonest(log, accepted, Tx.Reverse(w))
  {
    hide Honest;
    if w != [] {
      ReverseHonest(log, accepted, w[1..]);
    }
  }

  /** A thread reports a transfer. */
  lemma ReportHonest(log: seq<Event>, s: Tx.State, x: Tx.Xfer)
    requires HonestSender(log, s) && Honest(log, s.accepted, x)
    ensures HonestSender(log, Tx.Report(s, x))
  {
    hide Delivered;
  }

  /** A windowed transfer is marked, and perhaps retired, by either thread. */
  lemma MarkHonest(log: seq<Event>, s: Tx.State, i: nat, x: Tx.Xfer, ackedLen: nat)
    requires HonestSender(log, s) && i < |s.window| && Honest(log, s.accepted, x)
    ensures HonestSender(log, Tx.Retire(s.(window := s.window[i := x], ackedLen := ackedLen), i))
    ensures HonestSender(log, s.(window := s.window[i := x], ackedLen := ackedLen))
  {
    hide Honest, Delivered;
  }

  lemma AckHonest(log: seq<Event>, s: Tx.State, id: nat, length: nat)
    requires HonestSender(log, s) && WindowSound(s)
    requires id < |s.accepted| && length == |s.accepted[id]| ==> Delivered(log, s.accepted, id)
    ensures HonestSender(log, Tx.ApplyAck(s, id, length))
  {
    hide HonestSender, Delivered, Tx.Retire;
    if s.window != [] && s.window[0].id == id {
      var head := s.window[0];
      assert Windowed(s, 0);
      assert Honest(log, s.accepted, head) by { WindowHonest(log, s, 0); }
      if length <= s.ackedLen || length > head.length {
        MarkHonest(log, s, 0, head.(refused := true), s.ackedLen);
      } else if length == head.length {
        MarkHonest(log, s, 0, head.(acked := true), length);
      } else {
        MarkHonest(log, s, 0, head, length);
        assert s.window[0 := head] == s.window;
      }
    }
  }

  lemma WindowHonest(log: seq<Event>, s: Tx.State, i: nat)
    requires HonestSender(log, s) && i < |s.window|
    ensures Honest(log, s.accepted, s.window[i])
  {}

  lemma RefuseHonest(log: seq<Event>, s: Tx.State, reason: uint8, id: nat)
    requires HonestSender(log, s) && reason != REFUSE_COMPLETED
    ensures HonestSender(log, Tx.ApplyRefuse(s, reason, id))
  {
    hide HonestSender, Delivered, Tx.Retire;
    var i := Tx.FindId(s.window, id);
    if i < |s.window| {
      WindowHonest(log, s, i);
      MarkHonest(log, s, i, s.window[i].(refused := true), s.ackedLen);
    }
  }

  lemma LetGoHonest(log: seq<Event>, s: Tx.State, i: nat, failed: bool)
    requires HonestSender(log, s) && i < |s.window|
    ensures HonestSender(log, Tx.ApplyLetGo(s, i, failed))
  {
    hide Delivered;
    var x := s.window[i];
    assert Honest(log, s.accepted, x.(inFlight := false, refused := x.refused || failed));
    hide Honest;
  }

  lemma DrainHonest(log: seq<Event>, s: Tx.State)
    requires HonestSender(log, s)
    ensures HonestSender(log, Tx.ApplyDrain(s))
  {
    hide Honest, Delivered;
    ReverseHonest(log, s.accepted, s.window);
    ReverseHonest(log, s.accepted, s.queue);
  }

  lemma EnqueueHonest(log: seq<Event>, s: Tx.State, bundle: Octets)
    requires HonestSender(log, s)
    ensures HonestSender(log, Tx.ApplyEnqueue(s, bundle))
  {
    SenderHonestLater(log, log, s, s.accepted + [bundle]);
    hide Delivered;
    assert !Tx.ApplyEnqueue(s, bundle).queue[|s.queue|].acked;
  }

  lemma BeginHonest(log: seq<Event>, s: Tx.State)
    requires HonestSender(log, s) && s.queue != []
    ensures HonestSender(log, Tx.ApplyBegin(s))
  {
    hide Delivered;
    assert Honest(log, s.accepted, s.queue[0]);
    assert Honest(log, s.accepted, s.queue[0].(id := s.nextId, inFlight := true));
    hide Honest;
    assert forall k :: 0 <= k < |s.queue| - 1 ==> Tx.ApplyBegin(s).queue[k] == s.queue[k + 1];
  }

  lemma SenderStepHonest(cfg: Tx.TxConfig, log: seq<Event>, s: Tx.State, a: Tx.Action)
    requires HonestSender(log, s) && Tx.Apply(cfg, s, a).Some? && !a.RecvAck? && !a.RecvRefuse?
    ensures HonestSender(log, Tx.Apply(cfg, s, a).value)
  {
    hide AllHonest, Honest, Delivered;
    hide Tx.ApplyBegin, Tx.ApplyEnqueue, Tx.ApplyLetGo, Tx.ApplyDrain;
    match a
    case Enqueue(bundle) => EnqueueHonest(log, s, bundle);
    case BeginXfer => BeginHonest(log, s);
    case LetGo => LetGoHonest(log, s, Tx.FindId(s.window, s.xmit.id), s.xmit.failed);
    case Drain => DrainHonest(log, s);
    case XmitReport => ReportHonest(log, s, s.xmit.done);
    case RcvReport => ReportHonest(log, s, s.rcv.done);
    case DrainReport => DeadHonest(log, s);
    case _ =>
  }

  lemma DeadHonest(log: seq<Event>, s: Tx.State)
    requires HonestSender(log, s) && s.dead != []
    ensures HonestSender(log, Tx.Report(s, s.dead[0]).(dead := s.dead[1..]))
  {
    hide Honest, Delivered;
    ReportHonest(log, s, s.dead[0]);
  }
}
