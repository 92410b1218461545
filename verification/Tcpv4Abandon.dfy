/** Why a sender leaves a transfer unfinished and goes on to the next: only because the peer
    has refused it. */
module Tcpv4Abandon {
  import opened Octets
  import opened Options
  import opened Tcpv4Msg
  import opened Tcpv4Receive
  import opened Tcpv4Tx
  import opened Tcpv4Stream
  import opened Tcpv4TxStream
  import opened Tcpv4Window

  /** Among the replies heard is a refusal of transfer j. */
  predicate RefusalHeard(heard: seq<Event>, j: nat) {
    exists k {:trigger heard[k]} :: 0 <= k < |heard| && heard[k].Refuse? && heard[k].refusedId == j
  }

  lemma HeardLater(heard: seq<Event>, more: seq<Event>, j: nat)
    requires RefusalHeard(heard, j) && heard <= more
    ensures RefusalHeard(more, j)
  {
    var k :| 0 <= k < |heard| && heard[k].Refuse? && heard[k].refusedId == j;
    assert more[k] == heard[k];
  }

  /** The last transfer of which something was sent is not finished. */
  predicate Unfinished(accepted: seq<Octets>, sent: seq<Segment>) {
    sent != [] && sent[|sent| - 1].id < |accepted| && EndOff(sent) < |accepted[sent[|sent| - 1].id]|
  }

  /** The transmit thread is still at the transfer of the last segment, or done for. */
  predicate NotGoneOn(s: State) {
    || GaveUp(s) || s.xmit.Exited? || (s.xmit.LettingGo? && s.xmit.failed)
    || ((s.xmit.Sending? || s.xmit.Checking?) && s.sent != [] && s.xmit.id == s.sent[|s.sent| - 1].id)
  }

  ghost predicate MarksHeard(s: State, heard: seq<Event>) {
    forall i :: 0 <= i < |s.window| && s.window[i].refused ==> RefusalHeard(heard, s.window[i].id)
  }

  /** Wherever a START follows an unfinished transfer, its refusal had been heard. */
  ghost predicate StartsHeard(accepted: seq<Octets>, sent: seq<Segment>, heard: seq<Event>) {
    forall k {:trigger sent[k]} :: 0 < k < |sent| && sent[k].Start() && Unfinished(accepted, sent[..k]) ==>
      RefusalHeard(heard, sent[k - 1].id)
  }

  ghost predicate Excused(s: State, heard: seq<Event>) {
    && MarksHeard(s, heard)
    && StartsHeard(s.accepted, s.sent, heard)
    && (Unfinished(s.accepted, s.sent) && !NotGoneOn(s) ==> RefusalHeard(heard, s.sent[|s.sent| - 1].id))
  }

  lemma ExcusedLater(s: State, heard: seq<Event>, more: seq<Event>)
    requires Excused(s, heard) && heard <= more
    ensures Excused(s, more)
  {
    hide RefusalHeard, NotGoneOn;
    forall j: nat ensures RefusalHeard(heard, j) ==> RefusalHeard(more, j) {
      if RefusalHeard(heard, j) {
        HeardLater(heard, more, j);
      }
    }
    assert MarksHeard(s, more);
    assert StartsHeard(s.accepted, s.sent, more);
  }

  /** A refusal marks the transfer it names. */
  lemma RefuseExcused(s: State, heard: seq<Event>, reason: uint8, id: nat)
    requires WindowSound(s) && FailureSound(s) && Excused(s, heard) && RefusalHeard(heard, id)
    ensures Excused(ApplyRefuse(s, reason, id), heard)
  {
    hide RefusalHeard, Unfinished, StartsHeard, MarksHeard, Retire, WindowSound, FailureSound;
    var i := FindId(s.window, id);
    if i < |s.window| {
      var x := s.window[i];
      var x' := x.(refused := true, completed := x.completed || reason == REFUSE_COMPLETED);
      var t := Retire(s.(window := s.window[i := x']), i);
      assert t == ApplyRefuse(s, reason, id);
      MarkAndRetire(s, i, x', s.ackedLen);
      hide ApplyRefuse, FindId;
      MarksAfter(s, t, i, x', heard);
    }
  }

  lemma MarksAfter(s: State, t: State, i: nat, x: Xfer, heard: seq<Event>)
    requires MarksHeard(s, heard) && i < |s.window| && x.id == s.window[i].id
    requires x.refused ==> RefusalHeard(heard, x.id)
    requires t.window == s.window[i := x] || t.window == Without(s.window, i)
    ensures MarksHeard(t, heard)
  {
    hide RefusalHeard;
    forall k | 0 <= k < |t.window| && t.window[k].refused ensures RefusalHeard(heard, t.window[k].id) {
      assert t.window[k] == x || t.window[k] == s.window[k] || (k + 1 < |s.window| && t.window[k] == s.window[k + 1]);
    }
  }

  /** An acknowledgment in order never marks its transfer as refused. */
  lemma AckExcused(s: State, tr: Track, flags: uint8, id: uint64, length: nat, heard: seq<Event>)
    requires WellSent(s) && Shape(s, tr) && Tracking(Begun(s), tr)
    requires InOrder(Begun(s), tr, Ack(flags, id, length)) && Excused(s, heard)
    ensures Excused(ApplyAck(s, id, length), heard)
  {
    WindowOf(s);
    if s.window != [] && s.window[0].id == id {
      HeadIsNext(s, tr, Ack(flags, id, length));
      AckAdvances(s, tr, flags, id, length);
      hide WellSent, WindowSound, FailureSound, Shape, InStep, InOrder, Tracking, Windowed;
      hide RefusalHeard, Unfinished, StartsHeard;
      var x := s.window[0].(acked := true);
      MarkedExcused(s, x, length, heard);
    }
  }

  lemma AckAdvances(s: State, tr: Track, flags: uint8, id: uint64, length: nat)
    requires InStep(s, tr) && s.window != [] && Windowed(s, 0) && id == tr.next == s.window[0].id
    requires InOrder(Begun(s), tr, Ack(flags, id, length))
    ensures s.ackedLen < length <= s.window[0].length
  {}

  lemma MarkedExcused(s: State, x: Xfer, length: nat, heard: seq<Event>)
    requires WindowSound(s) && FailureSound(s) && Excused(s, heard) && s.window != []
    requires x == s.window[0].(acked := true)
    ensures Excused(Retire(s.(ackedLen := length, window := s.window[0 := x]), 0), heard)
    ensures Excused(s.(ackedLen := length), heard)
  {
    hide RefusalHeard, Unfinished, StartsHeard;
    MarkAndRetire(s, 0, x, length);
    MarksAfter(s, Retire(s.(ackedLen := length, window := s.window[0 := x]), 0), 0, x, heard);
  }

  // ---- The sender's own steps ------------------------------------------------------------------

  lemma BeginExcused(s: State, heard: seq<Event>)
    requires WellSent(s) && Excused(s, heard) && s.xmit.Idle? && s.queue != [] && !s.stopped
    ensures Excused(ApplyBegin(s), heard)
  {
    hide RefusalHeard, Unfinished, StartsHeard, GoodStream, PositionSound, WindowSound;
    var t := ApplyBegin(s);
    assert !s.queue[0].refused by { FirstUnmarked(s); }
    assert forall k :: 0 <= k < |s.window| ==> t.window[k] == s.window[k];
  }

  lemma FirstUnmarked(s: State)
    requires QueueSound(s) && s.queue != [] && !s.drained
    ensures !s.queue[0].refused
  {
    assert s.queue[0] == Xfer(s.nextId + 0, |s.accepted[s.nextId + 0]|, 0, false, false, false, false);
  }

  lemma LetGoExcused(s: State, failed: bool, heard: seq<Event>)
    requires WellSent(s) && Excused(s, heard) && s.xmit.LettingGo? && s.xmit.failed == failed
    ensures Excused(ApplyLetGo(s, |s.window| - 1, failed), heard)
  {
    WindowOf(s);
    LetGoIs(s, failed);
    hide RefusalHeard, Unfinished, StartsHeard, WellSent, WindowSound, FailureSound, ApplyLetGo;
    var t := ApplyLetGo(s, |s.window| - 1, failed);
    assert forall k :: 0 <= k < |t.window| && t.window[k].refused ==> t.window[k] == s.window[k];
  }

  /** One more segment: a START, or the next of the same transfer. */
  lemma WriteExcused(cfg: TxConfig, s: State, x: Xfer, off: nat, heard: seq<Event>)
    requires cfg.segmentMtu >= 1 && s.xmit == Sending(x.id, off) && Writable(s, x, off) && x.id == x.serial < s.nextId
    requires QueueSound(s) && PositionSound(s) && FailureSound(s) && Excused(s, heard)
    ensures Excused(ApplyWrite(cfg, s, x, off), heard)
  {
    NotStillAt(s);
    WriteChanges(cfg, s, x, off);
    hide RefusalHeard, Unfinished, CutSegment, ApplyWrite, PositionSound, QueueSound, FailureSound, StartsHeard;
    StartsMore(s.accepted, s.sent, CutSegment(cfg, x.id, s.accepted[x.serial], off), heard);
  }

  lemma WriteChanges(cfg: TxConfig, s: State, x: Xfer, off: nat)
    requires Writable(s, x, off)
    ensures var seg, t := CutSegment(cfg, x.id, s.accepted[x.serial], off), ApplyWrite(cfg, s, x, off);
            && t == s.(sent := s.sent + [seg], xmit := t.xmit)
            && (t.xmit.Sending? || t.xmit.Checking?) && t.xmit.id == x.id == seg.id
            && seg.Start() == (off == 0)
  {
    CutFlags(cfg, x.id, s.accepted[x.serial], off);
    hide CutSegment, BufferEnd;
  }

  lemma StartsMore(accepted: seq<Octets>, sent: seq<Segment>, seg: Segment, heard: seq<Event>)
    requires StartsHeard(accepted, sent, heard)
    requires seg.Start() && Unfinished(accepted, sent) ==> RefusalHeard(heard, sent[|sent| - 1].id)
    ensures StartsHeard(accepted, sent + [seg], heard)
  {
    hide RefusalHeard, Unfinished;
    var more := sent + [seg];
    assert more[..|sent|] == sent;
    forall k | 0 < k < |more| && more[k].Start() && Unfinished(accepted, more[..k])
      ensures RefusalHeard(heard, more[k - 1].id)
    {
      assert k < |sent| ==> more[..k] == sent[..k] && more[k] == sent[k];
      assert more[k - 1] == sent[k - 1];
    }
  }

  /** Before the first octet of a transfer the last segment is another one's. */
  lemma NotStillAt(s: State)
    requires PositionSound(s) && FailureSound(s) && s.xmit.Sending?
    ensures !GaveUp(s)
    ensures s.xmit.off == 0 && s.sent != [] ==> s.sent[|s.sent| - 1].id != s.xmit.id
  {}

  lemma MoveExcused(cfg: TxConfig, s: State, a: Action, heard: seq<Event>)
    requires WellSent(s) && Excused(s, heard) && Apply(cfg, s, a).Some?
    requires a.CheckRefused? || a.LoopEnds? || a.XmitFails?
    ensures Excused(Apply(cfg, s, a).value, heard)
  {
    OnWindow(s);
    assert Windowed(s, |s.window| - 1);
    hide RefusalHeard, StartsHeard, GoodStream, WindowSound, FindId;
    if a.LoopEnds? {
      EndIsReached(s);
    }
  }

  /** At the end of its loop the transmit thread has finished its transfer, or had none to write. */
  lemma EndIsReached(s: State)
    requires QueueSound(s) && PositionSound(s) && s.xmit.Sending? && s.xmit.id < s.nextId
    requires s.xmit.off >= |Begun(s)[s.xmit.id]|
    ensures Unfinished(s.accepted, s.sent) ==> s.sent[|s.sent| - 1].id != s.xmit.id
  {}

  /** Steps that leave the window and the stream alone. */
  lemma RestExcused(s: State, t: State, heard: seq<Event>)
    requires Excused(s, heard) && t.sent == s.sent && s.accepted <= t.accepted
    requires t.window == s.window || t.window == []
    requires NotGoneOn(s) ==> NotGoneOn(t)
    requires Unfinished(t.accepted, t.sent) ==> Unfinished(s.accepted, s.sent)
    requires StartsHeard(t.accepted, t.sent, heard)
    ensures Excused(t, heard)
  {}

  lemma StepExcused(cfg: TxConfig, s: State, a: Action, heard: seq<Event>)
    requires cfg.segmentMtu >= 1 && WellSent(s) && Excused(s, heard) && Apply(cfg, s, a).Some?
    requires !a.RecvAck? && !a.RecvRefuse?
    ensures Excused(Apply(cfg, s, a).value, heard)
  {
    var t := Apply(cfg, s, a).value;
    if a.BeginXfer? {
      BeginExcused(s, heard);
    } else if a.WriteSegment? {
      WriteIs(cfg, s);
      OnWindow(s);
      assert Windowed(s, |s.window| - 1);
      WriteExcused(cfg, s, s.window[|s.window| - 1], s.xmit.off, heard);
    } else if a.LetGo? {
      OnWindow(s);
      LetGoExcused(s, s.xmit.failed, heard);
    } else if a.CheckRefused? || a.LoopEnds? || a.XmitFails? {
      MoveExcused(cfg, s, a, heard);
    } else {
      RestIs(cfg, s, a);
      StartsStay(s, t, heard);
      hide Excused, Apply, NotGoneOn, Unfinished, StartsHeard;
      RestExcused(s, t, heard);
    }
  }

  lemma RestIs(cfg: TxConfig, s: State, a: Action)
    requires Apply(cfg, s, a).Some? && WellSent(s)
    requires a.Enqueue? || a.XmitReport? || a.XmitExit? || a.RcvReport? || a.RcvClose?
             || a.Stop? || a.Drain? || a.DrainReport?
    ensures var t := Apply(cfg, s, a).value;
            && t.sent == s.sent && s.accepted <= t.accepted && (t.window == s.window || t.window == [])
            && (NotGoneOn(s) ==> NotGoneOn(t))
  {
    hide GoodStream, WindowSound, PositionSound, QueueSound;
  }

  /** Bundles accepted later do not change which transfers are unfinished. */
  lemma StartsStay(s: State, t: State, heard: seq<Event>)
    requires WellSent(s) && Excused(s, heard) && t.sent == s.sent && s.accepted <= t.accepted
    ensures StartsHeard(t.accepted, t.sent, heard)
    ensures Unfinished(t.accepted, t.sent) <==> Unfinished(s.accepted, s.sent)
  {
    hide RefusalHeard, WindowSound, PositionSound, FailureSound, QueueSound;
    forall k: nat | k <= |s.sent|
      ensures Unfinished(t.accepted, s.sent[..k]) <==> Unfinished(s.accepted, s.sent[..k])
    {
      if k > 0 {
        IdsWithin(s, k);
        assert s.sent[..k][k - 1] == s.sent[k - 1];
      }
    }
    hide Unfinished;
    assert s.sent[..|s.sent|] == s.sent;
  }

  lemma IdsWithin(s: State, k: nat)
    requires GoodStream(Begun(s), s.sent) && 0 < k <= |s.sent|
    ensures s.sent[k - 1].id < |Begun(s)| <= |s.accepted|
  {
    GoodStreamPrefix(Begun(s), s.sent, k);
  }
}
