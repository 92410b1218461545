/** How the window of unacknowledged transfers follows a peer that answers in order, and
    what keeps an acknowledgment from being recognised. */
module Tcpv4Window {
  import opened Octets
  import opened Options
  import opened Tcpv4Msg
  import opened Tcpv4Receive
  import opened Tcpv4Tx
  import opened Tcpv4Stream
  import opened Tcpv4TxStream

  /** No transfer below n is empty. */
  predicate NoneEmptyBelow(begun: seq<Octets>, n: nat) {
    n <= |begun| && forall i :: 0 <= i < n ==> begun[i] != []
  }

  /** The transfers on the window are numbered without a gap up to the last one begun, or
      up to the one before if that one failed. */
  function WindowEnd(s: State): int {
    if GaveUp(s) then s.nextId - 1 else s.nextId
  }

  /** The window holds exactly the transfers the peer has not concluded. */
  predicate InStep(s: State, tr: Track) {
    && NoneEmptyBelow(Begun(s), tr.next)
    && |s.window| == (if tr.next <= WindowEnd(s) then WindowEnd(s) - tr.next else 0)
    && (forall k :: 0 <= k < |s.window| ==>
          s.window[k].id == tr.next + k && !s.window[k].acked && !s.window[k].refused)
    && s.ackedLen == if s.window == [] then 0 else tr.acked
  }

  /** The peer has concluded the only windowed transfer, which is still going out. */
  predicate ConcludedInFlight(s: State, tr: Track) {
    && NoneEmptyBelow(Begun(s), tr.next)
    && |s.window| == 1 && s.window[0].inFlight && (s.window[0].acked || s.window[0].refused)
    && tr.next == s.nextId && s.window[0].id == s.nextId - 1 && tr.acked == 0
  }

  /** An empty transfer, to which no reply ever comes, is at the head of the window for good. */
  predicate Blocked(s: State, tr: Track) {
    && s.window != [] && s.window[0].id < tr.next && s.window[0].id < s.nextId - 1 < |s.accepted|
    && s.accepted[s.window[0].id] == []
  }

  predicate Shape(s: State, tr: Track) {
    InStep(s, tr) || ConcludedInFlight(s, tr) || Blocked(s, tr)
  }

  /** What TrackBounds says of the replies so far. */
  predicate Tracking(begun: seq<Octets>, tr: Track) {
    && tr.next <= |begun|
    && (tr.acked > 0 ==> tr.next < |begun| && tr.acked < |begun[tr.next]|)
  }

  // ---- A reply in order --------------------------------------------------------------------

  /** A reply that does not concern the head of the window finds it blocked. */
  lemma HeadBlocks(s: State, tr: Track, e: Event)
    requires WellSent(s) && Shape(s, tr) && InOrder(Begun(s), tr, e)
    requires s.window != [] && s.window[0].id != IdOf(e)
    ensures s.window[0].id < IdOf(e) && s.window[0].id < s.nextId - 1 < |s.accepted|
    ensures s.accepted[s.window[0].id] == []
  {
    hide PositionSound, GoodStream;
    assert Windowed(s, 0);
  }

  lemma HeadIsNext(s: State, tr: Track, e: Event)
    requires WellSent(s) && Shape(s, tr) && InOrder(Begun(s), tr, e)
    requires s.window != [] && s.window[0].id == IdOf(e)
    ensures InStep(s, tr) && IdOf(e) == tr.next && Windowed(s, 0)
  {
    hide PositionSound, GoodStream;
    assert Windowed(s, 0);
  }

  lemma AckShape(s: State, tr: Track, flags: uint8, id: uint64, length: nat)
    requires WellSent(s) && Shape(s, tr) && Tracking(Begun(s), tr)
    requires InOrder(Begun(s), tr, Ack(flags, id, length))
    ensures Shape(ApplyAck(s, id, length), Advance(Begun(s), tr, Ack(flags, id, length)))
  {
    hide QueueSound, PositionSound, GoodStream, WindowSound, FailureSound, Shape;
    var t, e := ApplyAck(s, id, length), Ack(flags, id, length);
    if s.window == [] || s.window[0].id != id {
      Unplaced(s, tr, e);
    } else {
      HeadIsNext(s, tr, e);
      var head := s.window[0];
      if length == head.length {
        MarkAndRetire(s, 0, head.(acked := true), length);
        HeadConcluded(s, tr, t, head.(acked := true));
      } else {
        hide Windowed;
        assert t == s.(ackedLen := length);
        assert InStep(t, Track(id, length));
        InStepShape(t, Track(id, length));
      }
    }
  }

  lemma InStepShape(s: State, tr: Track)
    requires InStep(s, tr)
    ensures Shape(s, tr)
  {}

  /** An acknowledgment whose transfer is not at the head of the window changes nothing. */
  lemma Unplaced(s: State, tr: Track, e: Event)
    requires WellSent(s) && Shape(s, tr) && InOrder(Begun(s), tr, e)
    requires s.window == [] || s.window[0].id != IdOf(e)
    ensures Shape(s, Advance(Begun(s), tr, e))
  {
    hide PositionSound, GoodStream;
    assert s.window != [] ==> Windowed(s, 0);
  }

  /** The head of the window is concluded: it goes at once, or once it is let go. */
  lemma HeadConcluded(s: State, tr: Track, t: State, x: Xfer)
    requires WellSent(s) && InStep(s, tr) && s.window != []
    requires tr.next < |Begun(s)| && Begun(s)[tr.next] != []
    requires x == s.window[0].(acked := x.acked, refused := x.refused, completed := x.completed)
    requires x.acked || x.refused
    requires RepliesFrame(s, t)
    requires t.window == if x.inFlight then s.window[0 := x] else Without(s.window, 0)
    requires !x.inFlight ==> t.ackedLen == 0
    ensures Shape(t, Track(tr.next + 1, 0))
  {
    HeadFacts(s);
    hide WellSent, InStep, Shape;
    if x.inFlight {
      HeadStays(s, tr, t, x);
    } else {
      HeadLeaves(s, tr, t);
    }
  }

  lemma HeadStays(s: State, tr: Track, t: State, x: Xfer)
    requires InStep(s, tr) && s.window != [] && !GaveUp(s) && s.window[0].id == s.nextId - 1
    requires tr.next < |Begun(s)| && Begun(s)[tr.next] != []
    requires x.inFlight && x.id == s.window[0].id && (x.acked || x.refused)
    requires RepliesFrame(s, t) && t.window == s.window[0 := x]
    ensures Shape(t, Track(tr.next + 1, 0))
  {
    assert Begun(t) == Begun(s);
    hide Begun;
    assert ConcludedInFlight(t, Track(tr.next + 1, 0));
  }

  lemma HeadLeaves(s: State, tr: Track, t: State)
    requires InStep(s, tr) && s.window != []
    requires tr.next < |Begun(s)| && Begun(s)[tr.next] != []
    requires RepliesFrame(s, t) && t.window == Without(s.window, 0) && t.ackedLen == 0
    ensures Shape(t, Track(tr.next + 1, 0))
  {
    assert Begun(t) == Begun(s);
    hide Begun;
    assert t.window == s.window[1..];
    assert InStep(t, Track(tr.next + 1, 0));
  }

  /** A head that is going out is the last transfer begun. */
  lemma HeadFacts(s: State)
    requires WellSent(s) && s.window != []
    ensures s.window[0].inFlight ==> !GaveUp(s) && s.window[0].id == s.nextId - 1
  {
    hide PositionSound, GoodStream, QueueSound;
    assert Windowed(s, 0);
  }

  lemma RefuseShape(s: State, tr: Track, reason: uint8, id: uint64)
    requires WellSent(s) && Shape(s, tr) && Tracking(Begun(s), tr)
    requires InOrder(Begun(s), tr, Refuse(reason, id))
    ensures Shape(ApplyRefuse(s, reason, id), Track(id + 1, 0))
  {
    hide WellSent, Shape, InOrder, InStep, Tracking, Begun, Retire;
    var i := FindId(s.window, id);
    if i == |s.window| {
      Unplaced(s, tr, Refuse(reason, id));
    } else {
      var x := s.window[i].(refused := true, completed := s.window[i].completed || reason == REFUSE_COMPLETED);
      RefuseFound(s, tr, reason, id, i, x);
    }
  }

  /** The refused transfer is on the window: at its head, or behind an empty one. */
  lemma RefuseFound(s: State, tr: Track, reason: uint8, id: uint64, i: nat, x: Xfer)
    requires WellSent(s) && Shape(s, tr) && Tracking(Begun(s), tr)
    requires InOrder(Begun(s), tr, Refuse(reason, id))
    requires i == FindId(s.window, id) < |s.window|
    requires x == s.window[i].(refused := true, completed := x.completed)
    ensures Shape(Retire(s.(window := s.window[i := x]), i), Track(id + 1, 0))
  {
    var e, t := Refuse(reason, id), Retire(s.(window := s.window[i := x]), i);
    WindowOf(s);
    MarkAndRetire(s, i, x, s.ackedLen);
    hide WellSent, Shape, InOrder, InStep, Tracking, WindowSound, FailureSound, FindId, Retire;
    if i == 0 {
      HeadIsNext(s, tr, e);
      NextNotEmpty(s, tr, e);
      HeadConcluded(s, tr, t, x);
    } else {
      HeadBlocks(s, tr, e);
      assert t.window != [] && t.window[0] == s.window[0];
      BlockedShape(t, Track(id + 1, 0));
    }
  }

  lemma WindowOf(s: State)
    requires WellSent(s)
    ensures WindowSound(s) && FailureSound(s)
  {
    hide WindowSound, FailureSound, QueueSound, PositionSound, GoodStream;
  }

  lemma NextNotEmpty(s: State, tr: Track, e: Event)
    requires InOrder(Begun(s), tr, e) && IdOf(e) == tr.next
    ensures tr.next < |Begun(s)| && Begun(s)[tr.next] != []
  {}

  lemma BlockedShape(s: State, tr: Track)
    requires Blocked(s, tr)
    ensures Shape(s, tr)
  {}

  /** When an acknowledgment is judged unexpected: its transfer was preceded by an empty
      one, or was given up. */
  lemma UnexpectedIff(s: State, tr: Track, flags: uint8, id: uint64, length: nat)
    requires WellSent(s) && Shape(s, tr) && Tracking(Begun(s), tr)
    requires InOrder(Begun(s), tr, Ack(flags, id, length))
    ensures AckUnexpected(s, id, length) <==> (!NoneEmptyBelow(Begun(s), id) || s.failedId == Some(id))
  {
    hide QueueSound, PositionSound, GoodStream;
    assert s.window != [] ==> Windowed(s, 0);
    if NoneEmptyBelow(Begun(s), id) {
      assert id == tr.next;
    }
  }

  // ---- The sender's own steps ----------------------------------------------------------------

  lemma BeginShape(s: State, tr: Track)
    requires WellSent(s) && Shape(s, tr) && Tracking(Begun(s), tr)
    requires s.xmit.Idle? && s.queue != [] && !s.stopped
    ensures Shape(ApplyBegin(s), tr)
  {
    hide PositionSound, GoodStream;
    var t := ApplyBegin(s);
    assert Begun(t)[..s.nextId] == Begun(s);
    assert s.window != [] ==> Windowed(s, 0) && t.window[0] == s.window[0];
    if InStep(s, tr) {
      assert InStep(t, tr);
    }
  }

  lemma LetGoShape(s: State, tr: Track, failed: bool)
    requires WellSent(s) && Shape(s, tr) && Tracking(Begun(s), tr)
    requires s.xmit.LettingGo? && s.xmit.failed == failed
    ensures Shape(ApplyLetGo(s, |s.window| - 1, failed), tr)
  {
    WindowOf(s);
    LetGoIs(s, failed);
    NotGivenUp(s);
    hide WellSent, WindowSound, FailureSound, ApplyLetGo, Tracking;
    var t := ApplyLetGo(s, |s.window| - 1, failed);
    assert Begun(t) == Begun(s);
    hide Begun;
    if InStep(s, tr) {
      assert InStep(t, tr);
    } else if ConcludedInFlight(s, tr) {
      assert InStep(t, tr);
    } else {
      assert Blocked(t, tr);
    }
  }

  lemma NotGivenUp(s: State)
    requires FailureSound(s) && Busy(s)
    ensures !GaveUp(s)
  {}

  lemma StepShape(cfg: TxConfig, s: State, a: Action, tr: Track)
    requires WellSent(s) && Shape(s, tr) && Tracking(Begun(s), tr) && Apply(cfg, s, a).Some?
    requires !a.RecvAck? && !a.RecvRefuse? && !a.Drain?
    ensures Shape(Apply(cfg, s, a).value, tr)
  {
    hide PositionSound, GoodStream, FindId, QueueSound, FailureSound, WindowSound;
    var t := Apply(cfg, s, a).value;
    if a.BeginXfer? {
      BeginShape(s, tr);
    } else if a.LetGo? {
      OnWindow(s);
      LetGoShape(s, tr, s.xmit.failed);
    } else {
      BooksAlike(cfg, s, a);
      SameShape(s, t, tr);
    }
  }

  lemma BooksAlike(cfg: TxConfig, s: State, a: Action)
    requires WellSent(s) && Apply(cfg, s, a).Some?
    requires !a.RecvAck? && !a.RecvRefuse? && !a.Drain? && !a.BeginXfer? && !a.LetGo?
    ensures var t := Apply(cfg, s, a).value;
            t.window == s.window && t.ackedLen == s.ackedLen && t.nextId == s.nextId && t.failedId == s.failedId
            && s.accepted <= t.accepted && Begun(t) == Begun(s)
  {
    hide WindowSound, PositionSound, GoodStream, FindId;
  }

  lemma SameShape(s: State, t: State, tr: Track)
    requires Shape(s, tr) && Begun(t) == Begun(s) && s.accepted <= t.accepted
    requires t.window == s.window && t.ackedLen == s.ackedLen && t.nextId == s.nextId && t.failedId == s.failedId
    ensures Shape(t, tr)
  {}
}
