/** The sending side keeps its books straight: whatever the peer replies, transfers are
    numbered in the order of acceptance and their segments go out one after another. */
module Tcpv4TxStream {
  import opened Octets
  import opened Options
  import opened Tcpv4Msg
  import opened Tcpv4Ext
  import opened Tcpv4Receive
  import opened Tcpv4Tx
  import opened Tcpv4Stream

  predicate Busy(s: State) { s.xmit.Sending? || s.xmit.Checking? || s.xmit.LettingGo? }

  /** The transmit thread has given up for want of a bundle or of a connection. */
  predicate GaveUp(s: State) { s.failedId.Some? }

  predicate QueueSound(s: State) {
    && s.nextId <= |s.accepted|
    && (!s.drained ==> |s.accepted| == s.nextId + |s.queue|)
    && (s.drained ==> s.stopped && s.xmit.Exited? && s.queue == [] && s.window == [])
    && (forall k :: 0 <= k < |s.queue| && s.nextId + k < |s.accepted| ==>
          s.queue[k] == Xfer(s.nextId + k, |s.accepted[s.nextId + k]|, 0, false, false, false, false))
  }

  predicate Increasing(w: seq<Xfer>) { forall j, k :: 0 <= j < k < |w| ==> w[j].id < w[k].id }

  /** Only the last windowed transfer may still be going out, and only it may carry marks. */
  predicate Windowed(s: State, k: nat)
    requires k < |s.window|
  {
    var x := s.window[k];
    && x.id == x.serial < s.nextId
    && x.serial < |s.accepted| && x.length == |s.accepted[x.serial]|
    && (if x.inFlight then Busy(s) && x.id == s.nextId - 1 else !x.acked && !x.refused)
  }

  predicate WindowSound(s: State) {
    && (forall k :: 0 <= k < |s.window| ==> Windowed(s, k))
    && Increasing(s.window)
    && (Busy(s) ==> s.window != [] && s.window[|s.window| - 1].inFlight && s.xmit.id == s.nextId - 1)
  }

  predicate FailureSound(s: State) {
    && (GaveUp(s) ==> (s.xmit.Exited? || (s.xmit.Reporting? && s.xmit.failed)) && s.failedId.value == s.nextId - 1
                      && (s.window != [] ==> s.window[|s.window| - 1].id < s.nextId - 1))
    && (s.xmit.Reporting? && s.xmit.failed ==> GaveUp(s))
  }

  function Begun(s: State): seq<Octets> {
    if s.nextId <= |s.accepted| then s.accepted[..s.nextId] else s.accepted
  }

  /** Transfer id has been written up to off. */
  ghost predicate WrittenUpTo(begun: seq<Octets>, sent: seq<Segment>, id: nat, off: nat) {
    && id == |begun| - 1 && off <= |begun[id]|
    && if off == 0 then EmptyBetween(begun, NextUnwritten(sent), id) && NextUnwritten(sent) <= id
       else sent != [] && sent[|sent| - 1].id == id && EndOff(sent) == off
  }

  ghost predicate PositionSound(s: State) {
    var begun := Begun(s);
    && (s.xmit.Sending? || s.xmit.Checking? ==> WrittenUpTo(begun, s.sent, s.xmit.id, s.xmit.off))
    && (s.xmit.Checking? ==> s.xmit.off > 0)
    && (s.xmit.Idle? || (s.xmit.LettingGo? && !s.xmit.failed) || (s.xmit.Reporting? && !s.xmit.failed) ==>
          EmptyBetween(begun, NextUnwritten(s.sent), |begun|))
    && NextUnwritten(s.sent) <= |begun|
  }

  ghost predicate WellSent(s: State) {
    && QueueSound(s) && WindowSound(s) && FailureSound(s) && PositionSound(s)
    && GoodStream(Begun(s), s.sent)
  }

  // ---- Replies --------------------------------------------------------------------------------

  lemma FindIdAt(w: seq<Xfer>, i: nat)
    requires i < |w| && Increasing(w)
    ensures FindId(w, w[i].id) == i
  {}

  /** The transfer going out is the last on the window. */
  lemma OnWindow(s: State)
    requires WindowSound(s) && Busy(s)
    ensures FindId(s.window, s.xmit.id) == |s.window| - 1
  {
    assert Windowed(s, |s.window| - 1);
    FindIdAt(s.window, |s.window| - 1);
  }

  /** What the peer's reply changes. */
  predicate RepliesFrame(s: State, t: State) {
    t == s.(window := t.window, ackedLen := t.ackedLen, count := t.count, bytes := t.bytes, rcv := t.rcv)
  }

  /** A windowed transfer is marked and, if it is finished, taken off the window. */
  lemma MarkAndRetire(s: State, i: nat, x: Xfer, ackedLen: nat)
    requires WindowSound(s) && FailureSound(s) && i < |s.window|
    requires var y := s.window[i]; x == y.(acked := x.acked, refused := x.refused, completed := x.completed)
    requires x.acked || x.refused
    ensures var t := Retire(s.(window := s.window[i := x], ackedLen := ackedLen), i);
            && WindowSound(t) && FailureSound(t) && RepliesFrame(s, t)
            && t.window == (if x.inFlight then s.window[i := x] else Without(s.window, i))
            && t.ackedLen == (if i == 0 && !x.inFlight then 0 else ackedLen)
            && t.rcv == if x.inFlight then s.rcv else Retiring(x)
  {
    var u := s.(window := s.window[i := x], ackedLen := ackedLen);
    var t := Retire(u, i);
    assert Without(u.window, i) == Without(s.window, i);
    forall k | 0 <= k < |t.window| ensures Windowed(t, k) {
      assert Windowed(s, if x.inFlight || k < i then k else k + 1);
    }
    assert Windowed(s, i);
    assert Windowed(s, |s.window| - 1);
  }

  lemma AckKeepsWindow(s: State, id: nat, length: nat)
    requires WindowSound(s) && FailureSound(s)
    ensures var t := ApplyAck(s, id, length); WindowSound(t) && FailureSound(t) && RepliesFrame(s, t)
  {
    if s.window != [] && s.window[0].id == id {
      var head := s.window[0];
      if length <= s.ackedLen || length > head.length {
        MarkAndRetire(s, 0, head.(refused := true), s.ackedLen);
      } else if length == head.length {
        MarkAndRetire(s, 0, head.(acked := true), length);
      } else {
        assert forall k :: 0 <= k < |s.window| && Windowed(s, k) ==> Windowed(ApplyAck(s, id, length), k);
      }
    }
  }

  lemma RefuseKeepsWindow(s: State, reason: uint8, id: nat)
    requires WindowSound(s) && FailureSound(s)
    ensures var t := ApplyRefuse(s, reason, id); WindowSound(t) && FailureSound(t) && RepliesFrame(s, t)
  {
    var i := FindId(s.window, id);
    if i < |s.window| {
      var x := s.window[i];
      MarkAndRetire(s, i, x.(refused := true, completed := x.completed || reason == REFUSE_COMPLETED), s.ackedLen);
    }
  }

  lemma RepliesKeep(s: State, t: State)
    requires WellSent(s) && RepliesFrame(s, t) && WindowSound(t) && FailureSound(t)
    requires s.window == [] ==> t.window == []
    ensures WellSent(t)
  {
    hide GoodStream, WindowSound, FailureSound, EmptyBetween, NextUnwritten, EndOff;
    assert Begun(t) == Begun(s);
  }

  // ---- The transmit thread --------------------------------------------------------------------

  lemma BeginKeeps(s: State)
    requires WellSent(s) && s.xmit.Idle? && s.queue != [] && !s.stopped
    ensures WellSent(ApplyBegin(s))
  {
    hide GoodStream;
    var t := ApplyBegin(s);
    assert Begun(s) <= Begun(t);
    GoodStreamMore(Begun(s), Begun(t), s.sent);
    forall k | 0 <= k < |t.window| ensures Windowed(t, k) {
      assert k < |s.window| ==> Windowed(s, k);
    }
    assert QueueSound(t) by {
      assert forall k :: 0 <= k < |t.queue| ==> t.queue[k] == s.queue[k + 1];
    }
    assert Windowed(t, |s.window|);
    assert Increasing(t.window) by {
      assert forall j :: 0 <= j < |s.window| ==> Windowed(s, j) && t.window[j] == s.window[j];
    }
  }

  /** The segment cut at the transmit thread's position continues the stream. */
  lemma CutFollows(cfg: TxConfig, begun: seq<Octets>, sent: seq<Segment>, id: uint64, off: nat)
    requires cfg.segmentMtu >= 1 && WrittenUpTo(begun, sent, id, off) && off < |begun[id]| < 0x1_0000_0000_0000_0000
    ensures var seg := CutSegment(cfg, id, begun[id], off);
            && Follows(begun, sent, seg)
            && WrittenUpTo(begun, sent + [seg], id, off + |seg.data|)
            && 0 < |seg.data| && off + |seg.data| <= BufferEnd(off, |begun[id]|)
  {
    BufferEndAhead(off, |begun[id]|);
    CutFlags(cfg, id, begun[id], off);
    var seg := CutSegment(cfg, id, begun[id], off);
    assert (sent + [seg])[..|sent|] == sent;
  }

  lemma WriteKeeps(cfg: TxConfig, s: State)
    requires cfg.segmentMtu >= 1 && WellSent(s) && Apply(cfg, s, WriteSegment).Some?
    ensures WellSent(Apply(cfg, s, WriteSegment).value)
  {
    OnWindow(s);
    assert Windowed(s, |s.window| - 1);
    var t, x, off := Apply(cfg, s, WriteSegment).value, s.window[|s.window| - 1], s.xmit.off;
    hide Follows, CutSegment, WrittenUpTo, FindId, Apply;
    assert t == ApplyWrite(cfg, s, x, off) by { WriteIs(cfg, s); }
    WritePosition(cfg, s, x, off);
    assert forall k :: 0 <= k < |s.window| && Windowed(s, k) ==> Windowed(t, k);
    hide GoodStream, PositionSound, Windowed;
  }

  lemma WriteIs(cfg: TxConfig, s: State)
    requires WellSent(s) && Apply(cfg, s, WriteSegment).Some?
    ensures s.xmit.Sending? && FindId(s.window, s.xmit.id) < |s.window|
    ensures var x := s.window[FindId(s.window, s.xmit.id)];
            Writable(s, x, s.xmit.off) && Apply(cfg, s, WriteSegment).value == ApplyWrite(cfg, s, x, s.xmit.off)
  {
    hide WellSent, ApplyWrite;
  }

  /** The stream and the position after one more segment. */
  lemma WritePosition(cfg: TxConfig, s: State, x: Xfer, off: nat)
    requires cfg.segmentMtu >= 1 && s.xmit == Sending(x.id, off) && Writable(s, x, off)
    requires QueueSound(s) && PositionSound(s) && GoodStream(Begun(s), s.sent) && x.id == x.serial < s.nextId
    ensures var t := ApplyWrite(cfg, s, x, off); PositionSound(t) && GoodStream(Begun(t), t.sent)
  {
    hide Follows, CutSegment, WrittenUpTo, QueueSound;
    var t := ApplyWrite(cfg, s, x, off);
    assert Begun(t) == Begun(s) && x.id < |Begun(s)| && Begun(s)[x.id] == s.accepted[x.serial] by {
      NextWithin(s);
    }
    CutFollows(cfg, Begun(s), s.sent, x.id, off);
    CutFlags(cfg, x.id, s.accepted[x.serial], off);
    assert t.sent[..|s.sent|] == s.sent;
  }

  lemma NextWithin(s: State)
    requires QueueSound(s)
    ensures s.nextId <= |s.accepted|
  {}

  lemma CutFlags(cfg: TxConfig, id: uint64, data: Octets, off: nat)
    requires off < |data| < 0x1_0000_0000_0000_0000
    ensures var seg := CutSegment(cfg, id, data, off);
            seg.id == id && seg.Start() == (off == 0) && seg.End() == (off + |seg.data| == |data|)
  {
    BufferEndAhead(off, |data|);
    hide BufferEnd, LengthExt;
  }

  lemma LetGoKeeps(s: State, n: nat, failed: bool)
    requires WellSent(s) && |s.window| == n + 1 && s.xmit.LettingGo? && s.xmit.failed == failed
    ensures WellSent(ApplyLetGo(s, n, failed))
  {
    LetGoIs(s, failed);
    LetGoWindow(s, failed);
    hide GoodStream, WindowSound, FailureSound, QueueSound, PositionSound, Begun, ApplyLetGo;
    LetGoPosition(s, ApplyLetGo(s, n, failed));
  }

  /** The rest of the invariant needs only what letting go does to the thread's own fields. */
  lemma LetGoPosition(s: State, t: State)
    requires QueueSound(s) && PositionSound(s) && FailureSound(s) && s.xmit.LettingGo?
    requires t == s.(window := t.window, ackedLen := t.ackedLen, count := t.count, bytes := t.bytes,
                     xmit := t.xmit, failedId := t.failedId)
    requires (t.xmit.Reporting? && t.xmit.failed == s.xmit.failed) || (t.xmit.Idle? && !s.xmit.failed)
    requires t.failedId == if s.xmit.failed then Some(s.nextId - 1) else s.failedId
    requires s.xmit.failed && t.window != [] ==> t.window[|t.window| - 1].id < s.nextId - 1
    requires s.xmit.failed ==> s.nextId > 0
    ensures QueueSound(t) && FailureSound(t) && PositionSound(t) && Begun(t) == Begun(s)
  {
    hide WrittenUpTo, EmptyBetween, NextUnwritten;
  }

  /** What letting go of the last windowed transfer does. */
  lemma LetGoIs(s: State, failed: bool)
    requires WindowSound(s) && s.xmit.LettingGo?
    ensures var n := |s.window| - 1;
            var x := s.window[n];
            var y := x.(inFlight := false, refused := x.refused || failed);
            var t := ApplyLetGo(s, n, failed);
            && t == s.(window := t.window, ackedLen := t.ackedLen, count := t.count, bytes := t.bytes,
                       xmit := t.xmit, failedId := t.failedId)
            && t.window == (if x.acked || y.refused then s.window[..n] else s.window[n := y])
            && t.xmit == (if x.acked || y.refused then Reporting(y, failed) else Idle)
            && t.failedId == (if failed then Some(s.nextId - 1) else s.failedId)
            && x.id == s.nextId - 1
  {
    var n := |s.window| - 1;
    var x := s.window[n];
    var y := x.(inFlight := false, refused := x.refused || failed);
    assert Windowed(s, n);
    assert Without(s.window[n := y], n) == s.window[..n];
  }

  lemma LetGoWindow(s: State, failed: bool)
    requires WindowSound(s) && s.xmit.LettingGo?
    ensures WindowSound(ApplyLetGo(s, |s.window| - 1, failed))
    ensures var t := ApplyLetGo(s, |s.window| - 1, failed);
            failed && t.window != [] ==> t.window[|t.window| - 1].id < s.nextId - 1
  {
    LetGoIs(s, failed);
    hide ApplyLetGo;
    var t := ApplyLetGo(s, |s.window| - 1, failed);
    forall k | 0 <= k < |t.window| ensures Windowed(t, k) {
      assert Windowed(s, k);
    }
    assert Windowed(s, |s.window| - 1);
  }

  /** The transmit thread moves along, touching nothing else that matters here. */
  lemma MovedAlong(s: State, t: State)
    requires WellSent(s) && t == s.(xmit := t.xmit, reported := t.reported)
    requires Busy(s) <==> Busy(t)
    requires Busy(s) ==> t.xmit.id == s.xmit.id
    requires FailureSound(t) && PositionSound(t) && QueueSound(t)
    ensures WellSent(t)
  {
    hide GoodStream, FailureSound, PositionSound, QueueSound;
    assert Begun(t) == Begun(s);
    assert forall k :: 0 <= k < |s.window| && Windowed(s, k) ==> Windowed(t, k);
  }

  /** The transmit thread's other steps only move it along. */
  lemma MovesKeep(cfg: TxConfig, s: State, a: Action)
    requires WellSent(s) && Apply(cfg, s, a).Some?
    requires a.CheckRefused? || a.LoopEnds? || a.XmitFails?
    ensures WellSent(Apply(cfg, s, a).value)
  {
    OnWindow(s);
    assert Windowed(s, |s.window| - 1);
    var t := Apply(cfg, s, a).value;
    hide GoodStream, WindowSound, QueueSound, FindId;
    PositionMoved(s, t);
    hide PositionSound;
    MovedAlong(s, t);
  }

  /** The transmit thread's position after such a step. */
  lemma PositionMoved(s: State, t: State)
    requires PositionSound(s) && (s.xmit.Sending? || s.xmit.Checking?) && t == s.(xmit := t.xmit)
    requires || t.xmit == LettingGo(s.xmit.id, true)
             || (t.xmit == LettingGo(s.xmit.id, false)
                 && (s.xmit.Checking? || (s.xmit.id < |Begun(s)| && s.xmit.off >= |Begun(s)[s.xmit.id]|)))
             || (s.xmit.Checking? && t.xmit == Sending(s.xmit.id, s.xmit.off))
    ensures PositionSound(t)
  {
    assert Begun(t) == Begun(s);
    hide Begun;
  }

  lemma ReportsKeep(cfg: TxConfig, s: State, a: Action)
    requires WellSent(s) && Apply(cfg, s, a).Some?
    requires a.XmitReport? || a.XmitExit?
    ensures WellSent(Apply(cfg, s, a).value)
  {
    hide GoodStream, WindowSound, EmptyBetween, NextUnwritten;
    MovedAlong(s, Apply(cfg, s, a).value);
  }

  // ---- The rest of the session ------------------------------------------------------------------

  lemma EnqueueKeeps(s: State, bundle: Octets)
    requires WellSent(s) && !s.stopped
    ensures WellSent(ApplyEnqueue(s, bundle))
  {
    hide GoodStream;
    var t := ApplyEnqueue(s, bundle);
    assert Begun(t) == Begun(s);
    assert forall k :: 0 <= k < |s.window| && Windowed(s, k) ==> Windowed(t, k);
  }

  /** Nothing of the books is touched, except that the session may be told to stop. */
  lemma Untouched(s: State, t: State)
    requires WellSent(s)
    requires t == s.(rcv := t.rcv, stopped := t.stopped, reported := t.reported, dead := t.dead)
    requires s.stopped ==> t.stopped
    ensures WellSent(t)
  {
    hide GoodStream, EmptyBetween, NextUnwritten, EndOff;
    assert Begun(t) == Begun(s);
    assert forall k :: 0 <= k < |s.window| && Windowed(s, k) ==> Windowed(t, k);
  }

  lemma DrainKeeps(s: State)
    requires WellSent(s) && s.xmit.Exited?
    ensures WellSent(ApplyDrain(s))
  {
    hide GoodStream;
    assert Begun(ApplyDrain(s)) == Begun(s);
  }

  lemma StepKeeps(cfg: TxConfig, s: State, a: Action)
    requires cfg.segmentMtu >= 1 && WellSent(s) && Apply(cfg, s, a).Some?
    ensures WellSent(Apply(cfg, s, a).value)
  {
    hide QueueSound, FailureSound, PositionSound, GoodStream, Windowed;
    match a
    case Enqueue(bundle) => EnqueueKeeps(s, bundle);
    case BeginXfer => BeginKeeps(s);
    case WriteSegment => WriteKeeps(cfg, s);
    case LetGo => OnWindow(s); LetGoKeeps(s, |s.window| - 1, s.xmit.failed);
    case RecvAck(id, length) => AckKeepsWindow(s, id, length); RepliesKeep(s, ApplyAck(s, id, length));
    case RecvRefuse(reason, id) => RefuseKeepsWindow(s, reason, id); RepliesKeep(s, ApplyRefuse(s, reason, id));
    case CheckRefused => MovesKeep(cfg, s, a);
    case LoopEnds => MovesKeep(cfg, s, a);
    case XmitFails => MovesKeep(cfg, s, a);
    case XmitReport => ReportsKeep(cfg, s, a);
    case XmitExit => ReportsKeep(cfg, s, a);
    case Drain => DrainKeeps(s);
    case _ => Untouched(s, Apply(cfg, s, a).value);
  }

  /** Whatever the peer replies and however the threads interleave, the segments written
      are a stream of the bundles begun, in the order they were accepted. */
  lemma {:induction false} AlwaysWellSent(cfg: TxConfig, actions: seq<Action>)
    requires cfg.segmentMtu >= 1 && Run(cfg, actions).Some?
    ensures WellSent(Run(cfg, actions).value)
  {
    if actions != [] {
      var front := actions[..|actions| - 1];
      AlwaysWellSent(cfg, front);
      StepKeeps(cfg, Run(cfg, front).value, actions[|actions| - 1]);
    }
  }
}
