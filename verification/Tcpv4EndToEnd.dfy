/** Two ends of a session joined by FIFO channels: every segment the sender writes reaches
    the receiver in order, every reply the receiver writes reaches the sender in order, and
    in between all the threads of both ends interleave freely. */
module Tcpv4EndToEnd {
  import opened Octets
  import opened Options
  import opened Tcpv4Msg
  import opened Tcpv4Receive
  import opened Tcpv4Stream
  import opened Tcpv4TxStream
  import opened Tcpv4Window
  import opened Tcpv4Honest
  import Tx = Tcpv4Tx
  import Rx = Tcpv4Rx

  datatype Ends = Ends(receiver: Config, sender: Tx.TxConfig)

  /** got: how many of the receiver's replies the sender has handled. */
  datatype Sys = Sys(tx: Tx.State, rx: Rx.State, got: nat)

  const INITIAL := Sys(Tx.INITIAL, Rx.INITIAL, 0)

  datatype Step =
    | SenderStep(a: Tx.Action)
    | ReceiverStep(b: Rx.Action)
    | Arrive   // the receiver begins on the next segment written
    | Hear     // the sender handles the next reply written

  ghost function Lift(sys: Sys, r: Option<Rx.State>): Option<Sys> {
    if r.None? then None else Some(sys.(rx := r.value))
  }

  /** The sender handles a reply. */
  function HearAction(e: Event): Tx.Action
    requires !e.Deliver?
  {
    if e.Ack? then Tx.RecvAck(e.id, e.length) else Tx.RecvRefuse(e.reason, e.refusedId)
  }

  ghost function Apply(ends: Ends, sys: Sys, step: Step): Option<Sys> {
    match step
    case SenderStep(a) =>
      if a.RecvAck? || a.RecvRefuse? then None
      else
        var t := Tx.Apply(ends.sender, sys.tx, a);
        if t.None? then None else Some(sys.(tx := t.value))
    case ReceiverStep(b) =>
      if b.Begin? then None
      else Lift(sys, Rx.Apply(ends.receiver, sys.rx, b))
    case Arrive =>
      if |sys.rx.items| >= |sys.tx.sent| then None
      else Lift(sys, Rx.Apply(ends.receiver, sys.rx, Rx.Begin(sys.tx.sent[|sys.rx.items|])))
    case Hear =>
      var replies := Replies(sys.rx.log);
      if sys.got >= |replies| || replies[sys.got].Deliver? then None
      else
        var t := Tx.Apply(ends.sender, sys.tx, HearAction(replies[sys.got]));
        if t.None? then None else Some(sys.(tx := t.value, got := sys.got + 1))
  }

  ghost function Run(ends: Ends, steps: seq<Step>): Option<Sys> {
    if steps == [] then Some(INITIAL)
    else
      var before := Run(ends, steps[..|steps| - 1]);
      if before.None? then None else Apply(ends, before.value, steps[|steps| - 1])
  }

  /** One more step of a run. */
  lemma Then(ends: Ends, steps: seq<Step>, sys: Sys, step: Step, next: Sys)
    requires Run(ends, steps) == Some(sys) && Apply(ends, sys, step) == Some(next)
    ensures Run(ends, steps + [step]) == Some(next)
  {
    hide Apply;
    assert (steps + [step])[..|steps|] == steps;
  }

  // ---- What holds in every run ---------------------------------------------------------------

  ghost predicate Joined(sys: Sys) {
    && |sys.rx.items| <= |sys.tx.sent| && Segs(sys.rx.items) == sys.tx.sent[..|sys.rx.items|]
    && sys.got <= |Replies(sys.rx.log)|
    && (sys.tx.drained ==> sys.tx.rcv.Closed?)
  }

  /** How far the replies handled by the sender have come. */
  function Heard(sys: Sys): Track
    requires sys.got <= |Replies(sys.rx.log)|
  {
    TrackOf(Begun(sys.tx), Replies(sys.rx.log)[..sys.got])
  }

  ghost predicate Inv(ends: Ends, sys: Sys) {
    && WellSent(sys.tx) && Rx.Inv(ends.receiver, sys.rx) && Joined(sys)
    && HonestSender(sys.rx.log, sys.tx)
    && (!sys.tx.drained ==> Shape(sys.tx, Heard(sys)))
  }

  /** The receiver's replies are in order with respect to what the sender has begun. */
  lemma RepliesInOrder(ends: Ends, sys: Sys)
    requires WellSent(sys.tx) && Rx.Inv(ends.receiver, sys.rx) && Joined(sys)
    ensures AllInOrder(Begun(sys.tx), Replies(sys.rx.log))
    ensures AckedAreDelivered(Begun(sys.tx), sys.rx.log)
    ensures Tracking(Begun(sys.tx), Heard(sys))
  {
    hide InOrder, Advance, Follows, Answered, Tcpv4Receive.Receive, Rx.Tracks;
    var begun, all := Begun(sys.tx), Events(ends.receiver, sys.rx.items);
    GoodStreamPrefix(begun, sys.tx.sent, |sys.rx.items|);
    StreamAnswered(ends.receiver, begun, sys.rx.items);
    LogIsPrefix(ends.receiver, sys.rx);
    RepliesMonotone(sys.rx.log, all);
    var replies := Replies(sys.rx.log);
    assert Replies(all)[..|replies|] == replies;
    AllInOrderPrefix(begun, Replies(all), |replies|);
    AllInOrderPrefix(begun, replies, sys.got);
    TrackBounds(begun, replies[..sys.got]);
    AckedPrefix(begun, sys.rx.log, all);
  }

  lemma LogIsPrefix(cfg: Config, s: Rx.State)
    requires Rx.Inv(cfg, s)
    ensures s.log <= Events(cfg, s.items)
  {
    hide Rx.Tracks, Rx.HandOffSound, Events;
    assert s.log <= s.log + Rx.DlvOwes(s) <= s.log + Rx.DlvOwes(s) + Rx.RxOwes(s);
  }

  lemma AckedPrefix(begun: seq<Octets>, a: seq<Event>, b: seq<Event>)
    requires AckedAreDelivered(begun, b) && a <= b
    ensures AckedAreDelivered(begun, a)
  {
    assert forall k :: 0 <= k < |a| ==> a[k] == b[k];
  }

  // ---- The sender's own steps ------------------------------------------------------------------

  /** One sender thread's step adds to the bundles accepted and to the segments written. */
  predicate Grows(s: Tx.State, t: Tx.State) {
    && s.accepted <= t.accepted && s.sent <= t.sent && s.nextId <= t.nextId
    && (s.drained ==> t.drained) && (s.rcv.Closed? ==> t.rcv.Closed?)
  }

  lemma SenderGrows(cfg: Tx.TxConfig, s: Tx.State, a: Tx.Action)
    requires Tx.Apply(cfg, s, a).Some?
    ensures Grows(s, Tx.Apply(cfg, s, a).value)
  {
    hide Tx.FindId, Tx.CutSegment, Tx.Reverse, Tx.BufferEnd, Tx.HasRoom, Tx.Without;
    hide Tx.ApplyAck, Tx.ApplyRefuse, Tx.ApplyLetGo;
    if a.RecvAck? {
      AckGrows(s, a.id, a.length);
    } else if a.RecvRefuse? {
      RefuseGrows(s, a.reason, a.id);
    } else if a.LetGo? {
      LetGoGrows(s, Tx.FindId(s.window, s.xmit.id), s.xmit.failed);
    }
  }

  lemma AckGrows(s: Tx.State, id: nat, length: nat)
    requires s.rcv.Listening?
    ensures Grows(s, Tx.ApplyAck(s, id, length))
  {
    hide Tx.Without;
  }

  lemma RefuseGrows(s: Tx.State, reason: uint8, id: nat)
    requires s.rcv.Listening?
    ensures Grows(s, Tx.ApplyRefuse(s, reason, id))
  {
    hide Tx.Without, Tx.FindId;
  }

  lemma LetGoGrows(s: Tx.State, i: nat, failed: bool)
    requires i < |s.window|
    ensures Grows(s, Tx.ApplyLetGo(s, i, failed))
  {
    hide Tx.Without;
  }

  lemma DrainsOnce(cfg: Tx.TxConfig, s: Tx.State, a: Tx.Action)
    requires Tx.Apply(cfg, s, a).Some? && !a.RecvAck? && !a.RecvRefuse?
    ensures Tx.Apply(cfg, s, a).value.drained && !s.drained ==> a.Drain?
    ensures a.Drain? ==> Tx.Apply(cfg, s, a).value.rcv.Closed? && Tx.Apply(cfg, s, a).value.drained
  {
    hide Tx.FindId, Tx.CutSegment, Tx.Reverse, Tx.BufferEnd, Tx.HasRoom, Tx.Without;
  }

  lemma BegunGrows(s: Tx.State, t: Tx.State)
    requires WellSent(s) && Grows(s, t)
    ensures Begun(s) <= Begun(t)
  {
    hide WindowSound, PositionSound, GoodStream;
  }

  lemma SenderStepShape(cfg: Tx.TxConfig, s: Tx.State, a: Tx.Action, replies: seq<Event>)
    requires cfg.segmentMtu >= 1 && WellSent(s) && Tx.Apply(cfg, s, a).Some? && !a.RecvAck? && !a.RecvRefuse?
    requires AllInOrder(Begun(s), replies) && Tracking(Begun(s), TrackOf(Begun(s), replies))
    requires !s.drained ==> Shape(s, TrackOf(Begun(s), replies))
    ensures var t := Tx.Apply(cfg, s, a).value;
            && WellSent(t) && Grows(s, t)
            && (t.drained && !s.drained ==> t.rcv.Closed?)
            && (!t.drained ==> Shape(t, TrackOf(Begun(t), replies)))
  {
    hide Tx.Apply, WellSent, Shape, AllInOrder, TrackOf, Tracking, Begun;
    var t := Tx.Apply(cfg, s, a).value;
    StepKeeps(cfg, s, a);
    SenderGrows(cfg, s, a);
    DrainsOnce(cfg, s, a);
    BegunGrows(s, t);
    TrackMore(Begun(s), Begun(t), replies);
    if !t.drained {
      StepShape(cfg, s, a, TrackOf(Begun(s), replies));
    }
  }

  lemma SenderKeeps(ends: Ends, sys: Sys, a: Tx.Action)
    requires ends.sender.segmentMtu >= 1 && Inv(ends, sys) && Apply(ends, sys, SenderStep(a)).Some?
    ensures Inv(ends, Apply(ends, sys, SenderStep(a)).value)
  {
    hide Tx.Apply, WellSent, Rx.Inv, HonestSender, Shape, AllInOrder, TrackOf, Tracking, Begun, Replies, Segs;
    RepliesInOrder(ends, sys);
    SenderStepHonest(ends.sender, sys.rx.log, sys.tx, a);
    AllInOrderPrefix(Begun(sys.tx), Replies(sys.rx.log), sys.got);
    SenderStepShape(ends.sender, sys.tx, a, Replies(sys.rx.log)[..sys.got]);
  }

  // ---- The receiver's steps --------------------------------------------------------------------

  lemma ReceiverGrows(cfg: Config, s: Rx.State, b: Rx.Action)
    requires Rx.Apply(cfg, s, b).Some?
    ensures var t := Rx.Apply(cfg, s, b).value;
            s.log <= t.log
            && t.items == if b.Begin? then s.items + [Item(b.seg, s.ending)] else s.items
  {
    hide Rx.ApplyBegin;
    match b
    case Begin(_) =>
    case Take =>
    case HandOver =>
    case WriteAck(_) =>
    case DlvAck(_) =>
    case _ =>
  }

  /** A longer log takes nothing back. */
  lemma LongerLog(ends: Ends, sys: Sys, rx: Rx.State)
    requires Inv(ends, sys) && sys.rx.log <= rx.log && Rx.Inv(ends.receiver, rx) && Joined(sys.(rx := rx))
    ensures Inv(ends, sys.(rx := rx))
  {
    hide Rx.Inv, WellSent, HonestSender, Shape, TrackOf, Joined;
    SenderHonestLater(sys.rx.log, rx.log, sys.tx, sys.tx.accepted);
    RepliesMonotone(sys.rx.log, rx.log);
    assert sys.got <= |Replies(sys.rx.log)| by { GotBound(sys); }
    assert Replies(rx.log)[..sys.got] == Replies(sys.rx.log)[..sys.got];
  }

  lemma GotBound(sys: Sys)
    requires Joined(sys)
    ensures sys.got <= |Replies(sys.rx.log)|
  {}

  /** The receiver has taken the next segment, or none. */
  lemma JoinedStill(sys: Sys, rx: Rx.State)
    requires Joined(sys) && sys.rx.log <= rx.log
    requires rx.items == sys.rx.items
             || (|sys.rx.items| < |sys.tx.sent|
                 && exists ending :: rx.items == sys.rx.items + [Item(sys.tx.sent[|sys.rx.items|], ending)])
    ensures Joined(sys.(rx := rx))
  {
    RepliesMonotone(sys.rx.log, rx.log);
    SegsLength(sys.rx.items);
    hide Replies;
    if rx.items != sys.rx.items {
      assert rx.items[..|rx.items| - 1] == sys.rx.items;
    }
  }

  lemma ReceiverKeeps(ends: Ends, sys: Sys, b: Rx.Action)
    requires Inv(ends, sys) && Rx.Apply(ends.receiver, sys.rx, b).Some?
    requires b.Begin? ==> |sys.rx.items| < |sys.tx.sent| && b.seg == sys.tx.sent[|sys.rx.items|]
    ensures Inv(ends, sys.(rx := Rx.Apply(ends.receiver, sys.rx, b).value))
  {
    var rx := Rx.Apply(ends.receiver, sys.rx, b).value;
    InvParts(ends, sys);
    hide Inv, Joined;
    ReceiverGrows(ends.receiver, sys.rx, b);
    Rx.StepKeeps(ends.receiver, sys.rx, b);
    hide Rx.Apply, Rx.Inv;
    JoinedStill(sys, rx);
    LongerLog(ends, sys, rx);
  }

  lemma InvParts(ends: Ends, sys: Sys)
    requires Inv(ends, sys)
    ensures Rx.Inv(ends.receiver, sys.rx) && Joined(sys)
  {
    hide Rx.Inv, Joined, WellSent, HonestSender, Shape;
  }

  // ---- A reply is heard ------------------------------------------------------------------------

  lemma HeardOne(ends: Ends, sys: Sys)
    requires Inv(ends, sys) && sys.got < |Replies(sys.rx.log)|
    ensures var e := Replies(sys.rx.log)[sys.got];
            && InOrder(Begun(sys.tx), Heard(sys), e)
            && TrackOf(Begun(sys.tx), Replies(sys.rx.log)[..sys.got + 1]) == Advance(Begun(sys.tx), Heard(sys), e)
  {
    hide InOrder, Advance, WellSent, Shape, Rx.Inv, HonestSender;
    RepliesInOrder(ends, sys);
    var replies := Replies(sys.rx.log);
    AllInOrderPrefix(Begun(sys.tx), replies, sys.got);
    assert replies[..sys.got + 1][..sys.got] == replies[..sys.got];
  }

  /** An acknowledgment of a whole transfer proves its delivery. */
  lemma WholeAckIsDelivery(ends: Ends, sys: Sys, e: Event)
    requires Inv(ends, sys) && e in Replies(sys.rx.log) && AcksWhole(Begun(sys.tx), e)
    ensures Delivered(sys.rx.log, sys.tx.accepted, e.id)
  {
    RepliesInOrder(ends, sys);
    RepliesAreEvents(sys.rx.log, e);
    hide Inv, AllInOrder, Tracking;
    var k :| 0 <= k < |sys.rx.log| && sys.rx.log[k] == e;
  }

  lemma {:induction false} RepliesAreEvents(events: seq<Event>, e: Event)
    requires e in Replies(events)
    ensures e in events
  {
    if events != [] && e in Replies(events[..|events| - 1]) {
      RepliesAreEvents(events[..|events| - 1], e);
    }
  }

  /** What the sender makes of a reply. */
  function Handled(s: Tx.State, e: Event): Tx.State
    requires !e.Deliver?
  {
    if e.Ack? then Tx.ApplyAck(s, e.id, e.length) else Tx.ApplyRefuse(s, e.reason, e.refusedId)
  }

  lemma HandledWell(s: Tx.State, tr: Track, e: Event)
    requires WellSent(s) && Tracking(Begun(s), tr) && InOrder(Begun(s), tr, e)
    ensures WellSent(Handled(s, e)) && RepliesFrame(s, Handled(s, e))
    ensures Shape(s, tr) ==> Shape(Handled(s, e), Advance(Begun(s), tr, e))
  {
    hide Shape, Windowed, PositionSound, GoodStream, QueueSound;
    if e.Ack? {
      AckKeepsWindow(s, e.id, e.length);
      if Shape(s, tr) {
        AckShape(s, tr, e.flags, e.id, e.length);
      }
    } else {
      RefuseKeepsWindow(s, e.reason, e.refusedId);
      if Shape(s, tr) {
        RefuseShape(s, tr, e.reason, e.refusedId);
      }
    }
    hide InOrder, Tx.ApplyAck, Tx.ApplyRefuse;
    RepliesKeep(s, Handled(s, e));
  }

  lemma HandledHonest(log: seq<Event>, s: Tx.State, e: Event)
    requires HonestSender(log, s) && WellSent(s) && !e.Deliver?
    requires AcksWhole(Begun(s), e) ==> Delivered(log, s.accepted, e.id)
    requires e.Refuse? ==> e.reason != REFUSE_COMPLETED
    ensures HonestSender(log, Handled(s, e))
  {
    hide HonestSender, PositionSound, GoodStream, FailureSound, Delivered;
    hide Tx.ApplyAck, Tx.ApplyRefuse;
    if e.Ack? {
      if e.id < s.nextId {
        AckHonest(log, s, e.id, e.length);
      } else {
        LateAck(s, e.id, e.length);
      }
    } else {
      RefuseHonest(log, s, e.reason, e.refusedId);
    }
  }

  lemma LateAck(s: Tx.State, id: nat, length: nat)
    requires WindowSound(s) && id >= s.nextId
    ensures Tx.ApplyAck(s, id, length) == s
  {
    assert s.window != [] ==> Windowed(s, 0);
  }

  lemma Hears(ends: Ends, sys: Sys)
    requires Apply(ends, sys, Hear).Some?
    ensures sys.got < |Replies(sys.rx.log)| && !Replies(sys.rx.log)[sys.got].Deliver? && sys.tx.rcv.Listening?
    ensures Apply(ends, sys, Hear).value
            == sys.(tx := Handled(sys.tx, Replies(sys.rx.log)[sys.got]), got := sys.got + 1)
  {}

  lemma HearKeeps(ends: Ends, sys: Sys)
    requires Inv(ends, sys) && Apply(ends, sys, Hear).Some?
    ensures Inv(ends, Apply(ends, sys, Hear).value)
  {
    Hears(ends, sys);
    RepliesInOrder(ends, sys);
    HeardOne(ends, sys);
    hide Apply, Handled, Rx.Inv, AllInOrder, TrackOf, AckedAreDelivered, Tracking, WellSent, Shape, HonestSender, Segs;
    var e, s := Replies(sys.rx.log)[sys.got], sys.tx;
    HandledWell(s, Heard(sys), e);
    if AcksWhole(Begun(s), e) {
      WholeAckIsDelivery(ends, sys, e);
    }
    HandledHonest(sys.rx.log, s, e);
  }

  lemma {:induction false} Always(ends: Ends, steps: seq<Step>)
    requires ends.sender.segmentMtu >= 1 && Run(ends, steps).Some?
    ensures Inv(ends, Run(ends, steps).value)
  {
    hide Inv, Apply;
    if steps == [] {
      InitiallyInv(ends);
    } else {
      var front, step := steps[..|steps| - 1], steps[|steps| - 1];
      Always(ends, front);
      StepKeepsInv(ends, Run(ends, front).value, step);
    }
  }

  lemma InitiallyInv(ends: Ends)
    ensures Inv(ends, INITIAL)
  {
    assert Heard(INITIAL) == Track(0, 0);
  }

  lemma StepKeepsInv(ends: Ends, sys: Sys, step: Step)
    requires ends.sender.segmentMtu >= 1 && Inv(ends, sys) && Apply(ends, sys, step).Some?
    ensures Inv(ends, Apply(ends, sys, step).value)
  {
    hide Inv;
    match step
    case SenderStep(a) => SenderKeeps(ends, sys, a);
    case ReceiverStep(b) => ReceiverKeeps(ends, sys, b);
    case Arrive => ReceiverKeeps(ends, sys, Rx.Begin(sys.tx.sent[|sys.rx.items|]));
    case Hear => HearKeeps(ends, sys);
  }

  // ---- The two ends together -------------------------------------------------------------------

  /** In every run the replies written come in transfer order, each covers more of its
      transfer than the last, and an acknowledgment of the whole of one comes directly after
      the delivery of its bundle. */
  lemma RepliesAlwaysInOrder(ends: Ends, steps: seq<Step>)
    requires ends.sender.segmentMtu >= 1 && Run(ends, steps).Some?
    ensures var sys := Run(ends, steps).value;
            AllInOrder(Begun(sys.tx), Replies(sys.rx.log)) && AckedAreDelivered(Begun(sys.tx), sys.rx.log)
  {
    Always(ends, steps);
    hide Run, AllInOrder, AckedAreDelivered, WellSent, Shape, HonestSender;
    RepliesInOrder(ends, Run(ends, steps).value);
  }

  /** When the sender reports a bundle as delivered, the receiving node's BP already has
      exactly that bundle. */
  lemma SuccessMeansDelivered(ends: Ends, steps: seq<Step>, n: nat)
    requires ends.sender.segmentMtu >= 1 && Run(ends, steps).Some?
    requires Tx.Outcome(n, true) in Run(ends, steps).value.tx.reported
    ensures var sys := Run(ends, steps).value; Delivered(sys.rx.log, sys.tx.accepted, n)
  {
    Always(ends, steps);
    hide Run, Delivered, Rx.Inv, WellSent, Shape, Joined;
    var reported := Run(ends, steps).value.tx.reported;
    var k :| 0 <= k < |reported| && reported[k] == Tx.Outcome(n, true);
  }

  /** The next acknowledgment to be handled is one the sender cannot place exactly when an
      empty bundle went before its transfer, or its transfer was given up by this end. */
  lemma UnexpectedExactlyWhen(ends: Ends, steps: seq<Step>)
    requires ends.sender.segmentMtu >= 1 && Run(ends, steps).Some?
    requires var sys := Run(ends, steps).value;
             !sys.tx.drained && sys.got < |Replies(sys.rx.log)| && Replies(sys.rx.log)[sys.got].Ack?
    ensures var sys := Run(ends, steps).value;
            var e := Replies(sys.rx.log)[sys.got];
            && e.id < |sys.tx.accepted|
            && (Tx.AckUnexpected(sys.tx, e.id, e.length) <==>
                  (exists z :: 0 <= z < e.id && sys.tx.accepted[z] == []) || sys.tx.failedId == Some(e.id as nat))
  {
    Always(ends, steps);
    hide Run, Inv;
    UnexpectedNow(ends, Run(ends, steps).value);
  }

  lemma UnexpectedNow(ends: Ends, sys: Sys)
    requires Inv(ends, sys) && !sys.tx.drained && sys.got < |Replies(sys.rx.log)| && Replies(sys.rx.log)[sys.got].Ack?
    ensures var e := Replies(sys.rx.log)[sys.got];
            && e.id < |sys.tx.accepted|
            && (Tx.AckUnexpected(sys.tx, e.id, e.length) <==>
                  (exists z :: 0 <= z < e.id && sys.tx.accepted[z] == []) || sys.tx.failedId == Some(e.id as nat))
  {
    var e := Replies(sys.rx.log)[sys.got];
    HeardOne(ends, sys);
    RepliesInOrder(ends, sys);
    hide Rx.Inv, HonestSender, Shape, WellSent, AllInOrder, TrackOf, Advance, AckedAreDelivered, Replies, Segs;
    hide Tx.AckUnexpected;
    UnexpectedIff(sys.tx, Heard(sys), e.flags, e.id, e.length);
    BegunIsPrefix(sys.tx);
    assert NoneEmptyBelow(Begun(sys.tx), e.id) <==> !exists z :: 0 <= z < e.id && sys.tx.accepted[z] == [];
  }

  lemma BegunIsPrefix(s: Tx.State)
    ensures Begun(s) <= s.accepted
  {}

  /** Unless a bundle was empty or was given up by this end, transfers leave the window in
      the order in which they were sent: what is left are the latest, without a gap. */
  lemma RetiredInOrder(ends: Ends, steps: seq<Step>)
    requires ends.sender.segmentMtu >= 1 && Run(ends, steps).Some?
    requires var tx := Run(ends, steps).value.tx;
             tx.failedId == None && forall n :: 0 <= n < |tx.accepted| ==> tx.accepted[n] != []
    ensures var tx := Run(ends, steps).value.tx;
            |tx.window| <= tx.nextId
            && forall k :: 0 <= k < |tx.window| ==> tx.window[k].serial == tx.nextId - |tx.window| + k
  {
    Always(ends, steps);
    hide Run, Rx.Inv, HonestSender, WellSent, Shape;
    NoGaps(Run(ends, steps).value.tx, Heard(Run(ends, steps).value));
  }

  lemma NoGaps(tx: Tx.State, tr: Track)
    requires WellSent(tx) && (!tx.drained ==> Shape(tx, tr))
    requires tx.failedId == None && forall n :: 0 <= n < |tx.accepted| ==> tx.accepted[n] != []
    ensures |tx.window| <= tx.nextId
    ensures forall k :: 0 <= k < |tx.window| ==> tx.window[k].serial == tx.nextId - |tx.window| + k
  {
    hide PositionSound, GoodStream;
    forall k | 0 <= k < |tx.window| ensures tx.window[k].serial == tx.nextId - |tx.window| + k {
      assert Windowed(tx, k);
    }
  }

  /** Segments of a well-formed stream end the receiver's session in just two cases: one
      longer than the Segment MRU, and a START while an abandoned transfer is unfinished. */
  lemma SessionEndsExactlyWhen(ends: Ends, steps: seq<Step>)
    requires ends.sender.segmentMtu >= 1 && Run(ends, steps).Some?
    requires var sys := Run(ends, steps).value; sys.rx.pc.Reading? && |sys.rx.items| < |sys.tx.sent|
    ensures var sys := Run(ends, steps).value;
            var n := |sys.rx.items|;
            var seg := sys.tx.sent[n];
            && Apply(ends, sys, Arrive).Some?
            && (n > 0 ==> sys.tx.sent[n - 1].id < |sys.tx.accepted|)
            && (Apply(ends, sys, Arrive).value.rx.pc.Gone? <==>
                  || |seg.data| > ends.receiver.segmentMru
                  || (seg.Start() && n > 0 && EndOff(sys.tx.sent[..n]) < |sys.tx.accepted[sys.tx.sent[n - 1].id]|))
  {
    Always(ends, steps);
    var sys := Run(ends, steps).value;
    hide Run;
    ArrivalJudged(ends, sys);
  }

  lemma Arrives(ends: Ends, sys: Sys)
    requires sys.rx.pc.Reading? && |sys.rx.items| < |sys.tx.sent|
    ensures Apply(ends, sys, Arrive)
            == Some(sys.(rx := Rx.ApplyBegin(ends.receiver, sys.rx, sys.tx.sent[|sys.rx.items|])))
  {}

  lemma ArrivalJudged(ends: Ends, sys: Sys)
    requires Inv(ends, sys) && sys.rx.pc.Reading? && |sys.rx.items| < |sys.tx.sent|
    ensures var n := |sys.rx.items|;
            var seg := sys.tx.sent[n];
            && Apply(ends, sys, Arrive).Some?
            && (n > 0 ==> sys.tx.sent[n - 1].id < |sys.tx.accepted|)
            && (Apply(ends, sys, Arrive).value.rx.pc.Gone? <==>
                  || |seg.data| > ends.receiver.segmentMru
                  || (seg.Start() && n > 0 && EndOff(sys.tx.sent[..n]) < |sys.tx.accepted[sys.tx.sent[n - 1].id]|))
  {
    var n, begun, cfg := |sys.rx.items|, Begun(sys.tx), ends.receiver;
    var seg, r := sys.tx.sent[n], After(cfg, sys.rx.items);
    NextArrival(ends, sys);
    BegunIsPrefix(sys.tx);
    Arrives(ends, sys);
    hide Apply, Rx.Apply;
    hide Inv, Receive, Follows, Answered, TrackOf, Replies, Events, EndsSession, Begun, EndOff, After;
    hide Rx.ApplyBegin, Rx.Same;
    EndsExactlyWhen(cfg, begun, sys.tx.sent[..n], r, TrackOf(begun, Replies(Events(cfg, sys.rx.items))), seg);
    BeginEnds(cfg, sys.rx, r, seg);
  }

  /** The receiver is ready for the next segment of the stream. */
  lemma NextArrival(ends: Ends, sys: Sys)
    requires Inv(ends, sys) && sys.rx.pc.Reading? && |sys.rx.items| < |sys.tx.sent|
    ensures var n, r := |sys.rx.items|, After(ends.receiver, sys.rx.items);
            && Follows(Begun(sys.tx), sys.tx.sent[..n], sys.tx.sent[n])
            && Answered(Begun(sys.tx), sys.tx.sent[..n], r,
                        TrackOf(Begun(sys.tx), Replies(Events(ends.receiver, sys.rx.items))))
            && Rx.Same(sys.rx, r)
  {
    hide Follows, Answered, HonestSender, Shape, WindowSound, FailureSound, PositionSound, QueueSound;
    hide TrackOf, Replies, Events, Receive;
    hide AllInOrder, AckedAreDelivered;
    hide Rx.Refines, Rx.HandOffSound, Begun;
    var n := |sys.rx.items|;
    GoodStreamPrefix(Begun(sys.tx), sys.tx.sent, n + 1);
    assert sys.tx.sent[..n + 1][..n] == sys.tx.sent[..n];
    StreamAnswered(ends.receiver, Begun(sys.tx), sys.rx.items);
  }

  lemma BeginEnds(cfg: Config, s: Rx.State, r: Reassembly, seg: Segment)
    requires Rx.Same(s, r)
    ensures Rx.ApplyBegin(cfg, s, seg).pc.Gone? <==> EndsSession(cfg, r, seg)
  {
    hide Refusal, Opened;
  }

  lemma EndsExactlyWhen(cfg: Config, begun: seq<Octets>, sent: seq<Segment>, r: Reassembly, tr: Track, seg: Segment)
    requires Answered(begun, sent, r, tr) && Follows(begun, sent, seg)
    ensures sent != [] ==> sent[|sent| - 1].id < |begun|
    ensures EndsSession(cfg, r, seg) <==>
              || |seg.data| > cfg.segmentMru
              || (seg.Start() && sent != [] && EndOff(sent) < |begun[sent[|sent| - 1].id]|)
  {}
}
