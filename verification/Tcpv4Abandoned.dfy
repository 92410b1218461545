/** In every run of two ends: a sender goes on from an unfinished transfer to the next only
    after it has heard the receiver refuse it. */
module Tcpv4Abandoned {
  import opened Options
  import opened Tcpv4Receive
  import opened Tcpv4Stream
  import opened Tcpv4TxStream
  import opened Tcpv4Window
  import opened Tcpv4Abandon
  import opened Tcpv4EndToEnd
  import Tx = Tcpv4Tx
  import Rx = Tcpv4Rx

  /** The replies the sender has handled. */
  function HeardReplies(sys: Sys): seq<Event> {
    var replies := Replies(sys.rx.log);
    if sys.got <= |replies| then replies[..sys.got] else replies
  }

  ghost predicate AllExcused(sys: Sys) { Excused(sys.tx, HeardReplies(sys)) }

  lemma SenderStepExcused(ends: Ends, sys: Sys, a: Tx.Action)
    requires ends.sender.segmentMtu >= 1 && Inv(ends, sys) && AllExcused(sys)
    requires Apply(ends, sys, SenderStep(a)).Some?
    ensures AllExcused(Apply(ends, sys, SenderStep(a)).value)
  {
    WellSentIn(ends, sys);
    hide Inv, Excused, WellSent, Tx.Apply, Replies;
    StepExcused(ends.sender, sys.tx, a, HeardReplies(sys));
  }

  lemma WellSentIn(ends: Ends, sys: Sys)
    requires Inv(ends, sys)
    ensures WellSent(sys.tx) && Rx.Inv(ends.receiver, sys.rx) && Joined(sys)
    ensures !sys.tx.drained ==> Shape(sys.tx, Heard(sys))
  {
    hide WellSent, Rx.Inv, Shape;
  }

  lemma ReceiverStepExcused(sys: Sys, rx: Rx.State)
    requires AllExcused(sys) && Joined(sys) && sys.rx.log <= rx.log
    ensures AllExcused(sys.(rx := rx))
  {
    RepliesMonotone(sys.rx.log, rx.log);
    hide Replies, Excused;
    assert HeardReplies(sys.(rx := rx)) == HeardReplies(sys);
  }

  /** What is known when a reply is heard. */
  lemma HearFacts(ends: Ends, sys: Sys)
    requires Inv(ends, sys) && Apply(ends, sys, Hear).Some?
    ensures sys.got < |Replies(sys.rx.log)| && !Replies(sys.rx.log)[sys.got].Deliver?
    ensures Apply(ends, sys, Hear).value
            == sys.(tx := Handled(sys.tx, Replies(sys.rx.log)[sys.got]), got := sys.got + 1)
    ensures WellSent(sys.tx) && Shape(sys.tx, Heard(sys)) && Tracking(Begun(sys.tx), Heard(sys))
    ensures InOrder(Begun(sys.tx), Heard(sys), Replies(sys.rx.log)[sys.got])
  {
    Hears(ends, sys);
    WellSentIn(ends, sys);
    NotDrained(sys);
    hide Apply, Handled, Inv, WellSent, Rx.Inv, Shape;
    HeardOne(ends, sys);
    RepliesInOrder(ends, sys);
  }

  lemma HearExcused(ends: Ends, sys: Sys)
    requires Inv(ends, sys) && AllExcused(sys) && Apply(ends, sys, Hear).Some?
    ensures AllExcused(Apply(ends, sys, Hear).value)
  {
    HearFacts(ends, sys);
    hide Inv, Apply, Handled, WellSent, Shape, Tracking, InOrder, Excused, Replies, Begun;
    var e, heard := Replies(sys.rx.log)[sys.got], HeardReplies(sys);
    HandledExcused(sys.tx, Heard(sys), e, heard);
    assert HeardReplies(Apply(ends, sys, Hear).value) == heard + [e];
  }

  lemma NotDrained(sys: Sys)
    requires Joined(sys) && sys.tx.rcv.Listening?
    ensures !sys.tx.drained
  {}

  /** A reply that is handled excuses what it causes. */
  lemma HandledExcused(s: Tx.State, tr: Track, e: Event, heard: seq<Event>)
    requires WellSent(s) && Shape(s, tr) && Tracking(Begun(s), tr) && InOrder(Begun(s), tr, e) && Excused(s, heard)
    ensures Excused(Handled(s, e), heard + [e])
  {
    hide Shape, Tracking, Excused;
    ExcusedLater(s, heard, heard + [e]);
    if e.Ack? {
      AckExcused(s, tr, e.flags, e.id, e.length, heard + [e]);
    } else {
      WindowOf(s);
      assert (heard + [e])[|heard|] == e;
      assert RefusalHeard(heard + [e], e.refusedId);
      RefuseExcused(s, heard + [e], e.reason, e.refusedId);
    }
  }

  lemma StepKeepsExcused(ends: Ends, sys: Sys, step: Step)
    requires ends.sender.segmentMtu >= 1 && Inv(ends, sys) && AllExcused(sys) && Apply(ends, sys, step).Some?
    ensures AllExcused(Apply(ends, sys, step).value)
  {
    WellSentIn(ends, sys);
    hide Inv, AllExcused, Joined, WellSent, Rx.Inv, Shape, Rx.Apply;
    match step
    case SenderStep(a) => SenderStepExcused(ends, sys, a);
    case ReceiverStep(b) =>
      ReceiverGrows(ends.receiver, sys.rx, b);
      ReceiverStepExcused(sys, Rx.Apply(ends.receiver, sys.rx, b).value);
    case Arrive =>
      var b := Rx.Begin(sys.tx.sent[|sys.rx.items|]);
      ReceiverGrows(ends.receiver, sys.rx, b);
      ReceiverStepExcused(sys, Rx.Apply(ends.receiver, sys.rx, b).value);
    case Hear => HearExcused(ends, sys);
  }

  lemma {:induction false} AlwaysExcused(ends: Ends, steps: seq<Step>)
    requires ends.sender.segmentMtu >= 1 && Run(ends, steps).Some?
    ensures AllExcused(Run(ends, steps).value)
  {
    hide Inv, Apply;
    if steps == [] {
      assert AllExcused(INITIAL);
    } else {
      hide AllExcused;
      var front, step := steps[..|steps| - 1], steps[|steps| - 1];
      Always(ends, front);
      AlwaysExcused(ends, front);
      StepKeepsExcused(ends, Run(ends, front).value, step);
    }
  }

  /** Wherever, in any run, a START follows a transfer j that is not finished, the sender had
      heard the receiver refuse j. */
  lemma AbandonedWasRefused(ends: Ends, steps: seq<Step>, k: nat)
    requires ends.sender.segmentMtu >= 1 && Run(ends, steps).Some?
    requires var tx := Run(ends, steps).value.tx;
             && 0 < k < |tx.sent| && tx.sent[k].Start()
             && tx.sent[k - 1].id < |tx.accepted| && EndOff(tx.sent[..k]) < |tx.accepted[tx.sent[k - 1].id]|
    ensures var sys := Run(ends, steps).value;
            && sys.got <= |Replies(sys.rx.log)|
            && RefusalHeard(Replies(sys.rx.log)[..sys.got], sys.tx.sent[k - 1].id)
  {
    AlwaysExcused(ends, steps);
    Always(ends, steps);
    var sys := Run(ends, steps).value;
    WellSentIn(ends, sys);
    hide Run, Inv, WellSent, Rx.Inv, Shape, EndOff;
    var heard, j := HeardReplies(sys), sys.tx.sent[k - 1].id;
    assert Unfinished(sys.tx.accepted, sys.tx.sent[..k]);
    assert RefusalHeard(heard, j);
  }

  /** A segment of the stream ends the receiver's session in just two cases: it is longer than
      the Segment MRU, or it is the START that follows a transfer which this receiver refused
      and the sender, having heard so, left unfinished. */
  lemma SessionEndsExactlyWhenRefused(ends: Ends, steps: seq<Step>)
    requires ends.sender.segmentMtu >= 1 && Run(ends, steps).Some?
    requires var sys := Run(ends, steps).value; sys.rx.pc.Reading? && |sys.rx.items| < |sys.tx.sent|
    ensures Apply(ends, Run(ends, steps).value, Arrive).Some?
    ensures var sys := Run(ends, steps).value;
            var seg := sys.tx.sent[|sys.rx.items|];
            Apply(ends, sys, Arrive).value.rx.pc.Gone? <==>
              || |seg.data| > ends.receiver.segmentMru
              || (seg.Start() && LeftRefused(sys))
  {
    hide Run, Apply, LeftRefused, EndOff, Replies, RefusalHeard;
    SessionEndsExactlyWhen(ends, steps);
    var sys := Run(ends, steps).value;
    if sys.tx.sent[|sys.rx.items|].Start() {
      LeftRefusedIs(ends, steps);
    }
  }

  lemma LeftRefusedIs(ends: Ends, steps: seq<Step>)
    requires ends.sender.segmentMtu >= 1 && Run(ends, steps).Some?
    requires var sys := Run(ends, steps).value;
             |sys.rx.items| < |sys.tx.sent| && sys.tx.sent[|sys.rx.items|].Start()
    ensures var sys := Run(ends, steps).value;
            var n := |sys.rx.items|;
            LeftRefused(sys) <==>
              n > 0 && sys.tx.sent[n - 1].id < |sys.tx.accepted|
              && EndOff(sys.tx.sent[..n]) < |sys.tx.accepted[sys.tx.sent[n - 1].id]|
  {
    hide Run, EndOff, Replies, RefusalHeard;
    var sys := Run(ends, steps).value;
    var n := |sys.rx.items|;
    if n > 0 && sys.tx.sent[n - 1].id < |sys.tx.accepted|
       && EndOff(sys.tx.sent[..n]) < |sys.tx.accepted[sys.tx.sent[n - 1].id]| {
      AbandonedWasRefused(ends, steps, n);
    }
  }

  /** The transfer of the last segment that arrived is unfinished, and the sender has heard it
      refused. */
  ghost predicate LeftRefused(sys: Sys) {
    var n := |sys.rx.items|;
    && 0 < n <= |sys.tx.sent|
    && sys.tx.sent[n - 1].id < |sys.tx.accepted|
    && EndOff(sys.tx.sent[..n]) < |sys.tx.accepted[sys.tx.sent[n - 1].id]|
    && sys.got <= |Replies(sys.rx.log)|
    && RefusalHeard(Replies(sys.rx.log)[..sys.got], sys.tx.sent[n - 1].id)
  }
}
