/** What the sender tells BP, in every run of two ends: of which bundles it says that they were
    delivered, and of which that they were not. */
module Tcpv4Reported {
  import opened Options
  import opened Tcpv4Receive
  import opened Tcpv4Stream
  import opened Tcpv4TxStream
  import opened Tcpv4Window
  import opened Tcpv4Verdict
  import opened Tcpv4Abandoned
  import opened Tcpv4EndToEnd
  import opened Tcpv4TxConserve
  import Tx = Tcpv4Tx
  import Rx = Tcpv4Rx

  ghost predicate Settled(sys: Sys, n: nat) {
    Conserved(sys.tx) && Judged(sys.tx, HeardReplies(sys), Reached(sys), n)
  }

  /** The transfers below this number have been concluded by the replies heard. */
  function Reached(sys: Sys): nat {
    if sys.got <= |Replies(sys.rx.log)| then Heard(sys).next else 0
  }

  lemma SenderStepSettled(ends: Ends, sys: Sys, a: Tx.Action, n: nat)
    requires ends.sender.segmentMtu >= 1 && Inv(ends, sys) && Settled(sys, n)
    requires Apply(ends, sys, SenderStep(a)).Some?
    ensures Settled(Apply(ends, sys, SenderStep(a)).value, n)
  {
    WellSentIn(ends, sys);
    var next := Apply(ends, sys, SenderStep(a)).value;
    assert sys.got <= |Replies(sys.rx.log)| by { GotBound(sys); }
    RepliesInOrder(ends, sys);
    AllInOrderPrefix(Begun(sys.tx), Replies(sys.rx.log), sys.got);
    hide Inv, WellSent, Shape, Joined, Rx.Inv, Judged, Conserved, Replies, AllInOrder, Tx.Apply;
    StepJudged(ends.sender, sys.tx, a, HeardReplies(sys), Reached(sys), n);
    StepConserves(ends.sender, sys.tx, a);
    SenderGrows(ends.sender, sys.tx, a);
    BegunGrows(sys.tx, next.tx);
    TrackMore(Begun(sys.tx), Begun(next.tx), Replies(sys.rx.log)[..sys.got]);
  }

  lemma ReceiverStepSettled(sys: Sys, rx: Rx.State, n: nat)
    requires Settled(sys, n) && Joined(sys) && sys.rx.log <= rx.log
    ensures Settled(sys.(rx := rx), n)
  {
    GotBound(sys);
    RepliesMonotone(sys.rx.log, rx.log);
    hide Replies, Judged, Conserved, Joined;
    var later := sys.(rx := rx);
    assert Replies(rx.log)[..sys.got] == Replies(sys.rx.log)[..sys.got];
    assert HeardReplies(later) == HeardReplies(sys) && Heard(later) == Heard(sys);
  }

  lemma HearSettled(ends: Ends, sys: Sys, n: nat)
    requires ends.sender.segmentMtu >= 1 && Inv(ends, sys) && Settled(sys, n) && Apply(ends, sys, Hear).Some?
    ensures Settled(Apply(ends, sys, Hear).value, n)
  {
    hide Settled, Inv, WellSent, Shape, Joined, Rx.Inv, Tracking, InOrder, TrackOf, Apply, Begun, Advance, Replies;
    hide Judged, Conserved, Handled;
    HearFacts(ends, sys);
    Hears(ends, sys);
    SettledIs(sys, n);
    HearConserves(ends, sys);
    HeardOne(ends, sys);
    WellSentIn(ends, sys);
    NotDrained(sys);
    var e, heard, next := Replies(sys.rx.log)[sys.got], HeardReplies(sys), Apply(ends, sys, Hear).value;
    HandledJudged(sys.tx, Heard(sys), e, heard, n);
    HandledBegun(sys.tx, e);
    assert HeardReplies(next) == heard + [e];
    assert Heard(next) == Advance(Begun(sys.tx), Heard(sys), e);
    hide Heard, HeardReplies;
    assert Settled(next, n) by { SettledWhen(next, n); }
  }

  lemma SettledIs(sys: Sys, n: nat)
    requires Settled(sys, n) && sys.got <= |Replies(sys.rx.log)|
    ensures Conserved(sys.tx) && Judged(sys.tx, HeardReplies(sys), Heard(sys).next, n)
  {
    hide Conserved, Judged;
  }

  lemma SettledWhen(sys: Sys, n: nat)
    requires Conserved(sys.tx) && sys.got <= |Replies(sys.rx.log)|
    requires Judged(sys.tx, HeardReplies(sys), Heard(sys).next, n)
    ensures Settled(sys, n)
  {
    hide Conserved, Judged;
  }

  lemma HandledJudged(s: Tx.State, tr: Track, e: Event, heard: seq<Event>, n: nat)
    requires WellSent(s) && Conserved(s) && Shape(s, tr) && Tracking(Begun(s), tr) && !s.drained
    requires InOrder(Begun(s), tr, e) && Judged(s, heard, tr.next, n)
    ensures !e.Deliver? && Judged(Handled(s, e), heard + [e], Advance(Begun(s), tr, e).next, n)
  {
    hide WellSent, Conserved, Shape, Tracking, Judged, Tx.ApplyAck, Tx.ApplyRefuse, Begun, EmptyBetween;
    ReplyJudged(s, tr, e, heard, n);
  }

  lemma HearConserves(ends: Ends, sys: Sys)
    requires Conserved(sys.tx) && Apply(ends, sys, Hear).Some?
    ensures Conserved(Apply(ends, sys, Hear).value.tx)
  {
    hide Conserved, Tx.Apply, Replies;
    StepConserves(ends.sender, sys.tx, HearAction(Replies(sys.rx.log)[sys.got]));
  }

  lemma HandledBegun(s: Tx.State, e: Event)
    requires !e.Deliver?
    ensures Begun(Handled(s, e)) == Begun(s)
  {
    hide Tx.Without, Tx.FindId;
  }

  lemma StepKeepsSettled(ends: Ends, sys: Sys, step: Step, n: nat)
    requires ends.sender.segmentMtu >= 1 && Inv(ends, sys) && Settled(sys, n) && Apply(ends, sys, step).Some?
    ensures Settled(Apply(ends, sys, step).value, n)
  {
    WellSentIn(ends, sys);
    hide Inv, Settled, Joined, WellSent, Rx.Inv, Shape, Rx.Apply;
    match step
    case SenderStep(a) => SenderStepSettled(ends, sys, a, n);
    case ReceiverStep(b) =>
      ReceiverGrows(ends.receiver, sys.rx, b);
      ReceiverStepSettled(sys, Rx.Apply(ends.receiver, sys.rx, b).value, n);
    case Arrive =>
      var b := Rx.Begin(sys.tx.sent[|sys.rx.items|]);
      ReceiverGrows(ends.receiver, sys.rx, b);
      ReceiverStepSettled(sys, Rx.Apply(ends.receiver, sys.rx, b).value, n);
    case Hear => HearSettled(ends, sys, n);
  }

  lemma InitiallySettled(n: nat)
    ensures Settled(INITIAL, n)
  {
    hide Conserved, Judged, Heard, Settled, TrackOf;
    InitiallyConserved();
    assert INITIAL.got == 0 && INITIAL.tx == Tx.INITIAL;
    NothingHeard();
    InitiallyJudged(Heard(INITIAL).next, n);
    SettledWhen(INITIAL, n);
  }

  lemma NothingHeard()
    ensures HeardReplies(INITIAL) == []
  {}

  lemma {:induction false} AlwaysSettled(ends: Ends, steps: seq<Step>, n: nat)
    requires ends.sender.segmentMtu >= 1 && Run(ends, steps).Some?
    ensures Settled(Run(ends, steps).value, n)
  {
    hide Inv, Apply;
    if steps == [] {
      InitiallySettled(n);
    } else {
      hide Settled;
      var front, step := steps[..|steps| - 1], steps[|steps| - 1];
      Always(ends, front);
      AlwaysSettled(ends, front, n);
      StepKeepsSettled(ends, Run(ends, front).value, step, n);
    }
  }

  /** In every run, a bundle is reported as delivered exactly when the acknowledgment of the whole
      of it has been handled, this end did not give it up, and no empty bundle, to which no reply
      ever comes, was accepted before it. Otherwise it is reported as not delivered. */
  lemma ReportedExactlyWhen(ends: Ends, steps: seq<Step>, n: nat, b: bool)
    requires ends.sender.segmentMtu >= 1 && Run(ends, steps).Some?
    requires Tx.Outcome(n, b) in Run(ends, steps).value.tx.reported
    ensures var sys := Run(ends, steps).value;
            && n < |sys.tx.accepted| && sys.got <= |Replies(sys.rx.log)|
            && (b <==>
                  && (exists k {:trigger Replies(sys.rx.log)[k]} :: 0 <= k < sys.got
                        && Replies(sys.rx.log)[k].Ack? && Replies(sys.rx.log)[k].id == n
                        && Replies(sys.rx.log)[k].length == |sys.tx.accepted[n]|)
                  && sys.tx.failedId != Some(n)
                  && forall z :: 0 <= z < n ==> sys.tx.accepted[z] != [])
  {
    AlwaysSettled(ends, steps, n);
    Always(ends, steps);
    var sys := Run(ends, steps).value;
    WellSentIn(ends, sys);
    GotBound(sys);
    hide Run, Inv, WellSent, Rx.Inv, Shape, Joined;
    ReportedWasAccepted(sys.tx, n, b);
    hide Conserved;
    var heard, replies := HeardReplies(sys), Replies(sys.rx.log);
    assert forall k :: 0 <= k < |heard| ==> heard[k] == replies[k];
    hide Replies;
    var k :| 0 <= k < |sys.tx.reported| && sys.tx.reported[k] == Tx.Outcome(n, b);
  }

  lemma ReportedWasAccepted(s: Tx.State, n: nat, b: bool)
    requires Conserved(s) && Tx.Outcome(n, b) in s.reported
    ensures n < |s.accepted|
  {
    var k :| 0 <= k < |s.reported| && s.reported[k] == Tx.Outcome(n, b);
    CountedTold(s.reported, k);
    assert Places(s, n) >= 1;
  }
}
