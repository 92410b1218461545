/** A run in which a well-behaved sender makes the receiver end the session: the receiver's
    end begins to end the session, so it refuses the transfer that then starts; the sender
    hears of it after the first bufferful and goes on with the next bundle, which the receiver
    takes for one interleaved with the first. */
module Tcpv4Interleaved {
  import opened Octets
  import opened Options
  import opened Tcpv4Msg
  import opened Tcpv4Ext
  import opened Tcpv4Receive
  import opened Tcpv4Stream
  import opened Tcpv4EndToEnd
  import Tx = Tcpv4Tx
  import Rx = Tcpv4Rx

  /** Neither end sends more than the other takes. */
  const ALIKE := Ends(Config(65536, 65537), Tx.TxConfig(65536, 65537, 0, 0))

  const LARGE := Tx.Xfer(0, 65537, 0, false, false, false, false)
  const LARGE_GOING := LARGE.(inFlight := true)
  const SMALL := Tx.Xfer(1, 1, 0, false, false, false, false)
  const SMALL_GOING := SMALL.(id := 1, inFlight := true)
  const NEXT := Segment(3, 1, LengthExt(1), [7])

  function FirstOf(bundle: Octets): Segment
    requires |bundle| == 65537
  {
    Segment(2, 0, LengthExt(65537), bundle[..65536])
  }

  /** The sender when it has written the first bufferful of the bundle. */
  function Written(bundle: Octets): Tx.State
    requires |bundle| == 65537
  {
    Tx.INITIAL.(window := [LARGE_GOING], count := 1, bytes := 65537, nextId := 1, xmit := Tx.Checking(0, 65536),
                accepted := [bundle], sent := [FirstOf(bundle)])
  }

  /** The receiver when it has refused the transfer. */
  function RefusedBy(bundle: Octets): Rx.State
    requires |bundle| == 65537
  {
    Rx.INITIAL.(ending := true, items := [Item(FirstOf(bundle), true)], active := true, refused := true,
                log := [Refuse(REFUSE_SESS_TERM, 0)])
  }

  /** The sender when it has let go of the transfer. */
  function LetGoOf(bundle: Octets): Tx.State
    requires |bundle| == 65537
  {
    Tx.INITIAL.(nextId := 1, accepted := [bundle], sent := [FirstOf(bundle)], reported := [Tx.Outcome(0, false)])
  }

  /** The sender when it has written the next bundle. */
  function WentOn(bundle: Octets): Tx.State
    requires |bundle| == 65537
  {
    LetGoOf(bundle).(window := [SMALL_GOING], count := 1, bytes := 1, nextId := 2, xmit := Tx.Checking(1, 1),
                     accepted := [bundle, [7]], sent := [FirstOf(bundle), NEXT])
  }

  lemma BundleIsBegun(bundle: Octets) returns (steps: seq<Step>)
    requires |bundle| == 65537
    ensures Run(ALIKE, steps) == Some(Sys(Written(bundle), Rx.INITIAL, 0))
  {
    hide LengthExt;
    var s0 := Tx.INITIAL;
    var s1 := s0.(queue := [LARGE], count := 1, bytes := 65537, accepted := [bundle]);
    var s2 := s1.(queue := [], window := [LARGE_GOING], nextId := 1, xmit := Tx.Sending(0, 0));
    assert s0.queue + [LARGE] == s1.queue && s0.accepted + [bundle] == s1.accepted;
    assert s1.queue[1..] == s2.queue && s1.window + [LARGE_GOING] == s2.window;
    assert Tx.CutSegment(ALIKE.sender, 0, bundle, 0) == FirstOf(bundle);
    assert s2.sent + [FirstOf(bundle)] == [FirstOf(bundle)];
    steps := [];
    steps := ThenSender(steps, s0, Tx.Enqueue(bundle), s1, Rx.INITIAL, 0);
    hide Run;
    steps := ThenSender(steps, s1, Tx.BeginXfer, s2, Rx.INITIAL, 0);
    steps := ThenSender(steps, s2, Tx.WriteSegment, Written(bundle), Rx.INITIAL, 0);
  }

  lemma ThenSender(steps: seq<Step>, s: Tx.State, a: Tx.Action, t: Tx.State, r: Rx.State, got: nat)
    returns (more: seq<Step>)
    requires Run(ALIKE, steps) == Some(Sys(s, r, got)) && Tx.Apply(ALIKE.sender, s, a) == Some(t)
    requires !a.RecvAck? && !a.RecvRefuse?
    ensures Run(ALIKE, more) == Some(Sys(t, r, got))
  {
    hide Run, Tx.Apply, Rx.Apply;
    Then(ALIKE, steps, Sys(s, r, got), SenderStep(a), Sys(t, r, got));
    more := steps + [SenderStep(a)];
  }

  lemma ThenReceiver(steps: seq<Step>, s: Tx.State, r: Rx.State, b: Rx.Action, r': Rx.State)
    returns (more: seq<Step>)
    requires Run(ALIKE, steps) == Some(Sys(s, r, 0)) && Rx.Apply(ALIKE.receiver, r, b) == Some(r')
    requires !b.Begin?
    ensures Run(ALIKE, more) == Some(Sys(s, r', 0))
  {
    hide Run, Tx.Apply, Rx.Apply;
    Then(ALIKE, steps, Sys(s, r, 0), ReceiverStep(b), Sys(s, r', 0));
    more := steps + [ReceiverStep(b)];
  }

  lemma BundleIsRefused(bundle: Octets) returns (steps: seq<Step>)
    requires |bundle| == 65537
    ensures Run(ALIKE, steps) == Some(Sys(Written(bundle), RefusedBy(bundle), 0))
  {
    hide Run, LengthExt, Declares, Benign;
    steps := BundleIsBegun(bundle);
    hide Written;
    var s, seg := Written(bundle), FirstOf(bundle);
    var r1 := Rx.INITIAL.(ending := true);
    var r2 := r1.(items := [Item(seg, true)], active := true, refused := true,
                  pc := Rx.AwaitRefuse(seg, REFUSE_SESS_TERM));
    var r3 := r2.(pc := Rx.SendRefuse(seg, REFUSE_SESS_TERM));
    var r4 := r3.(pc := Rx.Taking(seg), log := [Refuse(REFUSE_SESS_TERM, 0)]);
    SenderHasWritten(bundle);
    assert r1.items + [Item(seg, true)] == r2.items;
    assert Rx.ApplyBegin(ALIKE.receiver, r1, seg) == r2;
    assert r3.log + [Refuse(REFUSE_SESS_TERM, 0)] == r4.log;
    steps := ThenReceiver(steps, s, Rx.INITIAL, Rx.EndSession, r1);
    Then(ALIKE, steps, Sys(s, r1, 0), Arrive, Sys(s, r2, 0));
    steps := steps + [Arrive];
    steps := ThenReceiver(steps, s, r2, Rx.PassRefuse, r3);
    steps := ThenReceiver(steps, s, r3, Rx.WriteRefuse, r4);
    steps := ThenReceiver(steps, s, r4, Rx.Take, RefusedBy(bundle));
  }

  lemma SenderHasWritten(bundle: Octets)
    requires |bundle| == 65537
    ensures Written(bundle).sent == [FirstOf(bundle)]
  {}

  /** The sender when it has heard of the refusal. */
  function Hearing(bundle: Octets): Tx.State
    requires |bundle| == 65537
  {
    Written(bundle).(window := [LARGE_GOING.(refused := true)])
  }

  lemma RefusalIsHeard(bundle: Octets) returns (steps: seq<Step>)
    requires |bundle| == 65537
    ensures Run(ALIKE, steps) == Some(Sys(Hearing(bundle), RefusedBy(bundle), 1))
  {
    hide Run, FirstOf, Rx.Apply;
    steps := BundleIsRefused(bundle);
    var s, t, r := Written(bundle), Hearing(bundle), RefusedBy(bundle);
    RepliesOne(r.log);
    assert Replies(r.log) == r.log;
    assert Tx.FindId(s.window, 0) == 0 && s.window[0 := LARGE_GOING.(refused := true)] == t.window;
    Then(ALIKE, steps, Sys(s, r, 0), Hear, Sys(t, r, 1));
    steps := steps + [Hear];
  }

  lemma SenderLetsGo(bundle: Octets) returns (steps: seq<Step>)
    requires |bundle| == 65537
    ensures Run(ALIKE, steps) == Some(Sys(LetGoOf(bundle), RefusedBy(bundle), 1))
  {
    hide Run, FirstOf, Rx.Apply, RefusedBy;
    steps := RefusalIsHeard(bundle);
    var s4, r := Hearing(bundle), RefusedBy(bundle);
    var x := LARGE_GOING.(refused := true, inFlight := false);
    var s5 := s4.(xmit := Tx.LettingGo(0, false));
    var s6 := s5.(window := [], count := 0, bytes := 0, xmit := Tx.Reporting(x, false));
    assert s5.window[0 := x] == [x] && Tx.Without([x], 0) == [];
    assert s6.reported + [Tx.Outcome(0, false)] == LetGoOf(bundle).reported;
    steps := ThenSender(steps, s4, Tx.CheckRefused, s5, r, 1);
    steps := ThenSender(steps, s5, Tx.LetGo, s6, r, 1);
    steps := ThenSender(steps, s6, Tx.XmitReport, LetGoOf(bundle), r, 1);
  }

  lemma SenderGoesOn(bundle: Octets) returns (steps: seq<Step>)
    requires |bundle| == 65537
    ensures Run(ALIKE, steps) == Some(Sys(WentOn(bundle), RefusedBy(bundle), 1))
  {
    hide Run, LengthExt, Declares, Rx.Apply, RefusedBy, FirstOf;
    steps := SenderLetsGo(bundle);
    var s7, r := LetGoOf(bundle), RefusedBy(bundle);
    var s8 := s7.(queue := [SMALL], count := 1, bytes := 1, accepted := [bundle, [7]]);
    var s9 := s8.(queue := [], window := [SMALL_GOING], nextId := 2, xmit := Tx.Sending(1, 0));
    assert s7.queue + [SMALL] == s8.queue && s7.accepted + [[7]] == s8.accepted;
    assert s8.queue[1..] == s9.queue && s8.window + [SMALL_GOING] == s9.window;
    assert Tx.FindId(s9.window, 1) == 0;
    assert Tx.CutSegment(ALIKE.sender, 1, [7], 0) == NEXT by { assert [7][0..1] == [7]; }
    assert s9.sent + [NEXT] == WentOn(bundle).sent;
    steps := ThenSender(steps, s7, Tx.Enqueue([7]), s8, r, 1);
    steps := ThenSender(steps, s8, Tx.BeginXfer, s9, r, 1);
    steps := ThenSender(steps, s9, Tx.WriteSegment, WentOn(bundle), r, 1);
  }

  /** Whatever 65537 octets are sent first, the next bundle can end the session although
      every segment and every transfer is within the receiver's limits. */
  lemma NextBundleEndsSession(bundle: Octets) returns (steps: seq<Step>)
    requires |bundle| == 65537
    ensures Run(ALIKE, steps).Some?
    ensures var sys := Run(ALIKE, steps).value;
            && sys.tx.accepted == [bundle, [7]] && sys.tx.reported == [Tx.Outcome(0, false)]
            && Replies(sys.rx.log) == [Refuse(REFUSE_SESS_TERM, 0)] && sys.got == 1
            && |sys.tx.sent| == 2
            && (forall k :: 0 <= k < 2 ==> |sys.tx.sent[k].data| <= ALIKE.receiver.segmentMru)
            && sys.rx.items == [Item(sys.tx.sent[0], true), Item(sys.tx.sent[1], true)]
            && !sys.tx.sent[0].End() && sys.tx.sent[1].Start() && sys.rx.pc.Gone?
  {
    hide Run, LengthExt, Declares, Tx.Apply;
    steps := SenderGoesOn(bundle);
    var s, r := WentOn(bundle), RefusedBy(bundle);
    var gone := r.(items := r.items + [Item(NEXT, true)], pc := Rx.Gone);
    RepliesOne(r.log);
    assert r.items + [Item(NEXT, true)] == [Item(FirstOf(bundle), true), Item(NEXT, true)];
    assert Rx.ApplyBegin(ALIKE.receiver, r, NEXT) == gone;
    Then(ALIKE, steps, Sys(s, r, 1), Arrive, Sys(s, gone, 1));
    steps := steps + [Arrive];
  }
}
