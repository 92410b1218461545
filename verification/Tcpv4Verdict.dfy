/** What becomes of one bundle at the sender: from the marks that replies leave on its transfer
    to the outcome that BP is told. */
module Tcpv4Verdict {
  import opened Octets
  import opened Options
  import opened Tcpv4Receive
  import opened Tcpv4Tx
  import opened Tcpv4TxConserve
  import opened Tcpv4Stream
  import opened Tcpv4TxStream
  import opened Tcpv4Window

  // ---- One place at a time -----------------------------------------------------------------------

  lemma {:induction false} Counted(w: seq<Xfer>, i: nat)
    requires i < |w|
    ensures Times(w, w[i].serial) >= 1
  {
    if i > 0 {
      Counted(w[1..], i - 1);
    }
  }

  lemma {:induction false} CountedTold(reported: seq<Outcome>, i: nat)
    requires i < |reported|
    ensures Told(reported, reported[i].serial) >= 1
  {
    if i < |reported| - 1 {
      CountedTold(reported[..|reported| - 1], i);
    }
  }

  predicate NotAmong(w: seq<Xfer>, n: nat) { forall k :: 0 <= k < |w| ==> w[k].serial != n }

  lemma Absent(w: seq<Xfer>, n: nat)
    requires Times(w, n) == 0
    ensures NotAmong(w, n)
  {
    forall k | 0 <= k < |w| ensures w[k].serial != n {
      Counted(w, k);
    }
  }

  /** The n-th bundle is nowhere but, perhaps, on the window. */
  predicate OffWindow(s: State, n: nat) {
    && NotAmong(s.queue, n) && NotAmong(s.dead, n)
    && (s.xmit.Reporting? ==> s.xmit.done.serial != n) && (s.rcv.Retiring? ==> s.rcv.done.serial != n)
    && forall k :: 0 <= k < |s.reported| ==> s.reported[k].serial != n
  }

  /** A bundle on the window is nowhere else. */
  lemma OnlyThere(s: State, i: nat, n: nat)
    requires Conserved(s) && i < |s.window| && s.window[i].serial == n
    ensures OffWindow(s, n) && NotAmong(Without(s.window, i), n)
  {
    Counted(s.window, i);
    ListWithout(s.window, i, n);
    assert Places(s, n) <= 1;
    Absent(s.queue, n);
    Absent(s.dead, n);
    Absent(Without(s.window, i), n);
    forall k | 0 <= k < |s.reported| ensures s.reported[k].serial != n {
      CountedTold(s.reported, k);
    }
  }

  // ---- The verdict -------------------------------------------------------------------------------

  /** The marks of the transfer are what they should be: a whole acknowledgment that counts has
      come, or this end has given it up, or neither. */
  predicate Fair(failed: bool, earned: bool, x: Xfer) {
    !x.completed && if failed then x.refused else (x.acked <==> earned) && !(x.acked && x.refused)
  }

  predicate FairAmong(w: seq<Xfer>, failed: bool, earned: bool, n: nat) {
    forall k :: 0 <= k < |w| && w[k].serial == n ==> Fair(failed, earned, w[k])
  }

  /** Wherever the n-th bundle is, its marks are fair, and so is what BP was told of it. */
  predicate FairBooks(s: State, failed: bool, earned: bool, n: nat) {
    && FairAmong(s.queue, failed, earned, n) && FairAmong(s.window, failed, earned, n)
    && FairAmong(s.dead, failed, earned, n)
    && (s.xmit.Reporting? && s.xmit.done.serial == n ==> Fair(failed, earned, s.xmit.done))
    && (s.rcv.Retiring? && s.rcv.done.serial == n ==> Fair(failed, earned, s.rcv.done))
    && (forall k :: 0 <= k < |s.reported| && s.reported[k].serial == n ==>
          (s.reported[k].succeeded <==> earned && !failed))
  }

  /** A transfer that is marked or off the window has been concluded by the peer, or given up. */
  predicate Concluded(s: State, failed: bool, next: nat, n: nat) {
    && (forall k :: 0 <= k < |s.window| && s.window[k].serial == n && (s.window[k].acked || s.window[k].refused) ==>
          n < next || failed)
    && (s.xmit.Reporting? && s.xmit.done.serial == n ==> n < next || failed)
    && (s.rcv.Retiring? && s.rcv.done.serial == n ==> n < next || failed)
    && (forall k :: 0 <= k < |s.reported| && s.reported[k].serial == n ==> n < next || failed)
  }

  predicate Failed(s: State, n: nat) { s.failedId == Some(n) }

  /** A whole acknowledgment of the n-th bundle has been heard, and no empty one was accepted
      before it. */
  predicate Earned(heard: seq<Event>, accepted: seq<Octets>, n: nat) {
    && n < |accepted| && (forall z :: 0 <= z < n ==> accepted[z] != [])
    && exists k {:trigger heard[k]} ::
         0 <= k < |heard| && heard[k].Ack? && heard[k].id == n && heard[k].length == |accepted[n]|
  }

  /** Replies are about transfers that have been begun. */
  predicate HeardBegun(heard: seq<Event>, nextId: nat) {
    forall k :: 0 <= k < |heard| && heard[k].Ack? ==> heard[k].id < nextId
  }

  predicate Judged(s: State, heard: seq<Event>, next: nat, n: nat) {
    && FairBooks(s, Failed(s, n), Earned(heard, s.accepted, n), n)
    && (!s.drained ==> Concluded(s, Failed(s, n), next, n))
    && HeardBegun(heard, s.nextId)
  }

  lemma InitiallyJudged(next: nat, n: nat)
    ensures Judged(INITIAL, [], next, n)
  {
    hide Earned;
  }

  // ---- The sender's own steps ----------------------------------------------------------------------

  lemma EarnedStays(heard: seq<Event>, accepted: seq<Octets>, more: seq<Octets>, nextId: nat, n: nat)
    requires HeardBegun(heard, nextId) && nextId <= |accepted| && accepted <= more
    ensures Earned(heard, more, n) == Earned(heard, accepted, n)
    ensures n >= nextId ==> !Earned(heard, accepted, n)
  {}

  lemma EnqueueJudged(s: State, bundle: Octets, heard: seq<Event>, next: nat, n: nat)
    requires WellSent(s) && Judged(s, heard, next, n)
    ensures Judged(ApplyEnqueue(s, bundle), heard, next, n)
  {
    WindowOf(s);
    NextWithinAccepted(s);
    hide WellSent, WindowSound, FailureSound, Earned, FairBooks, Concluded;
    EarnedStays(heard, s.accepted, s.accepted + [bundle], s.nextId, n);
    if n == |s.accepted| {
      NotFailedYet(s, n);
    }
    EnqueueFair(s, bundle, Failed(s, n), Earned(heard, s.accepted, n), next, n);
  }

  lemma EnqueueFair(s: State, bundle: Octets, failed: bool, earned: bool, next: nat, n: nat)
    requires FairBooks(s, failed, earned, n) && (n == |s.accepted| ==> !failed && !earned)
    ensures FairBooks(ApplyEnqueue(s, bundle), failed, earned, n)
    ensures Concluded(s, failed, next, n) ==> Concluded(ApplyEnqueue(s, bundle), failed, next, n)
  {
    var t := ApplyEnqueue(s, bundle);
    assert forall k :: 0 <= k < |s.queue| ==> t.queue[k] == s.queue[k];
  }

  lemma NextWithinAccepted(s: State)
    requires WellSent(s)
    ensures s.nextId <= |s.accepted|
  {
    hide WindowSound, FailureSound, PositionSound, GoodStream;
  }

  lemma NotFailedYet(s: State, n: nat)
    requires FailureSound(s) && n >= s.nextId
    ensures !Failed(s, n)
  {}

  lemma BeginJudged(s: State, heard: seq<Event>, next: nat, n: nat)
    requires Judged(s, heard, next, n) && s.queue != [] && !s.queue[0].refused && !s.queue[0].acked && s.xmit.Idle?
    ensures Judged(ApplyBegin(s), heard, next, n)
  {
    hide Earned;
    var t := ApplyBegin(s);
    assert forall k :: 0 <= k < |t.queue| ==> t.queue[k] == s.queue[k + 1];
  }

  /** One transfer on the window is marked, stays there or is taken off, and nothing else moves. */
  predicate Marks(s: State, t: State, i: nat, x: Xfer) {
    && i < |s.window| && x.serial == s.window[i].serial
    && t.queue == s.queue && t.dead == s.dead && t.reported == s.reported && t.drained == s.drained
    && (t.window == s.window[i := x] || t.window == Without(s.window, i))
    && (t.xmit.Reporting? ==> t.xmit == s.xmit || (t.xmit.done == x && t.window == Without(s.window, i)))
    && (t.rcv.Retiring? ==> t.rcv == s.rcv || (t.rcv.done == x && t.window == Without(s.window, i)))
  }

  lemma OthersAre(w: seq<Xfer>, v: seq<Xfer>, i: nat, x: Xfer)
    requires i < |w| && (v == w[i := x] || v == Without(w, i))
    ensures forall k :: 0 <= k < |v| ==> v[k] == x || v[k] in Without(w, i)
    ensures forall y :: y in Without(w, i) ==> y in w
  {
    forall k | 0 <= k < |v| ensures v[k] == x || v[k] in Without(w, i) {
      if v == w[i := x] && k != i {
        assert w[k] == Without(w, i)[if k < i then k else k - 1];
      }
    }
  }

  lemma MarkFair(s: State, t: State, i: nat, x: Xfer, failed: bool, failed': bool, earned: bool, earned': bool, n: nat)
    requires FairBooks(s, failed, earned, n) && Marks(s, t, i, x)
    requires x.serial != n ==> failed' == failed && earned' == earned
    requires x.serial == n ==> Fair(failed', earned', x) && OffWindow(s, n) && NotAmong(Without(s.window, i), n)
    ensures FairBooks(t, failed', earned', n)
  {
    hide Fair;
    OthersAre(s.window, t.window, i, x);
    hide Without;
    if x.serial == n {
      assert FairAmong(t.window, failed', earned', n);
    } else {
      forall k | 0 <= k < |t.window| && t.window[k].serial == n ensures Fair(failed', earned', t.window[k]) {
        assert t.window[k] in s.window;
      }
    }
  }

  lemma MarkConcluded(s: State, t: State, i: nat, x: Xfer, failed: bool, failed': bool, next: nat, later: nat, n: nat)
    requires Concluded(s, failed, next, n) && Marks(s, t, i, x) && next <= later
    requires x.serial != n ==> failed' == failed
    requires x.serial == n ==> OffWindow(s, n) && NotAmong(Without(s.window, i), n)
    requires x.serial == n && (x.acked || x.refused || NotAmong(t.window, n)) ==> n < later || failed'
    ensures Concluded(t, failed', later, n)
  {
    OthersAre(s.window, t.window, i, x);
    hide Without;
    if x.serial == n {
      assert forall k :: 0 <= k < |t.window| && t.window[k].serial == n ==> t.window[k] == x;
      assert x in t.window || NotAmong(t.window, n);
    } else {
      assert forall k :: 0 <= k < |t.window| && t.window[k].serial == n ==> t.window[k] in s.window;
    }
  }

  /** The transmit thread lets go of the last transfer on the window. */
  lemma LetGoJudged(s: State, i: nat, failed: bool, heard: seq<Event>, next: nat, n: nat)
    requires WellSent(s) && Conserved(s) && Judged(s, heard, next, n)
    requires s.xmit.LettingGo? && s.xmit.failed == failed && |s.window| == i + 1
    ensures Judged(ApplyLetGo(s, i, failed), heard, next, n)
  {
    hide Conserved, FairBooks, Concluded, Fair, Earned;
    var x := s.window[i].(inFlight := false, refused := s.window[i].refused || failed);
    var t := ApplyLetGo(s, i, failed);
    LetGoChanges(s, i, failed);
    hide WellSent, ApplyLetGo;
    if x.serial == n {
      OnlyThere(s, i, n);
      LetGoOwn(s, x, i, failed, heard, next, n);
    }
    var earned := Earned(heard, s.accepted, n);
    MarkFair(s, t, i, x, Failed(s, n), Failed(t, n), earned, earned, n);
    if !s.drained {
      MarkConcluded(s, t, i, x, Failed(s, n), Failed(t, n), next, next, n);
    }
  }

  lemma LetGoChanges(s: State, i: nat, failed: bool)
    requires WellSent(s) && s.xmit.LettingGo? && s.xmit.failed == failed && |s.window| == i + 1
    ensures var x := s.window[i].(inFlight := false, refused := s.window[i].refused || failed);
            var t := ApplyLetGo(s, i, failed);
            && Marks(s, t, i, x) && t.accepted == s.accepted && t.nextId == s.nextId
            && s.failedId == None && t.failedId == (if failed then Some(x.serial) else None)
            && (t.window == s.window[i := x] || x.acked || x.refused)
  {
    WindowOf(s);
    NotGivenUp(s);
    LetGoIs(s, failed);
    LastIs(s);
    hide WellSent, WindowSound, FailureSound, ApplyLetGo;
    assert Without(s.window, i) == s.window[..i];
  }

  lemma LetGoOwn(s: State, x: Xfer, i: nat, failed: bool, heard: seq<Event>, next: nat, n: nat)
    requires Judged(s, heard, next, n) && |s.window| == i + 1 && s.window[i].serial == n && s.failedId == None
    requires x == s.window[i].(inFlight := false, refused := s.window[i].refused || failed)
    ensures Fair(failed, Earned(heard, s.accepted, n), x)
    ensures !s.drained && (x.acked || x.refused) ==> n < next || failed
  {}

  lemma LastIs(s: State)
    requires WindowSound(s) && s.window != []
    ensures s.window[|s.window| - 1].id == s.window[|s.window| - 1].serial
  {
    assert Windowed(s, |s.window| - 1);
  }

  /** A thread tells BP of the transfer it holds, or the drain does of the next one. */
  lemma ReportJudged(s: State, t: State, x: Xfer, heard: seq<Event>, next: nat, n: nat)
    requires Judged(s, heard, next, n)
    requires t == Report(s, x).(xmit := t.xmit, rcv := t.rcv, dead := t.dead)
    requires (t.xmit.Reporting? ==> t.xmit == s.xmit) && (t.rcv.Retiring? ==> t.rcv == s.rcv)
    requires t.dead == s.dead || (s.dead != [] && t.dead == s.dead[1..])
    requires x.serial == n ==> Fair(Failed(s, n), Earned(heard, s.accepted, n), x)
    requires x.serial == n && !s.drained ==> n < next || Failed(s, n)
    ensures Judged(t, heard, next, n)
  {
    hide Earned;
    assert forall k :: 0 <= k < |s.reported| ==> t.reported[k] == s.reported[k];
  }

  /** Steps that touch neither the transfers nor the reports. */
  lemma QuietJudged(cfg: TxConfig, s: State, a: Action, heard: seq<Event>, next: nat, n: nat)
    requires Judged(s, heard, next, n) && Apply(cfg, s, a).Some?
    requires a.WriteSegment? || a.CheckRefused? || a.LoopEnds? || a.XmitFails? || a.XmitExit? || a.RcvClose? || a.Stop?
    ensures Judged(Apply(cfg, s, a).value, heard, next, n)
  {
    hide Fair, Earned, CutSegment, BufferEnd, FindId;
  }

  lemma {:induction false} FairReverse(w: seq<Xfer>, failed: bool, earned: bool, n: nat)
    requires FairAmong(w, failed, earned, n)
    ensures FairAmong(Reverse(w), failed, earned, n)
  {
    hide Fair;
    if w != [] {
      FairReverse(w[1..], failed, earned, n);
    }
  }

  lemma DrainJudged(s: State, heard: seq<Event>, next: nat, n: nat)
    requires Judged(s, heard, next, n)
    ensures Judged(ApplyDrain(s), heard, next, n)
  {
    hide Fair, Earned;
    FairReverse(s.window, Failed(s, n), Earned(heard, s.accepted, n), n);
    FairReverse(s.queue, Failed(s, n), Earned(heard, s.accepted, n), n);
  }

  lemma StepJudged(cfg: TxConfig, s: State, a: Action, heard: seq<Event>, next: nat, n: nat)
    requires cfg.segmentMtu >= 1 && WellSent(s) && Conserved(s) && Judged(s, heard, next, n)
    requires Apply(cfg, s, a).Some? && !a.RecvAck? && !a.RecvRefuse?
    ensures Judged(Apply(cfg, s, a).value, heard, next, n)
  {
    hide WellSent, Conserved, Judged;
    hide ApplyEnqueue, ApplyBegin, ApplyLetGo, ApplyDrain, ApplyWrite, CutSegment, BufferEnd, FindId, HasRoom, Report;
    match a
    case Enqueue(bundle) => EnqueueJudged(s, bundle, heard, next, n);
    case BeginXfer =>
      QueueUnmarked(s);
      BeginJudged(s, heard, next, n);
    case LetGo =>
      WindowOf(s);
      OnWindow(s);
      LetGoJudged(s, |s.window| - 1, s.xmit.failed, heard, next, n);
    case Drain => DrainJudged(s, heard, next, n);
    case XmitReport => ReportsJudged(cfg, s, a, heard, next, n);
    case RcvReport => ReportsJudged(cfg, s, a, heard, next, n);
    case DrainReport => ReportsJudged(cfg, s, a, heard, next, n);
    case _ => QuietJudged(cfg, s, a, heard, next, n);
  }

  lemma ReportsJudged(cfg: TxConfig, s: State, a: Action, heard: seq<Event>, next: nat, n: nat)
    requires Conserved(s) && Judged(s, heard, next, n) && Apply(cfg, s, a).Some?
    requires a.XmitReport? || a.RcvReport? || a.DrainReport?
    ensures Judged(Apply(cfg, s, a).value, heard, next, n)
  {
    var x := if a.XmitReport? then s.xmit.done else if a.RcvReport? then s.rcv.done else s.dead[0];
    if a.DrainReport? {
      DeadOnlyDrained(s);
    }
    hide Conserved, Earned, Fair;
    ReportJudged(s, Apply(cfg, s, a).value, x, heard, next, n);
  }

  lemma DeadOnlyDrained(s: State)
    requires Conserved(s) && s.dead != []
    ensures s.drained
  {}

  lemma QueueUnmarked(s: State)
    requires WellSent(s) && s.queue != []
    ensures !s.drained ==> !s.queue[0].refused && !s.queue[0].acked
    ensures !s.drained
  {
    hide WindowSound, FailureSound, PositionSound, GoodStream;
    assert s.queue[0] == Xfer(s.nextId + 0, |s.accepted[s.nextId + 0]|, 0, false, false, false, false);
  }

  // ---- A reply -------------------------------------------------------------------------------------

  lemma EarnedMore(heard: seq<Event>, e: Event, accepted: seq<Octets>, n: nat)
    ensures Earned(heard + [e], accepted, n) <==>
              || Earned(heard, accepted, n)
              || (n < |accepted| && (forall z :: 0 <= z < n ==> accepted[z] != [])
                  && e.Ack? && e.id == n && e.length == |accepted[n]|)
  {
    var more := heard + [e];
    assert more[|heard|] == e;
    assert forall k :: 0 <= k < |heard| ==> more[k] == heard[k];
  }

  /** A transfer on the window is marked and perhaps retired. */
  lemma MarkJudged(s: State, i: nat, x: Xfer, ackedLen: nat, heard: seq<Event>, more: seq<Event>,
                   next: nat, later: nat, n: nat)
    requires WindowSound(s) && FailureSound(s) && Conserved(s) && Judged(s, heard, next, n)
    requires i < |s.window| && x == s.window[i].(acked := x.acked, refused := x.refused)
    requires x.acked || x.refused
    requires next <= later && x.serial < later && HeardBegun(more, s.nextId)
    requires x.serial != n ==> Earned(more, s.accepted, n) == Earned(heard, s.accepted, n)
    requires x.serial == n ==> Fair(Failed(s, n), Earned(more, s.accepted, n), x)
    ensures Judged(Retire(s.(window := s.window[i := x], ackedLen := ackedLen), i), more, later, n)
  {
    var t := Retire(s.(window := s.window[i := x], ackedLen := ackedLen), i);
    MarkAndRetire(s, i, x, ackedLen);
    hide WindowSound, FailureSound, Conserved, FairBooks, Concluded, Fair, Earned, Retire;
    if x.serial == n {
      OnlyThere(s, i, n);
    }
    assert Marks(s, t, i, x);
    MarkFair(s, t, i, x, Failed(s, n), Failed(s, n), Earned(heard, s.accepted, n), Earned(more, s.accepted, n), n);
    if !s.drained {
      MarkConcluded(s, t, i, x, Failed(s, n), Failed(s, n), next, later, n);
    }
  }

  // ---- What a reply does ---------------------------------------------------------------------------

  /** Begun(s) are the first bundles accepted. */
  lemma BegunAre(s: State)
    requires WellSent(s)
    ensures Begun(s) == s.accepted[..s.nextId] && s.nextId <= |s.accepted|
  {
    hide WindowSound, FailureSound, PositionSound, GoodStream;
  }

  lemma HeardMore(heard: seq<Event>, e: Event, nextId: nat)
    requires HeardBegun(heard, nextId) && (e.Ack? ==> e.id < nextId)
    ensures HeardBegun(heard + [e], nextId)
  {}

  /** A reply that finds nothing to mark. */
  lemma LaterJudged(s: State, heard: seq<Event>, more: seq<Event>, ackedLen: nat, next: nat, later: nat, n: nat)
    requires Judged(s, heard, next, n) && next <= later && HeardBegun(more, s.nextId)
    requires Earned(more, s.accepted, n) == Earned(heard, s.accepted, n) || Failed(s, n)
    ensures Judged(s.(ackedLen := ackedLen), more, later, n)
  {
    hide Earned;
  }

  /** A transfer that is refused in order has no other mark, unless this end gave it up. */
  lemma RefusedFair(s: State, i: nat, id: nat, heard: seq<Event>, next: nat)
    requires Judged(s, heard, next, id) && !s.drained && i < |s.window| && s.window[i].serial == id && next <= id
    ensures Fair(Failed(s, id), Earned(heard, s.accepted, id), s.window[i].(refused := true))
  {
    hide Earned;
  }

  lemma RefuseJudged(s: State, tr: Track, reason: uint8, id: uint64, heard: seq<Event>, n: nat)
    requires WellSent(s) && Conserved(s) && Judged(s, heard, tr.next, n) && !s.drained
    requires InOrder(Begun(s), tr, Refuse(reason, id))
    ensures Judged(ApplyRefuse(s, reason, id), heard + [Refuse(reason, id)], id + 1, n)
  {
    WindowOf(s);
    var e := Refuse(reason, id);
    var i, more := FindId(s.window, id), heard + [e];
    EarnedMore(heard, e, s.accepted, n);
    HeardMore(heard, e, s.nextId);
    hide WellSent, Earned, Conserved, FindId, Retire, Judged, Fair;
    if i == |s.window| {
      LaterJudged(s, heard, more, s.ackedLen, tr.next, id + 1, n);
    } else {
      assert s.window[i].serial == id by { assert Windowed(s, i); }
      if n == id {
        RefusedFair(s, i, id, heard, tr.next);
      }
      hide WindowSound, FailureSound;
      MarkJudged(s, i, s.window[i].(refused := true), s.ackedLen, heard, more, tr.next, id + 1, n);
    }
  }

  /** An acknowledgment in order that does not find its transfer cannot earn anything. */
  lemma UnplacedEarns(s: State, tr: Track, flags: uint8, id: uint64, length: nat, heard: seq<Event>, n: nat)
    requires WellSent(s) && Shape(s, tr) && Tracking(Begun(s), tr)
    requires InOrder(Begun(s), tr, Ack(flags, id, length))
    requires s.window == [] || s.window[0].id != id
    ensures var more := heard + [Ack(flags, id, length)];
            Earned(more, s.accepted, n) == Earned(heard, s.accepted, n) || Failed(s, n)
  {
    BegunAre(s);
    UnexpectedIff(s, tr, flags, id, length);
    EarnedMore(heard, Ack(flags, id, length), s.accepted, n);
    hide WellSent, Shape, Tracking, InOrder, Earned;
  }

  /** One that finds it is expected, and the transfer has no mark yet. */
  lemma PlacedIsExpected(s: State, tr: Track, flags: uint8, id: uint64, length: nat, heard: seq<Event>)
    requires WellSent(s) && Shape(s, tr) && Tracking(Begun(s), tr)
    requires InOrder(Begun(s), tr, Ack(flags, id, length))
    requires s.window != [] && s.window[0].id == id
    ensures var x := s.window[0];
            && x.serial == id == tr.next < s.nextId && s.ackedLen < length <= x.length && !x.acked && !x.refused
            && x.length == |s.accepted[id]| && !Failed(s, id)
    ensures length == s.window[0].length ==> Earned(heard + [Ack(flags, id, length)], s.accepted, id)
  {
    BegunAre(s);
    HeadIsNext(s, tr, Ack(flags, id, length));
    WindowOf(s);
    HeadNotFailed(s);
    EarnedMore(heard, Ack(flags, id, length), s.accepted, id);
    hide WellSent, Shape, WindowSound, FailureSound, Earned;
  }

  lemma HeadNotFailed(s: State)
    requires WindowSound(s) && FailureSound(s) && s.window != []
    ensures !Failed(s, s.window[0].id)
  {
    assert Windowed(s, 0);
  }

  lemma AckJudged(s: State, tr: Track, flags: uint8, id: uint64, length: nat, heard: seq<Event>, n: nat)
    requires WellSent(s) && Conserved(s) && Shape(s, tr) && Tracking(Begun(s), tr)
    requires InOrder(Begun(s), tr, Ack(flags, id, length)) && Judged(s, heard, tr.next, n)
    ensures var e := Ack(flags, id, length);
            Judged(ApplyAck(s, id, length), heard + [e], Advance(Begun(s), tr, e).next, n)
  {
    var e := Ack(flags, id, length);
    var more, later := heard + [e], Advance(Begun(s), tr, e).next;
    BegunAre(s);
    JudgedHeard(s, heard, tr.next, n);
    HeardMore(heard, e, s.nextId);
    EarnedMore(heard, e, s.accepted, n);
    hide Conserved, Judged, Earned, Fair, Retire, Shape, WellSent, Tracking;
    if s.window == [] || s.window[0].id != id {
      UnplacedEarns(s, tr, flags, id, length, heard, n);
      hide InOrder, EmptyBetween;
      LaterJudged(s, heard, more, s.ackedLen, tr.next, later, n);
    } else {
      PlacedIsExpected(s, tr, flags, id, length, heard);
      hide InOrder, EmptyBetween;
      if length == s.window[0].length {
        WindowOf(s);
        hide WindowSound, FailureSound;
        if n == id {
          AckedFair(s, heard, tr.next, n);
        }
        MarkJudged(s, 0, s.window[0].(acked := true), length, heard, more, tr.next, later, n);
      } else {
        LaterJudged(s, heard, more, length, tr.next, later, n);
      }
    }
  }

  /** What the sender makes of a reply. */
  lemma ReplyJudged(s: State, tr: Track, e: Event, heard: seq<Event>, n: nat)
    requires WellSent(s) && Conserved(s) && Shape(s, tr) && Tracking(Begun(s), tr) && !s.drained
    requires InOrder(Begun(s), tr, e) && Judged(s, heard, tr.next, n)
    ensures var t := if e.Ack? then ApplyAck(s, e.id, e.length) else ApplyRefuse(s, e.reason, e.refusedId);
            Judged(t, heard + [e], Advance(Begun(s), tr, e).next, n)
  {
    hide WellSent, Conserved, Shape, Tracking, Judged, ApplyAck, ApplyRefuse, Begun, EmptyBetween;
    if e.Ack? {
      AckJudged(s, tr, e.flags, e.id, e.length, heard, n);
    } else {
      RefuseJudged(s, tr, e.reason, e.refusedId, heard, n);
    }
  }

  lemma JudgedHeard(s: State, heard: seq<Event>, next: nat, n: nat)
    requires Judged(s, heard, next, n)
    ensures HeardBegun(heard, s.nextId)
  {}

  lemma AckedFair(s: State, heard: seq<Event>, next: nat, n: nat)
    requires Judged(s, heard, next, n) && s.window != [] && s.window[0].serial == n && !s.window[0].refused
    requires !Failed(s, n)
    ensures Fair(false, true, s.window[0].(acked := true))
  {}
}
