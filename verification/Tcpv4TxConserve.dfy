/** No bundle that a session accepted is lost or reported twice, whatever the peer sends
    and however the threads interleave. */
module Tcpv4TxConserve {
  import opened Octets
  import opened Options
  import opened Tcpv4Tx

  /** How often the n-th accepted bundle is on a list. */
  function Times(w: seq<Xfer>, n: nat): nat {
    if w == [] then 0 else (if w[0].serial == n then 1 else 0) + Times(w[1..], n)
  }

  /** How often its outcome has been reported. */
  function Told(reported: seq<Outcome>, n: nat): nat {
    if reported == [] then 0
    else Told(reported[..|reported| - 1], n) + (if reported[|reported| - 1].serial == n then 1 else 0)
  }

  function TotalLength(w: seq<Xfer>): nat {
    if w == [] then 0 else w[0].length + TotalLength(w[1..])
  }

  lemma {:induction false} ListAppend(a: seq<Xfer>, b: seq<Xfer>, n: nat)
    ensures Times(a + b, n) == Times(a, n) + Times(b, n)
    ensures TotalLength(a + b) == TotalLength(a) + TotalLength(b)
  {
    if a == [] {
      assert a + b == b;
    } else {
      assert (a + b)[1..] == a[1..] + b;
      ListAppend(a[1..], b, n);
    }
  }

  function Is(x: Xfer, n: nat): nat { if x.serial == n then 1 else 0 }

  lemma ListOne(x: Xfer, n: nat)
    ensures Times([x], n) == Is(x, n) && TotalLength([x]) == x.length
  {
    assert [x][1..] == [];
  }

  /** Taking one transfer off a list takes just that one with it. */
  lemma ListWithout(w: seq<Xfer>, i: nat, n: nat)
    requires i < |w|
    ensures Times(w, n) == Times(Without(w, i), n) + Is(w[i], n)
    ensures TotalLength(w) == TotalLength(Without(w, i)) + w[i].length
  {
    var a, b := w[..i], w[i + 1..];
    assert w == a + ([w[i]] + b);
    ListAppend(a, [w[i]] + b, n);
    ListAppend([w[i]], b, n);
    ListOne(w[i], n);
    ListAppend(a, b, n);
  }

  /** Changing a transfer's marks changes neither. */
  lemma ListUpdate(w: seq<Xfer>, i: nat, x: Xfer, n: nat)
    requires i < |w| && x.serial == w[i].serial && x.length == w[i].length
    ensures Times(w[i := x], n) == Times(w, n) && TotalLength(w[i := x]) == TotalLength(w)
  {
    ListWithout(w, i, n);
    ListWithout(w[i := x], i, n);
    assert Without(w, i) == Without(w[i := x], i);
  }

  lemma {:induction false} ListReverse(w: seq<Xfer>, n: nat)
    ensures Times(Reverse(w), n) == Times(w, n)
  {
    if w != [] {
      ListReverse(w[1..], n);
      ListAppend(Reverse(w[1..]), [w[0]], n);
      ListOne(w[0], n);
    }
  }

  /** Whether a thread has taken it off the window and not reported it yet. */
  function Held(s: State, n: nat): nat {
    (if s.xmit.Reporting? then Is(s.xmit.done, n) else 0)
    + (if s.rcv.Retiring? then Is(s.rcv.done, n) else 0)
  }

  /** In how many places the n-th accepted bundle is: queued, in the window, about to be
      reported, or reported. */
  function Places(s: State, n: nat): nat {
    Times(s.queue, n) + Times(s.window, n) + Held(s, n) + Times(s.dead, n) + Told(s.reported, n)
  }

  predicate CountsRight(s: State) {
    && s.count == |s.queue| + |s.window|
    && s.bytes == TotalLength(s.queue) + TotalLength(s.window)
  }

  predicate DrainedForGood(s: State) {
    && (s.drained ==> s.queue == [] && s.window == [] && s.xmit.Exited? && s.rcv.Closed? && s.stopped)
    && (!s.drained ==> s.dead == [])
  }

  /** Every accepted bundle is in exactly one place, and the counters agree with the lists. */
  ghost predicate Conserved(s: State) {
    && (forall n: nat :: Places(s, n) == if n < |s.accepted| then 1 else 0)
    && CountsRight(s) && DrainedForGood(s)
  }

  /** A step that moves bundles without losing or duplicating any. */
  predicate Keeps(s: State, t: State, n: nat) {
    && t.accepted == s.accepted
    && Places(t, n) == Places(s, n)
    && (CountsRight(s) ==> CountsRight(t))
  }

  lemma RetireKeeps(s: State, i: nat, n: nat)
    requires i < |s.window| && s.rcv.Listening?
    ensures Keeps(s, Retire(s, i), n)
  {
    ListWithout(s.window, i, n);
  }

  lemma MarkKeeps(s: State, i: nat, x: Xfer, ackedLen: nat, n: nat)
    requires i < |s.window| && x.serial == s.window[i].serial && x.length == s.window[i].length
    ensures Keeps(s, s.(window := s.window[i := x], ackedLen := ackedLen), n)
  {
    ListUpdate(s.window, i, x, n);
  }

  lemma AckKeeps(s: State, id: nat, length: nat, n: nat)
    requires s.rcv.Listening?
    ensures Keeps(s, ApplyAck(s, id, length), n)
  {
    hide Places, CountsRight, Retire;
    if s.window != [] && s.window[0].id == id {
      var head := s.window[0];
      var refused := s.(window := s.window[0 := head.(refused := true)]);
      var acked := s.(ackedLen := length, window := s.window[0 := head.(acked := true)]);
      MarkKeeps(s, 0, head, length, n);
      assert s.window[0 := head] == s.window;
      MarkKeeps(s, 0, head.(refused := true), s.ackedLen, n);
      RetireKeeps(refused, 0, n);
      MarkKeeps(s, 0, head.(acked := true), length, n);
      RetireKeeps(acked, 0, n);
    }
  }

  lemma RefuseKeeps(s: State, reason: uint8, id: nat, n: nat)
    requires s.rcv.Listening?
    ensures Keeps(s, ApplyRefuse(s, reason, id), n)
  {
    hide Places, CountsRight, Retire;
    var i := FindId(s.window, id);
    if i < |s.window| {
      var x := s.window[i];
      var x' := x.(refused := true, completed := x.completed || reason == Tcpv4Msg.REFUSE_COMPLETED);
      MarkKeeps(s, i, x', s.ackedLen, n);
      RetireKeeps(s.(window := s.window[i := x']), i, n);
    }
  }

  lemma LetGoKeeps(s: State, i: nat, failed: bool, n: nat)
    requires i < |s.window| && s.xmit.LettingGo?
    ensures Keeps(s, ApplyLetGo(s, i, failed), n)
  {
    var x := s.window[i];
    var x' := x.(inFlight := false, refused := x.refused || failed);
    ListUpdate(s.window, i, x', n);
    ListWithout(s.window[i := x'], i, n);
  }

  lemma BeginKeeps(s: State, n: nat)
    requires s.queue != [] && s.xmit.Idle?
    ensures Keeps(s, ApplyBegin(s), n)
  {
    var x := s.queue[0].(id := s.nextId, inFlight := true);
    ListAppend(s.window, [x], n);
    ListOne(x, n);
  }

  lemma Reported(s: State, x: Xfer, n: nat)
    ensures Told(Report(s, x).reported, n) == Told(s.reported, n) + Is(x, n)
  {
    assert (s.reported + [Outcome(x.serial, x.Succeeded())])[..|s.reported|] == s.reported;
  }

  lemma DrainKeeps(s: State, n: nat)
    requires s.xmit.Exited? && s.rcv.Closed? && s.dead == []
    ensures Keeps(s, ApplyDrain(s), n)
  {
    ListReverse(s.window, n);
    ListReverse(s.queue, n);
    ListAppend(Reverse(s.window), Reverse(s.queue), n);
  }

  lemma EnqueuePlaces(s: State, bundle: Octets, n: nat)
    ensures Places(ApplyEnqueue(s, bundle), n) == Places(s, n) + if n == |s.accepted| then 1 else 0
    ensures CountsRight(s) ==> CountsRight(ApplyEnqueue(s, bundle))
  {
    var x := Xfer(|s.accepted|, |bundle|, 0, false, false, false, false);
    ListAppend(s.queue, [x], n);
    ListOne(x, n);
  }

  lemma StepKeeps(cfg: TxConfig, s: State, a: Action, n: nat)
    requires Apply(cfg, s, a).Some? && !a.Enqueue? && (a.Drain? ==> s.dead == [])
    ensures Keeps(s, Apply(cfg, s, a).value, n)
  {
    hide ApplyAck, ApplyRefuse, ApplyLetGo, ApplyBegin, ApplyDrain, Report;
    if a.RecvAck? {
      AckKeeps(s, a.id, a.length, n);
    } else if a.RecvRefuse? {
      RefuseKeeps(s, a.reason, a.id, n);
    } else if a.LetGo? {
      LetGoKeeps(s, FindId(s.window, s.xmit.id), s.xmit.failed, n);
    } else if a.BeginXfer? {
      BeginKeeps(s, n);
    } else if a.Drain? {
      DrainKeeps(s, n);
    } else {
      QuietStepKeeps(cfg, s, a, n);
    }
  }

  /** A thread reports the transfer it holds. */
  lemma HeldReported(s: State, x: Xfer, xmit: XmitPc, rcv: RcvPc, dead: seq<Xfer>, n: nat)
    requires var t := Report(s, x).(xmit := xmit, rcv := rcv, dead := dead);
             Held(t, n) + Times(dead, n) + Is(x, n) == Held(s, n) + Times(s.dead, n)
    ensures Keeps(s, Report(s, x).(xmit := xmit, rcv := rcv, dead := dead), n)
  {
    Reported(s, x, n);
    hide Times, TotalLength, Held, Told;
    var t := Report(s, x).(xmit := xmit, rcv := rcv, dead := dead);
    assert t.queue == s.queue && t.window == s.window;
  }

  lemma QuietStepKeeps(cfg: TxConfig, s: State, a: Action, n: nat)
    requires Apply(cfg, s, a).Some?
    requires !a.Enqueue? && !a.RecvAck? && !a.RecvRefuse? && !a.LetGo? && !a.BeginXfer? && !a.Drain?
    ensures Keeps(s, Apply(cfg, s, a).value, n)
  {
    hide Times, TotalLength, Told, CutSegment, FindId;
    var t := Apply(cfg, s, a).value;
    if a.XmitReport? {
      HeldReported(s, s.xmit.done, t.xmit, s.rcv, s.dead, n);
    } else if a.RcvReport? {
      HeldReported(s, s.rcv.done, s.xmit, t.rcv, s.dead, n);
    } else if a.DrainReport? {
      FirstOf(s.dead, n);
      HeldReported(s, s.dead[0], s.xmit, s.rcv, s.dead[1..], n);
    }
  }

  lemma FirstOf(w: seq<Xfer>, n: nat)
    requires w != []
    ensures Times(w, n) == Is(w[0], n) + Times(w[1..], n)
  {}

  lemma DrainStays(cfg: TxConfig, s: State, a: Action)
    requires DrainedForGood(s) && Apply(cfg, s, a).Some?
    ensures DrainedForGood(Apply(cfg, s, a).value)
  {}

  lemma StepConserves(cfg: TxConfig, s: State, a: Action)
    requires Conserved(s) && Apply(cfg, s, a).Some?
    ensures Conserved(Apply(cfg, s, a).value)
  {
    hide Places, CountsRight, Apply, DrainedForGood;
    var t := Apply(cfg, s, a).value;
    DrainStays(cfg, s, a);
    if a.Enqueue? {
      Enqueued(cfg, s, a.bundle);
    }
    forall n: nat
      ensures Places(t, n) == if n < |t.accepted| then 1 else 0
      ensures CountsRight(t)
    {
      if a.Enqueue? {
        EnqueuePlaces(s, a.bundle, n);
      } else {
        if a.Drain? {
          DrainsOnce(cfg, s);
        }
        StepKeeps(cfg, s, a, n);
      }
    }
    assert Places(t, 0) == if 0 < |t.accepted| then 1 else 0;
  }

  lemma Enqueued(cfg: TxConfig, s: State, bundle: Octets)
    requires Apply(cfg, s, Enqueue(bundle)).Some?
    ensures Apply(cfg, s, Enqueue(bundle)).value == ApplyEnqueue(s, bundle)
  {}

  lemma DrainsOnce(cfg: TxConfig, s: State)
    requires DrainedForGood(s) && Apply(cfg, s, Drain).Some?
    ensures s.dead == []
  {}

  lemma InitiallyConserved()
    ensures Conserved(INITIAL)
  {
    assert forall n: nat :: Places(INITIAL, n) == 0;
  }

  /** In every run, under every interleaving and whatever the peer replies, each accepted
      bundle is in exactly one place: the queue, the window, a thread about to report it,
      or the reports. */
  lemma {:induction false} NeverLostNeverTwice(cfg: TxConfig, actions: seq<Action>)
    requires Run(cfg, actions).Some?
    ensures Conserved(Run(cfg, actions).value)
  {
    if actions == [] {
      InitiallyConserved();
    } else {
      var front := actions[..|actions| - 1];
      NeverLostNeverTwice(cfg, front);
      StepConserves(cfg, Run(cfg, front).value, actions[|actions| - 1]);
    }
  }

  /** Once the session is drained, every bundle it ever accepted has been reported, once. */
  lemma AllReportedOnce(cfg: TxConfig, actions: seq<Action>, n: nat)
    requires Run(cfg, actions).Some?
    requires Run(cfg, actions).value.drained && Run(cfg, actions).value.dead == []
    ensures var s := Run(cfg, actions).value;
            Told(s.reported, n) == if n < |s.accepted| then 1 else 0
  {
    NeverLostNeverTwice(cfg, actions);
    assert Places(Run(cfg, actions).value, n) == Told(Run(cfg, actions).value.reported, n);
  }

  // ---- The transmission window ---------------------------------------------------------------

  /** What queueXfer makes senders wait for: so many transfers at a time, and so many octets
      unless a single transfer exceeds them. */
  predicate WithinWindow(cfg: TxConfig, s: State) {
    && (cfg.window > 0 ==> s.count <= cfg.window)
    && (cfg.windowBytes > 0 ==> s.bytes <= cfg.windowBytes || s.count <= 1)
  }

  lemma RetireWithin(cfg: TxConfig, s: State, i: nat)
    requires WithinWindow(cfg, s) && i < |s.window|
    ensures WithinWindow(cfg, Retire(s, i))
  {}

  lemma StepWithin(cfg: TxConfig, s: State, a: Action)
    requires WithinWindow(cfg, s) && CountsRight(s) && Apply(cfg, s, a).Some?
    ensures WithinWindow(cfg, Apply(cfg, s, a).value)
  {
    hide TotalLength, CutSegment, Reverse;
    if a.RecvAck? && s.window != [] && s.window[0].id == a.id {
      var head := s.window[0];
      RetireWithin(cfg, s.(window := s.window[0 := head.(refused := true)]), 0);
      RetireWithin(cfg, s.(ackedLen := a.length, window := s.window[0 := head.(acked := true)]), 0);
    }
  }

  lemma CountsAlwaysRight(cfg: TxConfig, actions: seq<Action>)
    requires Run(cfg, actions).Some?
    ensures CountsRight(Run(cfg, actions).value)
  {
    hide Run, Places, CountsRight;
    NeverLostNeverTwice(cfg, actions);
  }

  lemma {:induction false} AlwaysWithin(cfg: TxConfig, actions: seq<Action>)
    requires Run(cfg, actions).Some?
    ensures WithinWindow(cfg, Run(cfg, actions).value)
  {
    if actions != [] {
      hide Apply, CountsRight;
      var front := actions[..|actions| - 1];
      AlwaysWithin(cfg, front);
      CountsAlwaysRight(cfg, front);
      StepWithin(cfg, Run(cfg, front).value, actions[|actions| - 1]);
    }
  }

  /** Whatever the sender threads offer, a session never holds more transfers than its window
      allows, nor more octets unless they are a single transfer's. */
  lemma NeverOverfull(cfg: TxConfig, actions: seq<Action>)
    requires Run(cfg, actions).Some?
    ensures var s := Run(cfg, actions).value;
            && (cfg.window > 0 ==> |s.queue| + |s.window| <= cfg.window)
            && (cfg.windowBytes > 0 ==>
                  TotalLength(s.queue) + TotalLength(s.window) <= cfg.windowBytes || |s.queue| + |s.window| <= 1)
  {
    hide Run, TotalLength;
    AlwaysWithin(cfg, actions);
    CountsAlwaysRight(cfg, actions);
  }

  /** In every run a bundle is taken exactly when the session is not stopping, the bundle is no
      longer than the Transfer MTU, and either the session holds none or there is room for one more
      and for its octets beside those of the transfers that are queued or on the window. */
  lemma RoomExactlyWhen(cfg: TxConfig, actions: seq<Action>, bundle: Octets)
    requires Run(cfg, actions).Some?
    ensures var s := Run(cfg, actions).value;
            var held, octets := |s.queue| + |s.window|, TotalLength(s.queue) + TotalLength(s.window);
            Apply(cfg, s, Enqueue(bundle)).Some? <==>
              && !s.stopped && |bundle| <= cfg.transferMtu
              && (held == 0 || ((cfg.window == 0 || held + 1 <= cfg.window)
                                && (cfg.windowBytes == 0 || octets + |bundle| <= cfg.windowBytes)))
  {
    hide Run, TotalLength, Apply;
    CountsAlwaysRight(cfg, actions);
    EnqueueGuard(cfg, Run(cfg, actions).value, bundle);
  }

  lemma EnqueueGuard(cfg: TxConfig, s: State, bundle: Octets)
    ensures Apply(cfg, s, Enqueue(bundle)).Some? <==>
              !s.stopped && |bundle| <= cfg.transferMtu && HasRoom(cfg, s, |bundle|)
  {
    hide HasRoom;
  }

  lemma {:induction false} ReverseAt(w: seq<Xfer>, k: nat)
    requires k < |w|
    ensures |Reverse(w)| == |w| && Reverse(w)[k] == w[|w| - 1 - k]
  {
    if |w| > 1 {
      ReverseAt(w[1..], if k < |w| - 1 then k else 0);
    }
  }

  /** What is drained is reported newest first: the window, and then the queue. */
  lemma DrainedOrder(s: State, k: nat)
    requires k < |s.window| + |s.queue|
    ensures var dead := ApplyDrain(s).dead;
            && |dead| == |s.window| + |s.queue|
            && dead[k] == if k < |s.window| then s.window[|s.window| - 1 - k]
                          else s.queue[|s.queue| - 1 - (k - |s.window|)]
  {
    if s.window != [] {
      ReverseAt(s.window, if k < |s.window| then k else 0);
    }
    if s.queue != [] {
      ReverseAt(s.queue, if k < |s.window| then 0 else k - |s.window|);
    }
  }
}
