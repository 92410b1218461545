/** What BP is told of a bundle, whatever the peer replies: exactly which replies make it a success,
    and which do not. */
module Tcpv4Told {
  import opened Octets
  import opened Options
  import opened Tcpv4Tx
  import opened Tcpv4TxConserve
  import opened Tcpv4Verdict

  // ---- What can happen to a transfer on the window -----------------------------------------------------

  /** The n-th bundle is at the head of the window, and the acknowledgment of all of it comes. */
  predicate Earns(s: State, a: Action, n: nat) {
    && a.RecvAck? && s.window != [] && s.window[0].id == a.id && s.window[0].serial == n
    && s.ackedLen < a.length == s.window[0].length
  }

  /** The peer refuses it because it has all of it (reason 1). */
  predicate Completes(s: State, a: Action, n: nat) {
    && a.RecvRefuse? && a.reason == 1
    && var i := FindId(s.window, a.id); i < |s.window| && s.window[i].serial == n
  }

  /** It is refused for another reason, acknowledged for a length that cannot be, or given up by
      this end. */
  predicate Spoils(s: State, a: Action, n: nat) {
    match a
    case RecvRefuse(reason, id) =>
      reason != 1 && var i := FindId(s.window, id); i < |s.window| && s.window[i].serial == n
    case RecvAck(id, length) =>
      && s.window != [] && s.window[0].id == id && s.window[0].serial == n
      && (length <= s.ackedLen || length > s.window[0].length)
    case LetGo =>
      && s.xmit.LettingGo? && s.xmit.failed
      && var i := FindId(s.window, s.xmit.id); i < |s.window| && s.window[i].serial == n
    case _ => false
  }

  /** Some step of the run is such. */
  predicate Sometime(cfg: TxConfig, actions: seq<Action>, such: (State, Action) -> bool) {
    exists k {:trigger actions[k]} ::
      0 <= k < |actions| && Run(cfg, actions[..k]).Some? && such(Run(cfg, actions[..k]).value, actions[k])
  }

  lemma SometimeSnoc(cfg: TxConfig, front: seq<Action>, a: Action, such: (State, Action) -> bool)
    requires Run(cfg, front).Some?
    ensures Sometime(cfg, front + [a], such) <==> Sometime(cfg, front, such) || such(Run(cfg, front).value, a)
  {
    hide Run;
    var longer := front + [a];
    assert longer[..|front|] == front && longer[|front|] == a;
    assert forall k :: 0 <= k < |front| ==> longer[..k] == front[..k] && longer[k] == front[k];
  }

  /** What has happened to a bundle so far. */
  datatype Past = Past(earned: bool, completed: bool, spoiled: bool) {
    predicate Success() { completed || (earned && !spoiled) }
  }

  function PastOf(cfg: TxConfig, actions: seq<Action>, n: nat): Past {
    Past(Sometime(cfg, actions, (s, a) => Earns(s, a, n)),
         Sometime(cfg, actions, (s, a) => Completes(s, a, n)),
         Sometime(cfg, actions, (s, a) => Spoils(s, a, n)))
  }

  function Then(h: Past, s: State, a: Action, n: nat): Past {
    Past(h.earned || Earns(s, a, n), h.completed || Completes(s, a, n), h.spoiled || Spoils(s, a, n))
  }

  lemma PastSnoc(cfg: TxConfig, front: seq<Action>, a: Action, n: nat)
    requires Run(cfg, front).Some?
    ensures PastOf(cfg, front + [a], n) == Then(PastOf(cfg, front, n), Run(cfg, front).value, a, n)
  {
    SometimeSnoc(cfg, front, a, (s, a) => Earns(s, a, n));
    SometimeSnoc(cfg, front, a, (s, a) => Completes(s, a, n));
    SometimeSnoc(cfg, front, a, (s, a) => Spoils(s, a, n));
    hide Run, Sometime, Earns, Completes, Spoils;
  }

  // ---- The marks say what has happened ---------------------------------------------------------------

  predicate Shows(x: Xfer, h: Past) {
    x.acked == h.earned && x.completed == h.completed && x.refused == (h.spoiled || h.completed)
  }

  predicate ShownAmong(w: seq<Xfer>, n: nat, h: Past) {
    forall k :: 0 <= k < |w| && w[k].serial == n ==> Shows(w[k], h)
  }

  /** Wherever the n-th bundle is, its marks show its past, and BP was told so. */
  predicate Shown(s: State, n: nat, h: Past) {
    && ShownAmong(s.queue, n, h) && ShownAmong(s.window, n, h) && ShownAmong(s.dead, n, h)
    && (s.xmit.Reporting? && s.xmit.done.serial == n ==> Shows(s.xmit.done, h))
    && (s.rcv.Retiring? && s.rcv.done.serial == n ==> Shows(s.rcv.done, h))
    && (forall k :: 0 <= k < |s.reported| && s.reported[k].serial == n ==> s.reported[k].succeeded == h.Success())
  }

  lemma {:induction false} ShownReverse(w: seq<Xfer>, n: nat, h: Past)
    requires ShownAmong(w, n, h)
    ensures ShownAmong(Reverse(w), n, h)
  {
    if w != [] {
      ShownReverse(w[1..], n, h);
    }
  }

  /** One transfer on the window is marked: the n-th bundle's, which is nowhere else, or another's. */
  lemma MarkShown(s: State, t: State, i: nat, x: Xfer, n: nat, h: Past, h': Past)
    requires Conserved(s) && Shown(s, n, h) && Marks(s, t, i, x)
    requires if x.serial == n then Shows(x, h') else h' == h
    ensures Shown(t, n, h')
  {
    OthersAre(s.window, t.window, i, x);
    if x.serial == n {
      OnlyThere(s, i, n);
      hide Conserved, Without;
    } else {
      hide Conserved, Without, Shows;
      forall k | 0 <= k < |t.window| && t.window[k].serial == n ensures Shows(t.window[k], h') {
        assert t.window[k] in s.window;
      }
    }
  }

  lemma RetireMarks(s: State, i: nat, x: Xfer, ackedLen: nat)
    requires i < |s.window| && x.serial == s.window[i].serial
    ensures Marks(s, Retire(s.(window := s.window[i := x], ackedLen := ackedLen), i), i, x)
  {
    assert Without(s.window[i := x], i) == Without(s.window, i);
  }

  lemma AckShown(s: State, id: nat, length: nat, n: nat, h: Past)
    requires Conserved(s) && Shown(s, n, h)
    ensures Shown(ApplyAck(s, id, length), n, Then(h, s, RecvAck(id, length), n))
  {
    hide Retire, Conserved;
    if s.window != [] && s.window[0].id == id {
      var head, t := s.window[0], ApplyAck(s, id, length);
      var x := if length <= s.ackedLen || length > head.length then head.(refused := true)
               else if length == head.length then head.(acked := true) else head;
      RetireMarks(s, 0, head.(refused := true), s.ackedLen);
      RetireMarks(s, 0, head.(acked := true), length);
      assert s.window[0 := head] == s.window;
      assert Marks(s, t, 0, x);
      assert x.serial == n ==> Shows(head, h);
      hide Shown, Marks, ApplyAck;
      MarkShown(s, t, 0, x, n, h, Then(h, s, RecvAck(id, length), n));
    }
  }

  lemma RefuseShown(s: State, reason: uint8, id: nat, n: nat, h: Past)
    requires Conserved(s) && Shown(s, n, h)
    ensures Shown(ApplyRefuse(s, reason, id), n, Then(h, s, RecvRefuse(reason, id), n))
  {
    hide Retire, Conserved;
    var i := FindId(s.window, id);
    if i < |s.window| {
      var x := s.window[i].(refused := true, completed := s.window[i].completed || reason == 1);
      RetireMarks(s, i, x, s.ackedLen);
      var t := ApplyRefuse(s, reason, id);
      assert Marks(s, t, i, x);
      assert x.serial == n ==> Shows(s.window[i], h);
      hide Shown, Marks, ApplyRefuse;
      MarkShown(s, t, i, x, n, h, Then(h, s, RecvRefuse(reason, id), n));
    }
  }

  lemma LetGoShown(s: State, i: nat, n: nat, h: Past)
    requires Conserved(s) && Shown(s, n, h) && s.xmit.LettingGo? && i == FindId(s.window, s.xmit.id) < |s.window|
    ensures Shown(ApplyLetGo(s, i, s.xmit.failed), n, Then(h, s, LetGo, n))
  {
    var failed := s.xmit.failed;
    var x, t := s.window[i].(inFlight := false, refused := s.window[i].refused || failed), ApplyLetGo(s, i, failed);
    assert Without(s.window[i := x], i) == Without(s.window, i);
    assert Marks(s, t, i, x);
    assert x.serial == n ==> Shows(s.window[i], h);
    hide Shown, Marks, ApplyLetGo, Conserved;
    MarkShown(s, t, i, x, n, h, Then(h, s, LetGo, n));
  }

  // ---- The other steps -------------------------------------------------------------------------------

  lemma SameShown(s: State, t: State, n: nat, h: Past)
    requires Shown(s, n, h)
    requires t.queue == s.queue && t.window == s.window && t.dead == s.dead && t.reported == s.reported
    requires (t.xmit.Reporting? ==> t.xmit == s.xmit) && (t.rcv.Retiring? ==> t.rcv == s.rcv)
    ensures Shown(t, n, h)
  {}

  lemma ReportShown(s: State, t: State, x: Xfer, n: nat, h: Past)
    requires Shown(s, n, h)
    requires || (s.xmit.Reporting? && x == s.xmit.done) || (s.rcv.Retiring? && x == s.rcv.done)
             || (s.dead != [] && x == s.dead[0])
    requires t == Report(s, x).(xmit := t.xmit, rcv := t.rcv, dead := t.dead)
    requires (t.xmit.Reporting? ==> t.xmit == s.xmit) && (t.rcv.Retiring? ==> t.rcv == s.rcv)
    requires t.dead == s.dead || (s.dead != [] && t.dead == s.dead[1..])
    ensures Shown(t, n, h)
  {
    assert x.serial == n ==> Shows(x, h);
  }

  lemma ListsShown(s: State, t: State, a: Action, n: nat, h: Past)
    requires Shown(s, n, h)
    requires || (a.Enqueue? && t == ApplyEnqueue(s, a.bundle) && (n == |s.accepted| ==> h == Past(false, false, false)))
             || (a.BeginXfer? && s.queue != [] && t == ApplyBegin(s)) || (a.Drain? && t == ApplyDrain(s))
    ensures Shown(t, n, h)
  {
    if a.Drain? {
      ShownReverse(s.window, n, h);
      ShownReverse(s.queue, n, h);
    } else if a.BeginXfer? {
      assert forall k :: 0 <= k < |t.queue| ==> t.queue[k] == s.queue[k + 1];
    }
  }

  lemma StepShown(cfg: TxConfig, s: State, a: Action, n: nat, h: Past)
    requires Conserved(s) && Shown(s, n, h) && Apply(cfg, s, a).Some?
    requires n >= |s.accepted| ==> h == Past(false, false, false)
    ensures Shown(Apply(cfg, s, a).value, n, Then(h, s, a, n))
  {
    hide ApplyAck, ApplyRefuse, ApplyLetGo, FindId, Shown, Conserved;
    hide CutSegment, BufferEnd, HasRoom, ApplyDrain, ApplyBegin, ApplyEnqueue;
    match a
    case RecvAck(id, length) => AckShown(s, id, length, n, h);
    case RecvRefuse(reason, id) => RefuseShown(s, reason, id, n, h);
    case LetGo => LetGoShown(s, FindId(s.window, s.xmit.id), n, h);
    case Enqueue(bundle) => ListsShown(s, ApplyEnqueue(s, bundle), a, n, h);
    case BeginXfer => ListsShown(s, ApplyBegin(s), a, n, h);
    case Drain => ListsShown(s, ApplyDrain(s), a, n, h);
    case XmitReport => ReportShown(s, Apply(cfg, s, a).value, s.xmit.done, n, h);
    case RcvReport => ReportShown(s, Apply(cfg, s, a).value, s.rcv.done, n, h);
    case DrainReport => ReportShown(s, Apply(cfg, s, a).value, s.dead[0], n, h);
    case _ => SameShown(s, Apply(cfg, s, a).value, n, h);
  }

  /** Nothing can happen to a bundle that has not been accepted. */
  lemma NothingYet(s: State, a: Action, n: nat)
    requires Conserved(s) && n >= |s.accepted|
    ensures !Earns(s, a, n) && !Completes(s, a, n) && !Spoils(s, a, n)
  {
    assert Times(s.window, n) == 0 by { assert Places(s, n) == 0; }
    Absent(s.window, n);
    hide Conserved, FindId;
  }

  lemma AcceptsMore(cfg: TxConfig, s: State, a: Action)
    requires Apply(cfg, s, a).Some?
    ensures |s.accepted| <= |Apply(cfg, s, a).value.accepted|
  {
    hide FindId, Without, CutSegment, BufferEnd, HasRoom, Reverse;
  }

  lemma {:induction false} AlwaysShown(cfg: TxConfig, actions: seq<Action>, n: nat)
    requires Run(cfg, actions).Some?
    ensures Shown(Run(cfg, actions).value, n, PastOf(cfg, actions, n))
    ensures n >= |Run(cfg, actions).value.accepted| ==> PastOf(cfg, actions, n) == Past(false, false, false)
  {
    hide Apply, Earns, Completes, Spoils;
    if actions != [] {
      hide Shown, Conserved, PastOf;
      var front, a := actions[..|actions| - 1], actions[|actions| - 1];
      assert actions == front + [a];
      var s := Run(cfg, front).value;
      NeverLostNeverTwice(cfg, front);
      AlwaysShown(cfg, front, n);
      PastSnoc(cfg, front, a, n);
      StepShown(cfg, s, a, n, PastOf(cfg, front, n));
      AcceptsMore(cfg, s, a);
      if n >= |s.accepted| {
        NothingYet(s, a, n);
      }
    }
  }

  /** Whatever the peer replies and however the threads interleave, BP is told that the n-th bundle
      was delivered exactly when the peer refused it, while it was on the window, because it has
      all of it, or acknowledged the whole of it while it was at the head of the window and nothing
      spoiled it. */
  lemma ToldExactlyWhen(cfg: TxConfig, actions: seq<Action>, n: nat, b: bool)
    requires Run(cfg, actions).Some? && Outcome(n, b) in Run(cfg, actions).value.reported
    ensures b <==>
              || Sometime(cfg, actions, (s, a) => Completes(s, a, n))
              || (Sometime(cfg, actions, (s, a) => Earns(s, a, n))
                  && !Sometime(cfg, actions, (s, a) => Spoils(s, a, n)))
  {
    AlwaysShown(cfg, actions, n);
    hide Run, Sometime;
    var s := Run(cfg, actions).value;
    var k :| 0 <= k < |s.reported| && s.reported[k] == Outcome(n, b);
  }
}
