/** Ending a session (RFC 9174, section 6.1): the clock thread, the receiver thread and the
    thread that stops the engine may each send a SESS_TERM. Every action is what one of them
    does under the engine's lock, or one write outside it. */
module Tcpv4Term {
  import opened Options

  datatype Phase = Negotiating | Established | Ending

  function Rank(p: Phase): nat {
    match p case Negotiating => 0 case Established => 1 case Ending => 2
  }

  /** A SESS_TERM on the wire: an answer, or one sent because a resource ran out. */
  datatype Term = Term(reply: bool, exhausted: bool)

  datatype RxPc = Setup | Looping | MustStart | MustReply | Done
  datatype ClockPc = Ticking | MustTerminate | Joined
  datatype StopPc = Running | Marked | MustSend | Stopped

  datatype State = State(phase: Phase, termSent: bool, rx: RxPc, clock: ClockPc, stop: StopPc,
                         wire: seq<Term>, heard: seq<Term>)

  const INITIAL := State(Negotiating, false, Setup, Ticking, Running, [], [])

  datatype Action =
    | Establish
    | ClockTick | ClockSend | ClockJoin
    | RxRejected | RxSendStart(ok: bool)  // a MSG_REJECT about transfers: startTermination
    | RxTerm(t: Term) | RxSendReply       // handleSessTerm
    | RxExhausted                         // a segment or transfer that cannot be taken
    | RxQuit
    | StopMark | StopCollect(failed: bool) | StopSend

  predicate ReplyNeeded(t: Term, termSent: bool) { !t.reply && !termSent }

  function Apply(s: State, a: Action): Option<State> {
    match a
    case Establish => if s.rx.Setup? then Some(s.(phase := Established, rx := Looping)) else None
    case ClockTick =>
      if !s.clock.Ticking? || s.rx.Done? || !s.phase.Established? || s.termSent then None
      else Some(s.(termSent := true, phase := Ending, clock := MustTerminate))
    case ClockSend =>
      if s.clock.MustTerminate? then Some(s.(wire := s.wire + [Term(false, false)], clock := Ticking)) else None
    case ClockJoin => if s.clock.Ticking? then Some(s.(clock := Joined)) else None
    case RxRejected =>
      if !s.rx.Looping? then None
      else Some(s.(termSent := true, phase := Ending, rx := if s.termSent then Looping else MustStart))
    case RxSendStart(ok) =>
      if !s.rx.MustStart? then None
      else Some(s.(wire := s.wire + [Term(false, false)], rx := if ok then Looping else Done))
    case RxTerm(t) =>
      if !s.rx.Looping? then None
      else Some(s.(termSent := true, phase := Ending, heard := s.heard + [t],
                   rx := if ReplyNeeded(t, s.termSent) then MustReply else Done))
    case RxSendReply =>
      if s.rx.MustReply? then Some(s.(wire := s.wire + [Term(true, false)], rx := Looping)) else None
    case RxExhausted =>
      if s.rx.Looping? then Some(s.(wire := s.wire + [Term(false, true)], rx := Done)) else None
    case RxQuit => if s.rx.Looping? || s.rx.Setup? then Some(s.(rx := Done)) else None
    case StopMark =>
      if s.clock.Joined? && s.stop.Running? then Some(s.(termSent := true, stop := Marked)) else None
    case StopCollect(failed) =>
      if !s.stop.Marked? then None
      else Some(s.(stop := if s.phase.Established? && !failed then MustSend else Stopped))
    case StopSend =>
      if s.stop.MustSend? then Some(s.(wire := s.wire + [Term(false, false)], stop := Stopped)) else None
  }

  function Run(actions: seq<Action>): Option<State> {
    if actions == [] then Some(INITIAL)
    else
      var before := Run(actions[..|actions| - 1]);
      if before.None? then None else Apply(before.value, actions[|actions| - 1])
  }

  // ---- One end -----------------------------------------------------------------------------------

  /** SESS_TERMs written by the sites that look at termSent. */
  function Guarded(wire: seq<Term>): nat {
    if wire == [] then 0
    else Guarded(wire[..|wire| - 1]) + if wire[|wire| - 1].exhausted then 0 else 1
  }

  lemma GuardedSnoc(wire: seq<Term>, t: Term)
    ensures Guarded(wire + [t]) == Guarded(wire) + if t.exhausted then 0 else 1
  {
    assert (wire + [t])[..|wire|] == wire;
  }

  /** SESS_TERMs some thread has committed itself to write. */
  function Owed(s: State): nat {
    (if s.clock.MustTerminate? then 1 else 0)
    + (if s.rx.MustStart? || s.rx.MustReply? then 1 else 0)
    + (if s.stop.MustSend? then 1 else 0)
  }

  predicate Inv(s: State) {
    && Guarded(s.wire) + Owed(s) <= 1
    && (!s.termSent || s.phase.Negotiating? ==> Guarded(s.wire) + Owed(s) == 0)
    && (s.phase.Established? && (s.stop.Running? || s.stop.Marked?) ==> Guarded(s.wire) + Owed(s) == 0)
    && (s.phase.Ending? ==> s.termSent)
    && (!s.stop.Running? ==> s.termSent && s.clock.Joined?)
    && (s.phase.Negotiating? ==> s.rx.Setup? || s.rx.Done?)
    && (s.rx.Setup? ==> s.phase.Negotiating?)
    && |s.wire| - Guarded(s.wire) <= (if s.rx.Done? then 1 else 0)
    && Guarded(s.wire) <= |s.wire|
  }

  lemma StepKeeps(s: State, a: Action)
    requires Inv(s) && Apply(s, a).Some?
    ensures Inv(Apply(s, a).value)
  {
    hide Guarded;
    GuardedSnoc(s.wire, Term(false, false));
    GuardedSnoc(s.wire, Term(true, false));
    GuardedSnoc(s.wire, Term(false, true));
  }

  lemma {:induction false} Always(actions: seq<Action>)
    requires Run(actions).Some?
    ensures Inv(Run(actions).value)
  {
    if actions != [] {
      Always(actions[..|actions| - 1]);
      StepKeeps(Run(actions[..|actions| - 1]).value, actions[|actions| - 1]);
    }
  }

  /** Under every interleaving the idle, reject-driven, reply and shutdown sites together send
      at most one SESS_TERM, and all sites together at most two: a receiver that runs out of
      resources does not look whether one has been sent. */
  lemma AtMostOneTerm(actions: seq<Action>)
    requires Run(actions).Some?
    ensures var wire := Run(actions).value.wire; Guarded(wire) <= 1 && |wire| <= 2
  {
    Always(actions);
  }

  predicate Asked(s: State) { exists t :: t in s.heard && !t.reply }

  /** An end whose engine is not being stopped owes exactly one SESS_TERM once it has marked
      one as sent, as long as it listens, and for good once it was asked for one. */
  predicate Obliged(s: State) {
    s.stop.Running? && ((s.termSent && !s.rx.Done?) || Asked(s)) ==> Guarded(s.wire) + Owed(s) == 1
  }

  lemma StepObliges(s: State, a: Action)
    requires Inv(s) && Obliged(s) && Apply(s, a).Some?
    ensures Obliged(Apply(s, a).value)
  {
    hide Guarded;
    GuardedSnoc(s.wire, Term(false, false));
    GuardedSnoc(s.wire, Term(true, false));
    GuardedSnoc(s.wire, Term(false, true));
    var t := Apply(s, a).value;
    if a.RxTerm? {
      assert forall x :: x in t.heard <==> x in s.heard || x == a.t;
    }
  }

  lemma {:induction false} AlwaysObliged(actions: seq<Action>)
    requires Run(actions).Some?
    ensures Obliged(Run(actions).value)
  {
    if actions != [] {
      Always(actions[..|actions| - 1]);
      AlwaysObliged(actions[..|actions| - 1]);
      StepObliges(Run(actions[..|actions| - 1]).value, actions[|actions| - 1]);
    }
  }

  /** A SESS_TERM that is not itself an answer does not stay without one: whoever has heard it
      has sent exactly one of its own, or is about to, unless its engine is being stopped. */
  lemma AnsweredWhenAsked(actions: seq<Action>)
    requires Run(actions).Some? && Run(actions).value.stop.Running?
    requires exists t :: t in Run(actions).value.heard && !t.reply
    ensures var s := Run(actions).value; Guarded(s.wire) + Owed(s) == 1
  {
    AlwaysObliged(actions);
  }

  // ---- Exactly how many -----------------------------------------------------------------------------

  /** The guards of the four sites that look at termSent: where this step commits a thread to
      write a SESS_TERM. */
  predicate Commits(s: State, a: Action) {
    match a
    case ClockTick => true
    case RxRejected => !s.termSent
    case RxTerm(t) => ReplyNeeded(t, s.termSent)
    case StopCollect(failed) => s.phase.Established? && !failed
    case _ => false
  }

  /** In the course of this run one of them was passed. */
  predicate SomeCommit(actions: seq<Action>) {
    exists k {:trigger actions[k]} ::
      0 <= k < |actions| && Run(actions[..k]).Some? && Commits(Run(actions[..k]).value, actions[k])
  }

  lemma SomeCommitSnoc(front: seq<Action>, a: Action)
    requires Run(front).Some?
    ensures SomeCommit(front + [a]) <==> SomeCommit(front) || Commits(Run(front).value, a)
  {
    hide Run, Commits;
    var longer := front + [a];
    assert longer[..|front|] == front && longer[|front|] == a;
    if k :| 0 <= k < |front| && Run(front[..k]).Some? && Commits(Run(front[..k]).value, front[k]) {
      assert longer[..k] == front[..k] && longer[k] == front[k];
    }
    if k :| 0 <= k < |longer| && Run(longer[..k]).Some? && Commits(Run(longer[..k]).value, longer[k]) {
      assert k < |front| ==> longer[..k] == front[..k] && longer[k] == front[k];
    }
  }

  /** A SESS_TERM comes in that is no answer, while this end has sent none. */
  predicate Asks(s: State, a: Action) { a.RxTerm? && !a.t.reply && !s.termSent }

  predicate SomeAsks(actions: seq<Action>) {
    exists k {:trigger actions[k]} ::
      0 <= k < |actions| && Run(actions[..k]).Some? && Asks(Run(actions[..k]).value, actions[k])
  }

  lemma SomeAsksSnoc(front: seq<Action>, a: Action)
    requires Run(front).Some?
    ensures SomeAsks(front + [a]) <==> SomeAsks(front) || Asks(Run(front).value, a)
  {
    hide Run, Asks;
    var longer := front + [a];
    assert longer[..|front|] == front && longer[|front|] == a;
    if k :| 0 <= k < |front| && Run(front[..k]).Some? && Asks(Run(front[..k]).value, front[k]) {
      assert longer[..k] == front[..k] && longer[k] == front[k];
    }
    if k :| 0 <= k < |longer| && Run(longer[..k]).Some? && Asks(Run(longer[..k]).value, longer[k]) {
      assert k < |front| ==> longer[..k] == front[..k] && longer[k] == front[k];
    }
  }

  /** An answer is written, or about to be, exactly when in the run a SESS_TERM came in that was
      no answer and found none sent: it carries the mark of an answer, and no other does. */
  lemma {:induction false} AnswersExactlyWhen(actions: seq<Action>)
    requires Run(actions).Some?
    ensures var s := Run(actions).value;
            (s.rx.MustReply? || exists t :: t in s.wire && t.reply) <==> SomeAsks(actions)
  {
    if actions != [] {
      var front, a := actions[..|actions| - 1], actions[|actions| - 1];
      assert actions == front + [a];
      AnswersExactlyWhen(front);
      SomeAsksSnoc(front, a);
      AnswersStep(Run(front).value, a);
      hide Run, Apply, Asks;
    }
  }

  lemma AnswersStep(s: State, a: Action)
    requires Apply(s, a).Some?
    ensures var t := Apply(s, a).value;
            (t.rx.MustReply? || exists x :: x in t.wire && x.reply)
            <==> s.rx.MustReply? || (exists x :: x in s.wire && x.reply) || Asks(s, a)
  {
    var t := Apply(s, a).value;
    assert forall x :: x in s.wire ==> x in t.wire;
    if a.RxSendReply? {
      assert t.wire[|s.wire|] == Term(true, false);
    }
  }

  /** An end listens on after a SESS_TERM only for as long as it takes the other to answer its own:
      it hears at most two, and it has answered the one that it listens on after. */
  predicate ListensOn(s: State) {
    && |s.heard| <= 2 && (|s.heard| == 2 ==> s.rx.Done?)
    && (s.heard != [] ==> s.termSent)
    && ((s.rx.Looping? || s.rx.MustStart? || s.rx.Setup?) && s.heard != [] ==>
          !s.rx.Setup? && !s.rx.MustStart? && !s.heard[0].reply && Term(true, false) in s.wire)
    && (s.rx.MustReply? ==> |s.heard| == 1 && !s.heard[0].reply)
  }

  lemma {:induction false} HearsAtMostTwo(actions: seq<Action>)
    requires Run(actions).Some?
    ensures ListensOn(Run(actions).value)
  {
    if actions != [] {
      HearsAtMostTwo(actions[..|actions| - 1]);
      ListensStep(Run(actions[..|actions| - 1]).value, actions[|actions| - 1]);
    }
  }

  lemma ListensStep(s: State, a: Action)
    requires ListensOn(s) && Apply(s, a).Some?
    ensures ListensOn(Apply(s, a).value)
  {
    var t := Apply(s, a).value;
    assert forall x :: x in s.wire ==> x in t.wire;
    if a.RxSendReply? {
      assert t.wire[|s.wire|] == Term(true, false);
    }
  }

  function One(b: bool): nat { if b then 1 else 0 }

  /** What one step adds to the SESS_TERMs written and owed. */
  lemma StepCounts(s: State, a: Action)
    requires Inv(s) && Apply(s, a).Some?
    ensures var t := Apply(s, a).value;
            && Guarded(t.wire) + Owed(t) == Guarded(s.wire) + Owed(s) + One(Commits(s, a))
            && |t.wire| - Guarded(t.wire) == |s.wire| - Guarded(s.wire) + One(a.RxExhausted?)
  {
    hide Guarded;
    GuardedSnoc(s.wire, Term(false, false));
    GuardedSnoc(s.wire, Term(true, false));
    GuardedSnoc(s.wire, Term(false, true));
  }

  /** In every run there is one SESS_TERM, written or owed, if a guard was passed, one if a
      resource ran out, and no other. */
  lemma {:induction false} TermsCounted(actions: seq<Action>)
    requires Run(actions).Some?
    ensures var s := Run(actions).value;
            && Guarded(s.wire) + Owed(s) == One(SomeCommit(actions))
            && |s.wire| - Guarded(s.wire) == One(RxExhausted in actions)
  {
    if actions != [] {
      var front, a := actions[..|actions| - 1], actions[|actions| - 1];
      assert actions == front + [a];
      TermsCounted(front);
      Always(front);
      Always(actions);
      SomeCommitSnoc(front, a);
      var s, t := Run(front).value, Run(actions).value;
      StepCounts(s, a);
      hide Run, Apply, Commits, Owed, Guarded;
      assert Guarded(t.wire) + Owed(t) <= 1 && |t.wire| - Guarded(t.wire) <= 1;
    }
  }

  /** A session sends two SESS_TERMs, or has sent one and owes one, exactly when in its run one
      of the four guards was passed and a resource ran out as well. */
  lemma TwoExactlyWhen(actions: seq<Action>)
    requires Run(actions).Some?
    ensures var s := Run(actions).value;
            |s.wire| + Owed(s) == 2 <==> SomeCommit(actions) && RxExhausted in actions
  {
    TermsCounted(actions);
  }

  /** Seen from the site that runs out of resources: its SESS_TERM is the second exactly when
      termSent is set; while the engine is being stopped, exactly when it was set before the
      engine set it, or when the engine's second visit found the session established. */
  lemma SecondExactlyWhen(actions: seq<Action>)
    requires Run(actions).Some? && Run(actions).value.rx.Looping?
    ensures Apply(Run(actions).value, RxExhausted).Some?
    ensures var s, t := Run(actions).value, Apply(Run(actions).value, RxExhausted).value;
            && (s.stop.Running? ==> (|t.wire| + Owed(t) == 2 <==> s.termSent))
            && (!s.stop.Running? ==>
                  (|t.wire| + Owed(t) == 2 <==> SetBeforeMark(actions) || CollectedEstablished(actions)))
  {
    var s := Run(actions).value;
    Always(actions);
    AlwaysObliged(actions);
    TermsCounted(actions);
    ListenedThroughout(actions);
    StepCounts(s, RxExhausted);
    if !s.stop.Running? {
      WhileStopping(actions);
    }
  }

  /** termSent was already set when tcpv4EngineStop first came to the session. */
  predicate SetBeforeMark(actions: seq<Action>) {
    exists k {:trigger actions[k]} ::
      0 <= k < |actions| && actions[k] == StopMark && Run(actions[..k]).Some? && Run(actions[..k]).value.termSent
  }

  /** Its second visit found the session established. */
  predicate CollectedEstablished(actions: seq<Action>) {
    exists k {:trigger actions[k]} ::
      0 <= k < |actions| && actions[k] == StopCollect(false)
      && Run(actions[..k]).Some? && Run(actions[..k]).value.phase.Established?
  }

  lemma {:induction false} ListenedThroughout(actions: seq<Action>)
    requires Run(actions).Some? && Run(actions).value.rx.Looping?
    ensures RxExhausted !in actions
  {
    TermsCounted(actions);
    Always(actions);
  }

  lemma {:induction false} WhileStopping(actions: seq<Action>)
    requires Run(actions).Some? && !Run(actions).value.rx.Done? && !Run(actions).value.stop.Running?
    ensures SomeCommit(actions) <==> SetBeforeMark(actions) || CollectedEstablished(actions)
  {
    hide Apply, Commits, SetBeforeMark, CollectedEstablished, SomeCommit;
    var front, a := actions[..|actions| - 1], actions[|actions| - 1];
    assert actions == front + [a];
    var s := Run(front).value;
    Always(front);
    SomeCommitSnoc(front, a);
    SoFar(front, a);
    StopStep(s, a);
    if s.stop.Running? {
      TermsCounted(front);
      AlwaysObliged(front);
      NotYetStopping(front);
    } else {
      WhileStopping(front);
    }
  }

  /** What the engine's stopping does to the guards. */
  lemma StopStep(s: State, a: Action)
    requires Inv(s) && Apply(s, a).Some?
    ensures var t := Apply(s, a).value;
            && (!t.rx.Done? ==> !s.rx.Done?)
            && (s.stop.Running? && !t.stop.Running? ==> a == StopMark && !Commits(s, a))
            && (!s.stop.Running? ==>
                  a != StopMark && (Commits(s, a) <==> a == StopCollect(false) && s.phase.Established?))
  {
    hide Guarded;
  }

  lemma SoFar(front: seq<Action>, a: Action)
    requires Run(front).Some?
    ensures SetBeforeMark(front + [a]) <==>
              SetBeforeMark(front) || (a == StopMark && Run(front).value.termSent)
    ensures CollectedEstablished(front + [a]) <==>
              CollectedEstablished(front) || (a == StopCollect(false) && Run(front).value.phase.Established?)
  {
    hide Run;
    var longer := front + [a];
    assert longer[..|front|] == front && longer[|front|] == a;
    assert forall k :: 0 <= k < |front| ==> longer[..k] == front[..k] && longer[k] == front[k];
  }

  lemma {:induction false} NotYetStopping(actions: seq<Action>)
    requires Run(actions).Some? && Run(actions).value.stop.Running?
    ensures !SetBeforeMark(actions) && !CollectedEstablished(actions)
  {
    if actions != [] {
      var front, a := actions[..|actions| - 1], actions[|actions| - 1];
      assert actions == front + [a];
      NotYetStopping(front);
      SoFar(front, a);
    }
  }

  /** And two can be seen: the idle clock has terminated the session when an oversized segment
      arrives. */
  lemma TwoTerms()
    ensures var s := Run([Establish, ClockTick, ClockSend, RxExhausted]);
            s.Some? && s.value.wire == [Term(false, false), Term(false, true)]
  {
    var a := [Establish, ClockTick, ClockSend, RxExhausted];
    assert a[..3] == [Establish, ClockTick, ClockSend];
    assert a[..3][..2][..1] == [Establish] && a[..3][..2] == [Establish, ClockTick];
    assert [Establish][..0] == [];
    assert Run([Establish]) == Some(INITIAL.(phase := Established, rx := Looping));
  }

  lemma StepForwards(s: State, a: Action)
    requires Inv(s) && Apply(s, a).Some?
    ensures Rank(s.phase) <= Rank(Apply(s, a).value.phase) && (s.termSent ==> Apply(s, a).value.termSent)
  {
    hide Guarded;
  }

  /** A session never becomes less ended than it was. */
  lemma {:induction false} NeverBackwards(actions: seq<Action>, n: nat)
    requires Run(actions).Some? && n <= |actions|
    ensures Run(actions[..n]).Some? && Rank(Run(actions[..n]).value.phase) <= Rank(Run(actions).value.phase)
    ensures Run(actions[..n]).value.termSent ==> Run(actions).value.termSent
  {
    hide Apply, Rank;
    if n == |actions| {
      assert actions[..n] == actions;
    } else {
      var front := actions[..|actions| - 1];
      NeverBackwards(front, n);
      assert front[..n] == actions[..n];
      Always(front);
      StepForwards(Run(front).value, actions[|actions| - 1]);
    }
  }

  // ---- Two ends ------------------------------------------------------------------------------------

  /** Each end hears what the other wrote, in order. */
  datatype Pair = Pair(a: State, b: State)

  datatype Move = MoveA(action: Action) | MoveB(action: Action)

  /** A SESS_TERM is heard only as the next one on the peer's wire. */
  predicate Hears(me: State, peer: State, a: Action) {
    a.RxTerm? ==> |me.heard| < |peer.wire| && a.t == peer.wire[|me.heard|]
  }

  function ApplyPair(p: Pair, m: Move): Option<Pair> {
    match m
    case MoveA(x) =>
      if !Hears(p.a, p.b, x) then None
      else var t := Apply(p.a, x); if t.None? then None else Some(p.(a := t.value))
    case MoveB(x) =>
      if !Hears(p.b, p.a, x) then None
      else var t := Apply(p.b, x); if t.None? then None else Some(p.(b := t.value))
  }

  function RunPair(moves: seq<Move>): Option<Pair> {
    if moves == [] then Some(Pair(INITIAL, INITIAL))
    else
      var before := RunPair(moves[..|moves| - 1]);
      if before.None? then None else ApplyPair(before.value, moves[|moves| - 1])
  }

  /** An end that answers, or is about to, has heard a SESS_TERM that was no answer. */
  predicate AnswersHeard(me: State) {
    (Term(true, false) in me.wire || me.rx.MustReply?) ==> exists t :: t in me.heard && !t.reply
  }

  predicate HeardWasSent(me: State, peer: State) { me.heard <= peer.wire }

  /** Answers carry no other mark. */
  predicate PlainAnswers(me: State) { forall t :: t in me.wire && t.reply ==> !t.exhausted }

  predicate PairInv(p: Pair) {
    && Inv(p.a) && Inv(p.b)
    && AnswersHeard(p.a) && AnswersHeard(p.b)
    && PlainAnswers(p.a) && PlainAnswers(p.b)
    && HeardWasSent(p.a, p.b) && HeardWasSent(p.b, p.a)
  }

  lemma OneEndMoves(me: State, peer: State, x: Action)
    requires Inv(me) && AnswersHeard(me) && PlainAnswers(me) && HeardWasSent(me, peer) && HeardWasSent(peer, me)
    requires Hears(me, peer, x) && Apply(me, x).Some?
    ensures var t := Apply(me, x).value;
            Inv(t) && AnswersHeard(t) && PlainAnswers(t) && HeardWasSent(t, peer) && HeardWasSent(peer, t)
  {
    hide Inv;
    StepKeeps(me, x);
    var t := Apply(me, x).value;
    assert me.wire <= t.wire && me.heard <= t.heard;
    assert forall y :: y in me.heard ==> y in t.heard;
    if x.RxTerm? {
      assert t.heard[|me.heard|] == x.t;
    }
  }

  lemma {:induction false} AlwaysPair(moves: seq<Move>)
    requires RunPair(moves).Some?
    ensures PairInv(RunPair(moves).value)
  {
    assert Inv(INITIAL);
    hide Inv, Apply;
    if moves != [] {
      var front, m := moves[..|moves| - 1], moves[|moves| - 1];
      AlwaysPair(front);
      var p := RunPair(front).value;
      if m.MoveA? {
        OneEndMoves(p.a, p.b, m.action);
      } else {
        OneEndMoves(p.b, p.a, m.action);
      }
    }
  }

  lemma {:induction false} GuardedMembers(wire: seq<Term>, t: Term, u: Term)
    requires t in wire && u in wire && !t.exhausted && !u.exhausted && t != u
    ensures Guarded(wire) >= 2
  {
    var front, last := wire[..|wire| - 1], wire[|wire| - 1];
    assert wire == front + [last];
    if last != t && last != u {
      GuardedMembers(front, t, u);
    } else {
      GuardedMember(front, if last == t then u else t);
    }
  }

  lemma {:induction false} GuardedMember(wire: seq<Term>, t: Term)
    requires t in wire && !t.exhausted
    ensures Guarded(wire) >= 1
  {
    var front, last := wire[..|wire| - 1], wire[|wire| - 1];
    assert wire == front + [last];
    if last != t {
      GuardedMember(front, t);
    }
  }

  predicate RanOut(me: State) { exists t :: t in me.wire && t.exhausted }

  lemma {:induction false} WireCount(wire: seq<Term>)
    ensures Guarded(wire) <= |wire|
    ensures (forall t :: t in wire ==> !t.exhausted) ==> Guarded(wire) == |wire|
  {
    if wire != [] {
      var front := wire[..|wire| - 1];
      WireCount(front);
      assert wire == front + [wire[|wire| - 1]];
    }
  }

  /** Two ends exchange at most two SESS_TERMs, even when they cross, and one more for each end
      that runs out of a resource; an answer is sent only to one that was not itself an answer,
      and both ends answer only if both ran out of a resource. */
  lemma TwoEnds(moves: seq<Move>)
    requires RunPair(moves).Some?
    ensures var p := RunPair(moves).value;
            && |p.a.wire| + |p.b.wire| <= 2 + One(RanOut(p.a)) + One(RanOut(p.b))
            && (Term(true, false) in p.a.wire ==> exists t :: t in p.b.wire && !t.reply)
            && (Term(true, false) in p.b.wire ==> exists t :: t in p.a.wire && !t.reply)
            && (Term(true, false) in p.a.wire && Term(true, false) in p.b.wire ==>
                  Term(false, true) in p.a.wire && Term(false, true) in p.b.wire)
  {
    AlwaysPair(moves);
    var p := RunPair(moves).value;
    WireCount(p.a.wire);
    WireCount(p.b.wire);
    assert forall t :: t in p.a.heard ==> t in p.b.wire;
    assert forall t :: t in p.b.heard ==> t in p.a.wire;
    if Term(true, false) in p.a.wire && Term(true, false) in p.b.wire {
      OneIsExhausted(p.a);
      OneIsExhausted(p.b);
    }
  }

  /** An end that answered has sent no SESS_TERM of its own, except for want of resources. */
  lemma OneIsExhausted(me: State)
    requires Inv(me) && Term(true, false) in me.wire && exists t :: t in me.wire && !t.reply
    ensures Term(false, true) in me.wire
  {
    var t :| t in me.wire && !t.reply;
    if !t.exhausted {
      GuardedMembers(me.wire, t, Term(true, false));
    }
  }

  // ---- The flags themselves --------------------------------------------------------------------------

  /** The part of a session that the engine's lock guards. */
  class Flags {
    var state: Phase
    var termSent: bool

    constructor ()
      ensures state == Negotiating && !termSent
    {
      state, termSent := Negotiating, false;
    }

    ghost function In(s: State): State
      reads this
    {
      s.(phase := state, termSent := termSent)
    }

    /** startTermination: whether the SESS_TERM is to be sent by the caller. */
    method StartTermination(ghost s: State) returns (send: bool)
      requires s.rx.Looping?
      modifies this
      ensures Some(In(s.(rx := if send then MustStart else Looping))) == Apply(old(In(s)), RxRejected)
    {
      var already := termSent;
      termSent := true;
      state := Ending;
      send := !already;
    }

    /** handleSessTerm, under the lock: whether the SESS_TERM is to be answered. */
    method HandleSessTerm(t: Term, ghost s: State) returns (replyNeeded: bool)
      requires s.rx.Looping?
      modifies this
      ensures Some(In(s.(heard := s.heard + [t], rx := if replyNeeded then MustReply else Done)))
              == Apply(old(In(s)), RxTerm(t))
    {
      replyNeeded := !t.reply && !termSent;
      state := Ending;
      termSent := true;
    }

    /** The idle check of clockTick, for a session whose other conditions hold. */
    method IdleTick(ghost s: State) returns (sendTerm: bool)
      requires s.clock.Ticking? && !s.rx.Done?
      modifies this
      ensures sendTerm == old(Apply(In(s), ClockTick)).Some?
      ensures if sendTerm then Some(In(s.(clock := MustTerminate))) == Apply(old(In(s)), ClockTick)
              else In(s) == old(In(s))
    {
      sendTerm := state.Established? && !termSent;
      if sendTerm {
        termSent := true;
        state := Ending;
      }
    }

    /** The first of tcpv4EngineStop's two visits to the session. */
    method Mark(ghost s: State)
      requires s.clock.Joined? && s.stop.Running?
      modifies this
      ensures Some(In(s.(stop := Marked))) == Apply(old(In(s)), StopMark)
    {
      termSent := true;
    }

    /** The second: whether the session is worth a SESS_TERM. */
    method Collect(failed: bool, ghost s: State) returns (send: bool)
      requires s.stop.Marked?
      ensures Some(In(s.(stop := if send then MustSend else Stopped))) == Apply(In(s), StopCollect(failed))
    {
      send := state.Established? && !failed;
    }
  }
}
