/** The receiving side of a TCPCLv4 session as the two threads that run it: the receiver
    thread reassembles transfers, the delivery thread gives them to BP and acknowledges
    them, and a one-slot hand-off stands between the two. Every action below is what one
    thread does between two points where the other may run. */
module Tcpv4Rx {
  import opened Octets
  import opened Wire
  import opened Options
  import opened Tcpv4Receive

  /** Where the receiver thread stands. */
  datatype RxPc =
    | Reading                                   // about to read the next message
    | AwaitRefuse(seg: Segment, reason: uint8)  // rxSendRefuse: the hand-off must drain first
    | SendRefuse(seg: Segment, reason: uint8)
    | Taking(seg: Segment)                      // the payload is to be stored, or drained
    | AwaitAck(flags: uint8)                    // rxSendAck
    | SendAck(flags: uint8)
    | HandingOver(flags: uint8)                 // handOverTransfer
    | Gone                                      // the message loop has returned

  /** Where the delivery thread stands. */
  datatype DlvPc = Waiting | Delivering | Acking | Settling(failed: bool) | Ended

  datatype State = State(
    // the receiver thread's own reassembly state
    pc: RxPc, active: bool, id: uint64, rx: Octets, refused: bool,
    // the hand-off, shared under dlvMutex
    dpc: DlvPc, dlv: Octets, dlvId: uint64, dlvFlags: uint8, pending: bool, stopped: bool, failed: bool,
    // the session is ending
    ending: bool,
    // what has come in, and what has been done about it, in order
    items: seq<Item>, log: seq<Event>)

  const INITIAL := State(Reading, false, 0, [], false,
                         Waiting, [], 0, 0, false, false, false,
                         false, [], [])

  datatype Action =
    | Begin(seg: Segment)   // a segment header arrives and is judged
    | PassRefuse | WriteRefuse
    | Take | TakeFails
    | PassAck | WriteAck(ok: bool)
    | HandOver
    | DlvPick | DlvBundle(ok: bool) | DlvAck(ok: bool) | DlvSettle
    | Stop                  // tcpv4DeliveryStop
    | EndSession            // some thread sets the session's state to ENDING
    | Quit                  // the message loop returns for another reason

  /** The condition both rxAwaitDelivery and handOverTransfer wait for. */
  predicate Drained(s: State) { !s.pending || s.stopped || s.failed }

  predicate Broken(s: State) { s.stopped || s.failed }

  /** handleXferSegment up to the point where the payload is dealt with. It touches only
      the receiver thread's own state. */
  ghost function ApplyBegin(cfg: Config, s: State, seg: Segment): (t: State)
    ensures t == s.(pc := t.pc, active := t.active, id := t.id, rx := t.rx, refused := t.refused,
                    items := s.items + [Item(seg, s.ending)])
  {
    var item := Item(seg, s.ending);
    var t := s.(items := s.items + [item]);
    var r := Reassembly(s.active, s.id, s.rx, s.refused, false);
    if EndsSession(cfg, r, seg) then t.(pc := Gone)
    else
      var o := Opened(r, seg);
      var why := Refusal(cfg, o, item);
      var u := t.(active := true, id := o.id, rx := o.acc);
      if why.Some? then u.(refused := true, pc := AwaitRefuse(seg, why.value))
      else u.(refused := o.refused, pc := Taking(seg))
  }

  function ApplyTake(s: State): State
    requires s.pc.Taking?
  {
    var seg := s.pc.seg;
    var t := s.(rx := if s.refused then s.rx else s.rx + seg.data, active := s.active && !seg.End());
    if s.refused then t.(pc := Reading)
    else if seg.End() then t.(pc := HandingOver(seg.flags))
    else t.(pc := AwaitAck(seg.flags))
  }

  /** handOverTransfer: the buffers change places and the slot is full. */
  function ApplyHandOver(s: State): State
    requires s.pc.HandingOver?
  {
    if Broken(s) then s.(pc := Gone)
    else s.(pc := Reading, dlv := s.rx, rx := [], dlvId := s.id, dlvFlags := s.pc.flags, pending := true)
  }

  /** What an action does, when it can happen. */
  ghost function Apply(cfg: Config, s: State, a: Action): Option<State> {
    match a
    case Begin(seg) => if s.pc.Reading? then Some(ApplyBegin(cfg, s, seg)) else None
    case PassRefuse =>
      if !s.pc.AwaitRefuse? || !Drained(s) then None
      else if Broken(s) then Some(s.(pc := Taking(s.pc.seg)))
      else Some(s.(pc := SendRefuse(s.pc.seg, s.pc.reason)))
    case WriteRefuse =>
      if !s.pc.SendRefuse? then None
      else Some(s.(log := s.log + [Refuse(s.pc.reason, s.pc.seg.id)], pc := Taking(s.pc.seg)))
    case Take => if s.pc.Taking? then Some(ApplyTake(s)) else None
    case TakeFails => if s.pc.Taking? then Some(s.(pc := Gone)) else None
    case PassAck =>
      if !s.pc.AwaitAck? || !Drained(s) then None
      else if Broken(s) then Some(s.(pc := Gone))
      else Some(s.(pc := SendAck(s.pc.flags)))
    case WriteAck(ok) =>
      if !s.pc.SendAck? then None
      else Some(s.(log := s.log + [Ack(s.pc.flags, s.id, |s.rx|)], pc := if ok then Reading else Gone))
    case HandOver => if s.pc.HandingOver? && Drained(s) then Some(ApplyHandOver(s)) else None
    case DlvPick =>
      if !s.dpc.Waiting? then None
      else if s.pending then Some(s.(dpc := Delivering))
      else if s.stopped then Some(s.(dpc := Ended))
      else None
    case DlvBundle(ok) =>
      if !s.dpc.Delivering? then None
      else if ok then Some(s.(log := s.log + [Deliver(s.dlv)], dpc := Acking))
      else Some(s.(dpc := Settling(true)))
    case DlvAck(ok) =>
      if !s.dpc.Acking? then None
      else Some(s.(log := s.log + [Ack(s.dlvFlags, s.dlvId, |s.dlv|)], dpc := Settling(!ok)))
    case DlvSettle =>
      if !s.dpc.Settling? then None
      else Some(s.(pending := false, failed := s.failed || s.dpc.failed,
                   dpc := if s.dpc.failed then Ended else Waiting))
    case Stop => Some(s.(stopped := true))
    case EndSession => Some(s.(ending := true))
    case Quit => if s.pc.Reading? then Some(s.(pc := Gone)) else None
  }

  /** The state a sequence of actions leads to, under any interleaving. */
  ghost function Run(cfg: Config, actions: seq<Action>): Option<State> {
    if actions == [] then Some(INITIAL)
    else
      var before := Run(cfg, actions[..|actions| - 1]);
      if before.None? then None else Apply(cfg, before.value, actions[|actions| - 1])
  }

  // ---- The refinement --------------------------------------------------------------------

  /** What the delivery thread still owes for the transfer in the slot. */
  function DlvOwes(s: State): seq<Event> {
    var ack := [Ack(s.dlvFlags, s.dlvId, |s.dlv|)];
    match s.dpc
    case Waiting => if s.pending then [Deliver(s.dlv)] + ack else []
    case Delivering => [Deliver(s.dlv)] + ack
    case Acking => ack
    case _ => []
  }

  /** What the receiver thread still owes for the segment it is handling. */
  function RxOwes(s: State): seq<Event> {
    match s.pc
    case AwaitRefuse(seg, reason) => [Refuse(reason, seg.id)]
    case SendRefuse(seg, reason) => [Refuse(reason, seg.id)]
    case Taking(seg) =>
      if s.refused then []
      else (if seg.End() then [Deliver(s.rx + seg.data)] else []) + [Ack(seg.flags, seg.id, |s.rx + seg.data|)]
    case AwaitAck(flags) => [Ack(flags, s.id, |s.rx|)]
    case SendAck(flags) => [Ack(flags, s.id, |s.rx|)]
    case HandingOver(flags) => [Deliver(s.rx), Ack(flags, s.id, |s.rx|)]
    case _ => []
  }

  /** The receiver thread's own state is what the reference has reached, or is about to. */
  ghost predicate Tracks(cfg: Config, s: State) {
    var r := After(cfg, s.items);
    match s.pc
    case Gone => true
    case AwaitRefuse(seg, _) => AboutToTake(s, r, seg) && s.refused
    case SendRefuse(seg, _) => AboutToTake(s, r, seg) && s.refused
    case Taking(seg) => AboutToTake(s, r, seg)
    case HandingOver(_) => !r.over && !s.active && !r.active && s.id == r.id && !s.refused
    case AwaitAck(_) => Same(s, r) && s.active && !s.refused
    case SendAck(_) => Same(s, r) && s.active && !s.refused
    case Reading => Same(s, r)
  }

  predicate Same(s: State, r: Reassembly) {
    && !r.over && s.active == r.active
    && (s.active ==> s.id == r.id && s.refused == r.refused && (!s.refused ==> s.rx == r.acc))
  }

  predicate AboutToTake(s: State, r: Reassembly, seg: Segment) {
    && !r.over && s.active && r.active == !seg.End() && s.id == r.id == seg.id && s.refused == r.refused
    && (!s.refused ==> r.acc == s.rx + seg.data)
  }

  /** The slot and the delivery thread agree. */
  predicate HandOffSound(s: State) {
    && (s.dpc.Delivering? || s.dpc.Acking? || s.dpc.Settling? ==> s.pending)
    && (s.dpc.Ended? ==> !s.pending && Broken(s))
    && (s.pc.SendAck? || s.pc.SendRefuse? ==> !s.pending)
  }

  /** The receiver thread will never write or hand over anything again. */
  predicate Silenced(s: State) {
    s.pc.Gone? || ((Broken(s) || s.dpc == Settling(true)) && !s.pc.SendAck? && !s.pc.SendRefuse?)
  }

  /** Done so far plus still owed is exactly what the reference does with the segments
      received; once something has been given up, done so far stays a prefix of that. */
  ghost predicate Refines(cfg: Config, s: State) {
    var all := Events(cfg, s.items);
    || s.log + DlvOwes(s) + RxOwes(s) == all
    || (Silenced(s) && s.log + DlvOwes(s) <= all)
  }

  ghost predicate Inv(cfg: Config, s: State) {
    Tracks(cfg, s) && HandOffSound(s) && Refines(cfg, s)
  }

  /** Judging a segment looks only at what the thread's state and the reference share. */
  lemma SameJudgement(cfg: Config, s: State, r: Reassembly, item: Item)
    requires Same(s, r)
    ensures var mine := Reassembly(s.active, s.id, s.rx, s.refused, false);
            && EndsSession(cfg, mine, item.seg) == EndsSession(cfg, r, item.seg)
            && (!EndsSession(cfg, r, item.seg) ==>
                  && Refusal(cfg, Opened(mine, item.seg), item) == Refusal(cfg, Opened(r, item.seg), item)
                  && !Opened(r, item.seg).over
                  && Opened(mine, item.seg).refused == Opened(r, item.seg).refused
                  && Opened(mine, item.seg).id == Opened(r, item.seg).id == item.seg.id
                  && (!Opened(r, item.seg).refused ==> Opened(mine, item.seg).acc == Opened(r, item.seg).acc))
  {}

  /** Judged alike, the segment leaves the thread about to take it and owing exactly
      what the reference does about it. */
  lemma BeginFollows(cfg: Config, s: State, seg: Segment, r: Reassembly)
    requires Same(s, r)
    ensures var t, done := ApplyBegin(cfg, s, seg), Receive(cfg, r, Item(seg, s.ending));
            && RxOwes(t) == done.1
            && (t.pc.Gone?
                || ((t.pc.AwaitRefuse? || t.pc.Taking?) && t.pc.seg == seg && AboutToTake(t, done.0, seg)
                    && (t.pc.AwaitRefuse? ==> t.refused)))
  {
    hide Refusal, EndsSession, Opened;
    SameJudgement(cfg, s, r, Item(seg, s.ending));
  }

  lemma BeginKeeps(cfg: Config, s: State, seg: Segment)
    requires Inv(cfg, s) && s.pc.Reading?
    ensures Inv(cfg, ApplyBegin(cfg, s, seg))
  {
    hide After, Receive, AboutToTake, Refines;
    var t, r, item := ApplyBegin(cfg, s, seg), After(cfg, s.items), Item(seg, s.ending);
    BeginFollows(cfg, s, seg, r);
    EventsSnoc(cfg, s.items, item);
    hide ApplyBegin;
    RefinesMore(cfg, s, t, Receive(cfg, r, item).1);
  }

  /** Handling one more segment adds its events to what is owed. */
  lemma RefinesMore(cfg: Config, s: State, t: State, more: seq<Event>)
    requires Refines(cfg, s) && s.pc.Reading?
    requires Events(cfg, t.items) == Events(cfg, s.items) + more
    requires t == s.(pc := t.pc, active := t.active, id := t.id, rx := t.rx, refused := t.refused, items := t.items)
    requires RxOwes(t) == more
    requires !t.pc.SendAck? && !t.pc.SendRefuse?
    ensures Refines(cfg, t)
  {
    hide Events;
    assert DlvOwes(t) == DlvOwes(s);
    var all, done := Events(cfg, s.items), s.log + DlvOwes(s);
    assert done + RxOwes(s) == done;
    assert all <= all + more;
  }

  /** What one step may do to the log and to the debts: it pays a debt, in order, or the
      machine falls silent for good. */
  predicate Pays(s: State, t: State) {
    var done, done' := s.log + DlvOwes(s), t.log + DlvOwes(t);
    && t.items == s.items
    && (done' + RxOwes(t) == done + RxOwes(s) || (Silenced(t) && done' <= done + RxOwes(s)))
    && (Silenced(s) ==> Silenced(t) && done' <= done)
  }

  lemma GivingUpPays(s: State, t: State)
    requires t == s.(pc := t.pc) && RxOwes(t) == []
    requires t.pc.Gone? || (Broken(s) && t.pc.Taking?)
    ensures Pays(s, t)
  {
    assert DlvOwes(t) == DlvOwes(s);
    assert s.log + DlvOwes(s) <= s.log + DlvOwes(s) + RxOwes(s);
  }

  lemma WaitingPays(s: State, t: State)
    requires t == s.(pc := t.pc) && RxOwes(t) == RxOwes(s) && !Silenced(s)
    ensures Pays(s, t)
  {
    assert DlvOwes(t) == DlvOwes(s);
  }

  lemma WritingPays(s: State, t: State, e: Event)
    requires HandOffSound(s) && (s.pc.SendAck? || s.pc.SendRefuse?) && RxOwes(s) == [e]
    requires t == s.(pc := t.pc, log := s.log + [e]) && RxOwes(t) == []
    ensures Pays(s, t)
  {
    assert DlvOwes(s) == [] && DlvOwes(t) == [];
  }

  lemma TakePays(cfg: Config, s: State, r: Reassembly)
    requires s.pc.Taking? && AboutToTake(s, r, s.pc.seg)
    ensures Pays(s, ApplyTake(s))
  {
    var t := ApplyTake(s);
    assert RxOwes(t) == RxOwes(s);
    assert DlvOwes(t) == DlvOwes(s);
  }

  lemma HandOverPays(s: State)
    requires HandOffSound(s) && s.pc.HandingOver? && Drained(s)
    ensures Pays(s, ApplyHandOver(s))
  {
    var t := ApplyHandOver(s);
    if Broken(s) {
      assert DlvOwes(t) == DlvOwes(s);
      assert s.log + DlvOwes(s) <= s.log + DlvOwes(s) + RxOwes(s);
    } else {
      assert DlvOwes(s) == [] && DlvOwes(t) == RxOwes(s) && RxOwes(t) == [];
      assert t.log + DlvOwes(t) + RxOwes(t) == s.log + DlvOwes(s) + RxOwes(s);
    }
  }

  lemma DlvBundlePays(s: State)
    requires HandOffSound(s) && s.dpc.Delivering?
    ensures Pays(s, s.(log := s.log + [Deliver(s.dlv)], dpc := Acking))
    ensures Pays(s, s.(dpc := Settling(true)))
  {
    var t, u := s.(log := s.log + [Deliver(s.dlv)], dpc := Acking), s.(dpc := Settling(true));
    assert RxOwes(t) == RxOwes(s) && RxOwes(u) == RxOwes(s);
    assert t.log + DlvOwes(t) == s.log + DlvOwes(s);
    assert u.log + DlvOwes(u) <= s.log + DlvOwes(s) <= s.log + DlvOwes(s) + RxOwes(s);
  }

  lemma DlvAckPays(s: State, ok: bool)
    requires HandOffSound(s) && s.dpc.Acking?
    ensures Pays(s, s.(log := s.log + [Ack(s.dlvFlags, s.dlvId, |s.dlv|)], dpc := Settling(!ok)))
  {
    var t := s.(log := s.log + [Ack(s.dlvFlags, s.dlvId, |s.dlv|)], dpc := Settling(!ok));
    assert RxOwes(t) == RxOwes(s);
    assert t.log + DlvOwes(t) == s.log + DlvOwes(s);
  }

  /** Steps that move no debt. */
  lemma IdlePays(s: State, t: State)
    requires t.log == s.log && t.items == s.items && DlvOwes(t) == DlvOwes(s) && RxOwes(t) == RxOwes(s)
    requires Silenced(s) ==> Silenced(t)
    ensures Pays(s, t)
  {}

  lemma DeliveryPays(cfg: Config, s: State, a: Action)
    requires HandOffSound(s) && Apply(cfg, s, a).Some?
    requires a.DlvPick? || a.DlvBundle? || a.DlvAck? || a.DlvSettle?
    ensures Pays(s, Apply(cfg, s, a).value)
  {
    hide Pays;
    if a.DlvBundle? {
      DlvBundlePays(s);
    } else if a.DlvAck? {
      DlvAckPays(s, a.ok);
    } else {
      IdlePays(s, Apply(cfg, s, a).value);
    }
  }

  lemma ReceiverPays(cfg: Config, s: State, a: Action)
    requires Tracks(cfg, s) && HandOffSound(s) && Apply(cfg, s, a).Some?
    requires a.PassRefuse? || a.WriteRefuse? || a.Take? || a.TakeFails? || a.PassAck? || a.WriteAck?
             || a.HandOver? || a.Quit?
    ensures Pays(s, Apply(cfg, s, a).value)
  {
    hide Pays, After;
    var t := Apply(cfg, s, a).value;
    if a.Take? {
      TakePays(cfg, s, After(cfg, s.items));
    } else if a.HandOver? {
      HandOverPays(s);
    } else if a.WriteRefuse? {
      WritingPays(s, t, Refuse(s.pc.reason, s.pc.seg.id));
    } else if a.WriteAck? {
      WritingPays(s, t, Ack(s.pc.flags, s.id, |s.rx|));
    } else if (a.PassRefuse? || a.PassAck?) && !Broken(s) {
      WaitingPays(s, t);
    } else {
      GivingUpPays(s, t);
    }
  }

  lemma PayingRefines(cfg: Config, s: State, t: State)
    requires Refines(cfg, s) && Pays(s, t)
    ensures Refines(cfg, t)
  {}

  lemma HandOffKept(cfg: Config, s: State, a: Action)
    requires HandOffSound(s) && !a.Begin? && Apply(cfg, s, a).Some?
    ensures HandOffSound(Apply(cfg, s, a).value)
  {}

  lemma TakeTracks(cfg: Config, s: State)
    requires Tracks(cfg, s) && s.pc.Taking?
    ensures Tracks(cfg, ApplyTake(s))
  {
    hide After;
  }

  lemma HandOverTracks(cfg: Config, s: State)
    requires Tracks(cfg, s) && s.pc.HandingOver?
    ensures Tracks(cfg, ApplyHandOver(s))
  {
    hide After;
  }

  lemma TracksKept(cfg: Config, s: State, a: Action)
    requires Tracks(cfg, s) && !a.Begin? && Apply(cfg, s, a).Some?
    ensures Tracks(cfg, Apply(cfg, s, a).value)
  {
    hide After, ApplyBegin;
    if a.Take? {
      TakeTracks(cfg, s);
    } else if a.HandOver? {
      HandOverTracks(cfg, s);
    } else {
      hide ApplyTake, ApplyHandOver;
      MovesTrack(cfg, s, a);
    }
  }

  /** A step that moves the receiver thread on, or not at all, and leaves its state alone. */
  predicate MovesOn(s: State, t: State) {
    && t.active == s.active && t.id == s.id && t.rx == s.rx && t.refused == s.refused && t.items == s.items
    && (|| t.pc == s.pc || t.pc.Gone?
        || (s.pc.AwaitRefuse? && (t.pc == SendRefuse(s.pc.seg, s.pc.reason) || t.pc == Taking(s.pc.seg)))
        || (s.pc.SendRefuse? && t.pc == Taking(s.pc.seg))
        || (s.pc.AwaitAck? && t.pc == SendAck(s.pc.flags))
        || (s.pc.SendAck? && t.pc.Reading?))
  }

  lemma MovingTracks(cfg: Config, s: State, t: State)
    requires Tracks(cfg, s) && MovesOn(s, t)
    ensures Tracks(cfg, t)
  {
    hide After;
  }

  lemma MovesTrack(cfg: Config, s: State, a: Action)
    requires Tracks(cfg, s) && !a.Begin? && !a.Take? && !a.HandOver? && Apply(cfg, s, a).Some?
    ensures Tracks(cfg, Apply(cfg, s, a).value)
  {
    hide Tracks, ApplyBegin, ApplyTake, ApplyHandOver;
    MovingTracks(cfg, s, Apply(cfg, s, a).value);
  }

  lemma StepKeeps(cfg: Config, s: State, a: Action)
    requires Inv(cfg, s) && Apply(cfg, s, a).Some?
    ensures Inv(cfg, Apply(cfg, s, a).value)
  {
    if a.Begin? {
      BeginKeeps(cfg, s, a.seg);
      return;
    }
    var t := Apply(cfg, s, a).value;
    hide Tracks, HandOffSound, Refines, Pays, Apply;
    TracksKept(cfg, s, a);
    HandOffKept(cfg, s, a);
    match a
    case Stop => FlagsPay(cfg, s, a);
    case EndSession => FlagsPay(cfg, s, a);
    case DlvPick => DeliveryPays(cfg, s, a);
    case DlvBundle(_) => DeliveryPays(cfg, s, a);
    case DlvAck(_) => DeliveryPays(cfg, s, a);
    case DlvSettle => DeliveryPays(cfg, s, a);
    case _ => ReceiverPays(cfg, s, a);
    PayingRefines(cfg, s, t);
  }

  lemma FlagsPay(cfg: Config, s: State, a: Action)
    requires a.Stop? || a.EndSession?
    ensures Pays(s, Apply(cfg, s, a).value)
  {
    IdlePays(s, Apply(cfg, s, a).value);
  }

  /** In every interleaving of the two threads with the rest of the session, the work done
      follows the reference. */
  lemma {:induction false} Always(cfg: Config, actions: seq<Action>)
    requires Run(cfg, actions).Some?
    ensures Inv(cfg, Run(cfg, actions).value)
  {
    if actions != [] {
      var front := actions[..|actions| - 1];
      Always(cfg, front);
      StepKeeps(cfg, Run(cfg, front).value, actions[|actions| - 1]);
    }
  }

  // ---- What follows, for every interleaving -----------------------------------------------

  lemma NothingOutOfOrder(cfg: Config, actions: seq<Action>)
    requires Run(cfg, actions).Some?
    ensures var s := Run(cfg, actions).value; s.log <= Events(cfg, s.items)
  {
    Always(cfg, actions);
    var s := Run(cfg, actions).value;
    assert s.log <= s.log + DlvOwes(s) <= s.log + DlvOwes(s) + RxOwes(s);
  }

  /** Under every interleaving each acknowledgment written carries the running sum of the
      segments of its own transfer, and each bundle given to BP is all of one. */
  lemma LogIsAboutTransfers(cfg: Config, actions: seq<Action>)
    requires Run(cfg, actions).Some?
    ensures var s := Run(cfg, actions).value; forall e :: e in s.log ==> AboutSome(cfg, s.items, e)
  {
    hide Run, Events, AboutSome;
    NothingOutOfOrder(cfg, actions);
    EventsAreAboutTransfers(cfg, Run(cfg, actions).value.items);
  }

  lemma BundlesMonotone(a: seq<Event>, b: seq<Event>)
    requires a <= b
    ensures Bundles(a) <= Bundles(b)
  {
    BundlesAppend(a, b[|a|..]);
    assert b == a + b[|a|..];
  }

  /** The bundles given to BP are whole transfers of the inbound stream: in order, once
      each, the concatenation of their segments, and within the Transfer MRU. */
  lemma BundlesGivenToBP(cfg: Config, actions: seq<Action>) returns (spans: seq<Span>)
    requires Run(cfg, actions).Some?
    ensures var s := Run(cfg, actions).value;
            && Bundles(s.log) <= Bundles(Events(cfg, s.items))
            && Spanned(cfg, s.items, Bundles(s.log), spans)
  {
    hide Events, Run, OneTransfer, DataOf;
    var s := Run(cfg, actions).value;
    NothingOutOfOrder(cfg, actions);
    BundlesMonotone(s.log, Events(cfg, s.items));
    spans := BundlesAreTransfers(cfg, s.items);
    spans := spans[..|Bundles(s.log)|];
  }

  /** The slot holds a bundle that BP has not been given yet. */
  predicate SlotOwes(s: State) { s.pending && (s.dpc.Waiting? || s.dpc.Delivering?) }

  /** The receiver thread has a complete transfer that is still to be handed over. */
  predicate ReceiverOwes(s: State) {
    s.pc.HandingOver? || (s.pc.Taking? && !s.refused && s.pc.seg.End())
  }

  lemma BundlesOwed(s: State)
    requires HandOffSound(s)
    ensures |Bundles(DlvOwes(s))| == (if SlotOwes(s) then 1 else 0)
    ensures |Bundles(RxOwes(s))| == (if ReceiverOwes(s) then 1 else 0)
  {
    forall e: Event | !e.Deliver?
      ensures Bundles([e]) == [] && forall b :: Bundles([Deliver(b), e]) == [b]
    {
      forall b { BundlesOf(b, e); }
    }
    var d, r := DlvOwes(s), RxOwes(s);
    assert d == [] || d == [d[0]] || d == [d[0], d[1]];
    assert r == [] || r == [r[0]] || r == [r[0], r[1]];
  }

  /** Unless the session has failed or is being stopped, BP is at most one bundle behind the
      completed transfers, except that it is two behind exactly while one bundle is in the slot
      and another transfer is complete and waits to be handed over. Whenever the receiver is
      ready for the next message it is at most one. */
  lemma AtMostOneBehind(cfg: Config, actions: seq<Action>)
    requires Run(cfg, actions).Some? && !Silenced(Run(cfg, actions).value)
    ensures var s := Run(cfg, actions).value;
            var given, due := |Bundles(s.log)|, |Bundles(Events(cfg, s.items))|;
            && given <= due <= given + 2
            && (due == given + 2 <==> SlotOwes(s) && ReceiverOwes(s))
            && (s.pc.Reading? ==> due <= given + 1)
            && (s.pc.Reading? && !s.pending ==> s.log == Events(cfg, s.items))
  {
    Always(cfg, actions);
    var s := Run(cfg, actions).value;
    BundlesAppend(s.log + DlvOwes(s), RxOwes(s));
    BundlesAppend(s.log, DlvOwes(s));
    BundlesOwed(s);
  }

  /** Right before the acknowledgment of an END segment BP has taken that transfer's bundle,
      of the acknowledged length. */
  predicate EndAcksFollowDelivery(events: seq<Event>) {
    forall k {:trigger events[k]} :: 0 <= k < |events| && events[k].Ack? && IsEnd(events[k].flags) ==>
      k > 0 && events[k - 1].Deliver? && |events[k - 1].bundle| == events[k].length
  }

  lemma {:induction false} EventsEndAcks(cfg: Config, items: seq<Item>)
    ensures EndAcksFollowDelivery(Events(cfg, items))
  {
    hide Refusal;
    if items != [] {
      var front := items[..|items| - 1];
      EventsEndAcks(cfg, front);
      var sent := Caused(cfg, items, |items| - 1);
      assert EndAcksFollowDelivery(sent);
    }
  }

  lemma EndAckAfterDelivery(cfg: Config, actions: seq<Action>)
    requires Run(cfg, actions).Some?
    ensures EndAcksFollowDelivery(Run(cfg, actions).value.log)
  {
    var s := Run(cfg, actions).value;
    NothingOutOfOrder(cfg, actions);
    EventsEndAcks(cfg, s.items);
    var all := Events(cfg, s.items);
    assert forall k :: 0 <= k < |s.log| ==> s.log[k] == all[k];
  }
}
