/** The sending side of a TCPCLv4 session: sender threads queue bundles, the transmit
    thread writes them out one transfer after another, and the receiver thread retires
    them as the peer acknowledges or refuses them. Every action below is what one thread
    does between two points where another may run. */
module Tcpv4Tx {
  import opened Octets
  import opened Options
  import opened Tcpv4Msg
  import opened Tcpv4Ext
  import opened Tcpv4Receive

  const TXBUF_SIZE := 64 * 1024

  /** The peer's MRUs, and this node's transmission window (0: no such limit). */
  datatype TxConfig = TxConfig(segmentMtu: uint64, transferMtu: uint64, window: nat, windowBytes: nat)

  /** One bundle on its way. The serial number counts the bundles the session accepted. */
  datatype Xfer = Xfer(serial: nat, length: nat, id: nat,
                       inFlight: bool, acked: bool, refused: bool, completed: bool)
  {
    predicate Succeeded() { completed || (acked && !refused) }
    predicate Finished() { !inFlight && (acked || refused) }
  }

  datatype Outcome = Outcome(serial: nat, succeeded: bool)

  /** Where the transmit thread stands. */
  datatype XmitPc =
    | Idle
    | Sending(id: nat, off: nat)
    | Checking(id: nat, off: nat)       // a bufferful is written; has the peer refused?
    | LettingGo(id: nat, failed: bool)  // sendTransfer has returned
    | Reporting(done: Xfer, failed: bool)
    | Exited

  /** Where the receiver thread stands, as far as replies go. */
  datatype RcvPc = Listening | Retiring(done: Xfer) | Closed

  datatype State = State(
    queue: seq<Xfer>, window: seq<Xfer>, count: int, bytes: int,
    nextId: nat, ackedLen: nat, stopped: bool,
    xmit: XmitPc, rcv: RcvPc, dead: seq<Xfer>, drained: bool,
    // the transfer, if any, that a failed read or write made the transmit thread give up
    failedId: Option<nat>,
    // the bundles accepted so far, the segments written, the outcomes reported
    accepted: seq<Octets>, sent: seq<Segment>, reported: seq<Outcome>)

  const INITIAL := State([], [], 0, 0, 0, 0, false, Idle, Listening, [], false, None, [], [], [])

  datatype Action =
    | Enqueue(bundle: Octets)
    | BeginXfer | WriteSegment | CheckRefused | LoopEnds | XmitFails | LetGo | XmitReport | XmitExit
    | RecvAck(id: nat, length: nat) | RecvRefuse(reason: uint8, id: nat) | RcvReport | RcvClose
    | Stop
    | Drain | DrainReport

  // ---- The window -------------------------------------------------------------------------

  function FindId(w: seq<Xfer>, id: nat): (i: nat)
    ensures i <= |w|
    ensures i < |w| ==> w[i].id == id
    ensures forall k :: 0 <= k < i ==> w[k].id != id
  {
    if w == [] then 0 else if w[0].id == id then 0 else 1 + FindId(w[1..], id)
  }

  function Without<T>(w: seq<T>, i: nat): seq<T>
    requires i < |w|
  {
    w[..i] + w[i + 1..]
  }

  /** tcpv4TxFinished: unlink the i-th windowed transfer if it is finished. */
  function TxFinished(s: State, i: nat): (State, Option<Xfer>)
    requires i < |s.window|
  {
    var x := s.window[i];
    if !x.Finished() then (s, None)
    else (s.(window := Without(s.window, i), ackedLen := if i == 0 then 0 else s.ackedLen,
             count := s.count - 1, bytes := s.bytes - x.length),
          Some(x))
  }

  /** An acknowledgment that the sender cannot place. */
  predicate AckUnexpected(s: State, id: nat, length: nat) {
    || s.window == [] || s.window[0].id != id
    || length <= s.ackedLen || length > s.window[0].length
  }

  /** handleXferAck, under txMutex. */
  function ApplyAck(s: State, id: nat, length: nat): State {
    if s.window == [] || s.window[0].id != id then s
    else
      var head := s.window[0];
      if length <= s.ackedLen || length > head.length then
        Retire(s.(window := s.window[0 := head.(refused := true)]), 0)
      else if length == head.length then
        Retire(s.(ackedLen := length, window := s.window[0 := head.(acked := true)]), 0)
      else s.(ackedLen := length)
  }

  /** handleXferRefuse, under txMutex. */
  function ApplyRefuse(s: State, reason: uint8, id: nat): State {
    var i := FindId(s.window, id);
    if i == |s.window| then s
    else
      var x := s.window[i];
      var marked := x.(refused := true, completed := x.completed || reason == REFUSE_COMPLETED);
      Retire(s.(window := s.window[i := marked]), i)
  }

  /** The receiver thread takes a finished transfer off the window, to report it. */
  function Retire(s: State, i: nat): State
    requires i < |s.window|
  {
    var (t, done) := TxFinished(s, i);
    if done.Some? then t.(rcv := Retiring(done.value)) else t
  }

  /** queueXfer's wait is over: the session has room. */
  predicate HasRoom(cfg: TxConfig, s: State, length: nat) {
    || s.count <= 0
    || !((cfg.window > 0 && s.count >= cfg.window)
         || (cfg.windowBytes > 0 && s.bytes + length > cfg.windowBytes))
  }

  /** Where the bufferful that holds octet off ends. */
  function BufferEnd(off: nat, length: nat): nat {
    var end := (off / TXBUF_SIZE + 1) * TXBUF_SIZE;
    if end < length then end else length
  }

  /** The segment sendSegments cuts at off. */
  function CutSegment(cfg: TxConfig, id: uint64, data: Octets, off: nat): Segment
    requires off < |data| && |data| < 0x1_0000_0000_0000_0000
  {
    var rest := BufferEnd(off, |data|) - off;
    BufferEndAhead(off, |data|);
    var chunk := if rest > cfg.segmentMtu then cfg.segmentMtu else rest;
    Segment((if off == 0 then 0x02 else 0) + (if off + chunk == |data| then 0x01 else 0), id,
            if off == 0 then LengthExt(|data|) else [], data[off..off + chunk])
  }

  lemma BufferEndAhead(off: nat, length: nat)
    requires off < length
    ensures off < BufferEnd(off, length) <= length
  {}

  // ---- The steps --------------------------------------------------------------------------

  function ApplyEnqueue(s: State, bundle: Octets): State {
    var x := Xfer(|s.accepted|, |bundle|, 0, false, false, false, false);
    s.(queue := s.queue + [x], count := s.count + 1, bytes := s.bytes + |bundle|, accepted := s.accepted + [bundle])
  }

  /** The transmit thread moves a transfer to the window before it writes any of it. */
  function ApplyBegin(s: State): State
    requires s.queue != []
  {
    var x := s.queue[0].(id := s.nextId, inFlight := true);
    s.(queue := s.queue[1..], window := s.window + [x], nextId := s.nextId + 1,
       xmit := Sending(x.id, 0))
  }

  /** sendSegments: one XFER_SEGMENT, up to the end of the bufferful. */
  function ApplyWrite(cfg: TxConfig, s: State, x: Xfer, off: nat): State
    requires x.serial < |s.accepted| && x.id < 0x1_0000_0000_0000_0000
    requires off < |s.accepted[x.serial]| < 0x1_0000_0000_0000_0000
  {
    var seg := CutSegment(cfg, x.id, s.accepted[x.serial], off);
    var next := off + |seg.data|;
    s.(sent := s.sent + [seg],
       xmit := if next == BufferEnd(off, |s.accepted[x.serial]|) then Checking(x.id, next) else Sending(x.id, next))
  }

  /** The transmit thread lets go of the transfer it has been writing. */
  function ApplyLetGo(s: State, i: nat, failed: bool): State
    requires i < |s.window|
  {
    var x := s.window[i];
    var s' := s.(window := s.window[i := x.(inFlight := false, refused := x.refused || failed)]);
    var (t, done) := TxFinished(s', i);
    t.(xmit := if done.Some? then Reporting(done.value, failed) else if failed then Exited else Idle,
       failedId := if failed then Some(x.id) else s.failedId)
  }

  function Reverse<T>(s: seq<T>): seq<T> {
    if s == [] then [] else Reverse(s[1..]) + [s[0]]
  }

  /** tcpv4TxDrain: whatever is left is taken off both lists, to be reported. */
  function ApplyDrain(s: State): State {
    s.(stopped := true, dead := Reverse(s.window) + Reverse(s.queue), queue := [], window := [],
       count := 0, bytes := 0, drained := true)
  }

  function Report(s: State, x: Xfer): State {
    s.(reported := s.reported + [Outcome(x.serial, x.Succeeded())])
  }

  /** What an action does, when it can happen. Fewer than 2^64 transfers are begun. */
  function Apply(cfg: TxConfig, s: State, a: Action): Option<State> {
    match a
    case Enqueue(bundle) =>
      if s.stopped || |bundle| > cfg.transferMtu || !HasRoom(cfg, s, |bundle|) then None
      else Some(ApplyEnqueue(s, bundle))
    case BeginXfer =>
      if !s.xmit.Idle? || s.queue == [] || s.stopped || s.nextId >= 0x1_0000_0000_0000_0000 then None
      else Some(ApplyBegin(s))
    case WriteSegment =>
      if !s.xmit.Sending? then None
      else
        var i := FindId(s.window, s.xmit.id);
        if i == |s.window| || !Writable(s, s.window[i], s.xmit.off) then None
        else Some(ApplyWrite(cfg, s, s.window[i], s.xmit.off))
    case CheckRefused =>
      if !s.xmit.Checking? then None
      else
        var i := FindId(s.window, s.xmit.id);
        if i == |s.window| then None
        else if s.window[i].refused then Some(s.(xmit := LettingGo(s.xmit.id, false)))
        else Some(s.(xmit := Sending(s.xmit.id, s.xmit.off)))
    case LoopEnds =>
      if !s.xmit.Sending? then None
      else
        var i := FindId(s.window, s.xmit.id);
        if i == |s.window| || s.xmit.off < s.window[i].length then None
        else Some(s.(xmit := LettingGo(s.xmit.id, false)))
    case XmitFails => if s.xmit.Sending? then Some(s.(xmit := LettingGo(s.xmit.id, true))) else None
    case LetGo =>
      if !s.xmit.LettingGo? then None
      else
        var i := FindId(s.window, s.xmit.id);
        if i == |s.window| then None else Some(ApplyLetGo(s, i, s.xmit.failed))
    case XmitReport =>
      if !s.xmit.Reporting? then None
      else Some(Report(s, s.xmit.done).(xmit := if s.xmit.failed then Exited else Idle))
    case XmitExit => if s.xmit.Idle? && s.stopped then Some(s.(xmit := Exited)) else None
    case RecvAck(id, length) => if s.rcv.Listening? then Some(ApplyAck(s, id, length)) else None
    case RecvRefuse(reason, id) => if s.rcv.Listening? then Some(ApplyRefuse(s, reason, id)) else None
    case RcvReport => if s.rcv.Retiring? then Some(Report(s, s.rcv.done).(rcv := Listening)) else None
    case RcvClose => if s.rcv.Listening? then Some(s.(rcv := Closed)) else None
    case Stop => Some(s.(stopped := true))
    case Drain => if s.xmit.Exited? && s.rcv.Closed? && !s.drained then Some(ApplyDrain(s)) else None
    case DrainReport => if s.dead != [] then Some(Report(s, s.dead[0]).(dead := s.dead[1..])) else None
  }

  predicate Writable(s: State, x: Xfer, off: nat) {
    && x.serial < |s.accepted| && x.id < 0x1_0000_0000_0000_0000
    && off < |s.accepted[x.serial]| < 0x1_0000_0000_0000_0000
  }

  function Run(cfg: TxConfig, actions: seq<Action>): Option<State> {
    if actions == [] then Some(INITIAL)
    else
      var before := Run(cfg, actions[..|actions| - 1]);
      if before.None? then None else Apply(cfg, before.value, actions[|actions| - 1])
  }
}
