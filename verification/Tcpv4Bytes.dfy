/** From the machines to the octets on the wire: what the sender's machine writes in a
    bufferful is what sendSegments puts on the wire, and the message loop at the other end
    reads from these octets exactly the segments that were written. */
module Tcpv4Bytes {
  import opened Octets
  import opened Options
  import opened Wire
  import opened Tcpv4Msg
  import opened Tcpv4Receive
  import opened Tcpv4Tx
  import opened Tcpv4TxWire
  import opened Tcpv4Io
  import opened Tcpv4Loop

  // ---- A bufferful -----------------------------------------------------------------------------

  /** So many segments written one after another. */
  function Writes(cfg: TxConfig, s: State, n: nat): Option<State>
    decreases n
  {
    if n == 0 then Some(s)
    else
      var t := Apply(cfg, s, WriteSegment);
      if t.None? then None else Writes(cfg, t.value, n - 1)
  }

  /** The sender is to write from its position on in the i-th transfer of the window. */
  predicate WritingAt(s: State, i: nat) {
    && i < |s.window| && s.xmit.Sending? && FindId(s.window, s.xmit.id) == i
    && Writable(s, s.window[i], s.xmit.off)
  }

  /** What is left of the bufferful at the sender's position. */
  function CutsLeft(cfg: TxConfig, s: State, i: nat): seq<Segment>
    requires cfg.segmentMtu >= 1 && WritingAt(s, i)
  {
    var bundle := s.accepted[s.window[i].serial];
    Cuts(cfg, s.window[i].id, bundle, s.xmit.off, BufferEnd(s.xmit.off, |bundle|))
  }

  /** The state when the bufferful is written. */
  function BufferWritten(cfg: TxConfig, s: State, i: nat): State
    requires cfg.segmentMtu >= 1 && WritingAt(s, i)
  {
    s.(sent := s.sent + CutsLeft(cfg, s, i),
       xmit := Checking(s.window[i].id, BufferEnd(s.xmit.off, |s.accepted[s.window[i].serial]|)))
  }

  /** One segment of it. */
  lemma WriteOne(cfg: TxConfig, s: State, i: nat)
    requires cfg.segmentMtu >= 1 && WritingAt(s, i)
    ensures var t := ApplyWrite(cfg, s, s.window[i], s.xmit.off);
            && Apply(cfg, s, WriteSegment) == Some(t)
            && CutsLeft(cfg, s, i) != []
            && (|| (CutsLeft(cfg, s, i) == [t.sent[|s.sent|]] && t == BufferWritten(cfg, s, i))
                || (WritingAt(t, i) && t.xmit.off > s.xmit.off && BufferWritten(cfg, t, i) == BufferWritten(cfg, s, i)
                    && |CutsLeft(cfg, s, i)| == 1 + |CutsLeft(cfg, t, i)|
                    && BufferEnd(t.xmit.off, |t.accepted[t.window[i].serial]|)
                       == BufferEnd(s.xmit.off, |s.accepted[s.window[i].serial]|)))
  {
    var x, off := s.window[i], s.xmit.off;
    var bundle, t := s.accepted[x.serial], ApplyWrite(cfg, s, x, off);
    var seg, end := CutSegment(cfg, x.id, bundle, off), BufferEnd(off, |bundle|);
    var next := off + |seg.data|;
    BufferEndAhead(off, |bundle|);
    CutFacts(cfg, x.id, bundle, off);
    assert CutsLeft(cfg, s, i) == [seg] + Cuts(cfg, x.id, bundle, next, end);
    hide CutSegment, Cuts;
    if next < end {
      SameEnd(off, next, |bundle|);
      hide BufferEnd;
      Associate3(s.sent, [seg], Cuts(cfg, x.id, bundle, next, end));
    } else {
      NoMoreCuts(cfg, x.id, bundle, end);
    }
  }

  /** The steps of the machine up to the end of a bufferful write the segments that
      sendSegments puts on the wire, and no other. */
  lemma {:induction false} BufferfulWritten(cfg: TxConfig, s: State, i: nat)
    requires cfg.segmentMtu >= 1 && WritingAt(s, i)
    ensures Writes(cfg, s, |CutsLeft(cfg, s, i)|) == Some(BufferWritten(cfg, s, i))
    decreases BufferEnd(s.xmit.off, |s.accepted[s.window[i].serial]|) - s.xmit.off
  {
    WriteOne(cfg, s, i);
    BufferEndAhead(s.xmit.off, |s.accepted[s.window[i].serial]|);
    var t := ApplyWrite(cfg, s, s.window[i], s.xmit.off);
    if |CutsLeft(cfg, s, i)| > 1 {
      BufferEndAhead(t.xmit.off, |t.accepted[t.window[i].serial]|);
      hide Apply, BufferEnd, ApplyWrite, CutsLeft, BufferWritten, WritingAt;
      BufferfulWritten(cfg, t, i);
    }
  }

  // ---- Whole runs ------------------------------------------------------------------------------

  /** A segment this sender makes: no longer than the Segment MTU. */
  predicate Made(cfg: TxConfig, seg: Segment) { Sendable(seg) && |seg.data| <= cfg.segmentMtu }

  lemma CutMade(cfg: TxConfig, id: uint64, bundle: Octets, off: nat)
    requires cfg.segmentMtu >= 1 && off < |bundle| < 0x1_0000_0000_0000_0000
    ensures Made(cfg, CutSegment(cfg, id, bundle, off))
  {
    CutSendable(cfg, id, bundle, off);
    BufferEndAhead(off, |bundle|);
  }

  lemma StepMakes(cfg: TxConfig, s: State, a: Action)
    requires cfg.segmentMtu >= 1 && Apply(cfg, s, a).Some?
    ensures var t := Apply(cfg, s, a).value;
            t.sent == s.sent || (exists seg :: Made(cfg, seg) && t.sent == s.sent + [seg])
  {
    hide CutSegment, BufferEnd, FindId, Reverse, HasRoom, Without, Made;
    if a.WriteSegment? {
      var x := s.window[FindId(s.window, s.xmit.id)];
      CutMade(cfg, x.id, s.accepted[x.serial], s.xmit.off);
    }
  }

  lemma {:induction false} AllMade(cfg: TxConfig, actions: seq<Action>)
    requires cfg.segmentMtu >= 1 && Run(cfg, actions).Some?
    ensures forall k :: 0 <= k < |Run(cfg, actions).value.sent| ==> Made(cfg, Run(cfg, actions).value.sent[k])
  {
    if actions != [] {
      var front := actions[..|actions| - 1];
      AllMade(cfg, front);
      StepMakes(cfg, Run(cfg, front).value, actions[|actions| - 1]);
      hide Apply, Made;
    }
  }

  /** The octets that the sender has written in a run. */
  ghost function WrittenBy(cfg: TxConfig, actions: seq<Action>): Octets
    requires cfg.segmentMtu >= 1 && Run(cfg, actions).Some?
  {
    AllMade(cfg, actions);
    Wired(Run(cfg, actions).value.sent)
  }

  /** Whatever the sender has written in a run, the message loop of a receiver that takes its
      segments reads it, octet by octet, as the segments that were written. */
  method ReceiveWritten(r: Reading, segmentMru: nat, decide: (nat, Msg) -> Decision,
                        ghost cfg: TxConfig, ghost actions: seq<Action>)
    returns (handed: seq<Framed>)
    requires 1 <= cfg.segmentMtu <= segmentMru && Run(cfg, actions).Some?
    requires r.Valid() && WrittenBy(cfg, actions) <= r.stream[r.Given()..]
    modifies r, r.rxBuf
    ensures r.Valid()
    ensures var sent := Run(cfg, actions).value.sent;
            && (forall k :: 0 <= k < |sent| ==> Sendable(sent[k]))
            && (forall k :: 0 <= k < |handed| && k < |sent| ==>
                  handed[k] == Seen(FrameOf(sent[k]), decide(k, FrameOf(sent[k]).m)))
            && (r.Healthy() ==>
                  || |handed| >= |sent|
                  || (handed != [] && Ends(decide(|handed| - 1, handed[|handed| - 1].m))))
  {
    ghost var sent := Run(cfg, actions).value.sent;
    AllMade(cfg, actions);
    FramesAllowed(cfg, sent, segmentMru);
    hide Run;
    handed := MessageLoop(r, segmentMru, decide, FramesOf(sent));
  }

  lemma FramesAllowed(cfg: TxConfig, sent: seq<Segment>, segmentMru: nat)
    requires cfg.segmentMtu <= segmentMru && forall k :: 0 <= k < |sent| ==> Made(cfg, sent[k])
    ensures (forall k :: 0 <= k < |sent| ==> Sendable(sent[k])) && AllAllowed(FramesOf(sent), segmentMru)
  {
    forall k | 0 <= k < |sent| ensures Sendable(sent[k]) && FrameOf(sent[k]).Allowed(segmentMru) {
      assert Made(cfg, sent[k]);
    }
  }
}
