/** Which octets the messages of QUICCL are: where each field stands, and that numbers go out
    most significant octet first. */
module QuicLayout {
  import opened Octets
  import opened Wire
  import opened QuicMsg

  ghost predicate LaidOut(m: Msg, s: Octets) {
    match m
    case SessInit(_, _, _, _, nodeId, ext) =>
      var n := |nodeId|;
      && |s| == 33 + n + |ext| && SessInitStart(m, s[..29])
      && s[29..29 + n] == nodeId && Value(s[29 + n..33 + n]) == |ext| && s[33 + n..] == ext
    case XferSegment(flags, _, _, _, ext, _, _, _) =>
      var e := if flags / 2 % 2 == 1 then 4 + |ext| else 0;
      && |s| == 31 + e && SegmentStart(m, s[..14]) && SegmentEnd(m, s[14 + e..])
      && (e > 0 ==> Value(s[14..18]) == |ext| && s[18..14 + e] == ext)
    case XferAck(flags, segmentId, id, ackLength) =>
      && |s| == 20 && s[0] == 3 && s[1] == flags
      && Value(s[2..4]) == segmentId && Value(s[4..12]) == id && Value(s[12..]) == ackLength
    case XferRefuse(reason, id) => |s| == 10 && s[0] == 4 && s[1] == reason && Value(s[2..]) == id
    case Keepalive => s == [5]
    case SessTerm(flags, reason, ext) =>
      && |s| == 7 + |ext| && s[0] == 6 && s[1] == flags && s[2] == reason
      && Value(s[3..7]) == |ext| && s[7..] == ext
    case MsgReject(rejectedType, reason) => s == [7, rejectedType, reason]
  }

  /** The numbers that a SESS_INIT begins with. */
  ghost predicate SessInitStart(m: Msg, s: Octets)
    requires m.SessInit?
  {
    && |s| == 29
    && s[0] == 1 && Value(s[1..3]) == m.keepalive && Value(s[3..11]) == m.segmentMru
    && Value(s[11..19]) == m.datagramMru && Value(s[19..27]) == m.transferMru && Value(s[27..29]) == |m.nodeId|
  }

  /** What stands before the extension list of an XFER_SEGMENT. */
  ghost predicate SegmentStart(m: Msg, s: Octets)
    requires m.XferSegment?
  {
    && |s| == 14
    && s[0] == 2 && s[1] == m.flags
    && Value(s[2..4]) == m.segmentId && Value(s[4..6]) == m.totalSegments && Value(s[6..]) == m.transferId
  }

  /** What stands behind it. */
  ghost predicate SegmentEnd(m: Msg, s: Octets)
    requires m.XferSegment?
  {
    && |s| == 17
    && Value(s[..8]) == m.segmentLength && Value(s[8..16]) == m.bundleLength && s[16] == m.serviceMode
  }

  lemma SegmentHead(m: Msg, s: Octets)
    requires m.XferSegment? && |s| == 14
    ensures s == [2] + [m.flags] + BE16(m.segmentId) + BE16(m.totalSegments) + BE64(m.transferId) <==>
              SegmentStart(m, s)
  {
    Says16(s[2..4], m.segmentId);
    Says16(s[4..6], m.totalSegments);
    Says64(s[6..], m.transferId);
    hide BE16, BE64, Value;
    var p: Octets := [2] + [m.flags];
    Split2(s, p + BE16(m.segmentId) + BE16(m.totalSegments), BE64(m.transferId));
    Split2(s[..6], p + BE16(m.segmentId), BE16(m.totalSegments));
    Split2(s[..4], p, BE16(m.segmentId));
  }

  lemma SegmentTail(m: Msg, s: Octets)
    requires m.XferSegment? && |s| == 17
    ensures s == BE64(m.segmentLength) + BE64(m.bundleLength) + [m.serviceMode] <==> SegmentEnd(m, s)
  {
    Says64(s[..8], m.segmentLength);
    Says64(s[8..16], m.bundleLength);
    hide BE64, Value;
    Split2(s, BE64(m.segmentLength) + BE64(m.bundleLength), [m.serviceMode]);
    Split2(s[..16], BE64(m.segmentLength), BE64(m.bundleLength));
  }

  lemma SegmentExt(m: Msg, s: Octets)
    requires m.XferSegment? && m.WellFormed() && IsStart(m.flags) && |s| == 4 + |m.xferExt|
    ensures s == BE32(|m.xferExt|) + m.xferExt <==> Value(s[..4]) == |m.xferExt| && s[4..] == m.xferExt
  {
    Says32(s[..4], |m.xferExt|);
    hide BE32, Value;
    Split2(s, BE32(|m.xferExt|), m.xferExt);
  }

  /** A header is its fourteen first octets, the extension list, and the last seventeen. */
  lemma SegmentParted(m: Msg, s: Octets, e: nat)
    requires m.XferSegment? && m.WellFormed() && e == if IsStart(m.flags) then 4 + |m.xferExt| else 0
    requires |s| == 31 + e
    ensures s == Enc(m) <==>
              && s[..14] == [2] + [m.flags] + BE16(m.segmentId) + BE16(m.totalSegments) + BE64(m.transferId)
              && s[14..14 + e] == (if IsStart(m.flags) then BE32(|m.xferExt|) + m.xferExt else [])
              && s[14 + e..] == BE64(m.segmentLength) + BE64(m.bundleLength) + [m.serviceMode]
  {
    var head := [2] + [m.flags] + BE16(m.segmentId) + BE16(m.totalSegments) + BE64(m.transferId);
    var lead := if IsStart(m.flags) then BE32(|m.xferExt|) + m.xferExt else [];
    var tail := BE64(m.segmentLength) + BE64(m.bundleLength) + [m.serviceMode];
    assert Enc(m) == head + lead + BE64(m.segmentLength) + BE64(m.bundleLength) + [m.serviceMode];
    Associate4(head + lead, BE64(m.segmentLength), BE64(m.bundleLength), [m.serviceMode]);
    hide Enc, BE16, BE32, BE64;
    Split2(s, head + lead, tail);
    Split2(s[..14 + e], head, lead);
  }

  lemma SegmentLaidOut(m: Msg, s: Octets)
    requires m.XferSegment? && m.WellFormed()
    ensures s == Enc(m) <==> LaidOut(m, s)
  {
    var e := if IsStart(m.flags) then 4 + |m.xferExt| else 0;
    assert |Enc(m)| == 31 + e;
    if |s| == 31 + e {
      hide Enc, BE16, BE32, BE64, Value, SegmentStart, SegmentEnd;
      SegmentParted(m, s, e);
      SegmentHead(m, s[..14]);
      SegmentTail(m, s[14 + e..]);
      if IsStart(m.flags) {
        SegmentExt(m, s[14..14 + e]);
        HeadOfSlice(s, 14, 14 + e, 4);
        TailOfSlice(s, 14, 14 + e, 4);
      }
    }
  }

  lemma SessInitLaidOut(m: Msg, s: Octets)
    requires m.SessInit? && m.WellFormed()
    ensures s == Enc(m) <==> LaidOut(m, s)
  {
    var n := |m.nodeId|;
    var nums := BE64(m.segmentMru) + BE64(m.datagramMru) + BE64(m.transferMru);
    var head := [1] + BE16(m.keepalive) + nums + BE16(n);
    assert Enc(m) == head + m.nodeId + BE32(|m.sessExt|) + m.sessExt by { hide BE16, BE32, BE64; }
    if |s| == 33 + n + |m.sessExt| {
      Says32(s[29 + n..33 + n], |m.sessExt|);
      SessInitHead(m, s[..29]);
      hide Enc, BE16, BE32, BE64, Value, SessInitStart;
      HeadOfSlice(s, 0, 33 + n, 29 + n);
      HeadOfSlice(s, 0, 29 + n, 29);
      Split2(s, head + m.nodeId + BE32(|m.sessExt|), m.sessExt);
      Split2(s[..33 + n], head + m.nodeId, BE32(|m.sessExt|));
      Split2(s[..29 + n], head, m.nodeId);
    }
  }

  lemma SessInitHead(m: Msg, s: Octets)
    requires m.SessInit? && m.WellFormed() && |s| == 29
    ensures var nums := BE64(m.segmentMru) + BE64(m.datagramMru) + BE64(m.transferMru);
            s == [1] + BE16(m.keepalive) + nums + BE16(|m.nodeId|) <==> SessInitStart(m, s)
  {
    Says16(s[1..3], m.keepalive);
    Says64(s[3..11], m.segmentMru);
    Says64(s[11..19], m.datagramMru);
    Says64(s[19..27], m.transferMru);
    Says16(s[27..29], |m.nodeId|);
    hide BE16, BE64, Value;
    var p: Octets := [1] + BE16(m.keepalive);
    var nums := BE64(m.segmentMru) + BE64(m.datagramMru) + BE64(m.transferMru);
    Split2(s, p + nums, BE16(|m.nodeId|));
    Split2(s[..27], p, nums);
    Split2(s[3..27], BE64(m.segmentMru) + BE64(m.datagramMru), BE64(m.transferMru));
    Split2(s[3..19], BE64(m.segmentMru), BE64(m.datagramMru));
    Split2(s[..3], [1], BE16(m.keepalive));
  }

  lemma AckLaidOut(m: Msg, s: Octets)
    requires m.XferAck?
    ensures s == Enc(m) <==> LaidOut(m, s)
  {
    if |s| == 20 {
      Says16(s[2..4], m.segmentId);
      Says64(s[4..12], m.transferId);
      Says64(s[12..], m.ackLength);
      hide BE16, BE64, Value;
      var p: Octets := [3] + [m.flags];
      Split2(s, p + BE16(m.segmentId) + BE64(m.transferId), BE64(m.ackLength));
      Split2(s[..12], p + BE16(m.segmentId), BE64(m.transferId));
      Split2(s[..4], p, BE16(m.segmentId));
    }
  }

  lemma SessTermLaidOut(m: Msg, s: Octets)
    requires m.SessTerm? && m.WellFormed()
    ensures s == Enc(m) <==> LaidOut(m, s)
  {
    if |s| == 7 + |m.termExt| {
      Says32(s[3..7], |m.termExt|);
      hide BE32, Value;
      var p: Octets := [6] + [m.flags] + [m.reason];
      Split2(s, p + BE32(|m.termExt|), m.termExt);
      Split2(s[..7], p, BE32(|m.termExt|));
    }
  }

  /** The octets of a message are those that are laid out so, and no other. */
  lemma EncIsLaidOut(m: Msg, s: Octets)
    requires m.WellFormed()
    ensures s == Enc(m) <==> LaidOut(m, s)
  {
    if m.XferSegment? {
      SegmentLaidOut(m, s);
    } else if m.SessInit? {
      SessInitLaidOut(m, s);
    } else if m.XferAck? {
      AckLaidOut(m, s);
    } else if m.SessTerm? {
      SessTermLaidOut(m, s);
    } else if m.XferRefuse? && |s| == 10 {
      Says64(s[2..], m.transferId);
      hide BE64, Value;
      Split2(s, [4] + [m.reason], BE64(m.transferId));
    }
  }
}
