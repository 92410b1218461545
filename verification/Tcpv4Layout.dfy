/** Which octets the messages of RFC 9174 are: where each field stands, and that numbers go
    out most significant octet first. */
module Tcpv4Layout {
  import opened Octets
  import opened Wire
  import opened Tcpv4Msg
  import opened Tcpv4Ext

  /** The fields as sections 4 to 6 of RFC 9174 place them. */
  ghost predicate LaidOut(m: Msg, s: Octets) {
    match m
    case Contact(version, flags) => |s| == 6 && s[..4] == [0x64, 0x74, 0x6e, 0x21] && s[4] == version && s[5] == flags
    case XferSegment(flags, id, ext, dataLength) =>
      var e := if flags / 2 % 2 == 1 then 4 + |ext| else 0;
      && |s| == 18 + e
      && s[0] == 1 && s[1] == flags && Value(s[2..10]) == id && Value(s[10 + e..]) == dataLength
      && (e > 0 ==> Value(s[10..14]) == |ext| && s[14..10 + e] == ext)
    case XferAck(flags, id, ackLength) =>
      |s| == 18 && s[0] == 2 && s[1] == flags && Value(s[2..10]) == id && Value(s[10..]) == ackLength
    case XferRefuse(reason, id) => |s| == 10 && s[0] == 3 && s[1] == reason && Value(s[2..]) == id
    case Keepalive => s == [4]
    case SessTerm(flags, reason) => s == [5, flags, reason]
    case MsgReject(reason, rejectedType) => s == [6, reason, rejectedType]
    case SessInit(keepalive, segmentMru, transferMru, nodeId, ext) =>
      var n := |nodeId|;
      && |s| == 25 + n + |ext|
      && s[0] == 7 && Value(s[1..3]) == keepalive && Value(s[3..11]) == segmentMru && Value(s[11..19]) == transferMru
      && Value(s[19..21]) == n && s[21..21 + n] == nodeId
      && Value(s[21 + n..25 + n]) == |ext| && s[25 + n..] == ext
  }

  lemma SegmentLaidOut(m: Msg, s: Octets)
    requires m.XferSegment? && m.WellFormed()
    ensures s == Enc(m) <==> LaidOut(m, s)
  {
    var e := if IsStart(m.flags) then 4 + |m.xferExt| else 0;
    var lead := if IsStart(m.flags) then BE32(|m.xferExt|) + m.xferExt else [];
    var p1: Octets := [1];
    var p2 := p1 + [m.flags];
    var p3 := p2 + BE64(m.transferId);
    var p4 := p3 + lead;
    assert Enc(m) == p4 + BE64(m.dataLength);
    if |s| == 18 + e {
      Says64(s[2..10], m.transferId);
      Says64(s[10 + e..], m.dataLength);
      if IsStart(m.flags) {
        Says32(s[10..14], |m.xferExt|);
        Split2(s[10..10 + e], BE32(|m.xferExt|), m.xferExt);
        SliceOfTail(s, 10, 0, 4);
      }
      hide Enc, BE32, BE64, Value;
      Split2(s, p4, BE64(m.dataLength));
      Split2(s[..10 + e], p3, lead);
      Split2(s[..10], p2, BE64(m.transferId));
      Split2(s[..2], p1, [m.flags]);
    }
  }

  lemma SessInitLaidOut(m: Msg, s: Octets)
    requires m.SessInit? && m.WellFormed()
    ensures s == Enc(m) <==> LaidOut(m, s)
  {
    var n := |m.nodeId|;
    var p1: Octets := [7];
    var p2 := p1 + BE16(m.keepalive);
    var p3 := p2 + BE64(m.segmentMru);
    var p4 := p3 + BE64(m.transferMru);
    var p5 := p4 + BE16(n);
    var p6 := p5 + m.nodeId;
    var p7 := p6 + BE32(|m.sessExt|);
    assert Enc(m) == p7 + m.sessExt;
    if |s| == 25 + n + |m.sessExt| {
      Says16(s[1..3], m.keepalive);
      Says64(s[3..11], m.segmentMru);
      Says64(s[11..19], m.transferMru);
      Says16(s[19..21], n);
      Says32(s[21 + n..25 + n], |m.sessExt|);
      hide Enc, BE16, BE32, BE64, Value;
      Split2(s, p7, m.sessExt);
      Split2(s[..25 + n], p6, BE32(|m.sessExt|));
      Split2(s[..21 + n], p5, m.nodeId);
      Split2(s[..21], p4, BE16(n));
      Split2(s[..19], p3, BE64(m.transferMru));
      Split2(s[..11], p2, BE64(m.segmentMru));
      Split2(s[..3], p1, BE16(m.keepalive));
    }
  }

  /** The octets of a message are those that are laid out so, and no other. */
  lemma EncIsLaidOut(m: Msg, s: Octets)
    requires m.WellFormed()
    ensures s == Enc(m) <==> LaidOut(m, s)
  {
    if m.XferSegment? {
      SegmentLaidOut(m, s);
    } else if m.SessInit? {
      SessInitLaidOut(m, s);
    } else if m.XferAck? && |s| == 18 {
      Says64(s[2..10], m.transferId);
      Says64(s[10..], m.ackLength);
      hide BE64, Value;
      Split2(s, [2] + [m.flags] + BE64(m.transferId), BE64(m.ackLength));
      Split2(s[..10], [2] + [m.flags], BE64(m.transferId));
    } else if m.XferRefuse? && |s| == 10 {
      Says64(s[2..], m.transferId);
      hide BE64, Value;
      Split2(s, [3] + [m.reason], BE64(m.transferId));
    }
  }

  /** The flags of a segment: END is the lowest bit, START the next. */
  lemma FlagBits(flags: uint8)
    ensures IsEnd(flags) <==> flags % 4 == 1 || flags % 4 == 3
    ensures IsStart(flags) <==> flags % 4 == 2 || flags % 4 == 3
  {}

  // ---- Extension items ---------------------------------------------------------------------------

  /** An extension item as section 4.8 of RFC 9174 places its fields; the lowest flag is CRITICAL. */
  lemma ItemLaidOut(x: ExtItem, s: Octets)
    requires x.Fits()
    ensures s == EncItem(x) <==>
              && |s| == 5 + |x.value|
              && s[0] == x.flags && Value(s[1..3]) == x.kind && Value(s[3..5]) == |x.value| && s[5..] == x.value
    ensures x.Critical() <==> x.flags % 2 == 1
  {
    if |s| == 5 + |x.value| {
      Says16(s[1..3], x.kind);
      Says16(s[3..5], |x.value|);
      hide BE16, Value;
      Split2(s, [x.flags] + BE16(x.kind) + BE16(|x.value|), x.value);
      Split2(s[..5], [x.flags] + BE16(x.kind), BE16(|x.value|));
      Split2(s[..3], [x.flags], BE16(x.kind));
    }
  }

  /** The item a sender declares the length of its transfer with: thirteen octets. */
  lemma LengthItemLaidOut(length: uint64)
    ensures var s := LengthExt(length); |s| == 13 && s[..5] == [0, 0, 1, 0, 8] && Value(s[5..]) == length
  {
    var s := LengthExt(length);
    ItemLaidOut(ExtItem(0, 1, BE64(length)), s);
    Says64(s[5..], length);
    PlaceValues(s[1..3]);
    PlaceValues(s[3..5]);
    hide Value, BE64, EncItem;
    assert s[1..3][0] == s[1] && s[1..3][1] == s[2] && s[3..5][0] == s[3] && s[3..5][1] == s[4];
  }
}
