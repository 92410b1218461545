/** The QUICCL wire messages (draft-caini-dtn-quiccl): their octets, and the encoders
    and decoders. */
module QuicMsg {
  import opened Octets
  import opened Wire

  const SESS_INIT: uint8 := 0x01
  const XFER_SEGMENT: uint8 := 0x02
  const XFER_ACK: uint8 := 0x03
  const XFER_REFUSE: uint8 := 0x04
  const KEEPALIVE: uint8 := 0x05
  const SESS_TERM: uint8 := 0x06
  const MSG_REJECT: uint8 := 0x07

  const SVC_RELIABLE: uint8 := 0
  const SVC_UNRELIABLE: uint8 := 2

  datatype Msg =
    | SessInit(keepalive: uint16, segmentMru: uint64, datagramMru: uint64, transferMru: uint64,
               nodeId: Octets, sessExt: Octets)
    | XferSegment(flags: uint8, segmentId: uint16, totalSegments: uint16, transferId: uint64, xferExt: Octets,
                  segmentLength: uint64, bundleLength: uint64, serviceMode: uint8)
    | XferAck(flags: uint8, segmentId: uint16, transferId: uint64, ackLength: uint64)
    | XferRefuse(reason: uint8, transferId: uint64)
    | Keepalive
    | SessTerm(flags: uint8, reason: uint8, termExt: Octets)
    | MsgReject(rejectedType: uint8, reason: uint8)
  {
    /** Every variable-length part fits its length field. */
    predicate Fits() {
      match this
      case SessInit(_, _, _, _, nodeId, sessExt) => |nodeId| < 0x1_0000 && |sessExt| < 0x1_0000_0000
      case XferSegment(_, _, _, _, ext, _, _, _) => |ext| < 0x1_0000_0000
      case SessTerm(_, _, ext) => |ext| < 0x1_0000_0000
      case _ => true
    }

    /** Only a START segment carries an extension list. */
    predicate WellFormed() {
      Fits() && (XferSegment? && !IsStart(flags) ==> xferExt == [])
    }
  }

  /** Which decoder is asked. KEEPALIVE is a bare type octet and has none. */
  datatype Kind = KSessInit | KXferSegment | KXferAck | KXferRefuse | KSessTerm | KMsgReject

  predicate IsKind(k: Kind, m: Msg) {
    match k
    case KSessInit => m.SessInit?
    case KXferSegment => m.XferSegment?
    case KXferAck => m.XferAck?
    case KXferRefuse => m.XferRefuse?
    case KSessTerm => m.SessTerm?
    case KMsgReject => m.MsgReject?
  }

  function Tag(k: Kind): uint8 {
    match k
    case KSessInit => SESS_INIT
    case KXferSegment => XFER_SEGMENT
    case KXferAck => XFER_ACK
    case KXferRefuse => XFER_REFUSE
    case KSessTerm => SESS_TERM
    case KMsgReject => MSG_REJECT
  }

  /** The octets of a message; of an XFER_SEGMENT, its header. */
  function Enc(m: Msg): (s: Octets)
    requires m.Fits()
    ensures |s| >= 1
  {
    match m
    case SessInit(ka, smru, dmru, tmru, nodeId, ext) =>
      [SESS_INIT] + BE16(ka) + BE64(smru) + BE64(dmru) + BE64(tmru) + BE16(|nodeId|) + nodeId + BE32(|ext|) + ext
    case XferSegment(flags, segId, total, id, ext, segLen, bundleLen, mode) =>
      [XFER_SEGMENT] + [flags] + BE16(segId) + BE16(total) + BE64(id)
      + (if IsStart(flags) then BE32(|ext|) + ext else []) + BE64(segLen) + BE64(bundleLen) + [mode]
    case XferAck(flags, segId, id, ackLength) => [XFER_ACK] + [flags] + BE16(segId) + BE64(id) + BE64(ackLength)
    case XferRefuse(reason, id) => [XFER_REFUSE] + [reason] + BE64(id)
    case Keepalive => [KEEPALIVE]
    case SessTerm(flags, reason, ext) => [SESS_TERM] + [flags] + [reason] + BE32(|ext|) + ext
    case MsgReject(rejectedType, reason) => [MSG_REJECT] + [rejectedType] + [reason]
  }

  /** The octets are of the wrong kind, whatever follows them. */
  predicate Mismatch(k: Kind, s: Octets) { |s| >= 1 && s[0] != Tag(k) }

  // ---- A buffer begins with at most one message --------------------------------

  /** Where the fields of a SESS_INIT that s begins with are found. */
  ghost predicate SessInitAt(m: Msg, s: Octets)
    requires m.SessInit? && m.Fits()
  {
    var n := |m.nodeId|;
    && |s| >= 33 + n + |m.sessExt|
    && s[1..3] == BE16(m.keepalive)
    && s[3..11] == BE64(m.segmentMru)
    && s[11..19] == BE64(m.datagramMru)
    && s[19..27] == BE64(m.transferMru)
    && s[27..29] == BE16(n)
    && s[29..29 + n] == m.nodeId
    && s[29 + n..33 + n] == BE32(|m.sessExt|)
    && s[33 + n..33 + n + |m.sessExt|] == m.sessExt
  }

  lemma SessInitParts(m: Msg, s: Octets)
    requires m.SessInit? && m.Fits() && Enc(m) <= s
    ensures SessInitAt(m, s)
  {
    var n := |m.nodeId|;
    var p1: Octets := [SESS_INIT];
    var p2 := p1 + BE16(m.keepalive);
    var p3 := p2 + BE64(m.segmentMru);
    var p4 := p3 + BE64(m.datagramMru);
    var p5 := p4 + BE64(m.transferMru);
    var p6 := p5 + BE16(n);
    var p7 := p6 + m.nodeId;
    var p8 := p7 + BE32(|m.sessExt|);
    assert Enc(m) == p8 + m.sessExt;
    hide Enc, BE16, BE32, BE64;
    LastPart(p8, m.sessExt, s);
    LastPart(p7, BE32(|m.sessExt|), s);
    LastPart(p6, m.nodeId, s);
    LastPart(p5, BE16(n), s);
    LastPart(p4, BE64(m.transferMru), s);
    LastPart(p3, BE64(m.datagramMru), s);
    LastPart(p2, BE64(m.segmentMru), s);
    LastPart(p1, BE16(m.keepalive), s);
  }

  /** Where the fields of an XFER_SEGMENT header that s begins with are found. */
  ghost predicate SegmentAt(m: Msg, s: Octets)
    requires m.XferSegment? && m.WellFormed()
  {
    var e := if IsStart(m.flags) then 35 + |m.xferExt| else 31;
    && |s| >= e && |Enc(m)| == e
    && s[1] == m.flags
    && s[2..4] == BE16(m.segmentId)
    && s[4..6] == BE16(m.totalSegments)
    && s[6..14] == BE64(m.transferId)
    && (IsStart(m.flags) ==> s[14..18] == BE32(|m.xferExt|) && s[18..e - 17] == m.xferExt)
    && s[e - 17..e - 9] == BE64(m.segmentLength)
    && s[e - 9..e - 1] == BE64(m.bundleLength)
    && s[e - 1] == m.serviceMode
  }

  lemma SegmentParts(m: Msg, s: Octets)
    requires m.XferSegment? && m.WellFormed() && Enc(m) <= s
    ensures SegmentAt(m, s)
  {
    var p1: Octets := [XFER_SEGMENT];
    var p2 := p1 + [m.flags];
    var p3 := p2 + BE16(m.segmentId);
    var p4 := p3 + BE16(m.totalSegments);
    var p5 := p4 + BE64(m.transferId);
    var lead := if IsStart(m.flags) then BE32(|m.xferExt|) else [];
    var ext := if IsStart(m.flags) then m.xferExt else [];
    var p6 := p5 + (lead + ext);
    var p7 := p6 + BE64(m.segmentLength);
    var p8 := p7 + BE64(m.bundleLength);
    assert Enc(m) == p8 + [m.serviceMode];
    hide Enc, BE16, BE32, BE64;
    LastPart(p8, [m.serviceMode], s);
    LastPart(p7, BE64(m.bundleLength), s);
    LastPart(p6, BE64(m.segmentLength), s);
    LastPart(p5, lead + ext, s);
    assert p5 + (lead + ext) == p5 + lead + ext;
    LastPart(p5 + lead, ext, s);
    LastPart(p5, lead, s);
    LastPart(p4, BE64(m.transferId), s);
    LastPart(p3, BE16(m.totalSegments), s);
    LastPart(p2, BE16(m.segmentId), s);
    LastPart(p1, [m.flags], s);
    assert s[1..2][0] == s[1] && s[|p8|..|p8| + 1][0] == s[|p8|];
  }

  ghost predicate SessTermAt(m: Msg, s: Octets)
    requires m.SessTerm? && m.Fits()
  {
    && |s| >= 7 + |m.termExt|
    && s[1] == m.flags && s[2] == m.reason
    && s[3..7] == BE32(|m.termExt|)
    && s[7..7 + |m.termExt|] == m.termExt
  }

  lemma SessTermParts(m: Msg, s: Octets)
    requires m.SessTerm? && m.Fits() && Enc(m) <= s
    ensures SessTermAt(m, s)
  {
    var p1: Octets := [SESS_TERM];
    var p2 := p1 + [m.flags];
    var p3 := p2 + [m.reason];
    var p4 := p3 + BE32(|m.termExt|);
    assert Enc(m) == p4 + m.termExt;
    hide Enc, BE32;
    LastPart(p4, m.termExt, s);
    LastPart(p3, BE32(|m.termExt|), s);
    LastPart(p2, [m.reason], s);
    LastPart(p1, [m.flags], s);
    assert s[1..2][0] == s[1] && s[2..3][0] == s[2];
  }

  lemma SessInitPrefixFree(a: Msg, b: Msg, s: Octets)
    requires a.SessInit? && b.SessInit? && a.Fits() && b.Fits()
    requires Enc(a) <= s && Enc(b) <= s
    ensures a == b
  {
    SessInitParts(a, s);
    SessInitParts(b, s);
    hide Enc, BE16, BE32, BE64;
    BE16Injective(a.keepalive, b.keepalive);
    BE64Injective(a.segmentMru, b.segmentMru);
    BE64Injective(a.datagramMru, b.datagramMru);
    BE64Injective(a.transferMru, b.transferMru);
    BE16Injective(|a.nodeId|, |b.nodeId|);
    BE32Injective(|a.sessExt|, |b.sessExt|);
  }

  lemma SegmentPrefixFree(a: Msg, b: Msg, s: Octets)
    requires a.XferSegment? && b.XferSegment? && a.WellFormed() && b.WellFormed()
    requires Enc(a) <= s && Enc(b) <= s
    ensures a == b
  {
    SegmentParts(a, s);
    SegmentParts(b, s);
    hide Enc, BE16, BE32, BE64;
    BE16Injective(a.segmentId, b.segmentId);
    BE16Injective(a.totalSegments, b.totalSegments);
    BE64Injective(a.transferId, b.transferId);
    BE32Injective(|a.xferExt|, |b.xferExt|);
    BE64Injective(a.segmentLength, b.segmentLength);
    BE64Injective(a.bundleLength, b.bundleLength);
  }

  lemma SessTermPrefixFree(a: Msg, b: Msg, s: Octets)
    requires a.SessTerm? && b.SessTerm? && a.Fits() && b.Fits()
    requires Enc(a) <= s && Enc(b) <= s
    ensures a == b
  {
    SessTermParts(a, s);
    SessTermParts(b, s);
    BE32Injective(|a.termExt|, |b.termExt|);
  }

  lemma AckPrefixFree(a: Msg, b: Msg, s: Octets)
    requires a.XferAck? && b.XferAck? && Enc(a) <= s && Enc(b) <= s
    ensures a == b
  {
    SamePrefix(Enc(a), Enc(b), s);
    assert Enc(a)[1] == a.flags && Enc(b)[1] == b.flags;
    assert Enc(a)[2..4] == BE16(a.segmentId) && Enc(b)[2..4] == BE16(b.segmentId);
    assert Enc(a)[4..12] == BE64(a.transferId) && Enc(b)[4..12] == BE64(b.transferId);
    assert Enc(a)[12..] == BE64(a.ackLength) && Enc(b)[12..] == BE64(b.ackLength);
    hide Enc, BE16, BE32, BE64;
    BE16Injective(a.segmentId, b.segmentId);
    BE64Injective(a.transferId, b.transferId);
    BE64Injective(a.ackLength, b.ackLength);
  }

  lemma RefusePrefixFree(a: Msg, b: Msg, s: Octets)
    requires a.XferRefuse? && b.XferRefuse? && Enc(a) <= s && Enc(b) <= s
    ensures a == b
  {
    SamePrefix(Enc(a), Enc(b), s);
    assert Enc(a)[1] == a.reason && Enc(b)[1] == b.reason;
    assert Enc(a)[2..10] == BE64(a.transferId) && Enc(b)[2..10] == BE64(b.transferId);
    BE64Injective(a.transferId, b.transferId);
  }

  /** No octet sequence begins with two different well-formed messages. */
  lemma PrefixFree(a: Msg, b: Msg, s: Octets)
    requires a.WellFormed() && b.WellFormed()
    requires Enc(a) <= s && Enc(b) <= s
    ensures a == b
  {
    assert Enc(a)[0] == s[0] == Enc(b)[0];
    if a.SessInit? {
      SessInitPrefixFree(a, b, s);
    } else if a.XferSegment? {
      SegmentPrefixFree(a, b, s);
    } else if a.SessTerm? {
      SessTermPrefixFree(a, b, s);
    } else if a.XferAck? {
      AckPrefixFree(a, b, s);
    } else if a.XferRefuse? {
      RefusePrefixFree(a, b, s);
    } else {
      SamePrefix(Enc(a), Enc(b), s);
      assert a.MsgReject? ==> Enc(a)[1] == Enc(b)[1] && Enc(a)[2] == Enc(b)[2];
    }
  }

  // ---- Encoders --------------------------------------------------------------------

  method EncodeSessInit(buf: array<uint8>, cap: nat, m: Msg) returns (n: int)
    requires cap <= buf.Length && m.SessInit? && m.Fits()
    modifies buf
    ensures Encoded(buf, cap, Enc(m), n)
  {
    var w := new Writer(buf, cap);
    w.U8(SESS_INIT);
    assert w.offered == [SESS_INIT];
    w.U16(m.keepalive);
    w.U64(m.segmentMru);
    w.U64(m.datagramMru);
    w.U64(m.transferMru);
    w.U16(|m.nodeId|);
    w.Bytes(m.nodeId);
    w.U32(|m.sessExt|);
    w.Bytes(m.sessExt);
    n := w.Finish();
  }

  /** Writes the header; at most 35 octets where there is no extension list. */
  method EncodeXferSegmentHdr(buf: array<uint8>, cap: nat, m: Msg) returns (n: int)
    requires cap <= buf.Length && m.XferSegment? && m.Fits()
    modifies buf
    ensures Encoded(buf, cap, Enc(m), n)
  {
    var w := new Writer(buf, cap);
    w.U8(XFER_SEGMENT);
    assert w.offered == [XFER_SEGMENT];
    w.U8(m.flags);
    w.U16(m.segmentId);
    w.U16(m.totalSegments);
    w.U64(m.transferId);
    ghost var head := w.offered;
    if IsStart(m.flags) {
      w.U32(|m.xferExt|);
      w.Bytes(m.xferExt);
      assert w.offered == head + (BE32(|m.xferExt|) + m.xferExt);
    } else {
      assert w.offered == head + [];
    }
    w.U64(m.segmentLength);
    w.U64(m.bundleLength);
    w.U8(m.serviceMode);
    n := w.Finish();
  }

  method EncodeXferAck(buf: array<uint8>, cap: nat, m: Msg) returns (n: int)
    requires cap <= buf.Length && m.XferAck? && m.Fits()
    modifies buf
    ensures Encoded(buf, cap, Enc(m), n)
  {
    var w := new Writer(buf, cap);
    w.U8(XFER_ACK);
    assert w.offered == [XFER_ACK];
    w.U8(m.flags);
    w.U16(m.segmentId);
    w.U64(m.transferId);
    w.U64(m.ackLength);
    n := w.Finish();
  }

  method EncodeXferRefuse(buf: array<uint8>, cap: nat, m: Msg) returns (n: int)
    requires cap <= buf.Length && m.XferRefuse? && m.Fits()
    modifies buf
    ensures Encoded(buf, cap, Enc(m), n)
  {
    var w := new Writer(buf, cap);
    w.U8(XFER_REFUSE);
    assert w.offered == [XFER_REFUSE];
    w.U8(m.reason);
    w.U64(m.transferId);
    n := w.Finish();
  }

  method EncodeKeepalive(buf: array<uint8>, cap: nat) returns (n: int)
    requires cap <= buf.Length
    modifies buf
    ensures Encoded(buf, cap, Enc(Keepalive), n)
  {
    var w := new Writer(buf, cap);
    w.U8(KEEPALIVE);
    assert w.offered == [KEEPALIVE];
    n := w.Finish();
  }

  method EncodeSessTerm(buf: array<uint8>, cap: nat, m: Msg) returns (n: int)
    requires cap <= buf.Length && m.SessTerm? && m.Fits()
    modifies buf
    ensures Encoded(buf, cap, Enc(m), n)
  {
    var w := new Writer(buf, cap);
    w.U8(SESS_TERM);
    assert w.offered == [SESS_TERM];
    w.U8(m.flags);
    w.U8(m.reason);
    w.U32(|m.termExt|);
    w.Bytes(m.termExt);
    n := w.Finish();
  }

  method EncodeMsgReject(buf: array<uint8>, cap: nat, m: Msg) returns (n: int)
    requires cap <= buf.Length && m.MsgReject? && m.Fits()
    modifies buf
    ensures Encoded(buf, cap, Enc(m), n)
  {
    var w := new Writer(buf, cap);
    w.U8(MSG_REJECT);
    assert w.offered == [MSG_REJECT];
    w.U8(m.rejectedType);
    w.U8(m.reason);
    n := w.Finish();
  }

  // ---- Decoders --------------------------------------------------------------------

  /** What a decoder promises: the message that s begins with and its exact length; 0
      when no message of the kind is complete yet; -1 when the octets are of another kind. */
  ghost predicate Decoded(k: Kind, s: Octets, n: int, m: Msg) {
    && (n > 0 ==> IsKind(k, m) && m.WellFormed() && n <= |s| && s[..n] == Enc(m))
    && (n <= 0 ==> NoneComplete(k, s))
    && (n == -1 <==> Mismatch(k, s))
    && n >= -1
  }

  ghost predicate NoneComplete(k: Kind, s: Octets) {
    forall x: Msg :: IsKind(k, x) && x.WellFormed() ==> !(Enc(x) <= s)
  }

  lemma MismatchExcludes(k: Kind, s: Octets)
    requires Mismatch(k, s) || s == []
    ensures NoneComplete(k, s)
  {
    forall x: Msg | IsKind(k, x) && x.WellFormed()
      ensures !(Enc(x) <= s)
    {
      assert Enc(x)[0] == Tag(k);
    }
  }

  /** Kinds without a variable-length part. */
  function FixedLength(k: Kind): nat
    requires k.KXferAck? || k.KXferRefuse? || k.KMsgReject?
  {
    if k.KXferAck? then 20 else if k.KXferRefuse? then 10 else 3
  }

  lemma TooShort(k: Kind, s: Octets)
    requires (k.KXferAck? || k.KXferRefuse? || k.KMsgReject?) && |s| < FixedLength(k)
    ensures NoneComplete(k, s)
  {
    forall x: Msg | IsKind(k, x) && x.WellFormed()
      ensures |Enc(x)| == FixedLength(k)
    {}
  }

  /** Whichever SESS_INIT s begins with, its length fields are the ones already read. */
  lemma SessInitNodeIdLen(s: Octets, head: Octets, nodeIdLen: uint16)
    requires |head| == 27 && head + BE16(nodeIdLen) <= s
    ensures forall x: Msg :: x.SessInit? && x.WellFormed() && Enc(x) <= s ==> |x.nodeId| == nodeIdLen
  {
    forall x: Msg | x.SessInit? && x.WellFormed() && Enc(x) <= s
      ensures |x.nodeId| == nodeIdLen
    {
      SessInitParts(x, s);
      DropHead(head, BE16(nodeIdLen), s);
      assert s[27..][..2] == s[27..29];
      BE16Injective(nodeIdLen, |x.nodeId|);
    }
  }

  lemma SessInitExtLen(s: Octets, head: Octets, extLen: uint32)
    requires head + BE32(extLen) <= s
    ensures forall x: Msg :: x.SessInit? && x.WellFormed() && Enc(x) <= s && |head| == 29 + |x.nodeId|
                             ==> |x.sessExt| == extLen
  {
    forall x: Msg | x.SessInit? && x.WellFormed() && Enc(x) <= s && |head| == 29 + |x.nodeId|
      ensures |x.sessExt| == extLen
    {
      SessInitParts(x, s);
      DropHead(head, BE32(extLen), s);
      assert s[|head|..][..4] == s[|head|..|head| + 4];
      BE32Injective(extLen, |x.sessExt|);
    }
  }

  method DecodeSessInit(s: Octets) returns (n: int, m: Msg)
    requires |s| <= INT_MAX
    ensures Decoded(KSessInit, s, n, m)
  {
    hide BE16, BE32, BE64;
    var r := new Reader(s, 0);
    m := Keepalive;
    var tag := r.U8();
    if tag != SESS_INIT {
      MismatchExcludes(KSessInit, s);
      return if r.ok then -1 else 0, m;
    }
    assert r.ok ==> r.taken == [SESS_INIT];
    var ka := r.U16();
    var smru := r.U64();
    var dmru := r.U64();
    var tmru := r.U64();
    ghost var before := r.taken;
    var nodeIdLen := r.U16();
    ghost var nodeIdLenRead := r.ok;
    var nodeId := r.Bytes(nodeIdLen);
    ghost var beforeExt := r.taken;
    var extLen := r.U32();
    ghost var extLenRead := r.ok;
    var ext := r.Bytes(extLen);
    if !r.ok {
      if nodeIdLenRead {
        SessInitNodeIdLen(s, before, nodeIdLen);
      }
      if extLenRead {
        SessInitExtLen(s, beforeExt, extLen);
      }
      return 0, m;
    }
    m := SessInit(ka, smru, dmru, tmru, nodeId, ext);
    n := r.off;
    assert r.taken == s[..n];
  }

  /** Whichever XFER_SEGMENT s begins with, its flags and extension length are the
      ones already read. */
  lemma SegmentFlags(s: Octets, head: Octets, flags: uint8)
    requires |head| == 14 && head[1] == flags && head <= s
    ensures forall x: Msg :: x.XferSegment? && x.WellFormed() && Enc(x) <= s ==> x.flags == flags
  {
    forall x: Msg | x.XferSegment? && x.WellFormed() && Enc(x) <= s
      ensures x.flags == flags
    {
      SegmentParts(x, s);
    }
  }

  lemma SegmentExtLen(s: Octets, head: Octets, extLen: uint32)
    requires |head| == 14 && head + BE32(extLen) <= s
    ensures forall x: Msg :: x.XferSegment? && x.WellFormed() && Enc(x) <= s && IsStart(x.flags)
                             ==> |x.xferExt| == extLen
  {
    forall x: Msg | x.XferSegment? && x.WellFormed() && Enc(x) <= s && IsStart(x.flags)
      ensures |x.xferExt| == extLen
    {
      SegmentParts(x, s);
      DropHead(head, BE32(extLen), s);
      assert s[14..][..4] == s[14..18];
      BE32Injective(extLen, |x.xferExt|);
    }
  }

  /** What has been read of a header leaves room for none that is complete. */
  lemma SegmentIncomplete(s: Octets, head: Octets, flags: uint8, extLen: uint32)
    requires |s| < 14
             || (|head| == 14 && head <= s && head[1] == flags
                 && (if !IsStart(flags) then |s| < 31
                     else |s| < 18 || (head + BE32(extLen) <= s && |s| < 35 + extLen)))
    ensures NoneComplete(KXferSegment, s)
  {
    if |s| >= 14 {
      SegmentFlags(s, head, flags);
      if IsStart(flags) && |s| >= 18 {
        SegmentExtLen(s, head, extLen);
      }
    }
  }

  /** The extension list, of a START segment only. */
  method ReadExt(r: Reader, start: bool) returns (ext: Octets, ghost wanted: uint32)
    requires r.Valid()
    modifies r
    ensures r.Valid()
    ensures old(r.asked) <= r.asked && (!start ==> r.asked == old(r.asked) && ext == [])
    ensures start ==> r.asked == old(r.asked) + 4 + wanted
    ensures start && old(r.ok) && old(r.asked) + 4 <= |r.buf| ==> old(r.taken) + BE32(wanted) <= r.buf
    ensures r.ok ==> old(r.ok) && |ext| < 0x1_0000_0000
                     && r.taken == old(r.taken) + (if start then BE32(|ext|) + ext else [])
  {
    hide BE32;
    ext, wanted := [], 0;
    ghost var head := r.taken;
    if start {
      var extLen := r.U32();
      wanted := extLen;
      assert r.ok ==> r.taken <= r.buf;
      ext := r.Bytes(extLen);
      assert r.ok ==> r.taken == head + (BE32(extLen) + ext);
    } else {
      assert head == head + [];
    }
  }

  method DecodeXferSegmentHdr(s: Octets) returns (n: int, m: Msg)
    requires |s| <= INT_MAX
    ensures Decoded(KXferSegment, s, n, m)
  {
    hide BE16, BE32, BE64;
    var r := new Reader(s, 0);
    m := Keepalive;
    var tag := r.U8();
    if tag != XFER_SEGMENT {
      MismatchExcludes(KXferSegment, s);
      return if r.ok then -1 else 0, m;
    }
    assert r.ok ==> r.taken == [XFER_SEGMENT];
    var flags := r.U8();
    var segId := r.U16();
    var total := r.U16();
    var id := r.U64();
    ghost var head := r.taken;
    var ext: Octets;
    ghost var wanted: uint32;
    ext, wanted := ReadExt(r, IsStart(flags));
    var segLen := r.U64();
    var bundleLen := r.U64();
    var mode := r.U8();
    if !r.ok {
      SegmentIncomplete(s, head, flags, wanted);
      return 0, m;
    }
    m := XferSegment(flags, segId, total, id, ext, segLen, bundleLen, mode);
    n := r.off;
    assert r.taken == s[..n];
  }

  lemma SessTermExtLen(s: Octets, head: Octets, extLen: uint32)
    requires |head| == 3 && head + BE32(extLen) <= s
    ensures forall x: Msg :: x.SessTerm? && x.WellFormed() && Enc(x) <= s ==> |x.termExt| == extLen
  {
    forall x: Msg | x.SessTerm? && x.WellFormed() && Enc(x) <= s
      ensures |x.termExt| == extLen
    {
      SessTermParts(x, s);
      DropHead(head, BE32(extLen), s);
      assert s[3..][..4] == s[3..7];
      BE32Injective(extLen, |x.termExt|);
    }
  }

  method DecodeSessTerm(s: Octets) returns (n: int, m: Msg)
    requires |s| <= INT_MAX
    ensures Decoded(KSessTerm, s, n, m)
  {
    var r := new Reader(s, 0);
    m := Keepalive;
    var tag := r.U8();
    if tag != SESS_TERM {
      MismatchExcludes(KSessTerm, s);
      return if r.ok then -1 else 0, m;
    }
    assert r.ok ==> r.taken == [SESS_TERM];
    var flags := r.U8();
    var reason := r.U8();
    ghost var head := r.taken;
    var extLen := r.U32();
    ghost var extLenRead := r.ok;
    var ext := r.Bytes(extLen);
    if !r.ok {
      if extLenRead {
        SessTermExtLen(s, head, extLen);
      }
      return 0, m;
    }
    m := SessTerm(flags, reason, ext);
    n := r.off;
    assert r.taken == s[..n];
  }

  method DecodeXferAck(s: Octets) returns (n: int, m: Msg)
    requires |s| <= INT_MAX
    ensures Decoded(KXferAck, s, n, m)
  {
    var r := new Reader(s, 0);
    m := Keepalive;
    var tag := r.U8();
    if tag != XFER_ACK {
      MismatchExcludes(KXferAck, s);
      return if r.ok then -1 else 0, m;
    }
    assert r.ok ==> r.taken == [XFER_ACK];
    var flags := r.U8();
    var segId := r.U16();
    var id := r.U64();
    var ackLength := r.U64();
    if !r.ok {
      TooShort(KXferAck, s);
      return 0, m;
    }
    m := XferAck(flags, segId, id, ackLength);
    n := r.off;
    assert r.taken == s[..n];
  }

  method DecodeXferRefuse(s: Octets) returns (n: int, m: Msg)
    requires |s| <= INT_MAX
    ensures Decoded(KXferRefuse, s, n, m)
  {
    var r := new Reader(s, 0);
    m := Keepalive;
    var tag := r.U8();
    if tag != XFER_REFUSE {
      MismatchExcludes(KXferRefuse, s);
      return if r.ok then -1 else 0, m;
    }
    assert r.ok ==> r.taken == [XFER_REFUSE];
    var reason := r.U8();
    var id := r.U64();
    if !r.ok {
      TooShort(KXferRefuse, s);
      return 0, m;
    }
    m := XferRefuse(reason, id);
    n := r.off;
    assert r.taken == s[..n];
  }

  method DecodeMsgReject(s: Octets) returns (n: int, m: Msg)
    requires |s| <= INT_MAX
    ensures Decoded(KMsgReject, s, n, m)
  {
    var r := new Reader(s, 0);
    m := Keepalive;
    var tag := r.U8();
    if tag != MSG_REJECT {
      MismatchExcludes(KMsgReject, s);
      return if r.ok then -1 else 0, m;
    }
    assert r.ok ==> r.taken == [MSG_REJECT];
    var rejectedType := r.U8();
    var reason := r.U8();
    if !r.ok {
      TooShort(KMsgReject, s);
      return 0, m;
    }
    m := MsgReject(rejectedType, reason);
    n := r.off;
    assert r.taken == s[..n];
  }

  // ---- Laws ------------------------------------------------------------------------

  /** An encoding followed by anything decodes to the same message and exact length. */
  lemma DecodeInvertsEncode(k: Kind, m: Msg, rest: Octets, n: int, got: Msg)
    requires IsKind(k, m) && m.WellFormed()
    requires Decoded(k, Enc(m) + rest, n, got)
    ensures n == |Enc(m)| && got == m
  {
    assert Enc(m) <= Enc(m) + rest;
    PrefixFree(got, m, Enc(m) + rest);
  }

  /** A strict prefix of an encoding is never complete, and never taken for another kind. */
  lemma PrefixAsksForMore(k: Kind, m: Msg, j: nat, n: int, got: Msg)
    requires IsKind(k, m) && m.WellFormed() && j < |Enc(m)|
    requires Decoded(k, Enc(m)[..j], n, got)
    ensures n == 0
  {
    var s := Enc(m)[..j];
    if n > 0 {
      assert Enc(got) <= Enc(m);
      PrefixFree(got, m, Enc(m));
    }
    assert Enc(m)[0] == Tag(k);
    assert j > 0 ==> s[0] == Enc(m)[0];
  }
}
