/** The message loop of an established session: messages are taken apart a field at a time,
    and the stream stays in step with them even while refused transfers are drained. */
module Tcpv4Loop {
  import opened Octets
  import opened Wire
  import opened Tcpv4Msg
  import opened Tcpv4Io

  const MAX_EXT_LEN := 1024
  const SCRATCH := 4096

  /** A message on the wire; an XFER_SEGMENT header is followed by its data. */
  datatype Framed = Framed(m: Msg, data: Octets)
  {
    /** Within the limits of a session that advertised this Segment MRU. */
    ghost predicate Allowed(segmentMru: nat) {
      && m.WellFormed()
      && if m.XferSegment? then |m.xferExt| <= MAX_EXT_LEN && m.dataLength == |data| <= segmentMru
         else data == [] && (m.XferAck? || m.XferRefuse? || m.Keepalive? || m.SessTerm? || m.MsgReject?)
    }

    ghost function Wire(): Octets
      requires m.WellFormed()
    {
      Enc(m) + data
    }
  }

  /** What a handler makes of a message: the payload of a segment is kept or drained, or the
      session ends, before the payload is read or after. */
  datatype Decision = Keep | Drain | Abort | End

  predicate Ends(d: Decision) { d.Abort? || d.End? }

  /** The handler is given the payload. */
  predicate Keeps(d: Decision) { d.Keep? || d.End? }

  /** Kinds that a session in progress takes, and no segment longer than the Segment MRU. */
  predicate Admissible(m: Msg, segmentMru: nat) {
    if m.XferSegment? then m.dataLength <= segmentMru
    else m.XferAck? || m.XferRefuse? || m.Keepalive? || m.SessTerm? || m.MsgReject?
  }

  datatype Result = Lost | Handed(f: Framed, ends: bool)

  /** What the handler sees of a message it has decided so about. */
  function Seen(f: Framed, d: Decision): Framed { if Keeps(d) then f else f.(data := []) }

  /** f is what the stream holds from a position on. */
  ghost predicate At(stream: Octets, from: nat, segmentMru: nat, f: Framed) {
    from <= |stream| && f.Allowed(segmentMru) && f.Wire() <= stream[from..]
  }

  lemma AtParts(stream: Octets, from: nat, segmentMru: nat, f: Framed)
    requires At(stream, from, segmentMru, f)
    ensures Enc(f.m) <= stream[from..] && from + |Enc(f.m)| + |f.data| <= |stream|
    ensures Enc(f.m)[0] == stream[from]
  {
    DropHead(Enc(f.m), f.data, stream[from..]);
  }

  lemma Slices(s: Octets, a: nat, b: nat, c: nat)
    requires a <= b <= c <= |s|
    ensures s[a..b] + s[b..c] == s[a..c] && s[a..b] <= s[a..]
  {}

  /** drainOctets */
  method DrainOctets(r: Reading, len: nat) returns (ok: bool)
    requires r.Valid()
    modifies r, r.rxBuf
    ensures r.Valid()
    ensures ok ==> r.Given() == old(r.Given()) + len
    ensures !ok && r.Healthy() ==> |r.stream| < old(r.Given()) + len
  {
    var left := len;
    while left > 0
      invariant r.Valid() && 0 <= left <= len && r.Given() == old(r.Given()) + (len - left)
      decreases left
    {
      var chunk := if left > SCRATCH then SCRATCH else left;
      var n, _ := r.Recv(chunk);
      if n != chunk {
        return false;
      }
      left := left - chunk;
    }
    ok := true;
  }

  /** The type octets of messages without a variable-length part. */
  predicate FixedKind(k: Kind) { k.KXferAck? || k.KXferRefuse? || k.KSessTerm? || k.KMsgReject? }

  /** What follows the type octet is read at one go and handed to the codec. */
  method ReadFixed(r: Reading, k: Kind, segmentMru: nat, ghost from: nat, ghost f: Framed) returns (ok: bool, m: Msg)
    requires r.Valid() && FixedKind(k) && r.Given() == from + 1 <= |r.stream| && r.stream[from] == Tag(k)
    modifies r, r.rxBuf
    ensures r.Valid()
    ensures ok ==> r.Given() > from && IsKind(k, m)
    ensures At(r.stream, from, segmentMru, f) ==>
              (ok ==> m == f.m && r.Given() == from + |f.Wire()|) && (r.Healthy() ==> ok)
  {
    hide Enc, Decoded;
    m := Keepalive;
    var rest := FixedLength(k) - 1;
    if At(r.stream, from, segmentMru, f) {
      FixedAt(r.stream, from, segmentMru, f, k);
    }
    var n, got := r.Recv(rest);
    if n != rest {
      return false, m;
    }
    var buf := [Tag(k)] + got;
    assert r.stream[from..from + 1 + rest] == buf;
    n, m := DecodeFixed(k, buf);
    ok := n == |buf|;
    if At(r.stream, from, segmentMru, f) {
      WholeDecodes(k, f.m, buf, n, m);
    }
  }

  method DecodeFixed(k: Kind, buf: Octets) returns (n: int, m: Msg)
    requires FixedKind(k) && |buf| <= INT_MAX
    ensures Decoded(k, buf, n, m)
  {
    if k.KXferAck? {
      n, m := DecodeXferAck(buf);
    } else if k.KXferRefuse? {
      n, m := DecodeXferRefuse(buf);
    } else if k.KSessTerm? {
      n, m := DecodeSessTerm(buf);
    } else {
      n, m := DecodeMsgReject(buf);
    }
  }

  lemma FixedAt(stream: Octets, from: nat, segmentMru: nat, f: Framed, k: Kind)
    requires At(stream, from, segmentMru, f) && FixedKind(k) && stream[from] == Tag(k)
    ensures IsKind(k, f.m) && f.data == [] && |f.Wire()| == FixedLength(k)
    ensures from + FixedLength(k) <= |stream| && Enc(f.m) == stream[from..from + FixedLength(k)]
  {
    AtParts(stream, from, segmentMru, f);
    assert Enc(f.m) == stream[from..][..|Enc(f.m)|];
    assert stream[from..][..|Enc(f.m)|] == stream[from..from + |Enc(f.m)|];
  }

  lemma WholeDecodes(k: Kind, m: Msg, buf: Octets, n: int, got: Msg)
    requires IsKind(k, m) && m.WellFormed() && Enc(m) == buf && Decoded(k, buf, n, got)
    ensures n == |buf| && got == m
  {
    assert buf == Enc(m) + [];
    DecodeInvertsEncode(k, m, [], n, got);
  }

  /** The extension list of a START segment, with its length field. */
  method RecvExt(r: Reading, start: bool, segmentMru: nat, ghost from: nat, ghost f: Framed)
    returns (ok: bool, lead: Octets, ext: Octets)
    requires r.Valid() && r.Given() == from + 10 <= |r.stream|
    requires At(r.stream, from, segmentMru, f) ==> f.m.XferSegment? && IsStart(f.m.flags) == start
    requires At(r.stream, from, segmentMru, f) && start ==> from + 22 + |f.m.xferExt| <= |r.stream|
    modifies r, r.rxBuf
    ensures r.Valid()
    ensures ok ==> r.Given() == from + 10 + |lead| + |ext| && r.stream[from + 10..r.Given()] == lead + ext
                   && |ext| <= MAX_EXT_LEN && (if start then lead == BE32(|ext|) else lead == [] && ext == [])
    ensures At(r.stream, from, segmentMru, f) ==>
              (ok ==> |ext| == if start then |f.m.xferExt| else 0) && (r.Healthy() ==> ok)
  {
    hide Enc, BE32, Value;
    ok, lead, ext := true, [], [];
    if start {
      var n: int;
      n, lead := r.Recv(4);
      if n != 4 {
        return false, [], [];
      }
      ValueOf32(lead);
      var extLen := Value(lead);
      if At(r.stream, from, segmentMru, f) {
        SegmentExtIs(r.stream, from, segmentMru, f, extLen);
      }
      if extLen > MAX_EXT_LEN {
        return false, [], [];
      }
      if extLen > 0 {
        n, ext := r.Recv(extLen);
        if n != extLen {
          return false, [], [];
        }
      }
      Slices(r.stream, from + 10, from + 14, from + 14 + extLen);
    }
  }

  /** recvXferSegmentHdr */
  method RecvSegmentHdr(r: Reading, segmentMru: nat, ghost from: nat, ghost f: Framed) returns (ok: bool, m: Msg)
    requires r.Valid() && r.Given() == from + 1 <= |r.stream| && r.stream[from] == XFER_SEGMENT
    modifies r, r.rxBuf
    ensures r.Valid()
    ensures ok ==> r.Given() > from && m.XferSegment?
    ensures At(r.stream, from, segmentMru, f) ==>
              (ok ==> m == f.m && r.Given() == from + |Enc(f.m)|) && (r.Healthy() ==> ok)
  {
    hide Enc, Decoded;
    m := Keepalive;
    ghost var here := At(r.stream, from, segmentMru, f);
    if here {
      SegmentFits(r.stream, from, segmentMru, f);
    }
    hide Framed.Allowed, BE32;
    var n, head := r.Recv(9);
    if n != 9 {
      return false, m;
    }
    var buf := [XFER_SEGMENT] + head;
    assert r.stream[from..from + 10] == buf;
    var lead: Octets, ext: Octets;
    ok, lead, ext := RecvExt(r, IsStart(head[0]), segmentMru, from, f);
    if !ok {
      return;
    }
    ghost var before := r.Given();
    var tail: Octets;
    n, tail := r.Recv(8);
    if n != 8 {
      return false, m;
    }
    Slices(r.stream, from, from + 10, before);
    Slices(r.stream, from, before, before + 8);
    n, m := DecodeXferSegment(buf + (lead + ext) + tail);
    HeaderDecodes(head, lead, ext, tail, n, m);
    ok := n == 10 + |lead| + |ext| + 8;
    if here {
      HeaderIs(r.stream, from, segmentMru, f, r.Given(), m);
    }
  }

  /** The segment, if there is one, leaves room for every field that is read. */
  lemma SegmentFits(stream: Octets, from: nat, segmentMru: nat, f: Framed)
    requires At(stream, from, segmentMru, f) && stream[from] == XFER_SEGMENT
    ensures f.m.XferSegment? && from + |Enc(f.m)| + |f.data| <= |stream|
    ensures |Enc(f.m)| == if IsStart(f.m.flags) then 22 + |f.m.xferExt| else 18
    ensures stream[from + 1] == f.m.flags
  {
    AtParts(stream, from, segmentMru, f);
    SegmentParts(f.m, stream[from..]);
    assert stream[from..][1] == stream[from + 1];
  }

  lemma SegmentExtIs(stream: Octets, from: nat, segmentMru: nat, f: Framed, extLen: uint32)
    requires At(stream, from, segmentMru, f) && f.m.XferSegment? && IsStart(f.m.flags)
    requires from + 14 <= |stream| && stream[from + 10..from + 14] == BE32(extLen)
    ensures |f.m.xferExt| == extLen
  {
    AtParts(stream, from, segmentMru, f);
    SegmentParts(f.m, stream[from..]);
    assert stream[from..][10..14] == stream[from + 10..from + 14];
    BE32Injective(extLen, |f.m.xferExt|);
  }

  /** What has been read a field at a time always decodes, to the last octet. */
  lemma HeaderDecodes(head: Octets, lead: Octets, ext: Octets, tail: Octets, n: int, got: Msg)
    requires |head| == 9 && |tail| == 8 && |ext| <= MAX_EXT_LEN
    requires if IsStart(head[0]) then lead == BE32(|ext|) else lead == [] && ext == []
    requires Decoded(KXferSegment, [XFER_SEGMENT] + head + (lead + ext) + tail, n, got)
    ensures var buf := [XFER_SEGMENT] + head + (lead + ext) + tail;
            n == |buf| && got.XferSegment? && got.WellFormed() && Enc(got) == buf && |got.xferExt| <= MAX_EXT_LEN
  {
    var buf := [XFER_SEGMENT] + head + (lead + ext) + tail;
    ValueOf64(head[1..]);
    ValueOf64(tail);
    hide BE32, BE64, Value;
    var m := XferSegment(head[0], Value(head[1..]), ext, Value(tail));
    assert [XFER_SEGMENT] + [head[0]] + head[1..] == [XFER_SEGMENT] + head;
    assert Enc(m) == buf;
    hide Enc, Decoded;
    WholeDecodes(KXferSegment, m, buf, n, got);
  }

  lemma HeaderIs(stream: Octets, from: nat, segmentMru: nat, f: Framed, to: nat, m: Msg)
    requires At(stream, from, segmentMru, f) && from <= to <= |stream|
    requires m.WellFormed() && Enc(m) == stream[from..to]
    ensures m == f.m && to == from + |Enc(f.m)|
  {
    AtParts(stream, from, segmentMru, f);
    assert stream[from..][..to - from] == stream[from..to];
    PrefixFree(m, f.m, stream[from..]);
  }

  /** A segment: header, and whatever is done with the payload. */
  method ReadSegment(r: Reading, segmentMru: nat, decide: Msg -> Decision, ghost from: nat, ghost f: Framed)
    returns (res: Result)
    requires r.Valid() && r.Given() == from + 1 <= |r.stream| && r.stream[from] == XFER_SEGMENT
    modifies r, r.rxBuf
    ensures r.Valid()
    ensures res.Handed? ==> r.Given() > from && res.ends == Ends(decide(res.f.m)) && Admissible(res.f.m, segmentMru)
    ensures At(r.stream, from, segmentMru, f) ==>
              && (res.Handed? ==> res.f == Seen(f, decide(f.m)) && (!res.ends ==> r.Given() == from + |f.Wire()|))
              && (r.Healthy() ==> res.Handed?)
  {
    hide Enc;
    ghost var here := At(r.stream, from, segmentMru, f);
    if here {
      SegmentFits(r.stream, from, segmentMru, f);
    }
    var ok, m := RecvSegmentHdr(r, segmentMru, from, f);
    if !ok || m.dataLength > segmentMru {
      return Lost;
    }
    var decision := decide(m);
    if decision.Abort? {
      return Handed(Framed(m, []), true);
    }
    var data: Octets := [];
    if decision.Drain? {
      ok := DrainOctets(r, m.dataLength);
    } else if m.dataLength > 0 {
      var n: int;
      n, data := r.Recv(m.dataLength);
      ok := n == m.dataLength;
    }
    if !ok {
      return Lost;
    }
    if here {
      PayloadIs(r.stream, from, segmentMru, f);
    }
    res := Handed(Framed(m, data), decision.End?);
  }

  lemma PayloadIs(stream: Octets, from: nat, segmentMru: nat, f: Framed)
    requires At(stream, from, segmentMru, f)
    ensures var at := from + |Enc(f.m)|; at + |f.data| <= |stream| && stream[at..at + |f.data|] == f.data
  {
    hide Enc;
    LastPart(Enc(f.m), f.data, stream[from..]);
    SliceOfTail(stream, from, |Enc(f.m)|, |Enc(f.m)| + |f.data|);
  }

  /** One turn of the message loop. */
  method ReadMessage(r: Reading, segmentMru: nat, decide: Msg -> Decision, ghost f: Framed) returns (res: Result)
    requires r.Valid()
    modifies r, r.rxBuf
    ensures r.Valid()
    ensures res.Handed? ==>
              && r.Given() > old(r.Given()) && res.ends == Ends(decide(res.f.m)) && Admissible(res.f.m, segmentMru)
              && 1 <= r.stream[old(r.Given())] <= 6
    ensures At(r.stream, old(r.Given()), segmentMru, f) ==>
              && (res.Handed? ==> res.f == Seen(f, decide(f.m))
                                  && (!res.ends ==> r.Given() == old(r.Given()) + |f.Wire()|))
              && (r.Healthy() ==> res.Handed?)
  {
    hide Enc;
    ghost var from := r.Given();
    ghost var here := At(r.stream, from, segmentMru, f);
    if here {
      AtParts(r.stream, from, segmentMru, f);
      FirstOctet(f, segmentMru);
    }
    var n, got := r.Recv(1);
    if n != 1 {
      return Lost;
    }
    var t := got[0];
    assert t == r.stream[from];
    if t == XFER_SEGMENT {
      res := ReadSegment(r, segmentMru, decide, from, f);
    } else if t == KEEPALIVE {
      res := Handed(Framed(Keepalive, []), Ends(decide(Keepalive)));
    } else if t == XFER_ACK || t == XFER_REFUSE || t == SESS_TERM || t == MSG_REJECT {
      var k := if t == XFER_ACK then KXferAck else if t == XFER_REFUSE then KXferRefuse
               else if t == SESS_TERM then KSessTerm else KMsgReject;
      var ok, m := ReadFixed(r, k, segmentMru, from, f);
      res := if ok then Handed(Framed(m, []), Ends(decide(m))) else Lost;
    } else {
      res := Lost; // SESS_INIT and unknown types: rejected, and the session ends
    }
  }

  lemma FirstOctet(f: Framed, segmentMru: nat)
    requires f.Allowed(segmentMru)
    ensures var t := Enc(f.m)[0];
            && t in {XFER_SEGMENT, KEEPALIVE, XFER_ACK, XFER_REFUSE, SESS_TERM, MSG_REJECT}
            && (t == KEEPALIVE ==> f.m == Keepalive && |f.Wire()| == 1)
            && (t != XFER_SEGMENT ==> f.data == [])
  {}

  ghost function WireOf(ms: seq<Framed>): Octets
    requires forall k :: 0 <= k < |ms| ==> ms[k].m.WellFormed()
  {
    if ms == [] then [] else ms[0].Wire() + WireOf(ms[1..])
  }

  ghost predicate AllAllowed(ms: seq<Framed>, segmentMru: nat) {
    forall k :: 0 <= k < |ms| ==> ms[k].Allowed(segmentMru)
  }

  lemma {:induction false} WireOfSplit(ms: seq<Framed>, i: nat)
    requires (forall k :: 0 <= k < |ms| ==> ms[k].m.WellFormed()) && i < |ms|
    ensures WireOf(ms) == WireOf(ms[..i]) + (ms[i].Wire() + WireOf(ms[i + 1..]))
    ensures WireOf(ms[..i + 1]) == WireOf(ms[..i]) + ms[i].Wire()
    decreases |ms|
  {
    hide Enc;
    if i == 0 {
      assert ms[..1] == [ms[0]] && ms[..0] == [] && [ms[0]][1..] == [];
    } else {
      WireOfSplit(ms[1..], i - 1);
      assert ms[1..][..i - 1] == ms[..i][1..] && ms[1..][..i] == ms[..i + 1][1..];
      assert ms[1..][i..] == ms[i + 1..];
    }
  }

  /** Where the i-th message begins. */
  ghost function StartOf(ms: seq<Framed>, i: nat): nat
    requires (forall k :: 0 <= k < |ms| ==> ms[k].m.WellFormed()) && i <= |ms|
  {
    |WireOf(ms[..i])|
  }

  lemma MessageAt(stream: Octets, from: nat, segmentMru: nat, ms: seq<Framed>, i: nat)
    requires AllAllowed(ms, segmentMru) && i < |ms| && from <= |stream| && WireOf(ms) <= stream[from..]
    ensures At(stream, from + StartOf(ms, i), segmentMru, ms[i])
    ensures StartOf(ms, i + 1) == StartOf(ms, i) + |ms[i].Wire()|
  {
    hide Enc, Framed.Wire;
    WireOfSplit(ms, i);
    var head, w, rest := WireOf(ms[..i]), ms[i].Wire(), WireOf(ms[i + 1..]);
    hide WireOf, Framed.Allowed;
    DropHead(head, w + rest, stream[from..]);
    TailOfTail(stream, from, |head|);
    DropHead(w, rest, stream[from + |head|..]);
  }

  lemma TailOfTail<T>(s: seq<T>, a: nat, b: nat)
    requires a + b <= |s|
    ensures s[a..][b..] == s[a + b..]
  {}

  /** What the handlers are to be given of these messages. */
  ghost predicate Agrees(handed: seq<Framed>, ms: seq<Framed>, decide: (nat, Msg) -> Decision) {
    forall k :: 0 <= k < |handed| && k < |ms| ==> handed[k] == Seen(ms[k], decide(k, ms[k].m))
  }

  /** The message loop. Let the stream hold these messages next, each within the limits of
      the session. Whatever the handlers decide, and in whatever pieces the stream arrives,
      they are handed exactly these messages and the payloads they keep, in order, up to the
      first that ends the session or to a failure of the stream. */
  method MessageLoop(r: Reading, segmentMru: nat, decide: (nat, Msg) -> Decision, ghost ms: seq<Framed>)
    returns (handed: seq<Framed>)
    requires r.Valid() && AllAllowed(ms, segmentMru) && WireOf(ms) <= r.stream[r.Given()..]
    modifies r, r.rxBuf
    ensures r.Valid()
    ensures Agrees(handed, ms, decide)
    ensures forall k :: 0 <= k < |handed| - 1 ==> !Ends(decide(k, handed[k].m))
    ensures forall k :: 0 <= k < |handed| ==> Admissible(handed[k].m, segmentMru)
    ensures r.Healthy() ==>
              |handed| >= |ms| || (handed != [] && Ends(decide(|handed| - 1, handed[|handed| - 1].m)))
  {
    hide Enc, WireOf, At, Framed.Wire, Admissible, Ends, Seen;
    r.StartBuffering();
    handed := [];
    ghost var from := r.Given();
    assert StartOf(ms, 0) == 0 by { WireOfNone(ms); }
    while true
      invariant r.Valid() && Agrees(handed, ms, decide)
      invariant forall k :: 0 <= k < |handed| ==> !Ends(decide(k, handed[k].m)) && Admissible(handed[k].m, segmentMru)
      invariant |handed| <= |ms| ==> r.Given() == from + StartOf(ms, |handed|)
      decreases |r.stream| - r.Given()
    {
      ghost var f := Framed(Keepalive, []);
      if |handed| < |ms| {
        MessageAt(r.stream, from, segmentMru, ms, |handed|);
        f := ms[|handed|];
      }
      var i := |handed|;
      var res := ReadMessage(r, segmentMru, m => decide(i, m), f);
      if res.Lost? {
        return;
      }
      handed := handed + [res.f];
      if res.ends {
        return;
      }
    }
  }

  lemma WireOfNone(ms: seq<Framed>)
    requires forall k :: 0 <= k < |ms| ==> ms[k].m.WellFormed()
    ensures StartOf(ms, 0) == 0
  {
    assert ms[..0] == [];
  }
}
