/** The unreliable path as the session runs it: the sender makes one datagram a segment, and
    the receiver keeps a buffer, a bitmap of the segments seen, and their count. */
module QuicDgConn {
  import opened Octets
  import opened Wire
  import opened Options
  import opened QuicMsg
  import opened QuicStream
  import opened QuicDatagram
  import opened QuicConn

  /** The bit of one byte of the bitmap. */
  function Mask(k: nat): bv8
    requires k < 8
  {
    if k == 0 then 1 else if k == 1 then 2 else if k == 2 then 4 else if k == 3 then 8
    else if k == 4 then 16 else if k == 5 then 32 else if k == 6 then 64 else 128
  }

  predicate Bit(b: bv8, k: nat)
    requires k < 8
  {
    b & Mask(k) != 0
  }

  /** Setting one bit sets that one only. */
  lemma SetBit(b: bv8, j: nat, k: nat)
    requires j < 8 && k < 8
    ensures Bit(b | Mask(j), k) <==> j == k || Bit(b, k)
  {}

  lemma NoBits(k: nat)
    requires k < 8
    ensures !Bit(0, k)
  {}

  function FirstCap(cap: nat): nat { if cap == 0 then BUFSZ else cap }

  class DgRx {
    const accepts: nat -> bool // what the callback says to the n-th bundle
    var dgRxBuf: array<uint8>
    var dgRxSeen: array<bv8>
    var dgRxActive: bool
    var dgRxId: nat
    var dgRxTotal: nat
    var dgRxCount: nat
    var dgRxBundleLen: nat
    var handed: seq<Octets>
    ghost var accepted: seq<Placed>

    predicate SeenAt(i: nat)
      requires i / 8 < dgRxSeen.Length
      reads this, dgRxSeen
    {
      Bit(dgRxSeen[i / 8], i % 8)
    }

    /** The bitmap marks exactly the segments accepted since the reset. */
    ghost predicate Marked(ids: set<nat>)
      reads this, dgRxSeen
    {
      && 0 < dgRxTotal <= 8 * dgRxSeen.Length
      && (forall i :: 0 <= i < dgRxTotal ==> (SeenAt(i) <==> i in ids))
      && (forall i :: i in ids ==> i < dgRxTotal)
      && dgRxCount == |ids|
    }

    /** The buffer holds what they paint. */
    ghost predicate Painted()
      reads this, dgRxBuf
    {
      dgRxBundleLen <= dgRxBuf.Length && dgRxBuf[..dgRxBundleLen] == Paint(dgRxBundleLen, accepted)
    }

    ghost predicate Valid()
      reads this, dgRxBuf, dgRxSeen
    {
      && (dgRxBuf as object) != (dgRxSeen as object)
      && (dgRxBuf.Length == 0 || dgRxBuf.Length == BUFSZ)
      && (dgRxActive ==> Marked(Ids(accepted)) && Painted())
    }

    ghost function Abs(): Dg
      reads this
    {
      Dg(dgRxActive, dgRxId, dgRxTotal, dgRxBundleLen, dgRxBuf.Length, accepted)
    }

    constructor (accepts: nat -> bool)
      ensures Valid() && Abs() == INITIAL && handed == []
    {
      this.accepts := accepts;
      dgRxBuf, dgRxSeen := new uint8[0], new bv8[0];
      dgRxActive, dgRxId, dgRxTotal, dgRxCount, dgRxBundleLen := false, 0, 0, 0, 0;
      handed, accepted := [], [];
    }

    /** The payload area is zeroed, in a new buffer if the old one is too small. */
    method ClearBuffer(bundleLen: nat)
      requires Valid() && bundleLen <= BUFSZ && dgRxBundleLen == bundleLen && accepted == []
      modifies this`dgRxBuf, dgRxBuf
      ensures Painted() && dgRxBuf.Length == if bundleLen > old(dgRxBuf.Length) then BUFSZ else old(dgRxBuf.Length)
      ensures dgRxBuf == old(dgRxBuf) || fresh(dgRxBuf)
    {
      if bundleLen > dgRxBuf.Length {
        var newCap := Doubled(FirstCap(dgRxBuf.Length), bundleLen);
        dgRxBuf := new uint8[newCap];
      }
      forall i | 0 <= i < bundleLen {
        dgRxBuf[i] := 0;
      }
      assert dgRxBuf[..bundleLen] == Paint(bundleLen, []);
    }

    method ClearBitmap()
      requires 0 < dgRxTotal && dgRxCount == 0
      modifies this`dgRxSeen, dgRxSeen
      ensures Marked({})
      ensures dgRxSeen == old(dgRxSeen) || fresh(dgRxSeen)
    {
      var seenBytes := (dgRxTotal + 7) / 8;
      if seenBytes > dgRxSeen.Length {
        dgRxSeen := new bv8[seenBytes];
      }
      forall i | 0 <= i < seenBytes {
        dgRxSeen[i] := 0;
      }
      forall i: nat | i < dgRxTotal ensures !SeenAt(i) {
        NoBits(i % 8);
      }
    }

    /** The first segment seen of a transfer: the buffer and the bitmap are sized and cleared. */
    method Reset(h: Msg)
      requires Valid() && h.XferSegment? && !Implausible(h)
      modifies this, dgRxBuf, dgRxSeen
      ensures Valid() && dgRxActive
      ensures Abs() == Dg(true, h.transferId, h.totalSegments, h.bundleLength,
                          if h.bundleLength > old(dgRxBuf.Length) then BUFSZ else old(dgRxBuf.Length), [])
      ensures handed == old(handed)
      ensures (dgRxBuf == old(dgRxBuf) || fresh(dgRxBuf)) && (dgRxSeen == old(dgRxSeen) || fresh(dgRxSeen))
    {
      hide Paint;
      dgRxActive := false;
      dgRxId, dgRxTotal, dgRxCount := h.transferId, h.totalSegments, 0;
      dgRxBundleLen := h.bundleLength;
      accepted := [];
      ClearBuffer(h.bundleLength);
      ClearBitmap();
      assert Ids(accepted) == {};
      dgRxActive := true;
    }

    /** An accepted segment's octets go to their place in the buffer. */
    method Store(off: nat, data: Octets)
      requires Valid() && off + |data| <= dgRxBuf.Length && dgRxBundleLen <= dgRxBuf.Length
      modifies dgRxBuf
      ensures dgRxBuf[..dgRxBundleLen] == Overlay(old(dgRxBuf[..dgRxBundleLen]), off, data)
    {
      ghost var painted := dgRxBuf[..dgRxBundleLen];
      forall i | 0 <= i < |data| {
        dgRxBuf[off + i] := data[i];
      }
      assert dgRxBuf[..dgRxBundleLen] == Overlay(painted, off, data);
    }

    /** Only the first arrival of a segment is counted. */
    method Mark(id: nat, ghost ids: set<nat>)
      requires Marked(ids) && id < dgRxTotal
      modifies this`dgRxCount, dgRxSeen
      ensures Marked(ids + {id})
    {
      hide Bit;
      BitIsMask(dgRxSeen[id / 8], id % 8);
      if dgRxSeen[id / 8] & Mask(id % 8) == 0 {
        assert !SeenAt(id);
        SetSeen(id);
        dgRxCount := dgRxCount + 1;
      } else {
        assert SeenAt(id);
        assert ids + {id} == ids;
      }
    }

    method SetSeen(id: nat)
      requires id < 8 * dgRxSeen.Length
      modifies dgRxSeen
      ensures forall i: nat :: i < 8 * dgRxSeen.Length ==> (SeenAt(i) <==> i == id || old(SeenAt(i)))
    {
      hide Bit;
      var byteIdx := id / 8;
      ghost var before := dgRxSeen[byteIdx];
      dgRxSeen[byteIdx] := dgRxSeen[byteIdx] | Mask(id % 8);
      forall i: nat | i < 8 * dgRxSeen.Length ensures SeenAt(i) <==> i == id || old(SeenAt(i)) {
        SetBit(before, id % 8, i % 8);
      }
    }

    method Place(id: nat, off: nat, data: Octets)
      requires Valid() && dgRxActive && id < dgRxTotal && off + |data| <= dgRxBuf.Length
      modifies this`accepted, this`dgRxCount, dgRxBuf, dgRxSeen
      ensures Valid()
      ensures accepted == old(accepted) + [Placed(id, off, data)]
    {
      hide Paint, Overlay;
      PlacedSnoc(accepted, Placed(id, off, data), dgRxBundleLen);
      Store(off, data);
      Mark(id, Ids(accepted));
      accepted := accepted + [Placed(id, off, data)];
    }

    /** The part of dgReassemble behind the reset. */
    method Settle(h: Msg, data: Octets) returns (ok: bool)
      requires Valid() && h.XferSegment? && h.segmentLength == |data| && !Implausible(h)
      requires dgRxActive && Offset(h) + |data| < 0x8000_0000
      modifies this, dgRxBuf, dgRxSeen
      ensures Valid()
      ensures var (st, out) := Land(old(Abs()), h, data);
              && Abs() == st && handed == old(handed) + (if out.Some? then [out.value] else [])
              && ok == (out.None? || accepts(|old(handed)|))
    {
      hide Paint, Marked, Offset, Ids;
      ok := true;
      if h.segmentId >= dgRxTotal {
        return;
      }
      var offset := Offset(h);
      if offset < 0 || offset + h.segmentLength > dgRxBuf.Length {
        return;
      }
      Place(h.segmentId, offset, data);
      CountIsIds();
      if dgRxCount == dgRxTotal {
        dgRxActive := false;
        ok := accepts(|handed|);
        handed := handed + [dgRxBuf[..dgRxBundleLen]];
      }
    }

    /** dgReassemble, for any segment whose end an int can hold. */
    method DgReassemble(h: Msg, data: Octets) returns (ok: bool)
      requires Valid() && h.XferSegment? && h.segmentLength == |data|
      requires Implausible(h) || Offset(h) + |data| < 0x8000_0000
      modifies this, dgRxBuf, dgRxSeen
      ensures Valid()
      ensures var (st, out) := Step(old(Abs()), h, data);
              && Abs() == st && handed == old(handed) + (if out.Some? then [out.value] else [])
              && ok == (out.None? || accepts(|old(handed)|))
    {
      hide Land, Marked, Painted, Offset;
      ok := true;
      if Implausible(h) {
        return;
      }
      if IsStart(h.flags) || !dgRxActive || h.transferId != dgRxId {
        Reset(h);
      }
      assert Abs() == Renewed(old(Abs()), h);
      ok := Settle(h, data);
    }

    lemma CountIsIds()
      requires Valid() && dgRxActive
      ensures dgRxCount == |Ids(accepted)|
      ensures dgRxBundleLen <= dgRxBuf.Length && dgRxBuf[..dgRxBundleLen] == Paint(dgRxBundleLen, accepted)
    {}

    /** recvDatagramCb: malformed and incomplete datagrams are dropped. */
    method RecvDatagram(data: Octets) returns (ok: bool)
      requires Valid() && |data| <= DG_FRAME_MAX
      modifies this, dgRxBuf, dgRxSeen
      ensures Valid()
      ensures match DatagramFrame(data)
              case Some(f) =>
                var (st, out) := Step(old(Abs()), f.hdr, f.data);
                && Abs() == st && handed == old(handed) + (if out.Some? then [out.value] else [])
                && ok == (out.None? || accepts(|old(handed)|))
              case None => Abs() == old(Abs()) && handed == old(handed) && ok
    {
      hide Enc, Step, Decoded, DatagramFrame;
      ok := true;
      var hdr, seg := DecodeXferSegmentHdr(data);
      DecodedDatagram(data, hdr, seg);
      if hdr <= 0 || |data| - hdr < seg.segmentLength {
        return;
      }
      EndIsSmall(seg);
      ok := DgReassemble(seg, data[hdr..hdr + seg.segmentLength]);
    }
  }

  lemma BitIsMask(b: bv8, k: nat)
    requires k < 8
    ensures Bit(b, k) <==> b & Mask(k) != 0
  {}

  lemma PlacedSnoc(accepted: seq<Placed>, p: Placed, len: nat)
    ensures Ids(accepted + [p]) == Ids(accepted) + {p.id}
    ensures Paint(len, accepted + [p]) == Overlay(Paint(len, accepted), p.off, p.data)
  {
    assert (accepted + [p])[..|accepted|] == accepted;
    assert forall x :: x in accepted + [p] <==> x in accepted || x == p;
  }

  // ---- What a datagram carries ---------------------------------------------------------------

  /** data begins with this segment, header and payload. */
  ghost predicate Carries(data: Octets, f: Frame) {
    f.Seg? && f.hdr.XferSegment? && f.hdr.WellFormed() && f.hdr.segmentLength == |f.data|
    && Enc(f.hdr) + f.data <= data
  }

  ghost function DatagramFrame(data: Octets): (r: Option<Frame>)
    ensures r.Some? ==> Carries(data, r.value)
  {
    if exists f :: Carries(data, f) then
      var f :| Carries(data, f);
      Some(f)
    else None
  }

  lemma CarriesOne(data: Octets, f: Frame, g: Frame)
    requires Carries(data, f) && Carries(data, g)
    ensures f == g
  {
    assert Enc(f.hdr) <= data by { DropHead(Enc(f.hdr), f.data, data); }
    assert Enc(g.hdr) <= data by { DropHead(Enc(g.hdr), g.data, data); }
    PrefixFree(f.hdr, g.hdr, data);
    hide Enc;
    SamePrefix(Enc(f.hdr) + f.data, Enc(f.hdr) + g.data, data);
    assert f.data == (Enc(f.hdr) + f.data)[|Enc(f.hdr)|..];
    assert g.data == (Enc(f.hdr) + g.data)[|Enc(f.hdr)|..];
  }

  lemma DecodedDatagram(data: Octets, n: int, m: Msg)
    requires Decoded(KXferSegment, data, n, m)
    ensures n > 0 ==> m.XferSegment? && n <= |data|
    ensures DatagramFrame(data)
            == if n <= 0 || |data| - n < m.segmentLength then None
               else Some(Seg(m, data[n..n + m.segmentLength]))
  {
    if n > 0 && |data| - n >= m.segmentLength {
      var f := Seg(m, data[n..n + m.segmentLength]);
      assert Enc(m) + f.data == data[..n + m.segmentLength];
      assert Carries(data, f);
      hide Enc;
      CarriesOne(data, f, DatagramFrame(data).value);
    } else if exists g :: Carries(data, g) {
      var g :| Carries(data, g);
      assert Enc(g.hdr) <= data by { DropHead(Enc(g.hdr), g.data, data); }
      if n > 0 {
        PrefixFree(g.hdr, m, data);
      }
    }
  }

  // ---- Sending -----------------------------------------------------------------------------------

  /** quicClientSendDatagram: one node of the send queue a segment. */
  method SendDatagrams(bundle: Octets, txid: uint64) returns (nodes: seq<Octets>)
    requires |bundle| <= BUFSZ
    ensures |nodes| == SegCount(|bundle|)
    ensures forall k :: 0 <= k < |nodes| ==> DatagramFrame(nodes[k]) == Some(DgSegment(bundle, txid, k))
    ensures forall k :: 0 <= k < |nodes| ==> |nodes[k]| <= DG_FRAME_MAX
  {
    hide Enc, DatagramFrame;
    var nSeg := SegCount(|bundle|);
    var remaining, i := |bundle|, 0;
    nodes := [];
    while i < nSeg
      invariant i <= nSeg && |nodes| == i && remaining == |bundle| - SegStart(|bundle|, i)
      invariant forall k :: 0 <= k < i ==> DatagramFrame(nodes[k]) == Some(DgSegment(bundle, txid, k))
      invariant forall k :: 0 <= k < i ==> |nodes[k]| <= DG_FRAME_MAX
    {
      var thisLen := if remaining > DG_SEG then DG_SEG else remaining;
      var from := |bundle| - remaining;
      var seg := XferSegment((if i == 0 then 0x02 else 0) + (if i == nSeg - 1 then 0x01 else 0),
                             i, nSeg, txid, [], thisLen, |bundle|, SVC_UNRELIABLE);
      SegmentFacts(bundle, txid, i);
      assert DgSegment(bundle, txid, i) == Seg(seg, bundle[from..from + thisLen]);
      var node := MakeNode(seg, bundle[from..from + thisLen]);
      nodes := nodes + [node];
      remaining := remaining - thisLen;
      i := i + 1;
    }
  }

  method MakeNode(seg: Msg, data: Octets) returns (node: Octets)
    requires Seg(seg, data).Valid() && seg.xferExt == []
    ensures DatagramFrame(node) == Some(Seg(seg, data)) && |node| == |Enc(seg)| + |data|
  {
    HeaderFits(seg);
    hide Enc, DatagramFrame;
    var buf := new uint8[HDR_MAX + |data|];
    var len := PutSegment(buf, 0, seg, data);
    node := buf[..len];
    assert node == Enc(seg) + data;
    CarriedIsFound(seg, data);
  }

  lemma CarriedIsFound(seg: Msg, data: Octets)
    requires Seg(seg, data).Valid()
    ensures DatagramFrame(Enc(seg) + data) == Some(Seg(seg, data))
  {
    var node := Enc(seg) + data;
    assert Carries(node, Seg(seg, data));
    hide Enc;
    CarriesOne(node, Seg(seg, data), DatagramFrame(node).value);
  }

  lemma HeaderFits(seg: Msg)
    requires seg.XferSegment? && seg.xferExt == []
    ensures |Enc(seg)| <= 35
  {}
}
