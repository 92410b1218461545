/** A bufferful on its way to the wire: it is cut at the Segment MTU, and up to sixteen
    segments, each its header and its octets, go out in one write. */
module Tcpv4TxWire {
  import opened Octets
  import opened Wire
  import opened Tcpv4Msg
  import opened Tcpv4Ext
  import opened Tcpv4Receive
  import opened Tcpv4Tx
  import opened Tcpv4Io
  import opened Tcpv4Loop

  const TX_SEGS_PER_WRITE := 16
  const XFEREXT_LENGTH_LEN := 13
  const HDR_SIZE := 32 + XFEREXT_LENGTH_LEN

  /** The segments of a bufferful that ends at `end`, as the machine cuts them one by one. */
  function Cuts(cfg: TxConfig, id: uint64, bundle: Octets, off: nat, end: nat): seq<Segment>
    requires cfg.segmentMtu >= 1 && |bundle| < 0x1_0000_0000_0000_0000
    decreases end - off
  {
    if off >= end || off >= |bundle| || BufferEnd(off, |bundle|) != end then []
    else
      var seg := CutSegment(cfg, id, bundle, off);
      if |seg.data| == 0 then [] else [seg] + Cuts(cfg, id, bundle, off + |seg.data|, end)
  }

  /** Inside a bufferful every offset leads to the same end. */
  lemma SameEnd(off: nat, next: nat, length: nat)
    requires off <= next < BufferEnd(off, length)
    ensures BufferEnd(next, length) == BufferEnd(off, length)
  {
    var q := off / TXBUF_SIZE;
    assert next / TXBUF_SIZE == q by {
      assert q * TXBUF_SIZE <= next < (q + 1) * TXBUF_SIZE;
    }
  }

  /** The segments carry the bufferful's octets, in order. */
  lemma {:induction false} CutsCarryAll(cfg: TxConfig, id: uint64, bundle: Octets, off: nat, end: nat)
    requires cfg.segmentMtu >= 1 && |bundle| < 0x1_0000_0000_0000_0000
    requires off < |bundle| && end == BufferEnd(off, |bundle|)
    ensures off < end <= |bundle| && CarriedBy(Cuts(cfg, id, bundle, off, end)) == bundle[off..end]
    decreases end - off
  {
    BufferEndAhead(off, |bundle|);
    var seg := CutSegment(cfg, id, bundle, off);
    var next := off + |seg.data|;
    var rest := Cuts(cfg, id, bundle, next, end);
    CutFacts(cfg, id, bundle, off);
    assert Cuts(cfg, id, bundle, off, end) == [seg] + rest;
    hide CutSegment, BufferEnd, Cuts;
    assert ([seg] + rest)[1..] == rest;
    if next < end {
      SameEnd(off, next, |bundle|);
      CutsCarryAll(cfg, id, bundle, next, end);
      assert bundle[off..next] + bundle[next..end] == bundle[off..end];
    }
  }

  lemma CutFacts(cfg: TxConfig, id: uint64, bundle: Octets, off: nat)
    requires cfg.segmentMtu >= 1 && off < |bundle| < 0x1_0000_0000_0000_0000
    ensures var seg := CutSegment(cfg, id, bundle, off);
            && 0 < |seg.data| && off + |seg.data| <= BufferEnd(off, |bundle|) <= |bundle|
            && seg.data == bundle[off..off + |seg.data|]
  {
    hide LengthExt;
    BufferEndAhead(off, |bundle|);
  }

  /** A segment is as long as it may be: it stops only at the Segment MTU, at the end of the 64 KiB
      that are read at a time, or at the end of the bundle. */
  lemma CutIsLongest(cfg: TxConfig, id: uint64, bundle: Octets, off: nat)
    requires cfg.segmentMtu >= 1 && off < |bundle| < 0x1_0000_0000_0000_0000
    ensures var n := |CutSegment(cfg, id, bundle, off).data|;
            && 0 < n <= cfg.segmentMtu && off + n <= |bundle| && off / 65536 == (off + n - 1) / 65536
            && (n == cfg.segmentMtu || (off + n) % 65536 == 0 || off + n == |bundle|)
  {
    CutFacts(cfg, id, bundle, off);
    BufferEndAhead(off, |bundle|);
    var n, q := |CutSegment(cfg, id, bundle, off).data|, off / 65536;
    assert q * 65536 <= off && off + n - 1 < (q + 1) * 65536;
    assert (off + n - 1) / 65536 == q;
    hide LengthExt;
  }

  function CarriedBy(segs: seq<Segment>): Octets {
    if segs == [] then [] else segs[0].data + CarriedBy(segs[1..])
  }

  /** The extension of a START segment: its buffer is just large enough. */
  method LengthItem(length: uint64) returns (ext: Octets)
    ensures ext == LengthExt(length)
  {
    var buf := new uint8[XFEREXT_LENGTH_LEN];
    var n := EncodeXferLengthExt(buf, XFEREXT_LENGTH_LEN, length);
    ext := buf[..n];
  }

  /** One turn of the loop of sendSegments. */
  method NextSegment(cfg: TxConfig, id: uint64, bundle: Octets, at: nat, end: nat) returns (seg: Segment)
    requires cfg.segmentMtu >= 1 && at < |bundle| < 0x1_0000_0000_0000_0000
    requires at < end && BufferEnd(at, |bundle|) == end
    ensures 0 < |seg.data| && at + |seg.data| <= end
    ensures at + |seg.data| < end ==> BufferEnd(at + |seg.data|, |bundle|) == end
    ensures Cuts(cfg, id, bundle, at, end) == [seg] + Cuts(cfg, id, bundle, at + |seg.data|, end)
  {
    BufferEndAhead(at, |bundle|);
    var chunk := if end - at > cfg.segmentMtu then cfg.segmentMtu else end - at;
    var flags := 0;
    var ext: Octets := [];
    if at == 0 {
      flags := 0x02;
      ext := LengthItem(|bundle|);
    }
    if at + chunk == |bundle| {
      flags := flags + 0x01;
    }
    seg := Segment(flags, id, ext, bundle[at..at + chunk]);
    assert seg == CutSegment(cfg, id, bundle, at) by {
      hide LengthExt;
    }
    if at + chunk < end {
      SameEnd(at, at + chunk, |bundle|);
    }
  }

  lemma NoMoreCuts(cfg: TxConfig, id: uint64, bundle: Octets, end: nat)
    requires cfg.segmentMtu >= 1 && |bundle| < 0x1_0000_0000_0000_0000
    ensures Cuts(cfg, id, bundle, end, end) == []
  {}

  // ---- On the wire -----------------------------------------------------------------------------

  /** Segments as the sender makes them. */
  predicate Sendable(seg: Segment) {
    |seg.data| < 0x1_0000_0000_0000_0000 && |seg.ext| <= XFEREXT_LENGTH_LEN && (!seg.Start() ==> seg.ext == [])
  }

  function FrameOf(seg: Segment): (f: Framed)
    requires Sendable(seg)
    ensures f.m.XferSegment? && f.m.WellFormed()
  {
    Framed(XferSegment(seg.flags, seg.id, seg.ext, |seg.data|), seg.data)
  }

  function FramesOf(segs: seq<Segment>): (fs: seq<Framed>)
    requires forall k :: 0 <= k < |segs| ==> Sendable(segs[k])
    ensures |fs| == |segs| && forall k :: 0 <= k < |segs| ==> fs[k] == FrameOf(segs[k])
  {
    seq(|segs|, k requires 0 <= k < |segs| => FrameOf(segs[k]))
  }

  /** The octets of these segments. */
  ghost function Wired(segs: seq<Segment>): Octets
    requires forall k :: 0 <= k < |segs| ==> Sendable(segs[k])
  {
    WireOf(FramesOf(segs))
  }

  lemma WiredFirst(seg: Segment, rest: seq<Segment>)
    requires Sendable(seg) && forall k :: 0 <= k < |rest| ==> Sendable(rest[k])
    ensures Wired([seg] + rest) == FrameOf(seg).Wire() + Wired(rest)
  {
    assert FramesOf([seg] + rest)[1..] == FramesOf(rest);
  }

  lemma {:induction false} CutsSendable(cfg: TxConfig, id: uint64, bundle: Octets, off: nat, end: nat)
    requires cfg.segmentMtu >= 1 && |bundle| < 0x1_0000_0000_0000_0000
    ensures forall k :: 0 <= k < |Cuts(cfg, id, bundle, off, end)| ==> Sendable(Cuts(cfg, id, bundle, off, end)[k])
    decreases end - off
  {
    if off < end && off < |bundle| && BufferEnd(off, |bundle|) == end {
      var seg := CutSegment(cfg, id, bundle, off);
      CutFacts(cfg, id, bundle, off);
      CutSendable(cfg, id, bundle, off);
      CutsSendable(cfg, id, bundle, off + |seg.data|, end);
    }
  }

  lemma CutSendable(cfg: TxConfig, id: uint64, bundle: Octets, off: nat)
    requires cfg.segmentMtu >= 1 && off < |bundle| < 0x1_0000_0000_0000_0000
    ensures Sendable(CutSegment(cfg, id, bundle, off))
  {
    BufferEndAhead(off, |bundle|);
  }

  /** The header of a segment: its buffer is always large enough. */
  method Header(seg: Segment) returns (hdr: Octets)
    requires Sendable(seg)
    ensures hdr == Enc(FrameOf(seg).m)
  {
    var buf := new uint8[HDR_SIZE];
    var m := FrameOf(seg).m;
    var n := EncodeXferSegment(buf, HDR_SIZE, m);
    HeaderFits(m);
    hdr := buf[..n];
  }

  lemma HeaderFits(m: Msg)
    requires m.XferSegment? && m.WellFormed() && |m.xferExt| <= XFEREXT_LENGTH_LEN
    ensures |Enc(m)| <= HDR_SIZE
  {}

  /** The octets of what is left of a bufferful. */
  ghost function CutsWire(cfg: TxConfig, id: uint64, bundle: Octets, off: nat, end: nat): Octets
    requires cfg.segmentMtu >= 1 && |bundle| < 0x1_0000_0000_0000_0000
  {
    CutsSendable(cfg, id, bundle, off, end);
    Wired(Cuts(cfg, id, bundle, off, end))
  }

  lemma CutsWireStep(cfg: TxConfig, id: uint64, bundle: Octets, off: nat, end: nat, seg: Segment)
    requires cfg.segmentMtu >= 1 && |bundle| < 0x1_0000_0000_0000_0000
    requires Cuts(cfg, id, bundle, off, end) == [seg] + Cuts(cfg, id, bundle, off + |seg.data|, end)
    ensures Sendable(seg)
    ensures CutsWire(cfg, id, bundle, off, end)
            == FrameOf(seg).Wire() + CutsWire(cfg, id, bundle, off + |seg.data|, end)
  {
    hide Cuts, Sendable, Wired, FrameOf;
    CutsSendable(cfg, id, bundle, off, end);
    CutsSendable(cfg, id, bundle, off + |seg.data|, end);
    assert Cuts(cfg, id, bundle, off, end)[0] == seg;
    WiredFirst(seg, Cuts(cfg, id, bundle, off + |seg.data|, end));
  }

  lemma NothingLeft(cfg: TxConfig, id: uint64, bundle: Octets, end: nat)
    requires cfg.segmentMtu >= 1 && |bundle| < 0x1_0000_0000_0000_0000
    ensures CutsWire(cfg, id, bundle, end, end) == []
  {
    NoMoreCuts(cfg, id, bundle, end);
  }

  /** The header and the octets of a segment take the next two places of the vector. */
  method AddSegment(iov: array<Octets>, used: nat, seg: Segment)
    requires Sendable(seg) && used + 2 <= iov.Length
    modifies iov
    ensures Concat(iov[..used + 2]) == old(Concat(iov[..used])) + FrameOf(seg).Wire()
  {
    hide Enc;
    ghost var before := iov[..used];
    var hdr := Header(seg);
    iov[used] := hdr;
    iov[used + 1] := seg.data;
    assert iov[..used + 2] == (before + [hdr]) + [seg.data];
    ConcatSnoc(before + [hdr], seg.data);
    ConcatSnoc(before, hdr);
    Associate3(Concat(before), hdr, seg.data);
  }

  lemma FirstPartOnly<T>(out: seq<T>, part: seq<T>, rest: seq<T>, all: seq<T>, now: seq<T>)
    requires out + (part + rest) == all && now <= out + part
    ensures now <= all && (out + part) + rest == all
  {
    Associate3(out, part, rest);
  }

  /** One more segment takes its place on the vector. */
  method GatherNext(iov: array<Octets>, used: nat, cfg: TxConfig, id: uint64, bundle: Octets, at: nat, end: nat)
    returns (next: nat)
    requires cfg.segmentMtu >= 1 && at < |bundle| < 0x1_0000_0000_0000_0000
    requires at < end && BufferEnd(at, |bundle|) == end && used + 2 <= iov.Length
    modifies iov
    ensures at < next <= end && (next < end ==> BufferEnd(next, |bundle|) == end)
    ensures Concat(iov[..used + 2]) + CutsWire(cfg, id, bundle, next, end)
            == old(Concat(iov[..used])) + CutsWire(cfg, id, bundle, at, end)
  {
    hide Cuts, BufferEnd, CutsWire, Concat, Framed.Wire, Sendable, FrameOf, CutSegment;
    ghost var part := Concat(iov[..used]);
    var seg := NextSegment(cfg, id, bundle, at, end);
    next := at + |seg.data|;
    CutsWireStep(cfg, id, bundle, at, end, seg);
    AddSegment(iov, used, seg);
    Associate3(part, FrameOf(seg).Wire(), CutsWire(cfg, id, bundle, next, end));
  }

  /** What is gathered goes out, ahead of the rest. */
  method WriteOut(w: Writing, iov: array<Octets>, used: nat, ghost rest: Octets, ghost all: Octets) returns (rc: int)
    requires w.Valid() && used <= iov.Length
    requires w.Out() + (Concat(iov[..used]) + rest) == all
    modifies w.Repr, iov
    ensures w.Valid() && (rc == 0 || rc == -1)
    ensures old(w.Out()) <= w.Out() <= all
    ensures rc == 0 ==> w.Out() + rest == all
  {
    hide Concat;
    ghost var out, part := w.Out(), Concat(iov[..used]);
    rc := w.SendIov(iov, used);
    FirstPartOnly(out, part, rest, all, w.Out());
  }

  /** sendSegments: the bufferful that is read at off goes out as its segments, whole and in
      order, or a first part of their octets does and the session has failed. */
  method SendSegments(w: Writing, cfg: TxConfig, id: uint64, bundle: Octets, off: nat) returns (rc: int)
    requires w.Valid()
    requires cfg.segmentMtu >= 1 && off < |bundle| < 0x1_0000_0000_0000_0000
    modifies w.Repr
    ensures w.Valid() && (rc == 0 || rc == -1)
    ensures rc == 0 ==> w.Out() == old(w.Out()) + CutsWire(cfg, id, bundle, off, BufferEnd(off, |bundle|))
    ensures rc == -1 ==>
              old(w.Out()) <= w.Out() <= old(w.Out()) + CutsWire(cfg, id, bundle, off, BufferEnd(off, |bundle|))
  {
    hide Cuts, BufferEnd, CutsWire, Concat, Framed.Wire, Sendable, FrameOf;
    BufferEndAhead(off, |bundle|);
    var at, end := off, BufferEnd(off, |bundle|);
    ghost var all := w.Out() + CutsWire(cfg, id, bundle, off, end);
    var iov := new Octets[2 * TX_SEGS_PER_WRITE];
    var segs: nat := 0;
    NoBuffers(iov[..0]);
    while at < end
      invariant w.Valid() && off <= at <= end && (at < end ==> BufferEnd(at, |bundle|) == end)
      invariant segs < TX_SEGS_PER_WRITE && (at == end ==> segs == 0)
      invariant old(w.Out()) <= w.Out()
      invariant w.Out() + (Concat(iov[..2 * segs]) + CutsWire(cfg, id, bundle, at, end)) == all
    {
      at := GatherNext(iov, 2 * segs, cfg, id, bundle, at, end);
      segs := segs + 1;
      ghost var rest := CutsWire(cfg, id, bundle, at, end);
      if segs == TX_SEGS_PER_WRITE || at == end {
        rc := WriteOut(w, iov, 2 * segs, rest, all);
        if rc < 0 {
          return -1;
        }
        segs := 0;
        NoBuffers(iov[..0]);
        assert [] + rest == rest;
      }
    }
    NothingLeft(cfg, id, bundle, end);
    NoBuffers(iov[..0]);
    assert w.Out() + ([] + []) == w.Out();
    rc := 0;
  }

  lemma NoBuffers(iov: seq<Octets>)
    requires iov == []
    ensures Concat(iov) == []
  {}
}
