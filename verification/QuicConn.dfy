/** The reliable path as the session runs it: frameBundle fills one buffer of a computed
    size; the receiving side appends what arrives, takes what is complete, and moves the
    rest to the front. */
module QuicConn {
  import opened Octets
  import opened Wire
  import opened QuicMsg
  import opened QuicStream

  const HDR_MAX := 40

  lemma {:induction false} WireOfSnoc(frames: seq<Frame>, f: Frame)
    requires (forall k :: 0 <= k < |frames| ==> frames[k].Made()) && f.Made()
    ensures WireOf(frames + [f]) == WireOf(frames) + f.Wire()
    decreases |frames|
  {
    if frames == [] {
      assert frames + [f] == [f] && [f][1..] == [];
    } else {
      assert (frames + [f])[1..] == frames[1..] + [f];
      WireOfSnoc(frames[1..], f);
    }
  }

  /** One segment, header and data, behind what the buffer holds already. The encoder is
      given a view of what is left of the buffer. */
  method PutSegment(framed: array<uint8>, pos: nat, seg: Msg, data: Octets) returns (next: nat)
    requires Seg(seg, data).Made()
    requires pos + |Enc(seg)| + |data| <= framed.Length
    modifies framed
    ensures next == pos + |Enc(seg)| + |data|
    ensures framed[..next] == old(framed[..pos]) + Seg(seg, data).Wire()
  {
    hide Enc;
    var view := new uint8[framed.Length - pos];
    var hdr: nat := EncodeXferSegmentHdr(view, view.Length, seg);
    var header := view[..hdr];
    Copy(framed, pos, header);
    ghost var withHeader := framed[..pos + hdr];
    Copy(framed, pos + hdr, data);
    next := pos + hdr + |data|;
    assert old(framed[..pos]) + header + data == old(framed[..pos]) + (header + data);
  }

  /** memcpy */
  method Copy(to: array<uint8>, at: nat, data: Octets)
    requires at + |data| <= to.Length
    modifies to
    ensures to[..at + |data|] == old(to[..at]) + data
  {
    forall i | 0 <= i < |data| {
      to[at + i] := data[i];
    }
    assert to[..at] == old(to[..at]);
  }

  /** The header frameBundle writes for its k-th segment of n. */
  function HeaderOf(k: nat, n: nat, txid: uint64, thisLen: nat, total: nat): Msg
    requires thisLen <= INT_MAX && total <= INT_MAX
  {
    XferSegment((if k == 0 then 0x02 else 0) + (if k == n - 1 then 0x01 else 0),
                k % 0x1_0000, n % 0x1_0000, txid, [], thisLen, total, SVC_RELIABLE)
  }

  /** The k-th segment, as the loop of frameBundle computes it from what remains. */
  lemma NextSegment(bundle: Octets, mru: uint64, txid: uint64, k: nat, remaining: nat)
    requires mru > 0 && |bundle| <= INT_MAX && k < SegmentCount(|bundle|, mru)
    requires remaining == |bundle| - Cut(|bundle|, mru, k)
    ensures var n := SegmentCount(|bundle|, mru);
            var thisLen := if remaining > mru then mru else remaining;
            var from := |bundle| - remaining;
            var frames := Frames(bundle, mru, txid);
            && remaining - thisLen == |bundle| - Cut(|bundle|, mru, k + 1)
            && k < |frames| == n
            && frames[k] == Seg(HeaderOf(k, n, txid, thisLen, |bundle|), bundle[from..from + thisLen])
  {
    hide SegmentCount;
    CutStep(|bundle|, mru, k);
  }

  lemma WiresStep(frames: seq<Frame>, k: nat)
    requires k < |frames| && forall i :: 0 <= i < |frames| ==> frames[i].Made()
    ensures WiresOf(frames, k + 1) == WiresOf(frames, k) + frames[k].Wire()
  {
    assert frames[..k + 1] == frames[..k] + [frames[k]];
    WireOfSnoc(frames[..k], frames[k]);
  }

  lemma HeaderLength(k: nat, n: nat, txid: uint64, thisLen: nat, total: nat)
    requires thisLen <= INT_MAX && total <= INT_MAX
    ensures HeaderOf(k, n, txid, thisLen, total).Fits() && |Enc(HeaderOf(k, n, txid, thisLen, total))| <= 35
  {}

  /** The octets of the first k frames. */
  ghost function WiresOf(frames: seq<Frame>, k: nat): Octets
    requires k <= |frames| && forall i :: 0 <= i < |frames| ==> frames[i].Made()
  {
    WireOf(frames[..k])
  }

  lemma AllWires(frames: seq<Frame>)
    requires forall i :: 0 <= i < |frames| ==> frames[i].Made()
    ensures WiresOf(frames, 0) == [] && WiresOf(frames, |frames|) == WireOf(frames)
  {
    assert frames[..|frames|] == frames;
  }

  /** The first k segments are in the buffer, which was sized for headers of 40 octets. */
  ghost predicate Filled(framed: array<uint8>, pos: nat, bundle: Octets, mru: uint64, txid: uint64,
                         k: nat, remaining: nat)
    reads framed
    requires mru > 0 && |bundle| <= INT_MAX
  {
    var n, frames := SegmentCount(|bundle|, mru), Frames(bundle, mru, txid);
    FramesAreMade(bundle, mru, txid);
    && k <= n && framed.Length == |bundle| + n * HDR_MAX
    && remaining == |bundle| - Cut(|bundle|, mru, k)
    && pos <= |bundle| - remaining + 35 * k && pos <= framed.Length
    && framed[..pos] == WiresOf(frames, k)
  }

  lemma NothingFilled(framed: array<uint8>, bundle: Octets, mru: uint64, txid: uint64)
    requires mru > 0 && |bundle| <= INT_MAX && framed.Length == |bundle| + SegmentCount(|bundle|, mru) * HDR_MAX
    ensures Filled(framed, 0, bundle, mru, txid, 0, |bundle|)
  {
    FramesAreMade(bundle, mru, txid);
    AllWires(Frames(bundle, mru, txid));
    hide SegmentCount;
    assert framed[..0] == [] && Cut(|bundle|, mru, 0) == 0;
  }

  lemma AllFilled(framed: array<uint8>, pos: nat, bundle: Octets, mru: uint64, txid: uint64, remaining: nat)
    requires mru > 0 && |bundle| <= INT_MAX
    requires Filled(framed, pos, bundle, mru, txid, SegmentCount(|bundle|, mru), remaining)
    ensures pos <= framed.Length && framed[..pos] == Framed(bundle, mru, txid)
  {
    FramesAreMade(bundle, mru, txid);
    hide SegmentCount;
    AllWires(Frames(bundle, mru, txid));
  }

  /** One turn of the loop of frameBundle. */
  method FrameNext(framed: array<uint8>, pos: nat, bundle: Octets, segMru: uint64, txid: uint64,
                   nSeg: nat, segId: nat, remaining: nat)
    returns (next: nat, left: nat)
    requires segMru > 0 && |bundle| <= INT_MAX && nSeg == SegmentCount(|bundle|, segMru) && segId < nSeg
    requires Filled(framed, pos, bundle, segMru, txid, segId, remaining)
    modifies framed
    ensures Filled(framed, next, bundle, segMru, txid, segId + 1, left)
  {
    hide Enc, Frames, WireOf, WiresOf, SegmentCount, Cut, HeaderOf;
    ghost var frames := Frames(bundle, segMru, txid);
    FramesAreMade(bundle, segMru, txid);
    NextSegment(bundle, segMru, txid, segId, remaining);
    WiresStep(frames, segId);
    var thisLen := if remaining > segMru then segMru else remaining;
    var from := |bundle| - remaining;
    var seg := HeaderOf(segId, nSeg, txid, thisLen, |bundle|);
    HeaderLength(segId, nSeg, txid, thisLen, |bundle|);
    next := PutSegment(framed, pos, seg, bundle[from..from + thisLen]);
    left := remaining - thisLen;
  }

  /** frameBundle: the whole framed bundle always fits the capacity computed for it, which an
      int can hold. */
  method FrameBundle(bundle: Octets, peerSegmentMru: uint64, txid: uint64)
    returns (framed: array<uint8>, outLen: nat)
    requires |bundle| <= INT_MAX
    requires |bundle| + SegmentCount(|bundle|, EffectiveMru(peerSegmentMru)) * HDR_MAX <= INT_MAX
    ensures fresh(framed) && outLen <= framed.Length
    ensures framed[..outLen] == Framed(bundle, EffectiveMru(peerSegmentMru), txid)
  {
    hide SegmentCount, Filled, Framed;
    var segMru := EffectiveMru(peerSegmentMru);
    var nSeg := SegmentCount(|bundle|, segMru);
    framed := new uint8[|bundle| + nSeg * HDR_MAX];
    outLen := 0;
    NothingFilled(framed, bundle, segMru, txid);
    var segId: nat, remaining: nat := 0, |bundle|;
    while segId < nSeg
      invariant segId <= nSeg && Filled(framed, outLen, bundle, segMru, txid, segId, remaining)
    {
      outLen, remaining := FrameNext(framed, outLen, bundle, segMru, txid, nSeg, segId, remaining);
      segId := segId + 1;
    }
    AllFilled(framed, outLen, bundle, segMru, txid, remaining);
  }

  lemma CutStep(len: nat, mru: uint64, k: nat)
    ensures var remaining: nat := (CutsGrow(len, mru, k); len - Cut(len, mru, k));
            Cut(len, mru, k + 1) == Cut(len, mru, k) + if remaining > mru then mru else remaining
  {
    assert (k + 1) * mru == k * mru + mru;
  }

  // ---- Receiving -----------------------------------------------------------------------------

  /** A decoder's answer decides what the buffer begins with. */
  lemma DecodedBegins(k: Kind, s: Octets, n: int, m: Msg)
    requires Decoded(k, s, n, m)
    ensures n > 0 <==> exists x :: Begins(k, s, x)
    ensures n > 0 ==> n == |Enc(m)| && forall x :: Begins(k, s, x) <==> x == m
  {
    if n > 0 {
      assert s[..n] <= s && Begins(k, s, m);
      forall x | Begins(k, s, x) ensures x == m {
        BeginsOnce(k, s, x, m);
      }
    }
  }

  /** What the loop of deliverBundles makes of the front of the buffer. */
  method FindFrame(p: Octets) returns (next: Next, size: nat)
    requires 0 < |p| <= INT_MAX
    ensures next == NextFrame(p)
    ensures next.Got? ==> next.frame.Valid() && next.frame.Wire() <= p && size == |next.frame.Wire()|
  {
    hide Enc, Decoded, Begins;
    if p[0] == XFER_SEGMENT {
      var hdr, seg := DecodeXferSegmentHdr(p);
      DecodedBegins(KXferSegment, p, hdr, seg);
      if hdr <= 0 {
        return NeedMore, 0;
      }
      DecodedSegment(p, hdr, seg);
      if seg.segmentLength > BUFSZ || seg.bundleLength > BUFSZ {
        return Bad, 0;
      }
      if |p| - hdr < seg.segmentLength {
        return NeedMore, 0;
      }
      next, size := Got(Seg(seg, p[hdr..hdr + seg.segmentLength])), hdr + seg.segmentLength;
    } else if p[0] == XFER_ACK {
      var hdr, ack := DecodeXferAck(p);
      DecodedBegins(KXferAck, p, hdr, ack);
      next, size := if hdr <= 0 then NeedMore else Got(Reply(ack)), if hdr <= 0 then 0 else hdr;
    } else if p[0] == XFER_REFUSE {
      var hdr, ref := DecodeXferRefuse(p);
      DecodedBegins(KXferRefuse, p, hdr, ref);
      next, size := if hdr <= 0 then NeedMore else Got(Reply(ref)), if hdr <= 0 then 0 else hdr;
    } else {
      next, size := Bad, 0;
    }
    if next.Got? {
      GotIsThere(p);
    }
  }

  lemma DecodedSegment(p: Octets, n: int, m: Msg)
    requires Decoded(KXferSegment, p, n, m) && n > 0
    ensures m.XferSegment? && n <= |p|
  {}

  /** The capacity that doubling reaches. */
  method Doubled(from: nat, want: nat) returns (cap: nat)
    requires from > 0
    ensures cap >= want && cap >= from && (want <= from ==> cap == from)
  {
    cap := from;
    while cap < want
      invariant cap >= from && (want <= from ==> cap == from)
      decreases want - cap
    {
      cap := cap * 2;
    }
  }

  class DataRx {
    const accepts: nat -> bool // what the callback says to the n-th bundle
    var rxBuf: array<uint8>
    var rxLen: nat
    var xfer: array<uint8>
    var xferLen: nat
    var xferBundleLen: nat
    var xferActive: bool
    var handed: seq<Octets> // the bundles the callback has been offered

    ghost predicate Valid()
      reads this
    {
      && rxBuf != xfer && rxLen <= rxBuf.Length && rxBuf.Length > 0
      && xferLen <= xfer.Length
      && (xferActive ==> xferLen <= xferBundleLen <= BUFSZ)
    }

    ghost function Abs(): Rcv
      requires Valid()
      reads this, xfer
    {
      if xferActive then Rcv(true, xfer[..xferLen], xferBundleLen, handed, false)
      else Rcv(false, [], 0, handed, false)
    }

    ghost function Rest(): Octets
      requires Valid()
      reads this, rxBuf
    {
      rxBuf[..rxLen]
    }

    constructor (accepts: nat -> bool)
      ensures Valid() && Abs() == START && Rest() == []
    {
      this.accepts := accepts;
      rxBuf, rxLen := new uint8[BUFSZ], 0;
      xfer, xferLen, xferBundleLen, xferActive := new uint8[0], 0, 0, false;
      handed := [];
    }

    /** Room for the segment's data behind what is held of the transfer. */
    method ReserveXfer(want: nat)
      requires Valid()
      modifies this`xfer
      ensures Valid() && Abs() == old(Abs()) && xfer.Length >= want
      ensures xfer[..xferLen] == old(xfer[..xferLen])
      ensures xfer == old(xfer) || fresh(xfer)
    {
      if want > xfer.Length {
        var cap := Doubled(if xfer.Length == 0 then BUFSZ else xfer.Length, want);
        var bigger := new uint8[cap];
        forall i | 0 <= i < xferLen {
          bigger[i] := xfer[i];
        }
        assert bigger[..xferLen] == xfer[..xferLen];
        xfer := bigger;
      }
    }

    method Append(data: Octets)
      requires Valid() && xferActive && xferLen + |data| <= xferBundleLen
      modifies this`xfer, this`xferLen, xfer
      ensures Valid() && (xfer == old(xfer) || fresh(xfer))
      ensures Abs() == old(Abs().(acc := Abs().acc + data))
    {
      ghost var held := xfer[..xferLen];
      ReserveXfer(xferLen + |data|);
      forall i | 0 <= i < |data| {
        xfer[xferLen + i] := data[i];
      }
      assert xfer[..xferLen + |data|] == held + data;
      xferLen := xferLen + |data|;
    }

    method XferReassemble(hdr: Msg, data: Octets) returns (ok: bool)
      requires Valid() && Seg(hdr, data).Valid()
      modifies this`xfer, this`xferLen, this`xferBundleLen, this`xferActive, this`handed, xfer
      ensures Valid() && (xfer == old(xfer) || fresh(xfer))
      ensures var st := Take(accepts, old(Abs()), Seg(hdr, data));
              ok == !st.failed && (ok ==> Abs() == st) && handed == st.handed
    {
      if IsStart(hdr.flags) {
        xferLen, xferBundleLen, xferActive := 0, hdr.bundleLength, true;
      }
      if !xferActive {
        return false;
      }
      if |data| > xferBundleLen || xferLen > xferBundleLen - |data| {
        return false;
      }
      Append(data);
      if IsEnd(hdr.flags) {
        xferActive := false;
        if xferLen != xferBundleLen {
          return false;
        }
        ok := accepts(|handed|);
        handed := handed + [xfer[..xferLen]];
        return ok;
      }
      return true;
    }

    /** A segment is reassembled; a reply is consumed without action. */
    method TakeFrame(f: Frame) returns (ok: bool)
      requires Valid() && f.Valid()
      modifies this`xfer, this`xferLen, this`xferBundleLen, this`xferActive, this`handed, xfer
      ensures Valid() && (xfer == old(xfer) || fresh(xfer))
      ensures var st := Take(accepts, old(Abs()), f);
              ok == !st.failed && (ok ==> Abs() == st) && handed == st.handed
    {
      ok := true;
      if f.Seg? {
        ok := XferReassemble(f.hdr, f.data);
      }
    }

    /** The memmove that ends deliverBundles. */
    method KeepTail(off: nat)
      requires Valid() && off <= rxLen
      modifies this`rxLen, rxBuf
      ensures Valid() && Abs() == old(Abs()) && Rest() == old(Rest())[off..]
    {
      ghost var kept := rxBuf[off..rxLen];
      forall i | 0 <= i < rxLen - off {
        rxBuf[i] := rxBuf[off + i];
      }
      rxLen := rxLen - off;
      assert rxBuf[..rxLen] == kept;
    }

    /** deliverBundles: takes every complete frame at the front of the buffer, and moves what
        is left to the front. */
    method DeliverBundles() returns (ok: bool)
      requires Valid() && rxLen <= INT_MAX
      modifies this`xfer, this`xferLen, this`xferBundleLen, this`xferActive, this`handed, this`rxLen, rxBuf, xfer
      ensures Valid() && (xfer == old(xfer) || fresh(xfer))
      ensures var p := Parse(accepts, old(Abs()), old(Rest()));
              ok == !p.st.failed && (ok ==> Abs() == p.st && Rest() == p.rest) && handed == p.st.handed
    {
      hide Take, NextFrame, Frame.Wire, Frame.Valid;
      var off, more := 0, true;
      ghost var all, start := Rest(), Abs();
      assert all[0..] == all;
      while more && off < rxLen
        invariant Valid() && off <= rxLen && Rest() == all
        invariant xfer == old(xfer) || fresh(xfer)
        invariant Parse(accepts, Abs(), all[off..]) == Parse(accepts, start, all)
        invariant !more ==> NextFrame(all[off..]).NeedMore?
        decreases more, rxLen - off
      {
        var p := rxBuf[off..rxLen];
        assert p == all[off..];
        var next, size := FindFrame(p);
        if next.NeedMore? {
          more := false;
        } else if next.Bad? {
          return false;
        } else {
          var taken := TakeFrame(next.frame);
          if !taken {
            return false;
          }
          assert p[size..] == all[off + size..];
          off := off + size;
        }
      }
      EndOfParse(accepts, Abs(), all[off..]);
      KeepTail(off);
      ok := true;
    }

    /** recvStreamDataCb, for the stream that carries bundles: the octets are appended and
        whatever is complete is taken. */
    method RecvStreamData(data: Octets) returns (ok: bool)
      requires Valid() && rxLen + |data| <= INT_MAX
      modifies this, rxBuf, xfer
      ensures Valid()
      ensures var p := Parse(accepts, old(Abs()), old(Rest()) + data);
              ok == !p.st.failed && (ok ==> Abs() == p.st && Rest() == p.rest) && handed == p.st.handed
    {
      hide Parse;
      AppendRx(data);
      ok := DeliverBundles();
    }

    method AppendRx(data: Octets)
      requires Valid()
      modifies this`rxBuf, this`rxLen, rxBuf
      ensures Valid() && Abs() == old(Abs()) && Rest() == old(Rest()) + data && rxLen == old(rxLen) + |data|
      ensures rxBuf == old(rxBuf) || fresh(rxBuf)
    {
      ReserveRx(rxLen + |data|);
      ghost var held := rxBuf[..rxLen];
      forall i | 0 <= i < |data| {
        rxBuf[rxLen + i] := data[i];
      }
      assert rxBuf[..rxLen + |data|] == held + data;
      rxLen := rxLen + |data|;
    }

    method ReserveRx(want: nat)
      requires Valid()
      modifies this`rxBuf
      ensures Valid() && Abs() == old(Abs()) && Rest() == old(Rest()) && rxBuf.Length >= want
      ensures rxBuf == old(rxBuf) || fresh(rxBuf)
    {
      if want > rxBuf.Length {
        var cap := Doubled(rxBuf.Length * 2, want);
        var bigger := new uint8[cap];
        forall i | 0 <= i < rxLen {
          bigger[i] := rxBuf[i];
        }
        assert bigger[..rxLen] == rxBuf[..rxLen];
        rxBuf := bigger;
      }
    }
  }

  lemma EndOfParse(accepts: nat -> bool, st: Rcv, s: Octets)
    requires !st.failed && (s == [] || NextFrame(s).NeedMore?)
    ensures Parse(accepts, st, s) == Parsed(st, s)
  {
    assert NextFrame(s).NeedMore?;
    hide NextFrame;
  }
}
