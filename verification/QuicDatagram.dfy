/** The unreliable path of QUICCL: a bundle is cut into segments that each travel in one
    datagram and say where they belong, and the receiver puts together what arrives. */
module QuicDatagram {
  import opened Octets
  import opened Wire
  import opened Options
  import opened QuicMsg
  import opened QuicStream

  const DG_SEG := 1024       // data octets per datagram
  const DG_FRAME_MAX := 1452 // the largest datagram frame that is accepted

  /** A segment accepted at some offset of the buffer. */
  datatype Placed = Placed(id: nat, off: nat, data: Octets)

  /** The transfer being put together: what its first segment said, and the segments
      accepted since. cap is the size of the buffer. */
  datatype Dg = Dg(active: bool, id: nat, total: nat, bundleLen: nat, cap: nat, accepted: seq<Placed>)

  const INITIAL := Dg(false, 0, 0, 0, 0, [])

  function Ids(accepted: seq<Placed>): set<nat> {
    set p | p in accepted :: p.id
  }

  function Overlay(d: Octets, off: nat, data: Octets): (r: Octets)
    ensures |r| == |d|
  {
    seq(|d|, i requires 0 <= i < |d| => if off <= i < off + |data| then data[i - off] else d[i])
  }

  /** The bundle that the accepted segments make up: zeros, overwritten in order of arrival. */
  function Paint(len: nat, accepted: seq<Placed>): (r: Octets)
    ensures |r| == len
  {
    if accepted == [] then seq(len, _ => 0)
    else
      var last := accepted[|accepted| - 1];
      Overlay(Paint(len, accepted[..|accepted| - 1]), last.off, last.data)
  }

  function ToInt32(v: int): int {
    var low := v % 0x1_0000_0000;
    if low >= 0x8000_0000 then low - 0x1_0000_0000 else low
  }

  /** Where a segment says it belongs, in the 64-bit and then 32-bit arithmetic of the source. */
  function Offset(h: Msg): int
    requires h.XferSegment?
  {
    if IsEnd(h.flags) then ToInt32((h.bundleLength - h.segmentLength) % 0x1_0000_0000_0000_0000)
    else ToInt32((h.segmentId * h.segmentLength) % 0x1_0000_0000_0000_0000)
  }

  /** What fits in 31 bits, or is negative and small, survives the widths of the source. */
  lemma NarrowExact(v: int)
    requires -0x8000_0000 <= v < 0x8000_0000
    ensures ToInt32(v % 0x1_0000_0000_0000_0000) == v
  {
    var wide := v % 0x1_0000_0000_0000_0000;
    if v < 0 {
      assert wide == v + 0x1_0000_0000_0000_0000;
      assert wide == 0x1_0000_0000 * 0xFFFF_FFFF + (v + 0x1_0000_0000);
    } else {
      assert wide == v;
    }
  }

  /** For what fits a datagram neither width matters. */
  lemma OffsetExact(h: Msg)
    requires h.XferSegment? && h.segmentLength <= DG_FRAME_MAX && h.bundleLength <= BUFSZ
    ensures Offset(h) == if IsEnd(h.flags) then h.bundleLength - h.segmentLength else h.segmentId * h.segmentLength
  {
    ProductBound(h.segmentId, h.segmentLength);
    NarrowExact(h.bundleLength - h.segmentLength);
    NarrowExact(h.segmentId * h.segmentLength);
    hide ToInt32;
  }

  lemma ProductBound(a: int, b: int)
    requires 0 <= a < 0x1_0000 && 0 <= b <= DG_FRAME_MAX
    ensures 0 <= a * b <= 0x1_0000 * DG_FRAME_MAX
  {
    assert a * b <= 0x1_0000 * b;
    assert a * b >= 0;
  }

  /** A segment that came in one datagram ends where an int can say. */
  lemma EndIsSmall(h: Msg)
    requires h.XferSegment? && h.segmentLength <= DG_FRAME_MAX
    ensures Implausible(h) || Offset(h) + h.segmentLength < 0x8000_0000
  {
    if !Implausible(h) {
      OffsetExact(h);
      ProductBound(h.segmentId, h.segmentLength);
      hide ToInt32;
    }
  }

  predicate Implausible(h: Msg)
    requires h.XferSegment?
  {
    h.bundleLength > BUFSZ || h.segmentLength > BUFSZ || h.totalSegments == 0
  }

  /** The segment makes the receiver start over. */
  predicate Resets(st: Dg, h: Msg)
    requires h.XferSegment?
  {
    IsStart(h.flags) || !st.active || h.transferId != st.id
  }

  /** What the receiver has become by the time it places the segment. */
  function Renewed(st: Dg, h: Msg): Dg
    requires h.XferSegment?
  {
    if Resets(st, h)
    then Dg(true, h.transferId, h.totalSegments, h.bundleLength, if h.bundleLength > st.cap then BUFSZ else st.cap, [])
    else st
  }

  /** The segment is dropped or accepted, and may complete the bundle. */
  function Land(u: Dg, h: Msg, data: Octets): (Dg, Option<Octets>)
    requires h.XferSegment?
  {
    var off := Offset(h);
    if h.segmentId >= u.total || off < 0 || off + |data| > u.cap then (u, None)
    else
      var accepted := u.accepted + [Placed(h.segmentId, off, data)];
      if |Ids(accepted)| == u.total
      then (u.(active := false, accepted := accepted), Some(Paint(u.bundleLen, accepted)))
      else (u.(accepted := accepted), None)
  }

  /** dgReassemble: the new state, and the bundle handed up if this segment completes it. */
  function Step(st: Dg, h: Msg, data: Octets): (Dg, Option<Octets>)
    requires h.XferSegment?
  {
    if Implausible(h) then (st, None) else Land(Renewed(st, h), h, data)
  }

  // ---- The bytes of a bundle that is handed up -----------------------------------------------

  predicate Covers(p: Placed, i: nat) { p.off <= i < p.off + |p.data| }

  /** The last of the segments that covers an octet, if one does. */
  predicate LastCover(accepted: seq<Placed>, j: nat, i: nat) {
    j < |accepted| && Covers(accepted[j], i) && forall l :: j < l < |accepted| ==> !Covers(accepted[l], i)
  }

  /** Every octet comes from the last segment accepted since the reset that covers it, and
      is zero where none does. */
  lemma {:induction false} PaintAt(len: nat, accepted: seq<Placed>, i: nat)
    requires i < len
    ensures forall j: nat :: LastCover(accepted, j, i) ==>
              Paint(len, accepted)[i] == accepted[j].data[i - accepted[j].off]
    ensures (forall l :: 0 <= l < |accepted| ==> !Covers(accepted[l], i)) ==> Paint(len, accepted)[i] == 0
    ensures (exists l :: 0 <= l < |accepted| && Covers(accepted[l], i)) ==> exists j: nat :: LastCover(accepted, j, i)
  {
    if accepted != [] {
      var n := |accepted| - 1;
      var front := accepted[..n];
      if Covers(accepted[n], i) {
        assert LastCover(accepted, n, i);
      } else {
        PaintAt(len, front, i);
        assert Paint(len, accepted)[i] == Paint(len, front)[i];
        assert forall l :: 0 <= l < n ==> front[l] == accepted[l];
        assert forall j: nat :: LastCover(front, j, i) <==> LastCover(accepted, j, i);
      }
    }
  }

  // ---- Segments of bundles that were sent -----------------------------------------------------

  function SegCount(len: nat): (n: nat)
    ensures n >= 1
  {
    var n := (len + DG_SEG - 1) / DG_SEG;
    if n < 1 then 1 else n
  }

  /** Where the k-th segment's data lies within the bundle. */
  function SegEnd(len: nat, k: nat): nat {
    if (k + 1) * DG_SEG < len then (k + 1) * DG_SEG else len
  }

  function SegStart(len: nat, k: nat): nat {
    if k * DG_SEG < len then k * DG_SEG else len
  }

  /** The k-th datagram of a bundle. */
  function DgSegment(bundle: Octets, txid: uint64, k: nat): (f: Frame)
    requires |bundle| <= BUFSZ && k < SegCount(|bundle|)
    ensures f.Seg? && f.hdr.XferSegment?
  {
    var n := SegCount(|bundle|);
    var data := bundle[SegStart(|bundle|, k)..SegEnd(|bundle|, k)];
    Seg(XferSegment((if k == 0 then 0x02 else 0) + (if k == n - 1 then 0x01 else 0),
                    k, n, txid, [], |data|, |bundle|, SVC_UNRELIABLE), data)
  }

  lemma SegmentFacts(bundle: Octets, txid: uint64, k: nat)
    requires |bundle| <= BUFSZ && k < SegCount(|bundle|)
    ensures var f, n := DgSegment(bundle, txid, k), SegCount(|bundle|);
            && f.Valid() && !Implausible(f.hdr)
            && IsStart(f.hdr.flags) == (k == 0) && IsEnd(f.hdr.flags) == (k == n - 1)
            && f.hdr.segmentId == k && f.hdr.totalSegments == n && f.hdr.transferId == txid
            && f.hdr.bundleLength == |bundle| && f.hdr.segmentLength == |f.data| && f.hdr.serviceMode == 2
            && Offset(f.hdr) == SegStart(|bundle|, k) && SegStart(|bundle|, k) + |f.data| == SegEnd(|bundle|, k)
            && |f.data| <= DG_SEG && |Enc(f.hdr)| + |f.data| <= DG_FRAME_MAX
  {
    var f := DgSegment(bundle, txid, k);
    OffsetExact(f.hdr);
  }

  /** An arrival: the k-th segment of the t-th bundle sent. */
  datatype Arrival = Arrival(t: nat, k: nat)

  predicate Genuine(bundles: seq<Octets>, arrivals: seq<Arrival>) {
    && |bundles| < 0x1_0000_0000_0000_0000
    && (forall t :: 0 <= t < |bundles| ==> |bundles[t]| <= BUFSZ)
    && (forall j :: 0 <= j < |arrivals| ==>
          arrivals[j].t < |bundles| && arrivals[j].k < SegCount(|bundles[arrivals[j].t]|))
  }

  function FrameOf(bundles: seq<Octets>, a: Arrival): (f: Frame)
    requires Genuine(bundles, [a])
    ensures f.Seg? && f.hdr.XferSegment?
  {
    assert [a][0] == a;
    DgSegment(bundles[a.t], a.t, a.k)
  }

  lemma GenuineOne(bundles: seq<Octets>, arrivals: seq<Arrival>, j: nat)
    requires Genuine(bundles, arrivals) && j < |arrivals|
    ensures Genuine(bundles, [arrivals[j]]) && Genuine(bundles, arrivals[..j])
  {}

  /** The state before the n-th arrival. */
  function Before(bundles: seq<Octets>, arrivals: seq<Arrival>, n: nat): Dg
    requires Genuine(bundles, arrivals) && n <= |arrivals|
  {
    if n == 0 then INITIAL
    else
      GenuineOne(bundles, arrivals, n - 1);
      var f := FrameOf(bundles, arrivals[n - 1]);
      Step(Before(bundles, arrivals, n - 1), f.hdr, f.data).0
  }

  /** What the n-th arrival hands up. */
  function Out(bundles: seq<Octets>, arrivals: seq<Arrival>, n: nat): Option<Octets>
    requires Genuine(bundles, arrivals) && n < |arrivals|
  {
    GenuineOne(bundles, arrivals, n);
    var f := FrameOf(bundles, arrivals[n]);
    Step(Before(bundles, arrivals, n), f.hdr, f.data).1
  }

  function PlacedOf(bundles: seq<Octets>, a: Arrival): Placed
    requires Genuine(bundles, [a])
  {
    assert [a][0] == a;
    Placed(a.k, SegStart(|bundles[a.t]|, a.k), FrameOf(bundles, a).data)
  }

  function AllPlaced(bundles: seq<Octets>, arrivals: seq<Arrival>): seq<Placed>
    requires Genuine(bundles, arrivals)
  {
    seq(|arrivals|, j requires 0 <= j < |arrivals| =>
      (GenuineOne(bundles, arrivals, j); PlacedOf(bundles, arrivals[j])))
  }

  function Ks(arrivals: seq<Arrival>): set<nat> { set a | a in arrivals :: a.k }

  /** All of a bundle's segments are among these arrivals. */
  predicate Full(bundle: Octets, arrivals: seq<Arrival>) {
    forall k :: 0 <= k < SegCount(|bundle|) ==> k in Ks(arrivals)
  }

  function Upto(n: nat): (r: set<nat>)
    ensures forall k: nat :: k in r <==> k < n
    ensures |r| == n
  {
    if n == 0 then {} else Upto(n - 1) + {n - 1}
  }

  /** As many distinct numbers below n as there are: all of them. */
  lemma CountFull(s: set<nat>, n: nat)
    requires forall k :: k in s ==> k < n
    ensures |s| == n <==> forall k :: 0 <= k < n ==> k in s
    ensures |s| <= n
  {
    var all := Upto(n);
    Subset(s, all);
    assert (forall k :: 0 <= k < n ==> k in s) ==> s == all;
  }

  lemma Subset(a: set<nat>, b: set<nat>)
    requires a <= b
    ensures |a| <= |b| && (|a| == |b| ==> a == b)
  {
    assert b == a + (b - a);
    assert |b| == |a| + |b - a|;
  }

  /** A genuine segment paints the octets of its own part, and no other. */
  lemma OverlayGenuine(bundle: Octets, txid: uint64, k: nat, r: Octets)
    requires |bundle| <= BUFSZ && k < SegCount(|bundle|) && |r| == |bundle|
    ensures var painted := Overlay(r, SegStart(|bundle|, k), DgSegment(bundle, txid, k).data);
            forall i :: 0 <= i < |bundle| ==> painted[i] == if i / DG_SEG == k then bundle[i] else r[i]
  {}

  /** Painting the genuine segments of a bundle: its octets where one has arrived, and
      zeros elsewhere. */
  lemma {:induction false} PaintGenuine(bundles: seq<Octets>, arrivals: seq<Arrival>, t: nat)
    requires Genuine(bundles, arrivals) && t < |bundles|
    requires forall j :: 0 <= j < |arrivals| ==> arrivals[j].t == t
    ensures var len := |bundles[t]|;
            var r := Paint(len, AllPlaced(bundles, arrivals));
            forall i :: 0 <= i < len ==> r[i] == if i / DG_SEG in Ks(arrivals) then bundles[t][i] else 0
  {
    hide Overlay;
    if arrivals != [] {
      var n := |arrivals| - 1;
      var front := arrivals[..n];
      PaintGenuine(bundles, front, t);
      GenuineOne(bundles, arrivals, n);
      assert AllPlaced(bundles, arrivals)[..n] == AllPlaced(bundles, front);
      assert arrivals == front + [arrivals[n]];
      KsSnoc(front, arrivals[n]);
      hide Paint, SegStart, DgSegment, SegCount;
      PaintOne(bundles, arrivals, t);
    }
  }

  lemma KsSnoc(front: seq<Arrival>, a: Arrival)
    ensures Ks(front + [a]) == Ks(front) + {a.k}
  {
    assert (front + [a])[|front|] == a;
    assert forall x :: x in front + [a] <==> x in front || x == a;
  }

  lemma PaintOne(bundles: seq<Octets>, arrivals: seq<Arrival>, t: nat)
    requires arrivals != [] && Genuine(bundles, arrivals) && t < |bundles|
    requires forall j :: 0 <= j < |arrivals| ==> arrivals[j].t == t
    ensures var len, n := |bundles[t]|, |arrivals| - 1;
            var r, before := Paint(len, AllPlaced(bundles, arrivals)), Paint(len, AllPlaced(bundles, arrivals[..n]));
            forall i :: 0 <= i < len ==> r[i] == if i / DG_SEG == arrivals[n].k then bundles[t][i] else before[i]
  {
    var len, n := |bundles[t]|, |arrivals| - 1;
    GenuineOne(bundles, arrivals, n);
    var all := AllPlaced(bundles, arrivals);
    assert all[..n] == AllPlaced(bundles, arrivals[..n]);
    OverlayGenuine(bundles[t], t, arrivals[n].k, Paint(len, AllPlaced(bundles, arrivals[..n])));
    hide Overlay, DgSegment, SegStart, SegCount;
    assert all[n] == PlacedOf(bundles, arrivals[n]);
  }

  // ---- The window of arrivals that count ------------------------------------------------------

  /** Since which arrival the state before the n-th has been accumulated. */
  function Since(bundles: seq<Octets>, arrivals: seq<Arrival>, n: nat): (s: nat)
    requires Genuine(bundles, arrivals) && 0 < n <= |arrivals|
    ensures s < n
  {
    GenuineOne(bundles, arrivals, n - 1);
    if n == 1 || Resets(Before(bundles, arrivals, n - 1), FrameOf(bundles, arrivals[n - 1]).hdr) then n - 1
    else Since(bundles, arrivals, n - 1)
  }

  predicate OneBundle(arrivals: seq<Arrival>, t: nat) {
    && arrivals != []
    && (forall j :: 0 <= j < |arrivals| ==> arrivals[j].t == t)
    && (forall j :: 0 < j < |arrivals| ==> arrivals[j].k != 0)
  }

  /** The state accumulated from a window of arrivals of one bundle. */
  predicate Accumulated(bundles: seq<Octets>, window: seq<Arrival>, st: Dg) {
    && Genuine(bundles, window) && window != [] && OneBundle(window, window[0].t)
    && var b := bundles[window[0].t];
    && st.id == window[0].t && st.total == SegCount(|b|) && st.bundleLen == |b| <= st.cap
    && (st.cap == 0 || st.cap == BUFSZ)
    && st.accepted == AllPlaced(bundles, window)
    && st.active == !Full(b, window)
  }

  lemma IdsOfPlaced(bundles: seq<Octets>, window: seq<Arrival>)
    requires Genuine(bundles, window)
    ensures Ids(AllPlaced(bundles, window)) == Ks(window)
  {
    var all := AllPlaced(bundles, window);
    forall k | k in Ks(window) ensures k in Ids(all) {
      var j :| 0 <= j < |window| && window[j].k == k;
      assert all[j].id == k;
    }
    forall k | k in Ids(all) ensures k in Ks(window) {
      var j :| 0 <= j < |all| && all[j].id == k;
      assert window[j].k == k;
    }
  }

  lemma StepOf(st: Dg, f: Frame)
    requires f.Seg? && f.Valid() && !Implausible(f.hdr)
    requires var u := Renewed(st, f.hdr);
             f.hdr.segmentId < u.total && 0 <= Offset(f.hdr) && Offset(f.hdr) + |f.data| <= u.cap
    ensures var u := Renewed(st, f.hdr);
            var accepted := u.accepted + [Placed(f.hdr.segmentId, Offset(f.hdr), f.data)];
            Step(st, f.hdr, f.data)
            == if |Ids(accepted)| == u.total
               then (u.(active := false, accepted := accepted), Some(Paint(u.bundleLen, accepted)))
               else (u.(accepted := accepted), None)
  {}

  /** The bundle of a full window is painted completely. */
  lemma PaintFull(bundles: seq<Octets>, window: seq<Arrival>, t: nat)
    requires Genuine(bundles, window) && t < |bundles|
    requires forall j :: 0 <= j < |window| ==> window[j].t == t
    ensures Full(bundles[t], window) ==> Paint(|bundles[t]|, AllPlaced(bundles, window)) == bundles[t]
    ensures |Ids(AllPlaced(bundles, window))| == SegCount(|bundles[t]|) <==> Full(bundles[t], window)
  {
    PaintGenuine(bundles, window, t);
    IdsOfPlaced(bundles, window);
    CountFull(Ks(window), SegCount(|bundles[t]|));
    assert forall i :: 0 <= i < |bundles[t]| ==> 0 <= i / DG_SEG < SegCount(|bundles[t]|);
  }

  /** One more genuine segment of the same bundle is always accepted. */
  lemma Accept(bundles: seq<Octets>, window: seq<Arrival>, a: Arrival, st: Dg)
    requires Genuine(bundles, window) && Genuine(bundles, window + [a]) && Genuine(bundles, [a])
    requires OneBundle(window + [a], a.t) && a.t < |bundles|
    requires var b, u := bundles[a.t], Renewed(st, FrameOf(bundles, a).hdr);
             && u.id == a.t && u.total == SegCount(|b|) && u.bundleLen == |b| <= u.cap
             && (u.cap == 0 || u.cap == BUFSZ)
             && u.active && u.accepted == AllPlaced(bundles, window)
    ensures var f := FrameOf(bundles, a);
            var (st', out) := Step(st, f.hdr, f.data);
            && Accumulated(bundles, window + [a], st')
            && out.Some? == Full(bundles[a.t], window + [a])
            && (out.Some? ==> out.value == bundles[a.t])
  {
    var all, b, f := window + [a], bundles[a.t], FrameOf(bundles, a);
    assert all[|window|] == a && [a][0] == a;
    SegmentFacts(b, a.t, a.k);
    assert f.hdr.segmentId == a.k && SegEnd(|b|, a.k) <= |b|;
    StepOf(st, f);
    hide Step, Renewed, DgSegment, Full, Paint, Ids, SegStart, SegEnd;
    assert AllPlaced(bundles, all) == AllPlaced(bundles, window) + [PlacedOf(bundles, a)];
    PaintFull(bundles, all, a.t);
  }

  /** The outcome of a step that leaves a window of arrivals accumulated. */
  predicate Accepted(bundles: seq<Octets>, window: seq<Arrival>, a: Arrival, st: Dg)
    requires Genuine(bundles, [a])
  {
    assert [a][0] == a;
    var f := FrameOf(bundles, a);
    var (st', out) := Step(st, f.hdr, f.data);
    && Accumulated(bundles, window, st')
    && out.Some? == Full(bundles[a.t], window)
    && (out.Some? ==> out.value == bundles[a.t])
  }

  lemma AcceptFirst(bundles: seq<Octets>, a: Arrival, st: Dg)
    requires Genuine(bundles, [a]) && Resets(st, FrameOf(bundles, a).hdr) && (st.cap == 0 || st.cap == BUFSZ)
    ensures Accepted(bundles, [a], a, st)
  {
    assert [a][0] == a && [] + [a] == [a];
    SegmentFacts(bundles[a.t], a.t, a.k);
    hide Step, Full, Paint, Offset, SegCount;
    Accept(bundles, [], a, st);
  }

  lemma AcceptMore(bundles: seq<Octets>, window: seq<Arrival>, a: Arrival, st: Dg)
    requires Genuine(bundles, [a]) && Accumulated(bundles, window, st) && !Resets(st, FrameOf(bundles, a).hdr)
    ensures Accepted(bundles, window + [a], a, st)
  {
    assert [a][0] == a;
    SegmentFacts(bundles[a.t], a.t, a.k);
    hide Step, Full, Paint, Offset, SegCount;
    assert a.t == window[0].t && a.k != 0;
    assert forall j :: 0 <= j < |window + [a]| ==> (window + [a])[j] == if j < |window| then window[j] else a;
    Accept(bundles, window, a, st);
  }

  /** What every run over genuine segments keeps. */
  lemma {:induction false} WindowKept(bundles: seq<Octets>, arrivals: seq<Arrival>, n: nat)
    requires Genuine(bundles, arrivals) && 0 < n <= |arrivals|
    ensures Genuine(bundles, [arrivals[n - 1]])
    ensures var s := Since(bundles, arrivals, n);
            && Accepted(bundles, arrivals[s..n], arrivals[n - 1], Before(bundles, arrivals, n - 1))
            && Accumulated(bundles, arrivals[s..n], Before(bundles, arrivals, n))
  {
    hide Accepted, Accumulated, Resets, DgSegment, Step;
    GenuineOne(bundles, arrivals, n - 1);
    var st, a := Before(bundles, arrivals, n - 1), arrivals[n - 1];
    var s := Since(bundles, arrivals, n);
    if n == 1 || Resets(st, FrameOf(bundles, a).hdr) {
      assert arrivals[s..n] == [a];
      if n > 1 {
        WindowKept(bundles, arrivals, n - 1);
        CapOf(bundles, arrivals[Since(bundles, arrivals, n - 1)..n - 1], st);
      } else {
        FirstResets(bundles, a);
      }
      AcceptFirst(bundles, a, st);
    } else {
      WindowKept(bundles, arrivals, n - 1);
      assert arrivals[s..n] == arrivals[s..n - 1] + [a];
      AcceptMore(bundles, arrivals[s..n - 1], a, st);
    }
    AcceptedIsNext(bundles, arrivals, n, arrivals[s..n]);
  }

  lemma CapOf(bundles: seq<Octets>, window: seq<Arrival>, st: Dg)
    requires Accumulated(bundles, window, st)
    ensures st.cap == 0 || st.cap == BUFSZ
  {}

  lemma FirstResets(bundles: seq<Octets>, a: Arrival)
    requires Genuine(bundles, [a])
    ensures Resets(INITIAL, FrameOf(bundles, a).hdr)
  {}

  lemma AcceptedIsNext(bundles: seq<Octets>, arrivals: seq<Arrival>, n: nat, window: seq<Arrival>)
    requires Genuine(bundles, arrivals) && 0 < n <= |arrivals| && Genuine(bundles, [arrivals[n - 1]])
    requires Accepted(bundles, window, arrivals[n - 1], Before(bundles, arrivals, n - 1))
    ensures Accumulated(bundles, window, Before(bundles, arrivals, n))
  {}

  // ---- What is handed up, and when ---------------------------------------------------------------

  /** The n-th arrival completes a bundle that the s-th, its START segment, began: in between
      came only other segments of that bundle, and only now are they all there. */
  predicate Completes(bundles: seq<Octets>, arrivals: seq<Arrival>, s: nat, n: nat)
    requires Genuine(bundles, arrivals)
  {
    && s <= n < |arrivals| && arrivals[s].k == 0
    && (forall j :: s < j <= n ==> arrivals[j].t == arrivals[s].t && arrivals[j].k != 0)
    && Full(bundles[arrivals[s].t], arrivals[s..n + 1])
    && (s < n ==> !Full(bundles[arrivals[s].t], arrivals[s..n]))
  }

  /** What is handed up is a bundle that was sent. */
  lemma HandedUpWasSent(bundles: seq<Octets>, arrivals: seq<Arrival>, n: nat)
    requires Genuine(bundles, arrivals) && n < |arrivals|
    ensures Out(bundles, arrivals, n).Some? ==> Out(bundles, arrivals, n).value == bundles[arrivals[n].t]
  {
    WindowKept(bundles, arrivals, n + 1);
  }

  /** Until it is complete, a bundle whose START has come keeps accumulating. */
  lemma {:induction false} StaysOpen(bundles: seq<Octets>, arrivals: seq<Arrival>, s: nat, n: nat)
    requires Genuine(bundles, arrivals) && s <= n < |arrivals| && arrivals[s].k == 0
    requires forall j :: s < j <= n ==> arrivals[j].t == arrivals[s].t && arrivals[j].k != 0
    requires s < n ==> !Full(bundles[arrivals[s].t], arrivals[s..n])
    ensures Since(bundles, arrivals, n + 1) == s
  {
    hide Step, Accepted, Before, Accumulated, Full, Resets, FrameOf;
    GenuineOne(bundles, arrivals, n);
    if s == n {
      StartResets(bundles, arrivals[n], Before(bundles, arrivals, n));
    } else {
      NotFullBefore(bundles[arrivals[s].t], arrivals, s, n);
      StaysOpen(bundles, arrivals, s, n - 1);
      WindowKept(bundles, arrivals, n);
      NoReset(bundles, arrivals[s..n], Before(bundles, arrivals, n), arrivals[n]);
    }
  }

  lemma NotFullBefore(bundle: Octets, arrivals: seq<Arrival>, s: nat, n: nat)
    requires s < n <= |arrivals| && !Full(bundle, arrivals[s..n])
    ensures !Full(bundle, arrivals[s..n - 1])
  {
    assert arrivals[s..n] == arrivals[s..n - 1] + [arrivals[n - 1]];
    KsSnoc(arrivals[s..n - 1], arrivals[n - 1]);
  }

  lemma StartResets(bundles: seq<Octets>, a: Arrival, st: Dg)
    requires Genuine(bundles, [a]) && a.k == 0
    ensures Resets(st, FrameOf(bundles, a).hdr)
  {
    assert [a][0] == a;
    SegmentFacts(bundles[a.t], a.t, a.k);
  }

  lemma NoReset(bundles: seq<Octets>, window: seq<Arrival>, st: Dg, a: Arrival)
    requires Genuine(bundles, [a]) && Accumulated(bundles, window, st) && !Full(bundles[window[0].t], window)
    requires a.t == window[0].t && a.k != 0
    ensures !Resets(st, FrameOf(bundles, a).hdr)
  {
    assert [a][0] == a;
    SegmentFacts(bundles[a.t], a.t, a.k);
    hide Full;
  }

  lemma HandedUpExactlyWhen(bundles: seq<Octets>, arrivals: seq<Arrival>, n: nat)
    requires Genuine(bundles, arrivals) && n < |arrivals|
    ensures Out(bundles, arrivals, n).Some? <==> exists s :: Completes(bundles, arrivals, s, n)
  {
    var s := Since(bundles, arrivals, n + 1);
    WindowKept(bundles, arrivals, n + 1);
    if Out(bundles, arrivals, n).Some? {
      BeganWithStart(bundles, arrivals, n);
      assert Completes(bundles, arrivals, s, n);
    }
    if s' :| Completes(bundles, arrivals, s', n) {
      StaysOpen(bundles, arrivals, s', n);
    }
  }

  lemma BeganWithStart(bundles: seq<Octets>, arrivals: seq<Arrival>, n: nat)
    requires Genuine(bundles, arrivals) && n < |arrivals| && Out(bundles, arrivals, n).Some?
    ensures Completes(bundles, arrivals, Since(bundles, arrivals, n + 1), n)
  {
    hide Out, Accepted, Before, Accumulated, Full, Since;
    var s := Since(bundles, arrivals, n + 1);
    WindowKept(bundles, arrivals, n + 1);
    OutIsFull(bundles, arrivals, n, arrivals[s..n + 1]);
    WindowIsOne(bundles, arrivals, s, n + 1, Before(bundles, arrivals, n + 1));
    if s < n {
      NotYetFull(bundles, arrivals, n);
    }
  }

  /** What an accumulated window says about the arrivals themselves. */
  lemma WindowIsOne(bundles: seq<Octets>, arrivals: seq<Arrival>, s: nat, n: nat, st: Dg)
    requires Genuine(bundles, arrivals) && s < n <= |arrivals| && Accumulated(bundles, arrivals[s..n], st)
    ensures forall j :: s < j < n ==> arrivals[j].t == arrivals[s].t && arrivals[j].k != 0
    ensures arrivals[n - 1].t == arrivals[s].t < |bundles|
    ensures Full(bundles[arrivals[s].t], arrivals[s..n]) ==> arrivals[s].k == 0
  {
    var window := arrivals[s..n];
    FullHasStart(bundles, window, st);
    hide Full, AllPlaced;
    assert window[0] == arrivals[s] && window[|window| - 1] == arrivals[n - 1];
    forall j | s < j < n ensures arrivals[j].t == arrivals[s].t && arrivals[j].k != 0 {
      assert arrivals[j] == window[j - s];
    }
  }

  lemma NotYetFull(bundles: seq<Octets>, arrivals: seq<Arrival>, n: nat)
    requires Genuine(bundles, arrivals) && n < |arrivals| && Since(bundles, arrivals, n + 1) < n
    ensures var s := Since(bundles, arrivals, n + 1);
            arrivals[s].t < |bundles| && !Full(bundles[arrivals[s].t], arrivals[s..n])
  {
    hide Step, Accepted, Before, DgSegment, Full, AllPlaced;
    GenuineOne(bundles, arrivals, n);
    WindowKept(bundles, arrivals, n);
  }

  lemma OutIsFull(bundles: seq<Octets>, arrivals: seq<Arrival>, n: nat, window: seq<Arrival>)
    requires Genuine(bundles, arrivals) && n < |arrivals| && Genuine(bundles, [arrivals[n]])
    requires Accepted(bundles, window, arrivals[n], Before(bundles, arrivals, n))
    ensures Out(bundles, arrivals, n).Some? ==> Full(bundles[arrivals[n].t], window)
  {}

  lemma FullHasStart(bundles: seq<Octets>, window: seq<Arrival>, st: Dg)
    requires Accumulated(bundles, window, st)
    ensures Full(bundles[window[0].t], window) ==> window[0].k == 0
  {
    if Full(bundles[window[0].t], window) {
      assert 0 in Ks(window);
    }
  }

  /** Two different deliveries were begun by two different START arrivals. */
  lemma OnePerStart(bundles: seq<Octets>, arrivals: seq<Arrival>, s: nat, n: nat, s': nat, n': nat)
    requires Genuine(bundles, arrivals) && n < n'
    requires Completes(bundles, arrivals, s, n) && Completes(bundles, arrivals, s', n')
    ensures n < s'
  {
    if s' <= n {
      assert s' == s;
      assert forall k :: k in Ks(arrivals[s..n + 1]) ==> k in Ks(arrivals[s..n']) by {
        assert arrivals[s..n'] == arrivals[s..n + 1] + arrivals[n + 1..n'];
      }
      assert false;
    }
  }

  /** When START comes first and the other segments of the bundle follow in any order, with
      any duplicates but no other START and no other transfer in between, the bundle is
      handed up exactly once. */
  lemma {:induction false} DeliveredOnce(bundles: seq<Octets>, arrivals: seq<Arrival>, s: nat, m: nat) returns (n: nat)
    requires Genuine(bundles, arrivals) && s < m <= |arrivals| && arrivals[s].k == 0
    requires forall j :: s < j < m ==> arrivals[j].t == arrivals[s].t && arrivals[j].k != 0
    requires Full(bundles[arrivals[s].t], arrivals[s..m])
    ensures s <= n < m && Out(bundles, arrivals, n) == Some(bundles[arrivals[s].t])
    ensures forall j :: s <= j < m && j != n ==> Out(bundles, arrivals, j).None?
  {
    n := s;
    while !Full(bundles[arrivals[s].t], arrivals[s..n + 1])
      invariant s <= n < m
      invariant s < n ==> !Full(bundles[arrivals[s].t], arrivals[s..n])
      decreases m - n
    {
      n := n + 1;
    }
    assert Completes(bundles, arrivals, s, n);
    HandedUpExactlyWhen(bundles, arrivals, n);
    HandedUpWasSent(bundles, arrivals, n);
    forall j | s <= j < m && j != n ensures Out(bundles, arrivals, j).None? {
      HandedUpExactlyWhen(bundles, arrivals, j);
      forall s' ensures !Completes(bundles, arrivals, s', j) {
        if Completes(bundles, arrivals, s', j) {
          assert s' == s;
          if n < j {
            OnePerStart(bundles, arrivals, s, n, s', j);
          } else {
            OnePerStart(bundles, arrivals, s', j, s, n);
          }
        }
      }
    }
  }
}
