/** The reliable path of QUICCL: a bundle is framed as XFER_SEGMENTs on a stream, and the
    receiver parses whatever pieces of that stream arrive and reassembles the bundles. */
module QuicStream {
  import opened Octets
  import opened Wire
  import opened QuicMsg

  const BUFSZ := 256 * 1024

  /** One thing on a data stream: a segment with its data, or a reply. */
  datatype Frame = Seg(hdr: Msg, data: Octets) | Reply(m: Msg)
  {
    ghost predicate Made() {
      match this
      case Seg(h, d) => h.XferSegment? && h.WellFormed() && h.segmentLength == |d|
      case Reply(m) => m.XferAck? || m.XferRefuse?
    }

    /** Within the limits of a receiver. */
    ghost predicate Valid() {
      Made() && (Seg? ==> hdr.segmentLength <= BUFSZ && hdr.bundleLength <= BUFSZ)
    }

    ghost function Wire(): (s: Octets)
      requires Made()
      ensures s != []
    {
      match this
      case Seg(h, d) => Enc(h) + d
      case Reply(m) => Enc(m)
    }
  }

  // ---- What a buffer begins with -----------------------------------------------------------

  datatype Next = NeedMore | Bad | Got(frame: Frame)

  ghost predicate Begins(k: Kind, s: Octets, m: Msg) {
    IsKind(k, m) && m.WellFormed() && Enc(m) <= s
  }

  /** What deliverBundles finds at the front of the buffer. */
  ghost function NextFrame(s: Octets): Next {
    if s == [] then NeedMore
    else if s[0] == XFER_SEGMENT then
      if exists m :: Begins(KXferSegment, s, m) then
        var m :| Begins(KXferSegment, s, m);
        var n := |Enc(m)|;
        if m.segmentLength > BUFSZ || m.bundleLength > BUFSZ then Bad
        else if |s| - n < m.segmentLength then NeedMore
        else Got(Seg(m, s[n..n + m.segmentLength]))
      else NeedMore
    else if s[0] == XFER_ACK then
      if exists m :: Begins(KXferAck, s, m) then
        var m :| Begins(KXferAck, s, m);
        Got(Reply(m))
      else NeedMore
    else if s[0] == XFER_REFUSE then
      if exists m :: Begins(KXferRefuse, s, m) then
        var m :| Begins(KXferRefuse, s, m);
        Got(Reply(m))
      else NeedMore
    else Bad
  }

  lemma BeginsOnce(k: Kind, s: Octets, a: Msg, b: Msg)
    requires Begins(k, s, a) && Begins(k, s, b)
    ensures a == b
  {
    PrefixFree(a, b, s);
  }

  /** Of any octets: which end the session. */
  lemma BadExactlyWhen(s: Octets)
    ensures NextFrame(s).Bad? <==>
              s != [] && (s[0] < 2 || s[0] > 4
                          || exists m: Msg :: m.XferSegment? && m.WellFormed() && Enc(m) <= s
                                              && (m.segmentLength > 262144 || m.bundleLength > 262144))
  {
    forall m: Msg | m.XferSegment? && m.WellFormed() && Enc(m) <= s
      ensures s != [] && s[0] == 2 && Begins(KXferSegment, s, m)
    {
      assert Enc(m)[0] == 2 == s[0];
    }
    hide Enc;
    if s != [] && s[0] == 2 && exists m :: Begins(KXferSegment, s, m) {
      var m :| Begins(KXferSegment, s, m);
      forall x | Begins(KXferSegment, s, x) ensures x == m {
        BeginsOnce(KXferSegment, s, x, m);
      }
    }
  }

  /** And which hold a whole frame. */
  lemma GotExactlyWhen(s: Octets, f: Frame)
    ensures NextFrame(s) == Got(f) <==> f.Valid() && f.Wire() <= s
  {
    if NextFrame(s) == Got(f) {
      GotIsThere(s);
    }
    if f.Valid() && f.Wire() <= s {
      hide NextFrame, Frame.Valid, Frame.Wire;
      assert s == f.Wire() + s[|f.Wire()|..];
      ThereIsGot(f, s[|f.Wire()|..]);
    }
  }

  lemma BeginsLonger(k: Kind, s: Octets, t: Octets, m: Msg)
    requires Begins(k, s, m)
    ensures Begins(k, s + t, m)
  {}

  /** A frame that is found is there, octet for octet. */
  lemma GotIsThere(s: Octets)
    requires NextFrame(s).Got?
    ensures var f := NextFrame(s).frame; f.Valid() && f.Wire() <= s
  {
    hide Enc;
    if s[0] == XFER_SEGMENT {
      var m :| Begins(KXferSegment, s, m) && NextFrame(s).frame.hdr == m;
      var n := |Enc(m)|;
      assert s[..n] == Enc(m);
      assert s[..n + m.segmentLength] == Enc(m) + s[n..n + m.segmentLength];
    }
  }

  /** And one that is there is found. */
  lemma ThereIsGot(f: Frame, rest: Octets)
    requires f.Valid()
    ensures NextFrame(f.Wire() + rest) == Got(f)
  {
    var s := f.Wire() + rest;
    var k := if f.Reply? then (if f.m.XferAck? then KXferAck else KXferRefuse) else KXferSegment;
    var m := if f.Reply? then f.m else f.hdr;
    assert Enc(m)[0] == Tag(k) == s[0];
    assert Begins(k, s, m);
    forall x | Begins(k, s, x) ensures x == m {
      BeginsOnce(k, s, x, m);
    }
    hide Enc;
    if f.Seg? {
      assert s[|Enc(m)|..|Enc(m)| + |f.data|] == f.data;
    }
  }

  /** More octets do not change what has already been recognised. */
  lemma NextLonger(s: Octets, t: Octets)
    requires !NextFrame(s).NeedMore?
    ensures NextFrame(s + t) == NextFrame(s)
  {
    hide Enc;
    var k := if s[0] == XFER_SEGMENT then KXferSegment else if s[0] == XFER_ACK then KXferAck else KXferRefuse;
    if exists m :: Begins(k, s, m) {
      var m :| Begins(k, s, m);
      BeginsLonger(k, s, t, m);
      forall x | Begins(k, s + t, x) ensures x == m {
        BeginsOnce(k, s + t, x, m);
      }
      forall x | Begins(k, s, x) ensures x == m {
        BeginsOnce(k, s, x, m);
      }
      if NextFrame(s).Got? && m.XferSegment? {
        var n := |Enc(m)|;
        assert (s + t)[n..n + m.segmentLength] == s[n..n + m.segmentLength];
      }
    }
  }

  // ---- Reassembly -----------------------------------------------------------------------------

  /** The transfer being reassembled, the bundles handed up, and whether all has failed. */
  datatype Rcv = Rcv(active: bool, acc: Octets, bundleLen: nat, handed: seq<Octets>, failed: bool)

  const START := Rcv(false, [], 0, [], false)

  function Dead(handed: seq<Octets>): Rcv { Rcv(false, [], 0, handed, true) }

  /** xferReassemble and the replies that are consumed without action; accepts(n) says
      whether the callback takes the n-th bundle it is offered. */
  function Take(accepts: nat -> bool, st: Rcv, f: Frame): Rcv {
    if st.failed then st
    else if f.Reply? then st
    else if !f.hdr.XferSegment? then st
    else
      var u := if IsStart(f.hdr.flags) then st.(active := true, acc := [], bundleLen := f.hdr.bundleLength) else st;
      if !u.active || |u.acc| + |f.data| > u.bundleLen then Dead(st.handed)
      else
        var acc := u.acc + f.data;
        if !IsEnd(f.hdr.flags) then u.(acc := acc)
        else if |acc| != u.bundleLen then Dead(st.handed)
        else if !accepts(|st.handed|) then Dead(st.handed + [acc])
        else Rcv(false, [], 0, st.handed + [acc], false)
  }

  function TakeAll(accepts: nat -> bool, st: Rcv, frames: seq<Frame>): Rcv
    decreases |frames|
  {
    if frames == [] then st else TakeAll(accepts, Take(accepts, st, frames[0]), frames[1..])
  }

  lemma {:induction false} TakeAllSnoc(accepts: nat -> bool, st: Rcv, frames: seq<Frame>, f: Frame)
    ensures TakeAll(accepts, st, frames + [f]) == Take(accepts, TakeAll(accepts, st, frames), f)
    decreases |frames|
  {
    hide Take;
    if frames == [] {
      assert [f][1..] == [];
    } else {
      assert (frames + [f])[0] == frames[0] && (frames + [f])[1..] == frames[1..] + [f];
      TakeAllSnoc(accepts, Take(accepts, st, frames[0]), frames[1..], f);
    }
  }

  /** The data of some frames. */
  function DataOf(frames: seq<Frame>): seq<Octets> {
    seq(|frames|, k requires 0 <= k < |frames| => if frames[k].Seg? then frames[k].data else [])
  }

  /** Frames i to n are segments, and only the first has the START and only the last may have the
      END flag. */
  predicate OneTransfer(frames: seq<Frame>, i: nat, n: nat) {
    && i <= n < |frames|
    && (forall k :: i <= k <= n ==> frames[k].Seg? && frames[k].hdr.XferSegment?)
    && IsStart(frames[i].hdr.flags)
    && (forall k :: i < k <= n ==> !IsStart(frames[k].hdr.flags))
    && (forall k :: i <= k < n ==> !IsEnd(frames[k].hdr.flags))
  }

  /** What has been taken of the segments of a transfer that began in the state before. */
  predicate TakenSoFar(accepts: nat -> bool, before: Rcv, st: Rcv, data: Octets, len: nat, ended: bool) {
    if |data| > len || (ended && |data| != len) then st.failed && st.handed == before.handed
    else if !ended then st == Rcv(true, data, len, before.handed, false)
    else st.handed == before.handed + [data] && !st.active && st.failed == !accepts(|before.handed|)
  }

  /** Of any stream of frames, a transfer is handed up exactly when its segments add up to the
      length that its START declared; otherwise all fails as soon as they add up to more, or at the
      END if they add up to less. */
  lemma {:induction false} TransferTaken(accepts: nat -> bool, frames: seq<Frame>, i: nat, n: nat)
    requires OneTransfer(frames, i, n) && !TakeAll(accepts, START, frames[..i]).failed
    ensures TakenSoFar(accepts, TakeAll(accepts, START, frames[..i]), TakeAll(accepts, START, frames[..n + 1]),
                       Concat(DataOf(frames[i..n + 1])), frames[i].hdr.bundleLength, IsEnd(frames[n].hdr.flags))
    decreases n
  {
    hide TakeAll;
    assert frames[..n + 1] == frames[..n] + [frames[n]];
    TakeAllSnoc(accepts, START, frames[..n], frames[n]);
    if n == i {
      assert DataOf(frames[i..i + 1]) == [frames[i].data];
      ConcatSnoc([], frames[i].data);
      assert [] + [frames[i].data] == [frames[i].data];
    } else {
      TransferTaken(accepts, frames, i, n - 1);
      assert DataOf(frames[i..n + 1]) == DataOf(frames[i..n]) + [frames[n].data];
      ConcatSnoc(DataOf(frames[i..n]), frames[n].data);
    }
  }

  /** A segment that belongs to no transfer fails all. */
  lemma StrayFails(accepts: nat -> bool, st: Rcv, f: Frame)
    requires !st.active && f.Seg? && f.hdr.XferSegment? && !IsStart(f.hdr.flags)
    ensures Take(accepts, st, f).failed && Take(accepts, st, f).handed == st.handed
  {}

  datatype Parsed = Parsed(st: Rcv, rest: Octets)

  /** Everything that can be taken from a buffer is taken. */
  ghost function Parse(accepts: nat -> bool, st: Rcv, s: Octets): Parsed
    decreases |s|
  {
    if st.failed then Parsed(st, [])
    else
      match NextFrame(s)
      case NeedMore => Parsed(st, s)
      case Bad => Parsed(Dead(st.handed), [])
      case Got(f) =>
        GotIsThere(s);
        Parse(accepts, Take(accepts, st, f), s[|f.Wire()|..])
  }

  /** Taking what has arrived, and the rest when it comes, is the same as taking it all at
      once: where the stream is cut does not matter. */
  lemma {:induction false} ParseAppend(accepts: nat -> bool, st: Rcv, s: Octets, t: Octets)
    ensures var p := Parse(accepts, st, s);
            Parse(accepts, st, s + t) == Parse(accepts, p.st, p.rest + t)
    decreases |s|
  {
    hide Take;
    if !st.failed && !NextFrame(s).NeedMore? {
      NextLonger(s, t);
      if NextFrame(s).Got? {
        GotIsThere(s);
        var f := NextFrame(s).frame;
        var n := |f.Wire()|;
        assert (s + t)[n..] == s[n..] + t;
        ParseAppend(accepts, Take(accepts, st, f), s[n..], t);
      }
    }
  }

  /** A stream that arrives in pieces. */
  ghost function Feed(accepts: nat -> bool, p: Parsed, chunks: seq<Octets>): Parsed
    decreases |chunks|
  {
    if chunks == [] then p
    else Feed(accepts, Parse(accepts, p.st, p.rest + chunks[0]), chunks[1..])
  }

  lemma {:induction false} FeedIsParse(accepts: nat -> bool, st: Rcv, s: Octets, chunks: seq<Octets>)
    ensures Feed(accepts, Parse(accepts, st, s), chunks) == Parse(accepts, st, s + Concat(chunks))
    decreases |chunks|
  {
    hide Parse;
    if chunks == [] {
      assert s + [] == s;
    } else {
      ParseAppend(accepts, st, s, chunks[0]);
      FeedIsParse(accepts, st, s + chunks[0], chunks[1..]);
      assert s + chunks[0] + Concat(chunks[1..]) == s + Concat(chunks);
    }
  }

  ghost function WireOf(frames: seq<Frame>): Octets
    requires forall k :: 0 <= k < |frames| ==> frames[k].Made()
  {
    if frames == [] then [] else frames[0].Wire() + WireOf(frames[1..])
  }

  lemma ParseOne(accepts: nat -> bool, st: Rcv, f: Frame, more: Octets)
    requires f.Valid()
    ensures Parse(accepts, st, f.Wire() + more) == Parse(accepts, Take(accepts, st, f), more)
  {
    ThereIsGot(f, more);
    hide NextFrame;
    assert (f.Wire() + more)[|f.Wire()|..] == more;
  }

  /** Well-formed frames are recognised one by one. */
  lemma {:induction false} ParseFrames(accepts: nat -> bool, st: Rcv, frames: seq<Frame>, rest: Octets)
    requires forall k :: 0 <= k < |frames| ==> frames[k].Made() && frames[k].Valid()
    ensures Parse(accepts, st, WireOf(frames) + rest)
            == Parse(accepts, TakeAll(accepts, st, frames), rest)
    decreases |frames|
  {
    hide Parse, Take;
    if frames == [] {
      assert WireOf(frames) + rest == rest;
    } else {
      var f, more := frames[0], WireOf(frames[1..]) + rest;
      assert WireOf(frames) + rest == f.Wire() + more;
      ParseOne(accepts, st, f, more);
      ParseFrames(accepts, Take(accepts, st, f), frames[1..], rest);
    }
  }

  // ---- Framing --------------------------------------------------------------------------------

  /** The Segment MRU to cut to: the peer's, unless it is 0. */
  function EffectiveMru(peer: uint64): (mru: uint64)
    ensures mru > 0
  {
    if peer != 0 then peer else BUFSZ
  }

  /** frameBundle's segment count, in 64-bit arithmetic that may wrap around. */
  function SegmentCount(len: nat, mru: uint64): (n: nat)
    requires mru > 0 && len <= INT_MAX
    ensures n >= 1
  {
    var n := (len + mru - 1) % 0x1_0000_0000_0000_0000 / mru;
    if n < 1 then 1 else n
  }

  lemma DivFacts(a: nat, m: int)
    requires m > 0
    ensures 0 <= a / m && (a / m) * m <= a < (a / m) * m + m
    ensures a < m ==> a / m == 0
  {
    assert a == m * (a / m) + a % m;
  }

  lemma TimesAtLeast(q: nat, m: int)
    requires m >= 1
    ensures q * m >= q
  {
    assert q * m == q * (m - 1) + q;
  }

  /** Despite the wrap-around, that many segments are just enough. */
  lemma SegmentsJustEnough(len: nat, mru: uint64)
    requires mru > 0 && len <= INT_MAX
    ensures var n: int := SegmentCount(len, mru);
            n * mru >= len && (n > 1 ==> (n - 1) * mru < len) && (n > 1 ==> n <= len)
  {
    var m: int, n: int := mru, SegmentCount(len, mru);
    var sum := len + m - 1;
    var low := sum % 0x1_0000_0000_0000_0000;
    DivFacts(low, m);
    if sum >= 0x1_0000_0000_0000_0000 {
      assert low == sum - 0x1_0000_0000_0000_0000 < m;
    } else if n > 1 {
      assert low == sum && n == sum / m;
      assert (n - 1) * m == n * m - m;
      TimesAtLeast(n - 1, m);
    }
  }

  /** Where the k-th segment of a bundle starts. */
  function Cut(len: nat, mru: uint64, k: nat): nat {
    var at := k * mru;
    if at < len then at else len
  }

  /** The k-th of the n segments that frameBundle cuts. */
  function SegmentOf(bundle: Octets, mru: uint64, txid: uint64, n: nat, k: nat): Frame
    requires k < n && |bundle| <= INT_MAX
  {
    var from, to := Cut(|bundle|, mru, k), Cut(|bundle|, mru, k + 1);
    CutsGrow(|bundle|, mru, k);
    var data := bundle[from..to];
    var flags := (if k == 0 then 0x02 else 0) + (if k == n - 1 then 0x01 else 0);
    Seg(XferSegment(flags, k % 0x1_0000, n % 0x1_0000, txid, [], |data|, |bundle|, SVC_RELIABLE), data)
  }

  lemma CutsGrow(len: nat, mru: uint64, k: nat)
    ensures Cut(len, mru, k) <= Cut(len, mru, k + 1) <= len
    ensures Cut(len, mru, k + 1) - Cut(len, mru, k) <= mru
  {
    assert (k + 1) * mru == k * mru + mru;
  }

  function Frames(bundle: Octets, mru: uint64, txid: uint64): seq<Frame>
    requires mru > 0 && |bundle| <= INT_MAX
  {
    var n := SegmentCount(|bundle|, mru);
    seq(n, k requires 0 <= k < n => SegmentOf(bundle, mru, txid, n, k))
  }

  /** What the segments of a framed bundle say: they are numbered from 0, each knows how many
      there are, which transfer and how long a bundle they belong to, the first and the last are
      marked, and only the last may be shorter than the Segment MRU. The two counts go out as 16
      bits. */
  lemma FramesSay(bundle: Octets, mru: uint64, txid: uint64, k: nat)
    requires mru > 0 && |bundle| <= INT_MAX && k < |Frames(bundle, mru, txid)|
    ensures var frames := Frames(bundle, mru, txid);
            var h, n := frames[k].hdr, |frames|;
            && h.XferSegment? && h.segmentId == k % 0x1_0000 && h.totalSegments == n % 0x1_0000
            && h.transferId == txid && h.bundleLength == |bundle| && h.segmentLength == |frames[k].data|
            && IsStart(h.flags) == (k == 0) && IsEnd(h.flags) == (k == n - 1) && h.serviceMode == 0
            && |frames[k].data| <= mru && (k < n - 1 ==> |frames[k].data| == mru)
  {
    var n := SegmentCount(|bundle|, mru);
    SegmentsJustEnough(|bundle|, mru);
    CutsGrow(|bundle|, mru, k);
    if k < n - 1 {
      FullSegment(|bundle|, mru, n, k);
    }
    hide SegmentCount, Cut;
  }

  lemma FullSegment(len: nat, mru: uint64, n: nat, k: nat)
    requires k < n - 1 && (n - 1) * mru < len
    ensures Cut(len, mru, k + 1) - Cut(len, mru, k) == mru
  {
    assert (k + 1) * mru == k * mru + mru;
    assert (k + 1) * mru <= (n - 1) * mru;
  }

  /** Together they are the bundle. */
  lemma {:induction false} FramesCarryAll(bundle: Octets, mru: uint64, txid: uint64, k: nat)
    requires mru > 0 && |bundle| <= INT_MAX && k <= |Frames(bundle, mru, txid)|
    ensures Concat(DataOf(Frames(bundle, mru, txid)[..k])) == bundle[..Cut(|bundle|, mru, k)]
    ensures k == |Frames(bundle, mru, txid)| ==> Cut(|bundle|, mru, k) == |bundle|
  {
    SegmentsJustEnough(|bundle|, mru);
    var frames := Frames(bundle, mru, txid);
    if k > 0 {
      FramesCarryAll(bundle, mru, txid, k - 1);
      CutsGrow(|bundle|, mru, k - 1);
      var data := frames[k - 1].data;
      assert DataOf(frames[..k]) == DataOf(frames[..k - 1]) + [data];
      ConcatSnoc(DataOf(frames[..k - 1]), data);
      JoinSlices(bundle, 0, Cut(|bundle|, mru, k - 1), Cut(|bundle|, mru, k));
    } else {
      assert DataOf(frames[..0]) == [];
    }
  }

  lemma FramesAreMade(bundle: Octets, mru: uint64, txid: uint64)
    requires mru > 0 && |bundle| <= INT_MAX
    ensures forall k :: 0 <= k < |Frames(bundle, mru, txid)| ==> Frames(bundle, mru, txid)[k].Made()
  {}

  /** The octets of a framed bundle. */
  ghost function Framed(bundle: Octets, mru: uint64, txid: uint64): Octets
    requires mru > 0 && |bundle| <= INT_MAX
  {
    FramesAreMade(bundle, mru, txid);
    WireOf(Frames(bundle, mru, txid))
  }

  lemma FramesAreValid(bundle: Octets, mru: uint64, txid: uint64)
    requires mru > 0 && |bundle| <= BUFSZ
    ensures forall k :: 0 <= k < |Frames(bundle, mru, txid)| ==> Frames(bundle, mru, txid)[k].Valid()
  {
    FramesAreMade(bundle, mru, txid);
  }

  /** The receiver has the first k segments. */
  predicate Holds(st: Rcv, bundle: Octets, mru: uint64, k: nat) {
    && !st.failed
    && (k > 0 ==> st.active && st.acc == bundle[..Cut(|bundle|, mru, k)] && st.bundleLen == |bundle|)
  }

  lemma TakeOne(accepts: nat -> bool, st: Rcv, bundle: Octets, mru: uint64, txid: uint64, k: nat)
    requires mru > 0 && |bundle| <= BUFSZ && accepts(|st.handed|)
    requires k < SegmentCount(|bundle|, mru) && Holds(st, bundle, mru, k)
    ensures var n := SegmentCount(|bundle|, mru);
            var t := Take(accepts, st, SegmentOf(bundle, mru, txid, n, k));
            if k == n - 1 then t == Rcv(false, [], 0, st.handed + [bundle], false)
            else Holds(t, bundle, mru, k + 1) && t.handed == st.handed
  {
    SegmentsJustEnough(|bundle|, mru);
    hide SegmentCount;
    CutsGrow(|bundle|, mru, k);
    JoinSlices(bundle, 0, Cut(|bundle|, mru, k), Cut(|bundle|, mru, k + 1));
    assert Cut(|bundle|, mru, 0) == 0;
    assert k == SegmentCount(|bundle|, mru) - 1 ==> bundle[..Cut(|bundle|, mru, k + 1)] == bundle;
  }

  /** From the k-th segment on, the receiver completes the bundle and hands it up. */
  lemma {:induction false} TakeFrom(accepts: nat -> bool, st: Rcv, bundle: Octets, mru: uint64, txid: uint64, k: nat)
    requires mru > 0 && |bundle| <= BUFSZ && !st.failed && accepts(|st.handed|)
    requires k < SegmentCount(|bundle|, mru) && Holds(st, bundle, mru, k)
    ensures TakeAll(accepts, st, Frames(bundle, mru, txid)[k..])
            == Rcv(false, [], 0, st.handed + [bundle], false)
    decreases SegmentCount(|bundle|, mru) - k
  {
    var n, frames := SegmentCount(|bundle|, mru), Frames(bundle, mru, txid);
    var f := SegmentOf(bundle, mru, txid, n, k);
    assert frames[k..][0] == f && frames[k..][1..] == frames[k + 1..];
    TakeOne(accepts, st, bundle, mru, txid, k);
    if k == n - 1 {
      assert frames[k + 1..] == [];
    } else {
      hide Take, SegmentOf, SegmentCount, Holds;
      HoldsFacts(Take(accepts, st, f), bundle, mru, k + 1);
      TakeFrom(accepts, Take(accepts, st, f), bundle, mru, txid, k + 1);
    }
  }

  lemma HoldsFacts(st: Rcv, bundle: Octets, mru: uint64, k: nat)
    requires Holds(st, bundle, mru, k)
    ensures !st.failed
  {}

  /** A framed bundle is taken whole. */
  lemma ParseFramed(accepts: nat -> bool, st: Rcv, bundle: Octets, mru: uint64, txid: uint64, rest: Octets)
    requires mru > 0 && |bundle| <= BUFSZ && !st.failed && accepts(|st.handed|)
    ensures Parse(accepts, st, Framed(bundle, mru, txid) + rest)
            == Parse(accepts, Rcv(false, [], 0, st.handed + [bundle], false), rest)
  {
    hide Parse, TakeAll, Take;
    var frames := Frames(bundle, mru, txid);
    FramesAreValid(bundle, mru, txid);
    ParseFrames(accepts, st, frames, rest);
    TakeFrom(accepts, st, bundle, mru, txid, 0);
    assert frames[0..] == frames;
  }

  lemma NothingToParse(accepts: nat -> bool, st: Rcv)
    ensures Parse(accepts, st, []) == Parsed(st, [])
  {}

  /** A bundle to send, and what it is framed with. */
  datatype Outgoing = Outgoing(bundle: Octets, peerMru: uint64, txid: uint64)

  predicate Sendable(sends: seq<Outgoing>) {
    forall k :: 0 <= k < |sends| ==> |sends[k].bundle| <= BUFSZ
  }

  ghost function StreamOf(sends: seq<Outgoing>): Octets
    requires Sendable(sends)
  {
    if sends == [] then []
    else Framed(sends[0].bundle, EffectiveMru(sends[0].peerMru), sends[0].txid) + StreamOf(sends[1..])
  }

  function BundlesOf(sends: seq<Outgoing>): seq<Octets> {
    seq(|sends|, k requires 0 <= k < |sends| => sends[k].bundle)
  }

  lemma {:induction false} ParseStream(accepts: nat -> bool, handed: seq<Octets>, sends: seq<Outgoing>)
    requires Sendable(sends) && forall n :: accepts(n)
    ensures Parse(accepts, START.(handed := handed), StreamOf(sends))
            == Parsed(START.(handed := handed + BundlesOf(sends)), [])
    decreases |sends|
  {
    hide Parse, TakeAll, NextFrame, Frames, Framed;
    var st := START.(handed := handed);
    if sends == [] {
      NothingToParse(accepts, st);
      assert handed + BundlesOf(sends) == handed;
    } else {
      var x := sends[0];
      var mru := EffectiveMru(x.peerMru);
      ParseFramed(accepts, st, x.bundle, mru, x.txid, StreamOf(sends[1..]));
      ParseStream(accepts, handed + [x.bundle], sends[1..]);
      assert BundlesOf(sends) == [x.bundle] + BundlesOf(sends[1..]);
      assert handed + [x.bundle] + BundlesOf(sends[1..]) == handed + BundlesOf(sends);
    }
  }

  /** However the stream of framed bundles is cut into pieces, the callback receives exactly
      those bundles, in order, and nothing is left over. */
  lemma StreamRoundTrip(accepts: nat -> bool, sends: seq<Outgoing>, chunks: seq<Octets>)
    requires Sendable(sends) && (forall n :: accepts(n)) && Concat(chunks) == StreamOf(sends)
    ensures Feed(accepts, Parsed(START, []), chunks) == Parsed(START.(handed := BundlesOf(sends)), [])
  {
    hide Parse, Feed, StreamOf, BundlesOf, Concat, Sendable;
    NothingToParse(accepts, START);
    FeedIsParse(accepts, START, [], chunks);
    assert [] + Concat(chunks) == Concat(chunks);
    ParseStream(accepts, [], sends);
    assert [] + BundlesOf(sends) == BundlesOf(sends);
  }
}
