/** UDP segmentation offload: packets are gathered into one send that the kernel cuts up
    again, and a coalesced read is cut back into packets. */
module QuicUdp {
  import opened Octets

  const MAX_UDP := 1452
  const TX_MAX_PKTS := 44
  const TX_BATCH := MAX_UDP * TX_MAX_PKTS

  /** Cutting octets every n, the last piece being what is left. A cut size of 0 means one piece. */
  function Split(s: Octets, n: nat): (r: seq<Octets>)
    decreases |s|
  {
    if s == [] then []
    else if n == 0 || |s| <= n then [s]
    else [s[..n]] + Split(s[n..], n)
  }

  /** Packets that may travel as one train: all of the same size, but for the last. */
  predicate Train(packets: seq<Octets>, n: nat) {
    forall k :: 0 <= k < |packets| ==> 0 < |packets[k]| <= n && (k < |packets| - 1 ==> |packets[k]| == n)
  }

  /** Cutting a train at its segment size gives its packets back. */
  lemma {:induction false} SplitOfTrain(packets: seq<Octets>, n: nat)
    requires Train(packets, n)
    ensures Split(Concat(packets), n) == packets
  {
    if packets != [] {
      var first, rest := packets[0], Concat(packets[1..]);
      assert Train(packets[1..], n);
      SplitOfTrain(packets[1..], n);
      if |packets| == 1 {
        assert first + rest == first;
      } else {
        assert packets[1..][0] == packets[1] && rest != [];
        assert (first + rest)[..n] == first && (first + rest)[n..] == rest;
      }
    }
  }

  /** Nothing is lost by cutting. */
  lemma {:induction false} ConcatOfSplit(s: Octets, n: nat)
    ensures Concat(Split(s, n)) == s
    decreases |s|
  {
    if s != [] {
      if n == 0 || |s| <= n {
        ConcatSnoc([], s);
        assert [] + [s] == [s];
      } else {
        ConcatOfSplit(s[n..], n);
        var rest := Split(s[n..], n);
        hide Split;
        assert ([s[..n]] + rest)[1..] == rest;
      }
    }
  }

  /** The first packet of what is left from off on, and the rest. */
  lemma SplitStep(s: Octets, off: nat, size: nat)
    requires off < |s| && size > 0
    ensures var l := if |s| - off < size then |s| - off else size;
            Split(s[off..], size) == [s[off..off + l]] + Split(s[off + l..], size)
  {
    var l := if |s| - off < size then |s| - off else size;
    assert s[off..][..l] == s[off..off + l] && s[off..][l..] == s[off + l..];
    if |s| - off <= size {
      assert s[off + l..] == [] && s[off..off + l] == s[off..];
      assert [s[off..]] + Split([], size) == [s[off..]];
    }
  }

  lemma Regroup<T>(done: seq<T>, x: T, rest: seq<T>, all: seq<T>)
    requires done + ([x] + rest) == all
    ensures done + [x] + rest == all && done + [x] <= all && done < all
  {
    assert all == (done + [x]) + rest;
  }

  /** Equal packets end to end. */
  lemma {:induction false} ConcatLength(packets: seq<Octets>, n: nat)
    requires forall k :: 0 <= k < |packets| ==> |packets[k]| == n
    ensures |Concat(packets)| == |packets| * n
  {
    if packets != [] {
      ConcatLength(packets[1..], n);
      assert |packets| * n == (|packets| - 1) * n + n;
    }
  }

  /** Cutting at the whole length is not cutting. */
  lemma SplitOne(s: Octets)
    ensures Split(s, 0) == Split(s, |s|)
  {}

  /** done is what has been cut off so far, up to off. */
  predicate CutSoFar(done: seq<Octets>, s: Octets, off: nat, n: nat) {
    off <= |s| && done + Split(s[off..], n) == Split(s, n)
  }

  lemma CutStart(s: Octets, n: nat)
    ensures CutSoFar([], s, 0, n)
  {
    hide Split;
    assert s[0..] == s;
    assert [] + Split(s, n) == Split(s, n);
  }

  lemma CutOn(done: seq<Octets>, s: Octets, off: nat, n: nat)
    requires CutSoFar(done, s, off, n) && off < |s| && n > 0
    ensures var l := if |s| - off < n then |s| - off else n;
            var piece := s[off..off + l];
            && CutSoFar(done + [piece], s, off + l, n)
            && done + [piece] <= Split(s, n) && done < Split(s, n)
  {
    SplitStep(s, off, n);
    hide Split;
    var l := if |s| - off < n then |s| - off else n;
    Regroup(done, s[off..off + l], Split(s[off + l..], n), Split(s, n));
  }

  lemma CutDone(done: seq<Octets>, s: Octets, n: nat)
    requires CutSoFar(done, s, |s|, n)
    ensures done == Split(s, n) && Concat(done) == s
  {
    assert Split(s[|s|..], n) == [];
    ConcatOfSplit(s, n);
    hide Split;
    assert done + [] == done;
  }

  /** quicUdpForEachPacket: the callback is given the packets of the read until it refuses one,
      and all of them are all of the read. */
  method ForEachPacket(buf: Octets, seg: int, accepts: nat -> bool) returns (given: seq<Octets>, ok: bool)
    ensures var all := Split(buf, if seg > 0 then seg else |buf|);
            && given <= all
            && (ok ==> given == all && Concat(given) == buf && forall k :: 0 <= k < |all| ==> accepts(k))
            && (!ok ==> given != [] && !accepts(|given| - 1))
  {
    hide Split, CutSoFar;
    var segLen := if seg > 0 then seg else |buf|;
    var off: nat := 0;
    given := [];
    CutStart(buf, segLen);
    while off < |buf|
      invariant off <= |buf| && CutSoFar(given, buf, off, segLen)
      invariant forall k :: 0 <= k < |given| ==> accepts(k)
    {
      var pktLen := if |buf| - off < segLen then |buf| - off else segLen;
      CutOn(given, buf, off, segLen);
      given := given + [buf[off..off + pktLen]];
      if !accepts(|given| - 1) {
        return given, false;
      }
      off := off + pktLen;
    }
    CutDone(given, buf, segLen);
    ok := true;
  }

  // ---- The transmit batch ------------------------------------------------------------------------

  /** What a system call for sending answers. */
  datatype Answer = Sent | WouldBlock | Failed

  class TxBatch {
    const answers: nat -> Answer // the answer to the n-th system call
    var calls: nat
    var useGso: bool
    var gsoSize: nat
    var pktCount: nat
    var pos: nat
    const buf: array<uint8>
    var wire: seq<Octets>          // the datagrams that left, in order
    ghost var pending: seq<Octets> // the packets gathered since the last flush

    /** The batch is a train of full-sized packets that fits the buffer. */
    ghost predicate Valid()
      reads this, buf
    {
      && buf.Length == TX_BATCH
      && pktCount == |pending| < TX_MAX_PKTS
      && gsoSize <= MAX_UDP && (pktCount == 0 ==> gsoSize == 0)
      && (forall k :: 0 <= k < |pending| ==> 0 < |pending[k]| == gsoSize)
      && pos <= TX_BATCH
      && buf[..pos] == Concat(pending)
    }

    constructor (answers: nat -> Answer, useGso: bool)
      ensures Valid() && pending == [] && wire == [] && fresh(buf) && this.answers == answers
    {
      this.answers, this.useGso := answers, useGso;
      calls, gsoSize, pktCount, pos := 0, 0, 0, 0;
      buf := new uint8[TX_BATCH];
      wire, pending := [], [];
    }

    /** The result of a send that made the system calls from `from` on: it stopped at the first that
        did not succeed, with 1 if that would have blocked and -1 if it failed. */
    ghost predicate Says(rc: int, from: nat)
      reads this`calls
    {
      if rc == 0 then calls >= from
      else
        calls > from && !answers(calls - 1).Sent? && rc == if answers(calls - 1).WouldBlock? then 1 else -1
    }

    /** sendto */
    method SendTo(datagram: Octets) returns (a: Answer)
      modifies this`calls, this`wire
      ensures a == answers(old(calls)) && calls == old(calls) + 1
      ensures wire == old(wire) + if a.Sent? then [datagram] else []
    {
      a := answers(calls);
      calls := calls + 1;
      if a.Sent? {
        wire := wire + [datagram];
      }
    }

    /** sendmsg with a segment size: the kernel cuts what it is given. */
    method SendSegmented(s: Octets, gso: nat) returns (a: Answer)
      modifies this`calls, this`wire
      ensures a == answers(old(calls)) && calls == old(calls) + 1
      ensures wire == old(wire) + if a.Sent? then Split(s, gso) else []
    {
      a := answers(calls);
      calls := calls + 1;
      if a.Sent? {
        wire := wire + Split(s, gso);
      }
    }

    /** sendPerDatagram: one system call for each datagram, until one does not succeed. */
    method SendPerDatagram(s: Octets, gso: nat) returns (rc: int)
      modifies this`calls, this`wire
      ensures Says(rc, old(calls))
      ensures |wire| == |old(wire)| + calls - old(calls) - if rc == 0 then 0 else 1
      ensures rc == 0 ==> wire == old(wire) + Split(s, gso)
      ensures rc != 0 ==> old(wire) <= wire < old(wire) + Split(s, gso)
    {
      hide Split, CutSoFar;
      var size := if gso == 0 then |s| else gso;
      var off := 0;
      ghost var done: seq<Octets> := [];
      SplitOne(s);
      CutStart(s, size);
      assert wire + [] == wire;
      while off < |s|
        invariant off <= |s| && CutSoFar(done, s, off, size)
        invariant wire == old(wire) + done && calls == old(calls) + |done|
      {
        var l := if |s| - off < size then |s| - off else size;
        CutOn(done, s, off, size);
        var a := SendTo(s[off..off + l]);
        if !a.Sent? {
          PrefixUnder(old(wire), done, Split(s, gso));
          return if a.WouldBlock? then 1 else -1;
        }
        Associate3(old(wire), done, [s[off..off + l]]);
        done := done + [s[off..off + l]];
        off := off + l;
      }
      CutDone(done, s, size);
      rc := 0;
    }

    lemma PrefixUnder<T>(w: seq<T>, a: seq<T>, b: seq<T>)
      requires a < b
      ensures w <= w + a < w + b
    {
      assert w + b == w + a + b[|a|..];
    }

    /** sendBatch: offload is given up for good when the kernel refuses it. */
    method SendBatch(s: Octets, gso: nat) returns (rc: int)
      modifies this`calls, this`wire, this`useGso
      ensures Says(rc, old(calls))
      ensures useGso == (old(useGso) && !(gso != 0 && |s| > gso && answers(old(calls)).Failed?))
      ensures rc == 0 ==> wire == old(wire) + Split(s, gso)
      ensures rc != 0 ==> old(wire) <= wire < old(wire) + Split(s, gso)
    {
      if |s| == 0 {
        return 0;
      }
      if useGso && gso != 0 && |s| > gso {
        var a := SendSegmented(s, gso);
        if a.Sent? {
          return 0;
        }
        if a.WouldBlock? {
          return 1;
        }
        useGso := false;
      }
      rc := SendPerDatagram(s, gso);
    }

    /** quicTxBatchFlush, for a batch that is a train. */
    method Flush(ghost train: seq<Octets>) returns (rc: int)
      requires buf.Length == TX_BATCH && pos <= TX_BATCH
      requires Train(train, gsoSize) && buf[..pos] == Concat(train) && |train| <= TX_MAX_PKTS
      modifies this
      ensures rc == 0 ==> Valid() && pending == [] && wire == old(wire) + train
      ensures rc != 0 ==> old(wire) <= wire < old(wire) + train
      ensures Says(rc, old(calls))
    {
      SplitOfTrain(train, gsoSize);
      rc := SendBatch(buf[..pos], gsoSize);
      if rc == 0 {
        pos, pktCount, gsoSize := 0, 0, 0;
        pending := [];
      }
    }

    lemma PendingIsTrain()
      requires Valid()
      ensures Train(pending, gsoSize)
    {}

    /** There is always room for one more packet of the largest size. */
    method Reserve() returns (rc: int)
      requires Valid()
      modifies this
      ensures rc == 0 && Valid() && pending == old(pending) && wire == old(wire) && calls == old(calls)
      ensures pos + MAX_UDP <= TX_BATCH
    {
      ConcatLength(pending, gsoSize);
      ProductMonotone(pktCount, TX_MAX_PKTS - 1, gsoSize, MAX_UDP);
      rc := 0;
      if buf.Length - pos < MAX_UDP {
        assert false;
      }
    }

    function Limit(): (l: nat)
      reads this
    {
      if pktCount == 0 then MAX_UDP else gsoSize
    }

    /** The producer writes a packet at the tail. */
    method Produce(packet: Octets)
      requires Valid() && pos + |packet| <= TX_BATCH
      modifies buf
      ensures Valid() && buf[pos..pos + |packet|] == packet
    {
      forall i | 0 <= i < |packet| {
        buf[pos + i] := packet[i];
      }
      assert buf[..pos] == old(buf[..pos]);
    }

    /** quicTxBatchCommit: records the packet at the tail, and flushes when the train ends. */
    method Commit(nwrite: nat) returns (rc: int)
      requires Valid() && 0 < nwrite <= Limit() && pos + nwrite <= TX_BATCH
      modifies this
      ensures rc == 0 ==> Valid() && wire + pending == old(wire) + old(pending) + [old(buf[pos..pos + nwrite])]
      ensures rc != 0 ==> old(wire) <= wire < old(wire) + old(pending) + [old(buf[pos..pos + nwrite])]
      ensures Says(rc, old(calls))
    {
      hide Concat;
      ghost var packet := buf[pos..pos + nwrite];
      ghost var train := pending + [packet];
      ConcatSnoc(pending, packet);
      assert buf[..pos + nwrite] == buf[..pos] + packet;
      pos := pos + nwrite;
      if pktCount == 0 {
        gsoSize := nwrite;
      }
      pktCount := pktCount + 1;
      assert old(wire) + train == old(wire) + old(pending) + [packet];
      if nwrite < gsoSize || pktCount >= TX_MAX_PKTS {
        rc := Flush(train);
        assert wire + [] == wire;
      } else {
        pending := train;
        rc := 0;
      }
    }
  }

  lemma ProductMonotone(a: nat, b: nat, c: nat, d: nat)
    requires a <= b && c <= d
    ensures a * c <= b * d
  {
    assert a * c <= b * c;
    assert b * c <= b * d;
  }

  /** The loop of writeConn: every packet the producer makes is committed, until it has no
      more. When all goes well exactly those packets leave, in order; when a send blocks or
      fails the batch is dropped and what left is a proper part of them. */
  method WriteConn(answers: nat -> Answer, useGso: bool, producer: (nat, nat) -> Octets, bound: nat)
    returns (rc: int, produced: seq<Octets>, wire: seq<Octets>)
    requires Bounded(producer, bound)
    ensures rc == 0 ==> wire == produced
    ensures rc != 0 ==> wire < produced
    ensures Made(producer, produced)
    ensures rc != 0 ==> exists k: nat :: !answers(k).Sent? && rc == if answers(k).WouldBlock? then 1 else -1
    ensures rc == 0 ==> Dry(producer, |produced|)
  {
    var batch := new TxBatch(answers, useGso);
    produced := [];
    var i := 0;
    while true
      invariant batch.Valid() && fresh(batch) && fresh(batch.buf)
      invariant i == |produced| <= bound && Made(producer, produced)
      invariant batch.wire + batch.pending == produced && batch.answers == answers
      decreases bound - i
    {
      rc := batch.Reserve();
      var packet := producer(i, batch.Limit());
      assert packet == [] || i < bound;
      assert |packet| <= batch.Limit();
      if |packet| == 0 {
        batch.PendingIsTrain();
        rc := batch.Flush(batch.pending);
        wire := batch.wire;
        assert Dry(producer, |produced|);
        return;
      }
      batch.Produce(packet);
      MadeOneMore(producer, produced, batch.Limit());
      produced := produced + [packet];
      rc := batch.Commit(|packet|);
      i := i + 1;
      if rc != 0 {
        wire := batch.wire;
        return;
      }
    }
  }

  /** The producer has no packet to follow the first n. */
  ghost predicate Dry(producer: (nat, nat) -> Octets, n: nat) {
    exists limit: nat {:trigger producer(n, limit)} :: limit <= MAX_UDP && producer(n, limit) == []
  }

  /** The producer keeps to the limit it is given, and runs dry. */
  ghost predicate Bounded(producer: (nat, nat) -> Octets, bound: nat) {
    && (forall i: nat, limit: nat :: |producer(i, limit)| <= limit)
    && (forall i: nat, limit: nat :: i >= bound ==> producer(i, limit) == [])
  }

  /** The k-th packet is what the producer made, for some limit within the largest datagram. */
  ghost predicate MadeAt(producer: (nat, nat) -> Octets, k: nat, packet: Octets) {
    exists limit: nat :: limit <= MAX_UDP && packet == producer(k, limit)
  }

  ghost predicate Made(producer: (nat, nat) -> Octets, produced: seq<Octets>) {
    forall k :: 0 <= k < |produced| ==> MadeAt(producer, k, produced[k])
  }

  lemma MadeOneMore(producer: (nat, nat) -> Octets, produced: seq<Octets>, limit: nat)
    requires Made(producer, produced) && limit <= MAX_UDP
    ensures Made(producer, produced + [producer(|produced|, limit)])
  {
    assert MadeAt(producer, |produced|, producer(|produced|, limit));
  }
}
