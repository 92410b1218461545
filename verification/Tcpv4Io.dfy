/** Reading ahead on a session's stream, and writing several buffers at once. The stream
    returns what it likes, in pieces of any size. */
module Tcpv4Io {
  import opened Octets
  import opened Tcpv4Tls

  const RXBUF_SIZE := 64 * 1024
  const RXBUF_DIRECT := 4096

  class Reading {
    const stream: Octets         // everything the peer will ever send
    const answers: nat -> int    // what the n-th read is ready to return; below 0 it fails
    var calls: nat
    var taken: nat               // octets taken off the stream so far
    var buffered: bool
    const rxBuf: array<uint8>
    var rxBufLen: nat
    var rxBufOff: nat

    /** What is left in the buffer are the last octets taken off the stream. */
    ghost predicate Valid()
      reads this, rxBuf
    {
      && rxBuf.Length == RXBUF_SIZE
      && rxBufOff <= rxBufLen <= RXBUF_SIZE && rxBufLen - rxBufOff <= taken <= |stream|
      && (!buffered ==> rxBufLen == rxBufOff)
      && rxBuf[rxBufOff..rxBufLen] == stream[taken - (rxBufLen - rxBufOff)..taken]
    }

    /** How much of the stream the callers have been given. */
    ghost function Given(): nat
      requires Valid()
      reads this, rxBuf
    {
      taken - (rxBufLen - rxBufOff)
    }

    /** Every read returns something while there is something. */
    ghost predicate Healthy() { forall n: nat :: answers(n) > 0 }

    constructor (stream: Octets, answers: nat -> int)
      ensures Valid() && Given() == 0 && !buffered && this.stream == stream && this.answers == answers
      ensures fresh(rxBuf)
    {
      this.stream, this.answers := stream, answers;
      calls, taken, buffered, rxBufLen, rxBufOff := 0, 0, false, 0, 0;
      rxBuf := new uint8[RXBUF_SIZE];
    }

    /** One read of the stream: a positive number of octets, up to cap, or none (the end),
        or failure. */
    method RecvSome(cap: nat) returns (n: int, got: Octets)
      requires taken <= |stream| && cap > 0
      modifies this`calls, this`taken
      ensures taken <= |stream|
      ensures n > 0 ==> n == |got| <= cap && taken == old(taken) + n && got == stream[old(taken)..taken]
      ensures n <= 0 ==> taken == old(taken) && got == [] && (Healthy() ==> n == 0 && taken == |stream|)
    {
      var ready := answers(calls);
      calls := calls + 1;
      if ready < 0 {
        return -1, [];
      }
      n := if ready < cap then ready else cap;
      if |stream| - taken < n {
        n := |stream| - taken;
      }
      got := stream[taken..taken + n];
      taken := taken + n;
    }

    /** connRecvExactly: reads until it has len octets. */
    method RecvExactly(len: nat) returns (n: int, got: Octets)
      requires taken <= |stream|
      modifies this`calls, this`taken
      ensures old(taken) <= taken <= |stream|
      ensures n == len || n == 0 || n == -1
      ensures n == len ==> got == stream[old(taken)..taken] && |got| == len
      ensures n != len ==> len > 0 && (Healthy() ==> n == 0 && |stream| - old(taken) < len)
    {
      got := [];
      while |got| < len
        invariant old(taken) <= taken <= |stream| && |got| <= len
        invariant got == stream[old(taken)..taken]
        decreases len - |got|
      {
        var some: Octets;
        n, some := RecvSome(len - |got|);
        if n <= 0 {
          n := if n == 0 then 0 else -1;
          return;
        }
        got := got + some;
      }
      n := |got|;
    }

    /** tcpv4ConnStartBuffering */
    method StartBuffering()
      requires Valid()
      modifies this`buffered, this`rxBufLen, this`rxBufOff
      ensures Valid() && buffered && Given() == old(Given())
    {
      if !buffered {
        buffered, rxBufLen, rxBufOff := true, 0, 0;
      }
    }

    /** What the buffer has of the len octets that are asked for. */
    method FromBuffer(len: nat) returns (got: Octets)
      requires Valid()
      modifies this`rxBufOff
      ensures Valid() && Given() == old(Given()) + |got| && |got| <= len
      ensures got == stream[old(Given())..Given()]
      ensures |got| < len ==> rxBufOff == rxBufLen
    {
      var avail := rxBufLen - rxBufOff;
      var n := if avail < len then avail else len;
      got := rxBuf[rxBufOff..rxBufOff + n];
      HeadOfSlice(rxBuf[..], rxBufOff, rxBufLen, n);
      TailOfSlice(rxBuf[..], rxBufOff, rxBufLen, n);
      HeadOfSlice(stream, Given(), taken, n);
      TailOfSlice(stream, Given(), taken, n);
      rxBufOff := rxBufOff + n;
    }

    /** The buffer is filled by one read, and gives what is still wanted. */
    method Refill(want: nat) returns (n: int, got: Octets)
      requires Valid() && buffered && rxBufOff == rxBufLen && want > 0
      modifies this`calls, this`taken, this`rxBufLen, this`rxBufOff, rxBuf
      ensures Valid() && buffered
      ensures n > 0 ==> 0 < |got| <= want && Given() == old(Given()) + |got| && got == stream[old(Given())..Given()]
      ensures n > 0 && |got| < want ==> rxBufOff == rxBufLen
      ensures n <= 0 ==> got == [] && Given() == old(Given()) && (Healthy() ==> n == 0 && Given() == |stream|)
    {
      var some: Octets;
      n, some := RecvSome(RXBUF_SIZE);
      got := [];
      if n > 0 {
        forall i | 0 <= i < n {
          rxBuf[i] := some[i];
        }
        assert rxBuf[..n] == some;
        rxBufLen, rxBufOff := n, 0;
        got := FromBuffer(want);
      }
    }

    /** tcpv4ConnRecv: exactly the next len octets of the stream, whichever way they come.
        A stream that ends inside what was asked for, behind buffered octets, has failed. */
    method Recv(len: nat) returns (n: int, got: Octets)
      requires Valid()
      modifies this, rxBuf
      ensures Valid() && (old(buffered) ==> buffered)
      ensures n == len || n == 0 || n == -1
      ensures n == len ==> Given() == old(Given()) + len && got == stream[old(Given())..Given()]
      ensures n != len && Healthy() ==> |stream| - old(Given()) < len
    {
      if !buffered {
        n, got := RecvExactly(len);
        return;
      }
      got := FromBuffer(len);
      if |got| == len {
        return len, got;
      }
      var rest: Octets;
      n, rest := RecvBeyond(len - |got|);
      JoinSlices(stream, old(Given()), old(Given()) + |got|, Given());
      if n == len - |got| {
        n, got := len, got + rest;
      } else if |got| > 0 && n == 0 {
        n := -1;
      }
    }

    /** What the buffer does not have: a large rest is read past it. */
    method RecvBeyond(len: nat) returns (n: int, got: Octets)
      requires Valid() && buffered && rxBufOff == rxBufLen && len > 0
      modifies this`calls, this`taken, this`rxBufLen, this`rxBufOff, rxBuf
      ensures Valid() && Given() >= old(Given())
      ensures n == len || n == 0 || n == -1
      ensures n == len ==> Given() == old(Given()) + len && got == stream[old(Given())..Given()]
      ensures n != len && Healthy() ==> |stream| - old(Given()) < len
    {
      if len >= RXBUF_DIRECT {
        n, got := RecvExactly(len);
      } else {
        n, got := RecvBuffered(len);
      }
    }

    /** The rest of a read, served by refilling the buffer; got is empty to begin with. */
    method RecvBuffered(len: nat) returns (n: int, got: Octets)
      requires Valid() && buffered && rxBufOff == rxBufLen && len > 0
      modifies this`calls, this`taken, this`rxBufLen, this`rxBufOff, rxBuf
      ensures Valid() && Given() >= old(Given())
      ensures n == len || n == 0 || n == -1
      ensures n == len ==> Given() == old(Given()) + len && got == stream[old(Given())..Given()]
      ensures n != len && Healthy() ==> |stream| - old(Given()) < len
    {
      got := [];
      ghost var start := Given();
      while |got| < len
        invariant Valid() && buffered && |got| <= len
        invariant Given() == start + |got| && got == stream[start..Given()]
        invariant |got| < len ==> rxBufOff == rxBufLen
        decreases len - |got|
      {
        var more: Octets;
        n, more := Refill(len - |got|);
        if n <= 0 {
          n := if |got| > 0 || n < 0 then -1 else 0;
          return;
        }
        got := got + more;
      }
      n := len;
    }
  }

  // ---- Writing -------------------------------------------------------------------------------------

  function Total(iov: seq<Octets>): nat { |Concat(iov)| }

  lemma ConcatFrom(iov: seq<Octets>, i: nat)
    requires i < |iov|
    ensures Concat(iov[i..]) == iov[i] + Concat(iov[i + 1..])
  {
    assert iov[i..][1..] == iov[i + 1..];
  }

  lemma FirstPart(iov: seq<Octets>, i: nat, j: nat)
    requires i <= j <= |iov|
    ensures Concat(iov[..i]) <= Concat(iov[..j])
  {
    assert iov[..i] + iov[i..j] == iov[..j];
    ConcatAppend(iov[..i], iov[i..j]);
  }

  /** More of what is left has been sent. */
  lemma SentOn<T>(before: seq<T>, all: seq<T>, done: nat, sent: nat)
    requires done + sent <= |all|
    ensures before + all[..done] + all[done..][..sent] == before + all[..done + sent]
    ensures all[done..][sent..] == all[done + sent..]
  {
    HeadOfSlice(all, done, |all|, sent);
    JoinSlices(all, 0, done, done + sent);
    Associate3(before, all[..done], all[done..done + sent]);
    TailOfSlice(all, done, |all|, sent);
  }

  class Writing {
    const tls: TlsConn?          // null on a plain socket
    const answers: seq<Written>  // what the writevs of this run do
    var calls: nat
    ghost var wire: Octets       // what the socket has taken

    ghost const Repr: set<object> := {this} + (if tls == null then {} else {tls, tls.corkBuf})

    ghost predicate Valid()
      reads Repr
    {
      calls <= |answers| && (tls != null ==> tls.Valid() && !tls.corked && tls.corkLen == 0)
    }

    /** What has left, through TLS or not. */
    ghost function Out(): Octets
      reads Repr
    {
      if tls == null then wire else tls.wire
    }

    constructor (answers: seq<Written>, tls: TlsConn?)
      requires tls != null ==> tls.Valid() && !tls.corked && tls.corkLen == 0
      ensures Valid() && this.answers == answers && this.tls == tls
      ensures Out() == if tls == null then [] else tls.wire
    {
      this.answers, this.tls, calls, wire := answers, tls, 0, [];
    }

    method Writev(iov: array<Octets>, first: nat, count: nat) returns (sent: int)
      requires first <= count <= iov.Length && calls < |answers|
      modifies this
      ensures calls == old(calls) + 1
      ensures sent >= -2
      ensures sent >= 0 ==> sent <= Total(iov[first..count]) && wire == old(wire) + Concat(iov[first..count])[..sent]
      ensures sent < 0 ==> wire == old(wire)
    {
      var a := answers[calls];
      calls := calls + 1;
      match a
      case Interrupted => sent := -2;
      case Failed => sent := -1;
      case Took(taken) =>
        var all := Concat(iov[first..count]);
        sent := if taken < |all| then taken else |all|;
        wire := wire + all[..sent];
    }

    /** Drops what has been sent off the front of the vector. */
    method Advance(iov: array<Octets>, start: nat, count: nat, taken: nat) returns (first: nat)
      requires start <= count <= iov.Length && taken < Total(iov[start..count])
      modifies iov
      ensures start <= first < count
      ensures Concat(iov[first..count]) == old(Concat(iov[start..count]))[taken..]
      ensures iov[count..] == old(iov[count..])
    {
      ghost var all := Concat(iov[start..count]);
      first := start;
      var sent := taken;
      while sent > 0 && sent >= |iov[first]|
        invariant start <= first < count && 0 <= sent <= taken
        invariant iov[..] == old(iov[..])
        invariant sent < Total(iov[first..count])
        invariant Concat(iov[first..count])[sent..] == all[taken..]
        decreases count - first
      {
        ConcatFrom(iov[..count], first);
        assert iov[..count][first..] == iov[first..count] && iov[..count][first + 1..] == iov[first + 1..count];
        var size := |iov[first]|;
        assert Concat(iov[first..count])[sent..] == Concat(iov[first + 1..count])[sent - size..];
        sent := sent - size;
        first := first + 1;
      }
      if sent > 0 {
        DropFront(iov, first, count, sent);
      }
    }

    /** Part of the first buffer has been sent. */
    method DropFront(iov: array<Octets>, first: nat, count: nat, sent: nat)
      requires first < count <= iov.Length && sent <= |iov[first]|
      modifies iov
      ensures Concat(iov[first..count]) == old(Concat(iov[first..count]))[sent..]
      ensures iov[count..] == old(iov[count..])
    {
      ConcatFrom(iov[..count], first);
      assert iov[..count][first..] == iov[first..count];
      ghost var before, rest := Concat(iov[first..count]), iov[first + 1..count];
      assert iov[..count][first + 1..] == rest;
      iov[first] := iov[first][sent..];
      ConcatFrom(iov[..count], first);
      assert iov[..count][first..] == iov[first..count] && iov[..count][first + 1..] == rest;
      assert Concat(iov[first..count]) == before[sent..];
    }

    /** tcpv4ConnSendIov: the vector goes out whole and in order, or a first part of it does
        and the session has failed. */
    method SendIov(iov: array<Octets>, count: nat) returns (rc: int)
      requires Valid() && count <= iov.Length
      modifies Repr, iov
      ensures Valid() && (rc == 0 || rc == -1)
      ensures rc == 0 ==> Out() == old(Out()) + old(Concat(iov[..count]))
      ensures rc == -1 ==> old(Out()) <= Out() <= old(Out()) + old(Concat(iov[..count]))
      ensures iov[count..] == old(iov[count..])
    {
      if count < 1 {
        assert iov[..count] == [];
        return 0;
      }
      if tls != null {
        rc := SendCorked(iov, count);
      } else {
        rc := SendVector(iov, count);
      }
    }

    /** Under TLS: the buffers that are not empty are sent one by one, corked together. */
    method SendCorked(iov: array<Octets>, count: nat) returns (rc: int)
      requires Valid() && tls != null && count <= iov.Length
      modifies Repr
      ensures Valid() && (rc == 0 || rc == -1)
      ensures rc == 0 ==> tls.wire == old(tls.wire) + Concat(iov[..count])
      ensures rc == -1 ==> old(tls.wire) <= tls.wire <= old(tls.wire) + Concat(iov[..count])
    {
      ghost var before := tls.wire;
      tls.Cork();
      rc := 0;
      var i := 0;
      assert tls.Sent() == before + Concat(iov[..0]);
      while i < count
        invariant calls <= |answers| && i <= count && tls.Valid() && tls.corked && before <= tls.wire && rc == 0
        invariant tls.Sent() == before + Concat(iov[..i])
      {
        assert iov[..i + 1] == iov[..i] + [iov[i]];
        ConcatSnoc(iov[..i], iov[i]);
        if |iov[i]| > 0 {
          var ok := tls.Send(iov[i]);
          if !ok {
            rc := -1;
            assert tls.wire <= before + Concat(iov[..i + 1]);
            FirstPart(iov[..], i + 1, count);
            break;
          }
        }
        i := i + 1;
      }
      var ok := tls.Uncork();
      if !ok {
        rc := -1;
      }
    }

    /** On a socket: whatever part each write takes, the next begins behind it. */
    method SendVector(iov: array<Octets>, count: nat) returns (rc: int)
      requires calls <= |answers| && count <= iov.Length
      modifies this, iov
      ensures calls <= |answers| && (rc == 0 || rc == -1)
      ensures rc == 0 ==> wire == old(wire) + old(Concat(iov[..count]))
      ensures rc == -1 ==> old(wire) <= wire <= old(wire) + old(Concat(iov[..count]))
      ensures iov[count..] == old(iov[count..])
    {
      ghost var all, before := Concat(iov[..count]), wire;
      assert iov[0..count] == iov[..count];
      hide Concat;
      var first: nat, done: nat := 0, 0;
      var remaining := TotalOf(iov, count);
      while remaining > 0
        invariant calls <= |answers| && first <= count
        invariant done <= |all| && wire == before + all[..done]
        invariant remaining == |all| - done
        invariant remaining > 0 ==> Concat(iov[first..count]) == all[done..]
        invariant iov[count..] == old(iov[count..])
        decreases |answers| - calls
      {
        if calls == |answers| {
          return -1;
        }
        var sent := Writev(iov, first, count);
        if sent == -1 {
          return -1;
        }
        if sent >= 0 {
          SentOn(before, all, done, sent);
          remaining := remaining - sent;
          if remaining > 0 {
            first := Advance(iov, first, count, sent);
          }
          done := done + sent;
        }
      }
      rc := 0;
    }

    method TotalOf(iov: array<Octets>, count: nat) returns (n: nat)
      requires count <= iov.Length
      ensures n == Total(iov[..count])
    {
      n := 0;
      var i := 0;
      assert iov[..0] == [];
      while i < count
        invariant i <= count && n == Total(iov[..i])
      {
        assert iov[..i + 1] == iov[..i] + [iov[i]];
        ConcatSnoc(iov[..i], iov[i]);
        n := n + |iov[i]|;
        i := i + 1;
      }
    }
  }
}
