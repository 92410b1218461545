/** Writing through Mbed TLS: while the connection is corked, what is sent is gathered and
    goes out a buffer at a time. */
module Tcpv4Tls {
  import opened Octets

  const CORK_BUFSZ := 16384

  /** What one write of the library or the socket does: it is to be repeated, fails, or takes
      so many octets. */
  datatype Written = Interrupted | Failed | Took(count: nat)

  class TlsConn {
    const answers: seq<Written>  // what the writes of this run do
    var calls: nat
    const corkBuf: array<uint8>
    var corkLen: nat
    var corked: bool
    ghost var wire: Octets

    ghost predicate Valid()
      reads this
    {
      && calls <= |answers|
      && corkBuf.Length == CORK_BUFSZ && corkLen <= CORK_BUFSZ
    }

    /** Everything that was sent: what is out, and what is still gathered. */
    ghost function Sent(): Octets
      requires Valid()
      reads this, corkBuf
    {
      wire + corkBuf[..corkLen]
    }

    constructor (answers: seq<Written>)
      ensures Valid() && !corked && Sent() == [] && wire == []
      ensures this.answers == answers && fresh(corkBuf)
    {
      this.answers, calls, corkLen, corked, wire := answers, 0, 0, false, [];
      corkBuf := new uint8[CORK_BUFSZ];
    }

    /** writeAll: repeats the write until all is taken. */
    method WriteAll(data: Octets) returns (ok: bool)
      requires Valid()
      modifies this`calls, this`wire
      ensures Valid()
      ensures ok ==> wire == old(wire) + data
      ensures !ok ==> old(wire) <= wire <= old(wire) + data
    {
      var sent: nat := 0;
      while sent < |data|
        invariant Valid() && sent <= |data| && wire == old(wire) + data[..sent]
        decreases |answers| - calls
      {
        if calls == |answers| {
          return false;
        }
        var a := answers[calls];
        calls := calls + 1;
        if a.Failed? || a == Took(0) {
          return false;
        }
        if a.Took? {
          var n := if a.count < |data| - sent then a.count else |data| - sent;
          JoinSlices(data, 0, sent, sent + n);
          Associate3(old(wire), data[..sent], data[sent..sent + n]);
          wire := wire + data[sent..sent + n];
          sent := sent + n;
        }
      }
      ok := true;
    }

    method FlushCork() returns (ok: bool)
      requires Valid()
      modifies this`calls, this`wire, this`corkLen
      ensures Valid() && corkLen == 0
      ensures ok ==> wire == old(Sent())
      ensures !ok ==> old(wire) <= wire <= old(Sent()) && old(corkLen) > 0
    {
      var len := corkLen;
      corkLen := 0;
      if len == 0 {
        return true;
      }
      ok := WriteAll(corkBuf[..len]);
    }

    /** tcpv4TlsSend: what is sent comes behind what is gathered. */
    method Send(data: Octets) returns (ok: bool)
      requires Valid() && (!corked ==> corkLen == 0)
      modifies this`calls, this`wire, this`corkLen, corkBuf
      ensures Valid() && old(wire) <= wire
      ensures ok ==> Sent() == old(Sent()) + data
      ensures !ok ==> corkLen == 0 && wire <= old(Sent()) + data
    {
      if !corked {
        ok := WriteAll(data);
        return;
      }
      ghost var before := Sent();
      var sent: nat := 0;
      while sent < |data|
        invariant Valid() && corked && sent <= |data| && old(wire) <= wire
        invariant Sent() == before + data[..sent]
      {
        if corkLen == CORK_BUFSZ {
          ok := FlushCork();
          if !ok {
            FirstOf(before, data, sent);
            return;
          }
        }
        var room := CORK_BUFSZ - corkLen;
        var take := if |data| - sent < room then |data| - sent else room;
        Gather(data[sent..sent + take]);
        JoinSlices(data, 0, sent, sent + take);
        Associate3(before, data[..sent], data[sent..sent + take]);
        sent := sent + take;
      }
      ok := true;
    }

    /** Copies octets for which there is room behind those gathered. */
    method Gather(data: Octets)
      requires Valid() && corked && corkLen + |data| <= CORK_BUFSZ
      modifies this`corkLen, corkBuf
      ensures Valid() && Sent() == old(Sent()) + data && corkLen == old(corkLen) + |data|
    {
      var at := corkLen;
      ghost var before := corkBuf[..at];
      for i := 0 to |data|
        invariant corkBuf[..at] == before && corkBuf[at..at + i] == data[..i]
      {
        corkBuf[at + i] := data[i];
        assert data[..i + 1] == data[..i] + [data[i]];
      }
      corkLen := at + |data|;
      assert corkBuf[..corkLen] == before + data;
    }

    method Cork()
      modifies this`corked
      ensures corked
    {
      corked := true;
    }

    /** tcpv4TlsUncork: what is gathered goes out. */
    method Uncork() returns (ok: bool)
      requires Valid()
      modifies this`calls, this`wire, this`corkLen, this`corked
      ensures Valid() && !corked && corkLen == 0
      ensures ok ==> wire == old(Sent())
      ensures !ok ==> old(wire) <= wire <= old(Sent()) && old(corkLen) > 0
    {
      corked := false;
      ok := FlushCork();
    }
  }
}
