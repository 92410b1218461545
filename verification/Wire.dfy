/** The bounded big-endian writer and reader that both codecs share: each carries
    an offset and a sticky `ok` flag that an overflow or underflow clears. */
module Wire {
  import opened Octets

  const INT_MAX: int := 0x7FFF_FFFF

  /** The END and START flags of a segment. */
  predicate IsEnd(flags: uint8) { Bit0(flags) }
  predicate IsStart(flags: uint8) { Bit1(flags) }

  /** What an encoder promises: the octet count, or -1 exactly when the buffer is too
      small; octets from cap on are never touched. */
  twostate predicate Encoded(buf: array<uint8>, cap: nat, e: Octets, n: int)
    requires cap <= buf.Length
    reads buf
  {
    && n == (if |e| <= cap then |e| else -1)
    && (n >= 0 ==> buf[..n] == e)
    && buf[cap..] == old(buf[cap..])
  }

  class Writer {
    const buf: array<uint8>
    const cap: nat
    var len: nat
    var ok: bool
    ghost var offered: Octets   // everything put so far, whether or not it fitted
    ghost const beyond: Octets  // what the array held from cap on

    /** `ok` says exactly whether all that was offered fits below cap; if so the
        buffer begins with it, and nothing from cap on is ever written. */
    ghost predicate Valid()
      reads this, buf
    {
      && cap <= buf.Length && len <= cap
      && ok == (|offered| <= cap)
      && (ok ==> buf[..len] == offered)
      && buf[cap..] == beyond
    }

    constructor (buf: array<uint8>, cap: nat)
      requires cap <= buf.Length
      ensures Valid() && this.buf == buf && this.cap == cap
      ensures offered == [] && beyond == buf[cap..]
    {
      this.buf, this.cap, len, ok := buf, cap, 0, true;
      offered, beyond := [], buf[cap..];
    }

    method U8(v: uint8)
      requires Valid()
      modifies this, buf
      ensures Valid() && offered == old(offered) + [v]
    {
      offered := offered + [v];
      if !ok || len + 1 > cap {
        ok := false;
        return;
      }
      buf[len] := v;
      len := len + 1;
    }

    method U16(v: uint16)
      requires Valid()
      modifies this, buf
      ensures Valid() && offered == old(offered) + BE16(v)
    {
      U8(v / 0x100);
      U8(v % 0x100);
    }

    method U32(v: uint32)
      requires Valid()
      modifies this, buf
      ensures Valid() && offered == old(offered) + BE32(v)
    {
      U16(v / 0x1_0000);
      U16(v % 0x1_0000);
    }

    method U64(v: uint64)
      requires Valid()
      modifies this, buf
      ensures Valid() && offered == old(offered) + BE64(v)
    {
      U32(v / 0x1_0000_0000);
      U32(v % 0x1_0000_0000);
    }

    method Bytes(p: Octets)
      requires Valid()
      modifies this, buf
      ensures Valid() && offered == old(offered) + p
    {
      offered := offered + p;
      if !ok || len + |p| > cap {
        ok := false;
        return;
      }
      forall i | 0 <= i < |p| {
        buf[len + i] := p[i];
      }
      len := len + |p|;
    }

    method Finish() returns (n: int)
      requires Valid()
      ensures n == if |offered| <= cap then |offered| else -1
      ensures n >= 0 ==> buf[..n] == offered
    {
      n := if ok then len else -1;
    }
  }

  class Reader {
    const buf: Octets
    var off: nat
    var ok: bool
    ghost var asked: nat    // octets asked for so far, counted from the start of buf
    ghost var taken: Octets // octets handed out, while ok

    /** `ok` says exactly whether all that was asked for is there. */
    ghost predicate Valid()
      reads this
    {
      && off <= |buf|
      && ok == (asked <= |buf|)
      && (ok ==> off == asked && taken == buf[..off])
    }

    constructor (buf: Octets, off: nat)
      requires off <= |buf|
      ensures Valid() && this.buf == buf && this.off == off && ok
      ensures asked == off && taken == buf[..off]
    {
      this.buf, this.off, ok := buf, off, true;
      asked, taken := off, buf[..off];
    }

    method U8() returns (v: uint8)
      requires Valid()
      modifies this
      ensures Valid() && asked == old(asked) + 1
      ensures ok ==> old(ok) && taken == old(taken) + [v]
      ensures !ok ==> v == 0
    {
      asked := asked + 1;
      if !ok || off + 1 > |buf| {
        ok := false;
        return 0;
      }
      v := buf[off];
      off := off + 1;
      taken := taken + [v];
    }

    method U16() returns (v: uint16)
      requires Valid()
      modifies this
      ensures Valid() && asked == old(asked) + 2
      ensures ok ==> old(ok) && taken == old(taken) + BE16(v)
    {
      hide BE16;
      ghost var before := taken;
      var hi: int := U8();
      var lo: int := U8();
      JoinOctets(hi, lo);
      assert before + [hi] + [lo] == before + [hi, lo];
      v := hi * 0x100 + lo;
    }

    method U32() returns (v: uint32)
      requires Valid()
      modifies this
      ensures Valid() && asked == old(asked) + 4
      ensures ok ==> old(ok) && taken == old(taken) + BE32(v)
    {
      hide BE16, BE32;
      ghost var before := taken;
      var hi: int := U16();
      var lo: int := U16();
      JoinQuarters(hi, lo);
      Associate3(before, BE16(hi), BE16(lo));
      v := hi * 0x1_0000 + lo;
    }

    method U64() returns (v: uint64)
      requires Valid()
      modifies this
      ensures Valid() && asked == old(asked) + 8
      ensures ok ==> old(ok) && taken == old(taken) + BE64(v)
    {
      hide BE32, BE64;
      ghost var before := taken;
      var hi: int := U32();
      var lo: int := U32();
      JoinHalves(hi, lo);
      Associate3(before, BE32(hi), BE32(lo));
      v := hi * 0x1_0000_0000 + lo;
    }

    method Bytes(n: nat) returns (p: Octets)
      requires Valid()
      modifies this
      ensures Valid() && asked == old(asked) + n
      ensures ok ==> old(ok) && taken == old(taken) + p && |p| == n
    {
      asked := asked + n;
      if !ok || n > |buf| - off {
        ok := false;
        return [];
      }
      p := buf[off..off + n];
      off := off + n;
      taken := taken + p;
    }
  }
}
