/** Fixed-width unsigned integers and their big-endian (network order) octets. */
module Octets {

  type uint8 = x: int | 0 <= x < 0x100
  type uint16 = x: int | 0 <= x < 0x1_0000
  type uint32 = x: int | 0 <= x < 0x1_0000_0000
  type uint64 = x: int | 0 <= x < 0x1_0000_0000_0000_0000

  type Octets = seq<uint8>

  /** The octets of a value, most significant first. */
  function BE16(v: uint16): (s: Octets)
    ensures |s| == 2
  {
    [v / 0x100, v % 0x100]
  }

  function BE32(v: uint32): (s: Octets)
    ensures |s| == 4
  {
    BE16(v / 0x1_0000) + BE16(v % 0x1_0000)
  }

  function BE64(v: uint64): (s: Octets)
    ensures |s| == 8
  {
    BE32(v / 0x1_0000_0000) + BE32(v % 0x1_0000_0000)
  }

  /** Distinct values have distinct octets. */
  lemma BE16Injective(a: uint16, b: uint16)
    ensures BE16(a) == BE16(b) ==> a == b
  {
    if BE16(a) == BE16(b) {
      assert BE16(a)[0] == BE16(b)[0] && BE16(a)[1] == BE16(b)[1];
    }
  }

  lemma BE32Injective(a: uint32, b: uint32)
    ensures BE32(a) == BE32(b) ==> a == b
  {
    if BE32(a) == BE32(b) {
      assert BE32(a)[..2] == BE16(a / 0x1_0000) && BE32(b)[..2] == BE16(b / 0x1_0000);
      assert BE32(a)[2..] == BE16(a % 0x1_0000) && BE32(b)[2..] == BE16(b % 0x1_0000);
      BE16Injective(a / 0x1_0000, b / 0x1_0000);
      BE16Injective(a % 0x1_0000, b % 0x1_0000);
    }
  }

  lemma BE64Injective(a: uint64, b: uint64)
    ensures BE64(a) == BE64(b) ==> a == b
  {
    if BE64(a) == BE64(b) {
      assert BE64(a)[..4] == BE32(a / 0x1_0000_0000) && BE64(b)[..4] == BE32(b / 0x1_0000_0000);
      assert BE64(a)[4..] == BE32(a % 0x1_0000_0000) && BE64(b)[4..] == BE32(b % 0x1_0000_0000);
      BE32Injective(a / 0x1_0000_0000, b / 0x1_0000_0000);
      BE32Injective(a % 0x1_0000_0000, b % 0x1_0000_0000);
    }
  }

  /** The value of octets read as one big-endian number. */
  function Value(s: Octets): (v: nat)
    ensures s == [] ==> v == 0
  {
    if s == [] then 0 else Value(s[..|s| - 1]) * 0x100 + s[|s| - 1]
  }

  lemma {:induction false} ValueAppend(s: Octets, b: uint8)
    ensures Value(s + [b]) == Value(s) * 0x100 + b
  {
    assert (s + [b])[..|s|] == s;
  }

  lemma ValueOfTwo(s: Octets, a: uint8, b: uint8)
    ensures Value(s + [a, b]) == Value(s) * 0x1_0000 + a * 0x100 + b
  {
    ValueAppend(s, a);
    ValueAppend(s + [a], b);
    assert s + [a] + [b] == s + [a, b];
  }

  lemma ValueOf16(s: Octets)
    requires |s| == 2
    ensures Value(s) < 0x1_0000 && BE16(Value(s)) == s
  {
    ValueOfTwo([], s[0], s[1]);
    assert [] + [s[0], s[1]] == s;
    hide Value;
    var s0: int, s1: int := s[0], s[1];
    assert (s0 * 0x100 + s1) / 0x100 == s0 && (s0 * 0x100 + s1) % 0x100 == s1;
  }

  lemma JoinOctets(hi: uint8, lo: uint8)
    ensures hi * 0x100 + lo < 0x1_0000 && BE16(hi * 0x100 + lo) == [hi, lo]
  {
    var hi': int, lo': int := hi, lo;
    assert (hi' * 0x100 + lo') / 0x100 == hi' && (hi' * 0x100 + lo') % 0x100 == lo';
  }

  lemma JoinQuarters(hi: uint16, lo: uint16)
    ensures hi * 0x1_0000 + lo < 0x1_0000_0000
    ensures BE32(hi * 0x1_0000 + lo) == BE16(hi) + BE16(lo)
  {
    hide BE16;
    var hi': int, lo': int := hi, lo;
    var v := hi' * 0x1_0000 + lo';
    assert v / 0x1_0000 == hi' && v % 0x1_0000 == lo';
  }

  lemma ValueOf32(s: Octets)
    requires |s| == 4
    ensures Value(s) < 0x1_0000_0000 && BE32(Value(s)) == s
  {
    var hi, lo := s[..2], s[2..];
    ValueOf16(hi);
    ValueOf16(lo);
    ValueOfTwo(hi, s[2], s[3]);
    ValueOfTwo([], s[2], s[3]);
    assert lo == [s[2], s[3]] == [] + [s[2], s[3]] && hi + lo == s;
    hide Value, BE16, BE32;
    JoinQuarters(Value(hi), Value(lo));
  }

  lemma ValueJoin(s: Octets, t: Octets)
    requires |t| == 4
    ensures Value(s + t) == Value(s) * 0x1_0000_0000 + Value(t)
  {
    var a, b := [t[0], t[1]], [t[2], t[3]];
    assert t == a + b;
    ValueOfTwo(s, t[0], t[1]);
    ValueOfTwo(s + a, t[2], t[3]);
    ValueOfTwo([], t[0], t[1]);
    ValueOfTwo(a, t[2], t[3]);
    assert [] + a == a;
    hide Value;
    Associate3(s, a, b);
  }

  lemma JoinHalves(hi: uint32, lo: uint32)
    ensures hi * 0x1_0000_0000 + lo < 0x1_0000_0000_0000_0000
    ensures BE64(hi * 0x1_0000_0000 + lo) == BE32(hi) + BE32(lo)
  {
    hide BE32;
    var hi': int, lo': int := hi, lo;
    var v := hi' * 0x1_0000_0000 + lo';
    assert v / 0x1_0000_0000 == hi' && v % 0x1_0000_0000 == lo';
  }

  /** Any eight octets are BE64 of their value. */
  lemma ValueOf64(s: Octets)
    requires |s| == 8
    ensures Value(s) < 0x1_0000_0000_0000_0000
    ensures BE64(Value(s)) == s
  {
    hide BE64, BE32, Value;
    var hi, lo := s[..4], s[4..];
    assert s == hi + lo;
    ValueOf32(hi);
    ValueOf32(lo);
    ValueJoin(hi, lo);
    JoinHalves(Value(hi), Value(lo));
  }

  /** Most significant first. */
  lemma PlaceValues(s: Octets)
    ensures |s| == 2 ==> Value(s) == s[0] as int * 0x100 + s[1]
    ensures |s| == 4 ==> Value(s) == Value(s[..2]) * 0x1_0000 + s[2] as int * 0x100 + s[3]
    ensures |s| == 8 ==> Value(s) == Value(s[..4]) * 0x1_0000_0000 + Value(s[4..])
  {
    hide Value;
    if |s| == 2 {
      ValueOfTwo([], s[0], s[1]);
      assert [] + [s[0], s[1]] == s;
    } else if |s| == 4 {
      ValueOfTwo(s[..2], s[2], s[3]);
      assert s[..2] + [s[2], s[3]] == s;
    } else if |s| == 8 {
      ValueJoin(s[..4], s[4..]);
      assert s[..4] + s[4..] == s;
    }
  }

  /** Octets that say v are BE16 of it, and BE16 of v says v; and so on. */
  lemma Says16(s: Octets, v: uint16)
    requires |s| == 2
    ensures Value(s) == v <==> s == BE16(v)
  {
    ValueOf16(s);
    hide Value, BE16;
    BE16Injective(Value(s), v);
  }

  lemma Says32(s: Octets, v: uint32)
    requires |s| == 4
    ensures Value(s) == v <==> s == BE32(v)
  {
    ValueOf32(s);
    hide Value, BE32;
    BE32Injective(Value(s), v);
  }

  lemma Says64(s: Octets, v: uint64)
    requires |s| == 8
    ensures Value(s) == v <==> s == BE64(v)
  {
    ValueOf64(s);
    hide Value, BE64;
    BE64Injective(Value(s), v);
  }

  lemma ValueFits(s: Octets)
    requires |s| <= 8
    ensures Value(s) < 0x1_0000_0000_0000_0000
    decreases 8 - |s|
  {
    if |s| == 8 {
      ValueOf64(s);
    } else {
      ValueAppend(s, 0);
      ValueFits(s + [0]);
    }
  }

  /** Prefixes of one sequence: equally long ones coincide. */
  lemma SamePrefix<T>(a: seq<T>, b: seq<T>, s: seq<T>)
    requires a <= s && b <= s && |a| == |b|
    ensures a == b
  {
    assert a == s[..|a|] && b == s[..|b|];
  }

  /** Dropping a common head from a prefix leaves a prefix. */
  lemma DropHead<T>(head: seq<T>, tail: seq<T>, s: seq<T>)
    requires head + tail <= s
    ensures head <= s && tail <= s[|head|..]
  {
    assert (head + tail)[..|head|] == head;
    assert s[..|head + tail|] == head + tail;
    assert s[|head|..][..|tail|] == tail;
  }

  lemma PrependPrefix<T>(head: seq<T>, a: seq<T>, b: seq<T>)
    requires a <= b
    ensures head + a <= head + b
  {
    assert b == a + b[|a|..];
    assert head + b == (head + a) + b[|a|..];
  }

  /** Concatenation may be bracketed as one likes. */
  lemma Associate3<T>(a: seq<T>, b: seq<T>, c: seq<T>)
    ensures a + (b + c) == a + b + c
  {}

  lemma Associate4<T>(a: seq<T>, b: seq<T>, c: seq<T>, d: seq<T>)
    ensures a + (b + c + d) == a + b + c + d
  {
    Associate3(a, b + c, d);
    Associate3(a, b, c);
  }

  lemma Associate5<T>(a: seq<T>, b: seq<T>, c: seq<T>, d: seq<T>, e: seq<T>)
    ensures a + (b + (c + (d + e))) == a + b + c + d + e
  {
    Associate3(a, b, c + (d + e));
    Associate3(a + b, c, d + e);
    Associate3(a + b + c, d, e);
  }

  /** A slice of a tail is a slice. */
  lemma SliceOfTail<T>(s: seq<T>, off: nat, i: nat, j: nat)
    requires i <= j && off + j <= |s|
    ensures s[off..][i..j] == s[off + i..off + j]
  {
    var a, b := s[off..][i..j], s[off + i..off + j];
    assert |a| == |b| == j - i;
    assert forall k :: 0 <= k < j - i ==> a[k] == s[off + i + k] == b[k];
  }

  /** A first part and the slice behind it. */
  lemma JoinSlices<T>(s: seq<T>, i: nat, j: nat, k: nat)
    requires i <= j <= k <= |s|
    ensures s[i..j] + s[j..k] == s[i..k]
  {}

  lemma HeadOfSlice<T>(s: seq<T>, i: nat, j: nat, n: nat)
    requires i + n <= j <= |s|
    ensures s[i..j][..n] == s[i..i + n]
  {}

  lemma TailOfSlice<T>(s: seq<T>, i: nat, j: nat, n: nat)
    requires i + n <= j <= |s|
    ensures s[i..j][n..] == s[i + n..j]
  {}

  lemma FirstOf<T>(a: seq<T>, b: seq<T>, n: nat)
    requires n <= |b|
    ensures a + b[..n] <= a + b
  {}

  /** One more element. */
  lemma SliceSnoc<T>(s: seq<T>, i: nat, j: nat)
    requires i <= j < |s|
    ensures s[i..j + 1] == s[i..j] + [s[j]]
  {
    var a, b := s[i..j + 1], s[i..j] + [s[j]];
    assert |a| == |b| == j + 1 - i;
    assert forall k :: 0 <= k < j + 1 - i ==> a[k] == s[i + k] == b[k];
  }

  /** The parts of a concatenation. */
  lemma PartsOf<T>(a: seq<T>, b: seq<T>)
    ensures (a + b)[..|a|] == a && (a + b)[|a|..] == b
  {}

  /** The last part of a prefix that is put together from two. */
  lemma LastPart<T>(head: seq<T>, last: seq<T>, s: seq<T>)
    requires head + last <= s
    ensures head <= s && s[|head|..|head| + |last|] == last
  {
    DropHead(head, last, s);
    assert s[|head|..][..|last|] == s[|head|..|head| + |last|];
  }

  /** A sequence is two parts exactly when its two slices are. */
  lemma Split2<T>(s: seq<T>, a: seq<T>, b: seq<T>)
    requires |s| == |a| + |b|
    ensures s == a + b <==> s[..|a|] == a && s[|a|..] == b
  {
    PartsOf(a, b);
    JoinSlices(s, 0, |a|, |s|);
  }

  /** Flags test of the lowest two bits of an octet, as in `flags & 0x01`. */
  predicate Bit0(v: uint8) { v % 2 == 1 }
  predicate Bit1(v: uint8) { (v / 2) % 2 == 1 }

  /** All members of a sequence of sequences, end to end. */
  function Concat<T>(parts: seq<seq<T>>): seq<T> {
    if parts == [] then [] else parts[0] + Concat(parts[1..])
  }

  lemma {:induction false} ConcatAppend<T>(a: seq<seq<T>>, b: seq<seq<T>>)
    ensures Concat(a + b) == Concat(a) + Concat(b)
  {
    if a == [] {
      assert a + b == b;
    } else {
      assert (a + b)[0] == a[0] && (a + b)[1..] == a[1..] + b;
      ConcatAppend(a[1..], b);
    }
  }

  lemma ConcatSnoc<T>(a: seq<seq<T>>, x: seq<T>)
    ensures Concat(a + [x]) == Concat(a) + x
  {
    ConcatAppend(a, [x]);
    assert Concat([x]) == x + Concat([x][1..]);
  }
}
