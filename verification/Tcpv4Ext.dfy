/** Transfer extension item lists (RFC 9174, sections 4.8 and 5.2.5). */
module Tcpv4Ext {
  import opened Octets
  import opened Wire
  import opened Tcpv4Msg

  datatype ExtItem = ExtItem(flags: uint8, kind: uint16, value: Octets) {
    predicate Fits() { |value| < 0x1_0000 }
    predicate Critical() { Bit0(flags) }
    predicate IsLength() { kind == XFEREXT_LENGTH && |value| == 8 }
  }

  function EncItem(x: ExtItem): (s: Octets)
    requires x.Fits()
    ensures |s| == 5 + |x.value|
  {
    [x.flags] + BE16(x.kind) + BE16(|x.value|) + x.value
  }

  predicate AllFit(items: seq<ExtItem>) {
    forall x :: x in items ==> x.Fits()
  }

  function EncItems(items: seq<ExtItem>): Octets
    requires AllFit(items)
  {
    if items == [] then [] else EncItem(items[0]) + EncItems(items[1..])
  }

  lemma {:induction false} EncItemsSnoc(items: seq<ExtItem>, x: ExtItem)
    requires AllFit(items) && x.Fits()
    ensures AllFit(items + [x]) && EncItems(items + [x]) == EncItems(items) + EncItem(x)
  {
    if items == [] {
      assert EncItems([x]) == EncItem(x) + EncItems([x][1..]);
    } else {
      EncItemsSnoc(items[1..], x);
      assert (items + [x])[1..] == items[1..] + [x];
    }
  }

  lemma ItemPrefixFree(a: ExtItem, b: ExtItem, s: Octets)
    requires a.Fits() && b.Fits() && EncItem(a) <= s && EncItem(b) <= s
    ensures a == b
  {
    var n := |a.value|;
    assert s[..5 + n] == EncItem(a) && s[..5 + |b.value|] == EncItem(b);
    assert EncItem(a)[0] == s[0] == EncItem(b)[0];
    assert EncItem(a)[1..3] == BE16(a.kind) && EncItem(b)[1..3] == BE16(b.kind);
    assert EncItem(a)[1..3] == s[1..3] == EncItem(b)[1..3];
    assert EncItem(a)[3..5] == BE16(|a.value|) && EncItem(b)[3..5] == BE16(|b.value|);
    assert EncItem(a)[3..5] == s[3..5] == EncItem(b)[3..5];
    BE16Injective(a.kind, b.kind);
    BE16Injective(|a.value|, |b.value|);
    assert EncItem(a)[5..] == a.value && EncItem(b)[5..] == b.value;
  }

  /** Two lists encoded at the start of one sequence agree as far as the shorter goes. */
  lemma {:induction false} ListsAgree(a: seq<ExtItem>, b: seq<ExtItem>, s: Octets)
    requires AllFit(a) && AllFit(b) && EncItems(a) <= s && EncItems(b) <= s
    ensures a <= b || b <= a
    decreases |a|
  {
    if a != [] && b != [] {
      DropHead(EncItem(a[0]), EncItems(a[1..]), s);
      DropHead(EncItem(b[0]), EncItems(b[1..]), s);
      ItemPrefixFree(a[0], b[0], s);
      ListsAgree(a[1..], b[1..], s[5 + |a[0].value|..]);
      assert a == [a[0]] + a[1..] && b == [b[0]] + b[1..];
    }
  }

  lemma {:induction false} EncItemsMonotone(a: seq<ExtItem>, b: seq<ExtItem>)
    requires AllFit(b) && a <= b
    ensures AllFit(a) && EncItems(a) <= EncItems(b)
    ensures |a| < |b| ==> EncItems(a) + EncItem(b[|a|]) <= EncItems(b)
    decreases |a|
  {
    if a == [] {
      assert b != [] ==> [] + EncItem(b[0]) == EncItem(b[0]);
    } else {
      assert a[0] == b[0];
      var head, rest := EncItem(a[0]), EncItems(a[1..]);
      EncItemsMonotone(a[1..], b[1..]);
      PrependPrefix(head, rest, EncItems(b[1..]));
      if |a| < |b| {
        var next := EncItem(b[|a|]);
        PrependPrefix(head, rest + next, EncItems(b[1..]));
        assert head + rest + next == head + (rest + next);
      }
    }
  }

  // ---- Walking a list --------------------------------------------------------------

  /** What one step of the walk promises: 0 exactly at the end; 1 with the item that
      stands at off and the strictly larger offset behind it; -1 when none stands there. */
  ghost predicate Walked(buf: Octets, off: nat, rc: int, off': nat, item: ExtItem) {
    && off <= |buf|
    && -1 <= rc <= 1
    && (rc == 0 <==> off == |buf|)
    && (rc == 1 ==> item.Fits() && off < off' <= |buf| && buf[off..off'] == EncItem(item))
    && (rc == -1 ==> forall x: ExtItem :: x.Fits() ==> !(EncItem(x) <= buf[off..]))
    && (rc != 1 ==> off' == off)
  }

  lemma ItemLength(s: Octets, head: Octets, len: uint16)
    requires |head| == 3 && head + BE16(len) <= s
    ensures forall x: ExtItem :: x.Fits() && EncItem(x) <= s ==> |x.value| == len
  {
    forall x: ExtItem | x.Fits() && EncItem(x) <= s
      ensures |x.value| == len
    {
      assert s[..|EncItem(x)|] == EncItem(x);
      assert s[3..5] == EncItem(x)[3..5] == BE16(|x.value|);
      assert s[3..5] == (head + BE16(len))[3..5] == BE16(len);
      BE16Injective(len, |x.value|);
    }
  }

  /** tcpv4MsgNextExtItem */
  method NextExtItem(buf: Octets, off: nat) returns (rc: int, next: nat, item: ExtItem)
    requires off <= |buf|
    ensures Walked(buf, off, rc, next, item)
  {
    item := ExtItem(0, 0, []);
    if off == |buf| {
      return 0, off, item;
    }
    var r := new Reader(buf, off);
    ghost var base := r.taken;
    var flags := r.U8();
    var kind := r.U16();
    ghost var beforeLen := r.taken;
    var len := r.U16();
    ghost var upToLen, lenRead := r.taken, r.ok;
    var value := r.Bytes(len);
    if !r.ok {
      if lenRead {
        assert upToLen == base + ([flags] + BE16(kind) + BE16(len));
        DropHead(base, [flags] + BE16(kind) + BE16(len), buf);
        ItemLength(buf[off..], [flags] + BE16(kind), len);
      }
      return -1, off, item;
    }
    item := ExtItem(flags, kind, value);
    rc, next := 1, r.off;
    assert buf[..next] == base + EncItem(item);
    assert buf[off..next] == buf[..next][off..];
  }

  /** An encoded list is walked back item for item, and then the walk ends. */
  lemma WalkInvertsEncode(items: seq<ExtItem>, i: nat, rc: int, off': nat, item: ExtItem)
    requires AllFit(items) && i <= |items|
    requires AllFit(items[..i])
    requires Walked(EncItems(items), |EncItems(items[..i])|, rc, off', item)
    ensures i < |items| ==> rc == 1 && item == items[i] && AllFit(items[..i + 1]) && off' == |EncItems(items[..i + 1])|
    ensures i == |items| ==> rc == 0
  {
    var buf, off := EncItems(items), |EncItems(items[..i])|;
    if i < |items| {
      EncItemsMonotone(items[..i], items);
      DropHead(EncItems(items[..i]), EncItem(items[i]), buf);
      EncItemsSnoc(items[..i], items[i]);
      assert items[..i + 1] == items[..i] + [items[i]];
      if rc == 1 {
        assert EncItem(item) <= buf[off..];
        ItemPrefixFree(item, items[i], buf[off..]);
      }
    } else {
      assert items[..i] == items;
    }
  }

  // ---- What the receiver looks for -------------------------------------------------

  /** A list that ends exactly as declared and holds no CRITICAL item. */
  ghost predicate Benign(ext: Octets) {
    exists items: seq<ExtItem> :: BenignAs(ext, items)
  }

  ghost predicate BenignAs(ext: Octets, items: seq<ExtItem>) {
    AllFit(items) && EncItems(items) == ext && forall x :: x in items ==> !x.Critical()
  }

  /** segmentHasCriticalExt: every item is unknown to this node, so any CRITICAL one,
      and any malformed list, is an extension failure. */
  method SegmentHasCriticalExt(ext: Octets) returns (bad: bool)
    ensures bad == !Benign(ext)
  {
    var off: nat := 0;
    ghost var seen: seq<ExtItem> := [];
    while true
      invariant off <= |ext| && AllFit(seen) && EncItems(seen) == ext[..off]
      invariant forall x :: x in seen ==> !x.Critical()
      decreases |ext| - off
    {
      var rc, next, item := NextExtItem(ext, off);
      if rc == 0 {
        assert BenignAs(ext, seen);
        return false;
      }
      if rc == -1 || item.Critical() {
        NotBenign(ext, seen, rc, off, next, item);
        return true;
      }
      EncItemsSnoc(seen, item);
      assert ext[..next] == ext[..off] + ext[off..next];
      off, seen := next, seen + [item];
    }
  }

  lemma NotBenign(ext: Octets, seen: seq<ExtItem>, rc: int, off: nat, off': nat, item: ExtItem)
    requires off <= |ext| && AllFit(seen) && EncItems(seen) == ext[..off]
    requires Walked(ext, off, rc, off', item) && (rc == -1 || (rc == 1 && item.Critical()))
    ensures !Benign(ext)
  {
    forall items: seq<ExtItem> | AllFit(items) && EncItems(items) == ext
      ensures exists x :: x in items && x.Critical()
    {
      ListsAgree(seen, items, ext);
      if items <= seen {
        EncItemsMonotone(items, seen);
        assert false;
      } else {
        var x := items[|seen|];
        EncItemsMonotone(seen, items);
        DropHead(EncItems(seen), EncItem(x), ext);
        assert rc == 1;
        assert EncItem(item) <= ext[off..];
        ItemPrefixFree(item, x, ext[off..]);
      }
    }
  }

  /** The first Transfer Length item of the list says that the transfer is this long. */
  ghost predicate Declares(ext: Octets, length: uint64) {
    exists before: seq<ExtItem>, item: ExtItem :: DeclaresAfter(ext, before, item, length)
  }

  ghost predicate DeclaresAfter(ext: Octets, before: seq<ExtItem>, item: ExtItem, length: uint64) {
    && AllFit(before) && item.Fits() && EncItems(before) + EncItem(item) <= ext
    && (forall x :: x in before ==> !x.IsLength())
    && item.IsLength() && item.value == BE64(length)
  }

  lemma AgreeAt<T>(s: seq<T>, x: T, t: seq<T>, y: T)
    requires s + [x] <= t + [y] || t + [y] <= s + [x]
    ensures |s| < |t| ==> x in t
    ensures |t| < |s| ==> y in s
    ensures |s| == |t| ==> x == y
  {
    assert (s + [x])[|s|] == x && (t + [y])[|t|] == y;
    assert |s| < |t| ==> (t + [y])[|s|] == t[|s|];
    assert |t| < |s| ==> (s + [x])[|t|] == s[|t|];
  }

  /** A list declares at most one length. */
  lemma DeclaresOnce(ext: Octets, a: uint64, b: uint64)
    requires Declares(ext, a) && Declares(ext, b)
    ensures a == b
  {
    var s, x :| DeclaresAfter(ext, s, x, a);
    var t, y :| DeclaresAfter(ext, t, y, b);
    EncItemsSnoc(s, x);
    EncItemsSnoc(t, y);
    ListsAgree(s + [x], t + [y], ext);
    AgreeAt(s, x, t, y);
    BE64Injective(a, b);
  }

  /** tcpv4MsgFindXferLength: 1 with the declared length, 0 when a well-formed list
      declares none, -1 when the list is malformed before it declares one. */
  method FindXferLength(ext: Octets) returns (rc: int, length: uint64)
    ensures -1 <= rc <= 1
    ensures rc == 1 ==> Declares(ext, length)
    ensures rc != 1 ==> forall n: uint64 :: !Declares(ext, n)
    ensures rc == 0 ==> exists items: seq<ExtItem> :: AllFit(items) && EncItems(items) == ext
    ensures rc == -1 ==> !Benign(ext)
  {
    var off: nat := 0;
    length := 0;
    ghost var seen: seq<ExtItem> := [];
    while true
      invariant off <= |ext| && AllFit(seen) && EncItems(seen) == ext[..off]
      invariant forall x :: x in seen ==> !x.IsLength()
      decreases |ext| - off
    {
      var next, item;
      rc, next, item := NextExtItem(ext, off);
      if rc != 1 {
        NothingDeclared(ext, seen, rc, off, next, item);
        if rc == -1 {
          NotBenign(ext, seen, rc, off, next, item);
        }
        return;
      }
      if item.IsLength() {
        var n: nat := 0;
        for i := 0 to 8
          invariant n == Value(item.value[..i]) && n < 0x1_0000_0000_0000_0000
        {
          assert item.value[..i + 1] == item.value[..i] + [item.value[i]];
          ValueAppend(item.value[..i], item.value[i]);
          ValueFits(item.value[..i + 1]);
          n := n * 0x100 + item.value[i];
        }
        assert item.value[..8] == item.value;
        ValueOf64(item.value);
        length := n;
        assert ext[..next] == ext[..off] + ext[off..next];
        assert DeclaresAfter(ext, seen, item, length);
        return;
      }
      EncItemsSnoc(seen, item);
      assert ext[..next] == ext[..off] + ext[off..next];
      off, seen := next, seen + [item];
    }
  }

  lemma NothingDeclared(ext: Octets, seen: seq<ExtItem>, rc: int, off: nat, off': nat, item: ExtItem)
    requires off <= |ext| && AllFit(seen) && EncItems(seen) == ext[..off]
    requires forall x :: x in seen ==> !x.IsLength()
    requires Walked(ext, off, rc, off', item) && rc != 1
    ensures forall n: uint64 :: !Declares(ext, n)
  {
    forall before: seq<ExtItem>, x: ExtItem
      | AllFit(before) && x.Fits() && EncItems(before) + EncItem(x) <= ext
      ensures x in seen
    {
      EncItemsSnoc(before, x);
      ListsAgree(seen, before + [x], ext);
      if |seen| <= |before| {
        EncItemsMonotone(seen, before + [x]);
        var y := (before + [x])[|seen|];
        DropHead(EncItems(seen), EncItem(y), ext);
        assert false;
      }
      assert (before + [x])[|before|] == x;
    }
  }

  /** The Transfer Length item this node sends (tcpv4MsgEncodeXferLengthExt). */
  function LengthExt(length: uint64): Octets {
    EncItem(ExtItem(0, XFEREXT_LENGTH, BE64(length)))
  }

  method EncodeXferLengthExt(buf: array<uint8>, cap: nat, length: uint64) returns (n: int)
    requires cap <= buf.Length
    modifies buf
    ensures Encoded(buf, cap, LengthExt(length), n)
  {
    hide BE64;
    var w := new Writer(buf, cap);
    w.U8(0);
    assert w.offered == [0];
    w.U16(XFEREXT_LENGTH);
    w.U16(8);
    w.U64(length);
    n := w.Finish();
  }

  /** The peer that reads it back finds nothing critical and exactly that length. */
  lemma LengthExtUnderstood(length: uint64)
    ensures Benign(LengthExt(length)) && Declares(LengthExt(length), length)
  {
    var item := ExtItem(0, XFEREXT_LENGTH, BE64(length));
    EncItemsSnoc([], item);
    assert [] + [item] == [item];
    assert EncItems([]) + EncItem(item) == EncItem(item);
    assert BenignAs(LengthExt(length), [item]);
    assert DeclaresAfter(LengthExt(length), [], item, length);
  }
}
