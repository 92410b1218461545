/** Looking up a certificate extension: DER elements (ITU-T X.690) read with bounds, and a
    walk over the extension list (RFC 5280, section 4.1), with or without its header. */
module Tcpv4X509 {
  import opened Octets
  import opened Options

  const SEQUENCE: uint8 := 0x30
  const OID: uint8 := 0x06
  const IA5STRING: uint8 := 0x16
  const CONTEXT_0: uint8 := 0xA0

  /** A content: where it begins and how long it is. */
  datatype Extent = Extent(start: nat, length: nat)

  // ---- One element ------------------------------------------------------------------------------

  /** Length octets of n, in the short form or in a long one of up to eight octets. */
  predicate IsLength(l: Octets, n: nat) {
    || (|l| == 1 && n < 0x80 && l[0] == n)
    || (2 <= |l| <= 9 && l[0] == 0x80 + |l| - 1 && Value(l[1..]) == n)
  }

  function Element(tag: uint8, l: Octets, content: Octets): Octets { [tag] + l + content }

  /** derTlv: the content of the element of this tag at off, if there is one that ends by len. */
  function Tlv(der: Octets, len: nat, off: nat, tag: uint8): (r: Option<Extent>)
    requires len <= |der|
    ensures r.Some? ==> off + 2 <= r.value.start && r.value.start + r.value.length <= len
  {
    if off >= len || len - off < 2 || der[off] != tag then None
    else
      var b, i := der[off + 1], off + 2;
      if b < 0x80 then
        if b > len - i then None else Some(Extent(i, b))
      else
        var octets := b - 0x80;
        if octets == 0 || octets > 8 || len - i < octets then None
        else
          var n := Value(der[i..i + octets]);
          if n > len - i - octets then None else Some(Extent(i + octets, n))
  }

  /** An element that is there, and ends by len, is read. */
  lemma TlvThere(der: Octets, len: nat, off: nat, tag: uint8, l: Octets, content: Octets)
    requires len <= |der| && IsLength(l, |content|)
    requires off + |Element(tag, l, content)| <= len
    requires der[off..off + |Element(tag, l, content)|] == Element(tag, l, content)
    ensures Tlv(der, len, off, tag) == Some(Extent(off + 1 + |l|, |content|))
    ensures der[off + 1 + |l|..off + 1 + |l| + |content|] == content
  {
    ElementParts(der, off, tag, l, content);
    if |l| > 1 {
      assert der[off + 2..off + 1 + |l|] == der[off + 1..off + 1 + |l|][1..];
    }
  }

  /** Only an element that is there is read. */
  lemma TlvIsThere(der: Octets, len: nat, off: nat, tag: uint8) returns (l: Octets)
    requires len <= |der| && Tlv(der, len, off, tag).Some?
    ensures var r := Tlv(der, len, off, tag).value;
            var content := der[r.start..r.start + r.length];
            && IsLength(l, r.length) && r.start == off + 1 + |l|
            && off + |Element(tag, l, content)| <= len
            && der[off..off + |Element(tag, l, content)|] == Element(tag, l, content)
  {
    var r := Tlv(der, len, off, tag).value;
    l := der[off + 1..r.start];
    assert r.start > off + 2 ==> l[1..] == der[off + 2..r.start];
    JoinSlices(der, off, off + 1, r.start);
    JoinSlices(der, off, r.start, r.start + r.length);
  }

  lemma ElementParts(der: Octets, off: nat, tag: uint8, l: Octets, content: Octets)
    requires l != [] && off + |Element(tag, l, content)| <= |der|
    requires der[off..off + |Element(tag, l, content)|] == Element(tag, l, content)
    ensures der[off] == tag && der[off + 1] == l[0]
    ensures der[off + 1..off + 1 + |l|] == l
    ensures der[off + 1 + |l|..off + 1 + |l| + |content|] == content
  {
    var e, t := Element(tag, l, content), der[off..];
    SliceOfTail(der, off, 0, |e|);
    assert t[0..|e|] == t[..|e|];
    LastPart([tag] + l, content, t);
    LastPart([tag], l, t);
    SliceOfTail(der, off, 1, 1 + |l|);
    SliceOfTail(der, off, 1 + |l|, 1 + |l| + |content|);
    assert t[0] == e[0] && t[1] == e[1];
  }

  method DerTlv(der: Octets, len: nat, off: nat, tag: uint8) returns (ok: bool, start: nat, vlen: nat)
    requires len <= |der|
    ensures (if ok then Some(Extent(start, vlen)) else None) == Tlv(der, len, off, tag)
  {
    ok, start, vlen := false, off, 0;
    var i := off;
    if i >= len || len - i < 2 || der[i] != tag {
      return;
    }
    i := i + 1;
    var b := der[i];
    i := i + 1;
    var n: nat;
    if b < 0x80 {
      n := b;
    } else {
      var octets: nat := b - 0x80;
      if octets == 0 || octets > 8 || len - i < octets {
        return;
      }
      n := LongLength(der, i, octets);
      i := i + octets;
    }
    if n > len - i {
      return;
    }
    ok, start, vlen := true, i, n;
  }

  /** The octets of a long-form length, one after another. */
  method LongLength(der: Octets, first: nat, count: nat) returns (n: nat)
    requires first + count <= |der|
    ensures n == Value(der[first..first + count])
  {
    var i: nat, octets: nat := first, count;
    n := 0;
    assert der[first..i] == [];
    while octets > 0
      invariant first <= i && i + octets == first + count <= |der|
      invariant n == Value(der[first..i])
    {
      SliceSnoc(der, first, i);
      ValueAppend(der[first..i], der[i]);
      n := n * 0x100 + der[i];
      octets := octets - 1;
      i := i + 1;
    }
  }

  // ---- The list ------------------------------------------------------------------------------------

  /** An extension: its OID, and whatever follows it. */
  datatype Extension = Extension(seqLen: Octets, idLen: Octets, oid: Octets, rest: Octets)
  {
    function Content(): Octets { Element(0x06, idLen, oid) + rest }

    predicate WellFormed() { IsLength(seqLen, |Content()|) && IsLength(idLen, |oid|) }

    function Wire(): (w: Octets)
      ensures |w| >= 2 || seqLen == []
    {
      Element(0x30, seqLen, Content())
    }
  }

  predicate AllWellFormed(list: seq<Extension>) {
    forall k :: 0 <= k < |list| ==> list[k].WellFormed()
  }

  function WireOf(list: seq<Extension>): Octets {
    if list == [] then [] else list[0].Wire() + WireOf(list[1..])
  }

  predicate Has(list: seq<Extension>, oid: Octets) {
    exists k :: 0 <= k < |list| && list[k].oid == oid
  }

  /** The walk over the entries, from off on. */
  function Walk(der: Octets, off: nat, oid: Octets): bool
    decreases |der| - off
  {
    if off >= |der| then false
    else
      var e := Tlv(der, |der|, off, SEQUENCE);
      if e.None? then false
      else
        var end := e.value.start + e.value.length;
        var id := Tlv(der, end, e.value.start, OID);
        if id.None? then false
        else if der[id.value.start..id.value.start + id.value.length] == oid then true
        else Walk(der, end, oid)
  }

  /** The list itself: a header is taken off if there is another SEQUENCE right inside. */
  function Unwrapped(der: Octets): Octets {
    var outer := Tlv(der, |der|, 0, SEQUENCE);
    if outer.Some? && outer.value.start + outer.value.length == |der|
       && Tlv(der, |der|, outer.value.start, SEQUENCE).Some?
    then der[outer.value.start..]
    else der
  }

  /** tcpv4X509HasExtension */
  method HasExtension(der: Octets, oid: Octets) returns (found: bool)
    ensures found == (oid != [] && Walk(Unwrapped(der), 0, oid))
  {
    if oid == [] {
      return false;
    }
    var list := Unwrap(der);
    found := WalkList(list, oid);
  }

  method Unwrap(der: Octets) returns (list: Octets)
    ensures list == Unwrapped(der)
  {
    hide Tlv;
    list := der;
    var ok, off, vlen := DerTlv(der, |der|, 0, SEQUENCE);
    if ok && off + vlen == |der| {
      var inside, _, _ := DerTlv(der, |der|, off, SEQUENCE);
      if inside {
        list := der[off..];
      }
    }
  }

  method WalkList(list: Octets, oid: Octets) returns (found: bool)
    requires oid != []
    ensures found == Walk(list, 0, oid)
  {
    hide Tlv;
    var off := 0;
    while off < |list|
      invariant Walk(list, off, oid) == Walk(list, 0, oid)
      decreases |list| - off
    {
      var seqOk, start, seqLen := DerTlv(list, |list|, off, SEQUENCE);
      if !seqOk {
        return false;
      }
      var seqEnd := start + seqLen;
      var idOk, id, idLen := DerTlv(list, seqEnd, start, OID);
      if !idOk {
        return false;
      }
      if idLen == |oid| && list[id..id + idLen] == oid {
        return true;
      }
      off := seqEnd;
    }
    found := false;
  }

  // ---- What the walk finds ---------------------------------------------------------------------------

  lemma LengthNotEmpty(l: Octets, n: nat)
    requires IsLength(l, n)
    ensures l != []
  {}

  lemma EntryRead(der: Octets, off: nat, e: Extension)
    requires e.WellFormed() && off + |e.Wire()| <= |der| && der[off..off + |e.Wire()|] == e.Wire()
    ensures var s := off + 1 + |e.seqLen|;
            var end := off + |e.Wire()|;
            && Tlv(der, |der|, off, SEQUENCE) == Some(Extent(s, end - s))
            && Tlv(der, end, s, OID) == Some(Extent(s + 1 + |e.idLen|, |e.oid|))
            && der[s + 1 + |e.idLen|..s + 1 + |e.idLen| + |e.oid|] == e.oid
  {
    hide Tlv, IsLength;
    LengthNotEmpty(e.seqLen, |e.Content()|);
    TlvThere(der, |der|, off, SEQUENCE, e.seqLen, e.Content());
    ElementParts(der, off, SEQUENCE, e.seqLen, e.Content());
    var s, id := off + 1 + |e.seqLen|, Element(OID, e.idLen, e.oid);
    hide Element;
    SliceOfTail(der[..s + |e.Content()|], s, 0, |id|);
    PartsOf(id, e.rest);
    assert der[..s + |e.Content()|][s..] == der[s..s + |e.Content()|] == id + e.rest;
    TlvThere(der, off + |e.Wire()|, s, OID, e.idLen, e.oid);
  }

  /** Entries in front of anything else are looked at one by one. */
  lemma {:induction false} WalkFinds(der: Octets, off: nat, list: seq<Extension>, oid: Octets)
    requires AllWellFormed(list) && off <= |der| && WireOf(list) <= der[off..]
    ensures Walk(der, off, oid) <==> Has(list, oid) || Walk(der, off + |WireOf(list)|, oid)
    decreases |list|
  {
    hide Tlv, Has, IsLength, Element;
    if list != [] {
      var e, w := list[0], list[0].Wire();
      LengthNotEmpty(e.seqLen, |e.Content()|);
      DropHead(w, WireOf(list[1..]), der[off..]);
      SliceOfTail(der, off, 0, |w|);
      SliceOfTail(der, off, |w|, |der| - off);
      EntryRead(der, off, e);
      WalkFinds(der, off + |w|, list[1..], oid);
      HasFirst(list, oid);
    } else {
      NothingHas(oid);
    }
  }

  /** What the walk reads as an entry is one. */
  lemma EntryThere(der: Octets, off: nat) returns (e: Extension, end: nat)
    requires Tlv(der, |der|, off, SEQUENCE).Some?
    requires var s := Tlv(der, |der|, off, SEQUENCE).value; Tlv(der, s.start + s.length, s.start, OID).Some?
    ensures var s := Tlv(der, |der|, off, SEQUENCE).value;
            var id := Tlv(der, s.start + s.length, s.start, OID).value;
            && end == s.start + s.length && off + 2 <= end
            && e.WellFormed() && e.Wire() == der[off..end] && e.oid == der[id.start..id.start + id.length]
  {
    hide Tlv, IsLength;
    var s := Tlv(der, |der|, off, SEQUENCE).value;
    end := s.start + s.length;
    var id := Tlv(der, end, s.start, OID).value;
    var l := TlvIsThere(der, |der|, off, SEQUENCE);
    var l' := TlvIsThere(der, end, s.start, OID);
    var oid, rest := der[id.start..id.start + id.length], der[id.start + id.length..end];
    e := Extension(l, l', oid, rest);
    ContentIs(der, s.start, end, l', oid, rest);
  }

  lemma ContentIs(der: Octets, from: nat, end: nat, l: Octets, oid: Octets, rest: Octets)
    requires from + |Element(OID, l, oid)| + |rest| == end <= |der|
    requires der[from..from + |Element(OID, l, oid)|] == Element(OID, l, oid)
    requires rest == der[from + |Element(OID, l, oid)|..end]
    ensures Element(0x06, l, oid) + rest == der[from..end]
  {
    JoinSlices(der, from, from + |Element(OID, l, oid)|, end);
  }

  /** The entries that the walk has been through when it finds the OID. */
  lemma {:induction false} WalkGives(der: Octets, off: nat, oid: Octets) returns (list: seq<Extension>)
    requires off <= |der| && Walk(der, off, oid)
    ensures AllWellFormed(list) && WireOf(list) <= der[off..] && Has(list, oid)
    decreases |der| - off
  {
    hide Tlv, Element, Has, IsLength;
    var e, end := EntryThere(der, off);
    FirstSlice(der, off, end);
    var rest: seq<Extension> := [];
    if e.oid != oid {
      rest := WalkGives(der, end, oid);
    }
    list := [e] + rest;
    assert list[1..] == rest;
    HasFirst(list, oid);
    hide Walk;
    PrependPrefix(e.Wire(), WireOf(rest), der[end..]);
  }

  lemma FirstSlice<T>(s: seq<T>, i: nat, j: nat)
    requires i <= j <= |s|
    ensures s[i..j] <= s[i..] && s[i..] == s[i..j] + s[j..]
  {}

  /** For any octets whatever, the walk finds an OID exactly when they begin with well-formed entries
      of which one carries it. */
  lemma WalkExactlyWhen(der: Octets, oid: Octets)
    ensures Walk(der, 0, oid) <==>
              exists list: seq<Extension> :: AllWellFormed(list) && WireOf(list) <= der && Has(list, oid)
  {
    hide Tlv, Has, IsLength, Element, WireOf, AllWellFormed;
    assert der[0..] == der;
    if Walk(der, 0, oid) {
      var list := WalkGives(der, 0, oid);
    }
    forall list: seq<Extension> | AllWellFormed(list) && WireOf(list) <= der && Has(list, oid)
      ensures Walk(der, 0, oid)
    {
      WalkFinds(der, 0, list, oid);
    }
  }

  lemma NothingHas(oid: Octets)
    ensures !Has([], oid)
  {}

  lemma HasFirst(list: seq<Extension>, oid: Octets)
    requires list != []
    ensures Has(list, oid) <==> list[0].oid == oid || Has(list[1..], oid)
  {
    if k :| 0 <= k < |list| && list[k].oid == oid {
      assert k > 0 ==> list[1..][k - 1] == list[k];
    }
    if k :| 0 <= k < |list[1..]| && list[1..][k].oid == oid {
      assert list[k + 1] == list[1..][k];
    }
  }

  /** A list without its header is left as it is. */
  lemma BareStays(list: seq<Extension>)
    requires AllWellFormed(list)
    ensures Unwrapped(WireOf(list)) == WireOf(list)
  {
    if list != [] {
      var der, e := WireOf(list), list[0];
      assert der[0..|e.Wire()|] == e.Wire();
      EntryRead(der, 0, e);
      assert der[1 + |e.seqLen|] == e.Wire()[1 + |e.seqLen|] == OID;
    }
  }

  lemma NothingThere(der: Octets, len: nat, off: nat, tag: uint8)
    requires len <= |der| && (off >= len || der[off] != tag)
    ensures Tlv(der, len, off, tag) == None
  {}

  lemma HeaderRead(der: Octets, tag: uint8, l: Octets, inner: Octets)
    requires IsLength(l, |inner|) && der == Element(tag, l, inner)
    ensures Tlv(der, |der|, 0, tag) == Some(Extent(1 + |l|, |inner|)) && |der| == 1 + |l| + |inner|
    ensures der[1 + |l|..] == inner
  {
    assert der[0..|der|] == der;
    LengthNotEmpty(l, |inner|);
    hide Tlv, IsLength;
    TlvThere(der, |der|, 0, tag, l, inner);
    ElementParts(der, 0, tag, l, inner);
    assert der[1 + |l|..] == der[0 + 1 + |l|..0 + 1 + |l| + |inner|];
  }

  lemma FirstEntryRead(der: Octets, s: nat, list: seq<Extension>)
    requires AllWellFormed(list) && list != [] && s <= |der| && der[s..] == WireOf(list)
    ensures Tlv(der, |der|, s, SEQUENCE).Some?
  {
    hide Tlv, IsLength, Element;
    var w := list[0].Wire();
    assert (w + WireOf(list[1..]))[..|w|] == w;
    assert der[s..s + |w|] == der[s..][..|w|];
    EntryRead(der, s, list[0]);
  }

  /** A header is taken off, or stands before nothing. */
  lemma HeaderComesOff(l: Octets, list: seq<Extension>, oid: Octets)
    requires AllWellFormed(list) && IsLength(l, |WireOf(list)|)
    ensures var der := Element(SEQUENCE, l, WireOf(list));
            Walk(Unwrapped(der), 0, oid) == Walk(WireOf(list), 0, oid)
  {
    hide Tlv, IsLength;
    var der, inner := Element(SEQUENCE, l, WireOf(list)), WireOf(list);
    HeaderRead(der, SEQUENCE, l, inner);
    hide Element;
    if list == [] {
      NothingThere(der, |der|, 1 + |l|, SEQUENCE);
      NothingThere(der, |der|, 1 + |l|, OID);
      assert Unwrapped(der) == der && !Walk(der, 0, oid);
    } else {
      FirstEntryRead(der, 1 + |l|, list);
      assert Unwrapped(der) == inner;
    }
  }

  lemma NothingBehind(der: Octets, oid: Octets)
    ensures !Walk(der, |der|, oid)
  {}

  /** For every well-formed extension list, with or without its header and whatever length
      forms it uses, an extension is found exactly when some entry carries its OID. */
  lemma FoundExactlyWhen(list: seq<Extension>, l: Octets, oid: Octets)
    requires AllWellFormed(list) && IsLength(l, |WireOf(list)|)
    ensures Walk(Unwrapped(WireOf(list)), 0, oid) == Has(list, oid)
    ensures Walk(Unwrapped(Element(0x30, l, WireOf(list))), 0, oid) == Has(list, oid)
  {
    NothingBehind(WireOf(list), oid);
    hide Walk, Tlv, Has, IsLength, Element, Unwrapped, WireOf, AllWellFormed;
    BareStays(list);
    HeaderComesOff(l, list, oid);
    assert WireOf(list)[0..] == WireOf(list);
    WalkFinds(WireOf(list), 0, list, oid);
  }

  // ---- The node ID in a subject alternative name -----------------------------------------------------

  /** tcpv4X509BundleEid: the text of an IA5String, bare or inside a [0] wrapper. */
  method BundleEid(der: Octets, cap: nat) returns (text: Option<Octets>)
    ensures text == EidOf(der, cap)
  {
    if cap == 0 {
      return None;
    }
    var end, off := |der|, 0;
    var wrapped, start, vlen := DerTlv(der, |der|, 0, CONTEXT_0);
    if wrapped {
      end, off := start + vlen, start;
    }
    var ok;
    ok, start, vlen := DerTlv(der, end, off, IA5STRING);
    if !ok || vlen == 0 || vlen >= cap {
      return None;
    }
    var into := der[start..start + vlen];
    text := if 0 in into then None else Some(into);
  }

  function EidOf(der: Octets, cap: nat): Option<Octets> {
    var wrapper := Tlv(der, |der|, 0, CONTEXT_0);
    var end := if wrapper.Some? then wrapper.value.start + wrapper.value.length else |der|;
    var s := Tlv(der, end, if wrapper.Some? then wrapper.value.start else 0, IA5STRING);
    if s.None? || s.value.length == 0 || s.value.length >= cap then None
    else
      var text := der[s.value.start..s.value.start + s.value.length];
      if 0 in text then None else Some(text)
  }

  /** What a node ID's text must be to be read. */
  predicate Readable(text: Octets, cap: nat) { 0 < |text| < cap && 0 !in text }

  lemma BareEid(text: Octets, l: Octets, cap: nat)
    requires IsLength(l, |text|)
    ensures EidOf(Element(IA5STRING, l, text), cap) == if Readable(text, cap) then Some(text) else None
  {
    hide Tlv, IsLength;
    var bare := Element(IA5STRING, l, text);
    HeaderRead(bare, IA5STRING, l, text);
    assert bare[0] == IA5STRING;
    NothingThere(bare, |bare|, 0, CONTEXT_0);
    hide Element;
    assert bare[1 + |l|..1 + |l| + |text|] == text;
  }

  lemma WrappedEid(text: Octets, l: Octets, outer: Octets, cap: nat)
    requires IsLength(l, |text|) && IsLength(outer, |Element(IA5STRING, l, text)|)
    ensures EidOf(Element(CONTEXT_0, outer, Element(IA5STRING, l, text)), cap)
            == if Readable(text, cap) then Some(text) else None
  {
    hide Tlv, IsLength;
    var bare := Element(IA5STRING, l, text);
    var der := Element(CONTEXT_0, outer, bare);
    HeaderRead(der, CONTEXT_0, outer, bare);
    LengthNotEmpty(l, |text|);
    var from := 1 + |outer|;
    assert |bare| == 1 + |l| + |text|;
    hide Element;
    assert der[from..from + |bare|] == bare;
    TlvThere(der, |der|, from, IA5STRING, l, text);
  }

  /** The text is read in either form, exactly when it can be kept as a C string. */
  lemma EidRead(text: Octets, l: Octets, outer: Octets, cap: nat)
    requires IsLength(l, |text|) && IsLength(outer, |Element(0x16, l, text)|)
    ensures EidOf(Element(0x16, l, text), cap) == if Readable(text, cap) then Some(text) else None
    ensures EidOf(Element(0xA0, outer, Element(0x16, l, text)), cap)
            == if Readable(text, cap) then Some(text) else None
  {
    hide EidOf, Element, IsLength;
    BareEid(text, l, cap);
    WrappedEid(text, l, outer, cap);
  }
}
