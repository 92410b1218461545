/** The mail message builder and parser as they run: a growable buffer that is appended to,
    and loops that advance through a message. */
module MailBuild {
  import opened Octets
  import opened MailB64
  import opened MailText
  import opened MailMsg

  /** The growable buffer; what it holds is followed by a terminator. */
  class Buf {
    var p: array<uint8>
    var len: nat

    ghost predicate Valid()
      reads this, p
    {
      len <= p.Length && (len > 0 ==> len < p.Length && p[len] == 0)
    }

    ghost function Contents(): Octets
      requires Valid()
      reads this, p
    {
      p[..len]
    }

    constructor ()
      ensures Valid() && Contents() == [] && fresh(p)
    {
      p, len := new uint8[0], 0;
    }

    /** bufEnsure */
    method Ensure(extra: nat)
      requires Valid()
      modifies this`p
      ensures len + extra + 1 <= p.Length && p[..len] == old(p[..len])
      ensures p == old(p) || fresh(p)
    {
      if len + extra + 1 > p.Length {
        var ncap := if p.Length == 0 then 1024 else p.Length;
        while ncap < len + extra + 1
          invariant ncap > 0
          decreases len + extra + 1 - ncap
        {
          ncap := ncap * 2;
        }
        var np := new uint8[ncap];
        forall i | 0 <= i < len {
          np[i] := p[i];
        }
        assert np[..len] == p[..len];
        p := np;
      }
    }

    /** bufAppend */
    method Append(data: Octets)
      requires Valid()
      modifies this, p
      ensures Valid() && Contents() == old(Contents()) + data
      ensures p == old(p) || fresh(p)
    {
      Ensure(|data|);
      ghost var held := p[..len];
      forall i | 0 <= i < |data| {
        p[len + i] := data[i];
      }
      assert p[..len + |data|] == held + data;
      len := len + |data|;
      p[len] := 0;
      assert p[..len] == held + data;
    }

    /** bufB64: the text of a bundle, a line at a time. */
    method AppendText(bundle: Octets)
      requires Valid()
      modifies this, p
      ensures Valid() && Contents() == old(Contents()) + Text(bundle)
      ensures p == old(p) || fresh(p)
    {
      var enc := new uint8[EncodedLen(|bundle|)];
      var rc, enclen := EncodeTo(bundle, enc);
      var text := enc[..enclen];
      AppendLines(text);
    }

    method AppendLines(e: Octets)
      requires Valid()
      modifies this, p
      ensures Valid() && Contents() == old(Contents()) + Wrap(e)
      ensures p == old(p) || fresh(p)
    {
      var i: nat := 0;
      ghost var goal := Contents() + Wrap(e);
      assert e[0..] == e;
      while i < |e|
        invariant Valid() && i <= |e| && (p == old(p) || fresh(p))
        invariant Contents() + Wrap(e[i..]) == goal
      {
        hide Wrap;
        var n := if |e| - i < COLUMNS then |e| - i else COLUMNS;
        WrapStep(e, i);
        Associate4(Contents(), e[i..i + n], CRLF, Wrap(e[i + n..]));
        Append(e[i..i + n]);
        Append(CRLF);
        i := i + n;
      }
      assert e[i..] == [] && Contents() + [] == Contents();
    }
  }

  lemma WrapStep(e: Octets, i: nat)
    requires i < |e|
    ensures var n := if |e| - i < COLUMNS then |e| - i else COLUMNS;
            Wrap(e[i..]) == e[i..i + n] + CRLF + Wrap(e[i + n..])
  {
    var n := if |e| - i < COLUMNS then |e| - i else COLUMNS;
    if |e| - i <= COLUMNS {
      assert e[i..i + n] == e[i..] && e[i + n..] == [];
      assert e[i..] + CRLF + [] == e[i..] + CRLF;
    } else {
      assert e[i..][..COLUMNS] == e[i..i + n] && e[i..][COLUMNS..] == e[i + n..];
    }
  }

  method AppendHeader(b: Buf, f: Fields, e: Encoding, count: nat)
    requires b.Valid()
    modifies b, b.p
    ensures b.Valid() && (b.p == old(b.p) || fresh(b.p))
    ensures b.Contents() == old(b.Contents()) + (Header(f, e, count) + BLANK_LINE)
  {
    hide *;
    var lines := HeaderLines(f, e, count);
    assert |lines| == 6 by { CountLines(f, e, count); }
    ghost var start := b.Contents();
    var i := 0;
    assert lines[..0] == [] && start + Concat<uint8>([]) == start by { NoLines(start); }
    while i < |lines|
      invariant b.Valid() && i <= |lines| && (b.p == old(b.p) || fresh(b.p))
      invariant b.Contents() == start + Concat(lines[..i])
    {
      ConcatSnoc(lines[..i], lines[i]);
      assert lines[..i + 1] == lines[..i] + [lines[i]];
      b.Append(lines[i]);
      i := i + 1;
    }
    assert lines[..i] == lines;
    b.Append(ContentType(e) + BLANK_LINE);
    HeaderIs(f, e, count, start);
  }

  lemma CountLines(f: Fields, e: Encoding, count: nat)
    ensures |HeaderLines(f, e, count)| == 6
  {}

  lemma NoLines(start: Octets)
    ensures start + Concat<uint8>([]) == start
  {}

  lemma HeaderIs(f: Fields, e: Encoding, count: nat, start: Octets)
    ensures start + Concat(HeaderLines(f, e, count)) + (ContentType(e) + BLANK_LINE)
            == start + (Header(f, e, count) + BLANK_LINE)
  {
    hide HeaderLines, ContentType;
  }

  method AppendAttachments(b: Buf, bundles: seq<Octets>)
    requires b.Valid()
    modifies b, b.p
    ensures b.Valid() && (b.p == old(b.p) || fresh(b.p))
    ensures b.Contents() == old(b.Contents()) + AttachBody(bundles, 1)
  {
    hide *;
    var i := 0;
    ghost var goal := b.Contents() + AttachBody(bundles, 1);
    assert bundles[0..] == bundles;
    while i < |bundles|
      invariant b.Valid() && i <= |bundles| && (b.p == old(b.p) || fresh(b.p))
      invariant b.Contents() + AttachBody(bundles[i..], i + 1) == goal
    {
      AttachStep(b.Contents(), bundles, i);
      b.Append(DELIM);
      b.Append(PartHead(i + 1) + BLANK_LINE);
      b.AppendText(bundles[i]);
      i := i + 1;
    }
    b.Append(DELIM + [DASH, DASH] + CRLF);
    AttachEnd(bundles, i);
  }

  lemma AttachStep(start: Octets, bundles: seq<Octets>, i: nat)
    requires i < |bundles|
    ensures start + AttachBody(bundles[i..], i + 1)
            == start + DELIM + (PartHead(i + 1) + BLANK_LINE) + Text(bundles[i]) + AttachBody(bundles[i + 1..], i + 2)
  {
    assert bundles[i..][0] == bundles[i] && bundles[i..][1..] == bundles[i + 1..];
    var head, text, rest := PartHead(i + 1), Text(bundles[i]), AttachBody(bundles[i + 1..], i + 2);
    assert AttachBody(bundles[i..], i + 1) == DELIM + (head + BLANK_LINE + (text + rest));
    hide *;
    Associate5(start, DELIM, head + BLANK_LINE, text, rest);
  }

  lemma AttachEnd(bundles: seq<Octets>, i: nat)
    requires i == |bundles|
    ensures AttachBody(bundles[i..], i + 1) == DELIM + [DASH, DASH] + CRLF
  {
    assert bundles[i..] == [];
    Associate3(DELIM, [DASH, DASH], CRLF);
  }

  method AppendShown(b: Buf, e: Encoding, bundle: Octets)
    requires b.Valid()
    modifies b, b.p
    ensures b.Valid() && (b.p == old(b.p) || fresh(b.p))
    ensures b.Contents() == old(b.Contents()) + Shown(e, bundle)
  {
    if e.Raw? {
      b.Append(bundle);
    } else {
      b.AppendText(bundle);
    }
  }

  method AppendPlain(b: Buf, e: Encoding, bundles: seq<Octets>)
    requires b.Valid() && bundles != []
    modifies b, b.p
    ensures b.Valid() && (b.p == old(b.p) || fresh(b.p))
    ensures b.Contents() == old(b.Contents()) + PlainBody(e, bundles)
  {
    hide *;
    ghost var goal := b.Contents() + PlainBody(e, bundles);
    PlainStart(b.Contents(), e, bundles);
    AppendShown(b, e, bundles[0]);
    var i := 1;
    while i < |bundles|
      invariant b.Valid() && 1 <= i <= |bundles| && (b.p == old(b.p) || fresh(b.p))
      invariant b.Contents() + Behind(e, bundles, i) == goal
    {
      BehindStep(e, bundles, i);
      Associate4(b.Contents(), CRLF + SEPARATOR + CRLF, Shown(e, bundles[i]), Behind(e, bundles, i + 1));
      b.Append(CRLF + SEPARATOR + CRLF);
      AppendShown(b, e, bundles[i]);
      i := i + 1;
    }
    PlainEnd(b.Contents(), e, bundles, i);
  }

  lemma PlainStart(start: Octets, e: Encoding, bundles: seq<Octets>)
    requires bundles != []
    ensures start + PlainBody(e, bundles) == start + Shown(e, bundles[0]) + Behind(e, bundles, 1)
  {
    PlainBodyIs(e, bundles);
    hide Shown, PlainBody, Behind;
    Associate3(start, Shown(e, bundles[0]), Behind(e, bundles, 1));
  }

  lemma PlainBodyIs(e: Encoding, bundles: seq<Octets>)
    requires bundles != []
    ensures PlainBody(e, bundles) == Shown(e, bundles[0]) + Behind(e, bundles, 1)
  {
    hide Shown;
    var first := Shown(e, bundles[0]);
    if |bundles| == 1 {
      assert first + [] == first;
    } else {
      var rest := CRLF + PlainBody(e, bundles[1..]);
      assert PlainBody(e, bundles) == first + CRLF + SEPARATOR + rest;
      hide PlainBody;
      Associate4(first, CRLF, SEPARATOR, rest);
    }
  }

  lemma PlainEnd(end: Octets, e: Encoding, bundles: seq<Octets>, i: nat)
    requires i == |bundles|
    ensures end + Behind(e, bundles, i) == end
  {}

  /** What a plain body still lacks when its first i bundles are there. */
  function Behind(e: Encoding, bundles: seq<Octets>, i: nat): Octets
    requires i <= |bundles|
  {
    if i == |bundles| then [] else CRLF + SEPARATOR + (CRLF + PlainBody(e, bundles[i..]))
  }

  lemma BehindStep(e: Encoding, bundles: seq<Octets>, i: nat)
    requires i < |bundles|
    ensures Behind(e, bundles, i) == CRLF + SEPARATOR + CRLF + Shown(e, bundles[i]) + Behind(e, bundles, i + 1)
  {
    hide Shown;
    assert bundles[i..][0] == bundles[i] && bundles[i..][1..] == bundles[i + 1..];
    PlainStart(CRLF + SEPARATOR + CRLF, e, bundles[i..]);
    assert Behind(e, bundles[i..], 1) == Behind(e, bundles, i + 1) by {
      assert |bundles[i..]| == 1 <==> i + 1 == |bundles|;
    }
    var rest := PlainBody(e, bundles[i..]);
    assert CRLF + SEPARATOR + (CRLF + rest) == CRLF + SEPARATOR + CRLF + rest;
  }

  /** mailBuildMessage */
  method BuildMessage(f: Fields, e: Encoding, bundles: seq<Octets>) returns (rc: int, out: Octets)
    ensures rc == if bundles == [] then -1 else 0
    ensures rc == 0 ==> out == Message(f, e, bundles)
  {
    if bundles == [] {
      return -1, [];
    }
    hide Header, AttachBody, PlainBody;
    var b := new Buf();
    AppendHeader(b, f, e, |bundles|);
    assert b.Contents() == Header(f, e, |bundles|) + BLANK_LINE;
    if e.Attach? {
      AppendAttachments(b, bundles);
    } else {
      AppendPlain(b, e, bundles);
    }
    rc, out := 0, b.p[..b.len];
  }

  // ---- Parsing ---------------------------------------------------------------------------------------

  /** bodyStart: where the body begins. */
  method BodyStart(msg: Octets) returns (off: nat)
    ensures off <= |msg| && msg[off..] == BodyOf(msg)
  {
    var sep := Memfind(msg, BLANK_LINE);
    if sep >= 0 {
      return sep + 4;
    }
    sep := Memfind(msg, [LF, LF]);
    off := if sep >= 0 then sep + 2 else 0;
    assert msg[0..] == msg;
  }

  method Until(s: Octets, stops: seq<uint8>, max: nat) returns (r: Octets)
    ensures r == TakeUntil(s, stops, max)
  {
    var i := 0;
    r := [];
    assert s[0..] == s;
    hide TakeUntil;
    while i < |s| && s[i] !in stops && i < max
      invariant i <= |s| && i <= max
      invariant r + TakeUntil(s[i..], stops, max - i) == TakeUntil(s, stops, max)
    {
      OneTaken(s, i, stops, max - i);
      Associate3(r, [s[i]], TakeUntil(s[i + 1..], stops, max - i - 1));
      r := r + [s[i]];
      i := i + 1;
    }
    NoneTaken(s, i, stops, max - i);
    assert r + [] == r;
  }

  lemma OneTaken(s: Octets, i: nat, stops: seq<uint8>, max: nat)
    requires i < |s| && s[i] !in stops && max > 0
    ensures TakeUntil(s[i..], stops, max) == [s[i]] + TakeUntil(s[i + 1..], stops, max - 1)
  {
    assert s[i..][0] == s[i] && s[i..][1..] == s[i + 1..];
  }

  lemma NoneTaken(s: Octets, i: nat, stops: seq<uint8>, max: nat)
    requires i <= |s| && (i == |s| || s[i] in stops || max == 0)
    ensures TakeUntil(s[i..], stops, max) == []
  {}

  /** findBoundary */
  method FindBoundary(hdr: Octets) returns (boundary: Octets)
    ensures boundary == BoundaryOf(hdr)
  {
    var b := Memfind(hdr, BOUNDARY_IS);
    if b < 0 {
      return [];
    }
    var p := hdr[b + |BOUNDARY_IS|..];
    if p != [] && p[0] == QUOTE {
      boundary := Until(p[1..], [QUOTE], 127);
    } else {
      boundary := Until(p, [CR, LF, 59, 32], 127);
    }
  }

  /** deliverB64, up to the callback: the decoded bundle fits a buffer as long as its text. */
  method DecodeChunk(e: Encoding, chunk: Octets) returns (bundles: seq<Octets>)
    ensures bundles == Delivered(e, chunk) && |bundles| <= 1
  {
    if chunk == [] {
      return [];
    }
    if e.Raw? {
      return [chunk];
    }
    var raw := new uint8[|chunk|];
    DecodeShortens(0, 0, chunk);
    var rc, rawlen := DecodeTo(chunk, raw);
    bundles := if rc < 0 || rawlen == 0 then [] else [raw[..rawlen]];
  }

  /** Bundles that have been given to the callback: all that were found up to here, and only
      the last may have been refused. */
  predicate GivenOf(given: seq<Octets>, all: seq<Octets>, accepts: nat -> bool, rc: int) {
    && given <= all
    && (rc >= 0 ==> given == all && rc == |all| && forall k :: 0 <= k < |all| ==> accepts(k))
    && (rc < 0 ==> given != [] && !accepts(|given| - 1))
  }

  lemma GiveOne(given: seq<Octets>, found: seq<Octets>, rest: seq<Octets>, all: seq<Octets>)
    requires given + (found + rest) == all
    ensures given + found + rest == all && given + found <= all
  {
    assert all == (given + found) + rest;
  }

  method ParseAttach(msg: Octets, accepts: nat -> bool) returns (rc: int, given: seq<Octets>)
    ensures GivenOf(given, Parsed(Attach, msg), accepts, rc)
  {
    hide Parts, AllDelivered, BoundaryOf, BodyOf, AttachChunks;
    NothingFound(Attach);
    var sep := Memfind(msg, BLANK_LINE);
    var boundary := FindBoundary(if sep < 0 then msg else msg[..sep]);
    if boundary == [] {
      NoBoundary(msg);
      return 0, [];
    }
    var delim := [DASH, DASH] + boundary;
    var off := BodyStart(msg);
    var p := Memfind(msg[off..], delim);
    PartsBehind(msg, boundary);
    hide Find;
    if p < 0 {
      return 0, [];
    }
    rc, given := ParseParts(msg[off..][p + |delim|..], delim, accepts);
  }

  lemma NothingFound(e: Encoding)
    ensures AllDelivered(e, []) == []
  {}

  lemma NoBoundary(msg: Octets)
    requires var sep := Find(msg, BLANK_LINE); BoundaryOf(if sep < 0 then msg else msg[..sep]) == []
    ensures AttachChunks(msg) == []
  {
    hide BoundaryOf, BodyOf;
  }

  lemma PartsBehind(msg: Octets, boundary: Octets)
    requires boundary != []
    requires var sep := Find(msg, BLANK_LINE); BoundaryOf(if sep < 0 then msg else msg[..sep]) == boundary
    ensures var delim := [DASH, DASH] + boundary;
            var p := Find(BodyOf(msg), delim);
            AttachChunks(msg) == if p < 0 then [] else Parts(BodyOf(msg)[p + |delim|..], delim)
  {
    hide BoundaryOf, BodyOf, Parts;
  }

  method ParseParts(s: Octets, delim: Octets, accepts: nat -> bool) returns (rc: int, given: seq<Octets>)
    requires delim != []
    ensures GivenOf(given, AllDelivered(Attach, Parts(s, delim)), accepts, rc)
  {
    hide Parts, AllDelivered, Delivered;
    given := [];
    var rest, more := s, true;
    ghost var all := AllDelivered(Attach, Parts(s, delim));
    while more
      invariant given + (if more then AllDelivered(Attach, Parts(rest, delim)) else []) == all
      invariant forall k :: 0 <= k < |given| ==> accepts(k)
      decreases more, |rest|
    {
      var chunk: Octets;
      more, chunk, rest := NextPart(rest, delim);
      if more {
        var found := DecodeChunk(Attach, chunk);
        GiveOne(given, found, AllDelivered(Attach, Parts(rest, delim)), all);
        given := given + found;
        if found != [] && !accepts(|given| - 1) {
          return -1, given;
        }
      }
    }
    rc := |given|;
  }

  /** The next part of a multipart body, if there is one. */
  method NextPart(s: Octets, delim: Octets) returns (more: bool, chunk: Octets, rest: Octets)
    requires delim != []
    ensures more ==> |rest| < |s|
    ensures AllDelivered(Attach, Parts(s, delim))
            == if more then Delivered(Attach, chunk) + AllDelivered(Attach, Parts(rest, delim)) else []
  {
    hide Delivered, AllDelivered, Parts, Find, Trimmed;
    more, chunk, rest := false, [], s;
    NothingFound(Attach);
    if |s| >= 2 && s[0] == DASH && s[1] == DASH {
      NoPart(s, delim);
      return;
    }
    var h := Memfind(s, BLANK_LINE);
    if h < 0 {
      NoPart(s, delim);
      return;
    }
    var part := s[h + 4..];
    var n := Memfind(part, delim);
    if n < 0 {
      NoPart(s, delim);
      return;
    }
    PartIs(s, delim);
    chunk := TrimEnd(part[..n]);
    more, rest := true, part[n + |delim|..];
    DeliveredFirst(Attach, chunk, Parts(rest, delim));
  }

  method TrimEnd(s: Octets) returns (r: Octets)
    ensures r == Trimmed(s)
  {
    r := s;
    if |r| >= 2 && r[|r| - 2..] == CRLF {
      r := r[..|r| - 2];
    }
  }

  /** Where there is no part. */
  lemma NoPart(s: Octets, delim: Octets)
    requires delim != []
    requires (|s| >= 2 && s[0] == DASH && s[1] == DASH) || Find(s, BLANK_LINE) < 0
             || Find(s[Find(s, BLANK_LINE) + 4..], delim) < 0
    ensures Parts(s, delim) == []
  {
    hide Find;
  }

  /** And where there is one. */
  lemma PartIs(s: Octets, delim: Octets)
    requires delim != [] && !(|s| >= 2 && s[0] == DASH && s[1] == DASH)
    requires Find(s, BLANK_LINE) >= 0 && Find(s[Find(s, BLANK_LINE) + 4..], delim) >= 0
    ensures var part := s[Find(s, BLANK_LINE) + 4..];
            var n := Find(part, delim);
            Parts(s, delim) == [Trimmed(part[..n])] + Parts(part[n + |delim|..], delim)
  {
    hide Find, Trimmed, OccursAt, Absent;
  }

  lemma DeliveredFirst(e: Encoding, chunk: Octets, rest: seq<Octets>)
    ensures AllDelivered(e, [chunk] + rest) == Delivered(e, chunk) + AllDelivered(e, rest)
  {
    assert ([chunk] + rest)[1..] == rest;
  }

  method ParseBody(e: Encoding, msg: Octets, accepts: nat -> bool) returns (rc: int, given: seq<Octets>)
    requires !e.Attach?
    ensures GivenOf(given, Parsed(e, msg), accepts, rc)
  {
    hide Chunks, AllDelivered, Delivered, BodyOf;
    given := [];
    var off := BodyStart(msg);
    var rest, lead := msg[off..], false;
    ghost var all := Parsed(e, msg);
    while rest != []
      invariant given + AllDelivered(e, Chunks(rest, lead)) == all
      invariant forall k :: 0 <= k < |given| ==> accepts(k)
      decreases |rest|
    {
      var chunk, next := NextChunk(e, rest, lead);
      var found := DecodeChunk(e, chunk);
      GiveOne(given, found, AllDelivered(e, Chunks(next, true)), all);
      given := given + found;
      if found != [] && !accepts(|given| - 1) {
        return -1, given;
      }
      rest, lead := next, true;
    }
    NoChunks(e, lead);
    assert given + [] == given;
    rc := |given|;
  }

  lemma NoChunks(e: Encoding, lead: bool)
    ensures AllDelivered(e, Chunks([], lead)) == []
  {}

  /** The next chunk of a plain body, and what is behind the separator that ends it. */
  method NextChunk(e: Encoding, s: Octets, lead: bool) returns (chunk: Octets, rest: Octets)
    requires s != []
    ensures |rest| < |s|
    ensures AllDelivered(e, Chunks(s, lead)) == Delivered(e, chunk) + AllDelivered(e, Chunks(rest, true))
  {
    hide Delivered, Find;
    var sep := Memfind(s, SEPARATOR);
    chunk := if sep < 0 then s else s[..sep];
    if lead && |chunk| >= 2 && chunk[..2] == CRLF {
      chunk := chunk[2..];
    }
    if sep >= 0 {
      chunk := TrimEnd(chunk);
    }
    rest := if sep < 0 then [] else s[sep + |SEPARATOR|..];
    assert Chunks(s, lead) == [chunk] + Chunks(rest, true);
    hide Chunks;
    DeliveredFirst(e, chunk, Chunks(rest, true));
  }

  /** mailParseMessage */
  method ParseMessage(msg: Octets, e: Encoding, accepts: nat -> bool) returns (rc: int, given: seq<Octets>)
    ensures GivenOf(given, Parsed(e, msg), accepts, rc)
  {
    if e.Attach? {
      rc, given := ParseAttach(msg, accepts);
    } else {
      rc, given := ParseBody(e, msg, accepts);
    }
  }
}
