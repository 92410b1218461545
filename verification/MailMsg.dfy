/** The messages that carry bundles by mail: how one is built, how one is parsed, and why
    parsing a built message gives the bundles back. */
module MailMsg {
  import opened Octets
  import opened Options
  import opened MailB64
  import opened MailText

  datatype Encoding = Attach | Base64 | Raw

  const BOUNDARY := Ascii("ION-BUNDLE-MAIL-SEPARATOR")
  const DELIM := [DASH, DASH] + BOUNDARY
  const SEPARATOR := DELIM + [DASH, DASH]
  const BOUNDARY_IS := Ascii("boundary=")
  const BLANK_LINE: Octets := [CR, LF, CR, LF]
  const QUOTE: uint8 := 34
  const DASH: uint8 := 45
  const LINE_MAX := 255

  // ---- Building --------------------------------------------------------------------------------

  function Take(s: Octets, n: nat): Octets { if |s| <= n then s else s[..n] }

  /** A line as snprintf leaves it in its 256-octet buffer. */
  function Line(prefix: Octets, value: Octets): Octets { Take(prefix + value + CRLF, LINE_MAX) }

  /** A number in decimal. */
  function Decimal(n: nat): (s: Octets)
    ensures s != [] && forall i :: 0 <= i < |s| ==> 48 <= s[i] <= 57
  {
    if n < 10 then [48 + n] else Decimal(n / 10) + [48 + n % 10]
  }

  function EncodingName(e: Encoding): Octets {
    match e case Attach => Ascii("attach") case Base64 => Ascii("b64") case Raw => Ascii("raw")
  }

  datatype Fields = Fields(from: Octets, to: Octets, subject: Octets)

  function HeaderLines(f: Fields, e: Encoding, count: nat): seq<Octets> {
    [Line(Ascii("From: "), f.from),
     Line(Ascii("To: "), f.to),
     Line(Ascii("Subject: "), f.subject),
     Ascii("MIME-Version: 1.0") + CRLF,
     Line(Ascii("X-ION-Bundle-Encoding: "), EncodingName(e)),
     Line(Ascii("X-ION-Bundle-Count: "), Decimal(count))]
  }

  const MULTIPART := Ascii("Content-Type: multipart/mixed; ")
  const PLAIN := Ascii("Content-Type: text/plain")

  /** The last header, without the line end that follows it. */
  function ContentType(e: Encoding): Octets {
    if e.Attach? then MULTIPART + BOUNDARY_IS + ([QUOTE] + BOUNDARY + [QUOTE]) else PLAIN
  }

  function Header(f: Fields, e: Encoding, count: nat): Octets {
    Concat(HeaderLines(f, e, count)) + ContentType(e)
  }

  const PART_TYPE := Ascii("Content-Type: application/octet-stream; name=\"bundle")
  const PART_TAIL := Ascii(".bp\"")
  const PART_ENCODING := Ascii("Content-Transfer-Encoding: base64")

  /** What stands between a delimiter and the blank line of the i-th part, counted from 1. */
  function PartHead(i: nat): Octets {
    CRLF + (Line(PART_TYPE, Decimal(i) + PART_TAIL) + PART_ENCODING)
  }

  /** The body behind its first delimiter. */
  function Inside(bundles: seq<Octets>, i: nat): Octets
    decreases |bundles|
  {
    if bundles == [] then [DASH, DASH] + CRLF
    else PartHead(i) + BLANK_LINE + (Text(bundles[0]) + (DELIM + Inside(bundles[1..], i + 1)))
  }

  function AttachBody(bundles: seq<Octets>, i: nat): Octets { DELIM + Inside(bundles, i) }

  /** How a bundle appears in the body. */
  function Shown(e: Encoding, bundle: Octets): Octets { if e.Raw? then bundle else Text(bundle) }

  function PlainBody(e: Encoding, bundles: seq<Octets>): Octets {
    if bundles == [] then []
    else if |bundles| == 1 then Shown(e, bundles[0])
    else Shown(e, bundles[0]) + CRLF + SEPARATOR + (CRLF + PlainBody(e, bundles[1..]))
  }

  function Body(e: Encoding, bundles: seq<Octets>): Octets {
    if e.Attach? then AttachBody(bundles, 1) else PlainBody(e, bundles)
  }

  /** mailBuildMessage */
  function Message(f: Fields, e: Encoding, bundles: seq<Octets>): Octets {
    Header(f, e, |bundles|) + BLANK_LINE + Body(e, bundles)
  }

  // ---- Parsing ---------------------------------------------------------------------------------

  /** bodyStart */
  function BodyOf(msg: Octets): Octets {
    var i, j := Find(msg, BLANK_LINE), Find(msg, [LF, LF]);
    if i >= 0 then msg[i + 4..] else if j >= 0 then msg[j + 2..] else msg
  }

  /** The octets up to the first of the stop octets, but no more than max. */
  function TakeUntil(s: Octets, stops: seq<uint8>, max: nat): Octets {
    if s == [] || s[0] in stops || max == 0 then [] else [s[0]] + TakeUntil(s[1..], stops, max - 1)
  }

  /** findBoundary: the boundary that the headers declare, if any; [] if none. */
  function BoundaryOf(hdr: Octets): Octets {
    var i := Find(hdr, BOUNDARY_IS);
    if i < 0 then []
    else
      var p := hdr[i + |BOUNDARY_IS|..];
      if p != [] && p[0] == QUOTE then TakeUntil(p[1..], [QUOTE], 127)
      else TakeUntil(p, [CR, LF, 59, 32], 127)
  }

  /** Without the line end it may end with. */
  function Trimmed(s: Octets): Octets {
    if |s| >= 2 && s[|s| - 2..] == CRLF then s[..|s| - 2] else s
  }

  /** The parts of a multipart body, from behind a delimiter on. */
  function Parts(s: Octets, delim: Octets): seq<Octets>
    requires delim != []
    decreases |s|
  {
    if |s| >= 2 && s[0] == DASH && s[1] == DASH then []
    else
      var h := Find(s, BLANK_LINE);
      if h < 0 then []
      else
        var part := s[h + 4..];
        var n := Find(part, delim);
        if n < 0 then []
        else [Trimmed(part[..n])] + Parts(part[n + |delim|..], delim)
  }

  /** The chunks of a plain body; lead: behind a separator. */
  function Chunks(s: Octets, lead: bool): seq<Octets>
    decreases |s|
  {
    if s == [] then []
    else
      var i := Find(s, SEPARATOR);
      var chunk := if i < 0 then s else s[..i];
      var from := if lead && |chunk| >= 2 && chunk[..2] == CRLF then chunk[2..] else chunk;
      [if i < 0 then from else Trimmed(from)]
      + if i < 0 then [] else Chunks(s[i + |SEPARATOR|..], true)
  }

  /** deliverB64 and its counterpart for raw chunks: the bundle in a chunk, if there is one. */
  function Delivered(e: Encoding, chunk: Octets): seq<Octets> {
    if chunk == [] then []
    else if e.Raw? then [chunk]
    else
      var r := Decode(chunk);
      if r.None? || r.value == [] then [] else [r.value]
  }

  function AllDelivered(e: Encoding, chunks: seq<Octets>): seq<Octets> {
    if chunks == [] then [] else Delivered(e, chunks[0]) + AllDelivered(e, chunks[1..])
  }

  function AttachChunks(msg: Octets): seq<Octets> {
    var i := Find(msg, BLANK_LINE);
    var boundary := BoundaryOf(if i < 0 then msg else msg[..i]);
    if boundary == [] then []
    else
      var delim := [DASH, DASH] + boundary;
      var p := Find(BodyOf(msg), delim);
      if p < 0 then [] else Parts(BodyOf(msg)[p + |delim|..], delim)
  }

  /** mailParseMessage: what the callback is given, while it does not object. */
  function Parsed(e: Encoding, msg: Octets): seq<Octets> {
    AllDelivered(e, if e.Attach? then AttachChunks(msg) else Chunks(BodyOf(msg), false))
  }

  function NonEmpty(bundles: seq<Octets>): seq<Octets> {
    if bundles == [] then []
    else (if bundles[0] == [] then [] else [bundles[0]]) + NonEmpty(bundles[1..])
  }

  // ---- The blank line -----------------------------------------------------------------------------

  /** Text in which, with a blank line behind it, the blank line is the first one. */
  predicate Calm(h: Octets) {
    && h != [] && h[|h| - 1] != CR && h[|h| - 1] != LF
    && forall i :: 0 <= i < |h| - 1 && h[i] == LF ==> h[i + 1] != CR
  }

  lemma BlankLineFound(h: Octets, rest: Octets)
    requires Calm(h)
    ensures Find(h + BLANK_LINE + rest, BLANK_LINE) == |h|
  {
    var hay := h + BLANK_LINE + rest;
    assert hay[|h|..|h| + 4] == BLANK_LINE;
    forall j: nat | j < |h| ensures !OccursAt(hay, BLANK_LINE, j) {
      BlankLineOctets(hay, j);
    }
    FirstIsFound(hay, BLANK_LINE, |h|);
  }

  lemma BlankLineOctets(hay: Octets, j: nat)
    ensures OccursAt(hay, BLANK_LINE, j) ==> hay[j] == CR && hay[j + 1] == LF && hay[j + 2] == CR
  {
    if OccursAt(hay, BLANK_LINE, j) {
      var w := hay[j..j + 4];
      assert w[0] == hay[j] && w[1] == hay[j + 1] && w[2] == hay[j + 2];
    }
  }

  /** A line, whole or cut short. */
  predicate LineLike(l: Octets) {
    l != [] && l[0] != CR && forall i :: 0 <= i < |l| - 1 ==> l[i] != LF
  }

  lemma {:induction false} LinesCalm(lines: seq<Octets>, last: Octets)
    requires forall k :: 0 <= k < |lines| ==> LineLike(lines[k])
    requires Calm(last) && last[0] != CR
    ensures Calm(Concat(lines) + last) && (Concat(lines) + last)[0] != CR
  {
    if lines == [] {
      assert Concat(lines) + last == last;
    } else {
      var rest := Concat(lines[1..]) + last;
      LinesCalm(lines[1..], last);
      assert Concat(lines) + last == lines[0] + rest;
    }
  }

  predicate SingleLine(s: Octets) { CR !in s && LF !in s }

  lemma LineIsLineLike(prefix: Octets, value: Octets)
    requires 0 < |prefix| < LINE_MAX && SingleLine(prefix) && SingleLine(value)
    ensures LineLike(Line(prefix, value)) && Line(prefix, value)[0] == prefix[0]
  {
    var s := prefix + value;
    assert forall i :: 0 <= i < |s| ==> s[i] != LF && s[i] != CR by {
      assert forall i :: 0 <= i < |s| ==> s[i] in prefix || s[i] in value;
    }
    assert forall i :: 0 <= i < |s| ==> (s + CRLF)[i] == s[i];
  }

  lemma PrintableIsSingleLine(s: string)
    ensures SingleLine(Ascii(s))
  {}

  lemma SingleLineAppend(a: Octets, b: Octets)
    requires SingleLine(a) && SingleLine(b)
    ensures SingleLine(a + b)
  {}

  lemma DecimalIsSingleLine(n: nat)
    ensures SingleLine(Decimal(n)) && 61 !in Decimal(n)
  {}

  lemma NamesAreSingleLine(e: Encoding)
    ensures SingleLine(EncodingName(e))
  {}

  lemma CalmText(s: Octets)
    requires s != [] && SingleLine(s)
    ensures Calm(s)
  {
    assert s[|s| - 1] in s;
    assert forall i :: 0 <= i < |s| ==> s[i] in s;
  }

  lemma ContentTypeIsSingleLine(e: Encoding)
    ensures SingleLine(ContentType(e)) && ContentType(e) != []
  {
    PrintableIsSingleLine("ION-BUNDLE-MAIL-SEPARATOR");
  }

  lemma AllLineLike(f: Fields, e: Encoding, count: nat)
    requires SingleLine(f.from) && SingleLine(f.to) && SingleLine(f.subject)
    ensures forall k :: 0 <= k < 6 ==> LineLike(HeaderLines(f, e, count)[k])
  {
    LineIsLineLike(Ascii("From: "), f.from);
    LineIsLineLike(Ascii("To: "), f.to);
    LineIsLineLike(Ascii("Subject: "), f.subject);
    NamesAreSingleLine(e);
    LineIsLineLike(Ascii("X-ION-Bundle-Encoding: "), EncodingName(e));
    DecimalIsSingleLine(count);
    LineIsLineLike(Ascii("X-ION-Bundle-Count: "), Decimal(count));
    assert LineLike(Ascii("MIME-Version: 1.0") + CRLF);
  }

  /** The headers of a built message end at its first blank line. */
  lemma HeaderIsCalm(f: Fields, e: Encoding, count: nat)
    requires SingleLine(f.from) && SingleLine(f.to) && SingleLine(f.subject)
    ensures Calm(Header(f, e, count))
  {
    AllLineLike(f, e, count);
    ContentTypeIsSingleLine(e);
    CalmText(ContentType(e));
    assert ContentType(e)[0] in ContentType(e);
    hide LineLike, ContentType, Calm;
    LinesCalm(HeaderLines(f, e, count), ContentType(e));
  }

  lemma BodyFound(f: Fields, e: Encoding, bundles: seq<Octets>)
    requires SingleLine(f.from) && SingleLine(f.to) && SingleLine(f.subject)
    ensures BodyOf(Message(f, e, bundles)) == Body(e, bundles)
    ensures Find(Message(f, e, bundles), BLANK_LINE) == |Header(f, e, |bundles|)|
  {
    var h := Header(f, e, |bundles|);
    HeaderIsCalm(f, e, |bundles|);
    hide Header, Body, Calm;
    BlankLineFound(h, Body(e, bundles));
    assert (h + BLANK_LINE + Body(e, bundles))[|h| + 4..] == Body(e, bundles);
  }

  /** What the headers of a message say, when no line is too long for its buffer. */
  lemma HeaderSays(f: Fields, e: Encoding, bundles: seq<Octets>)
    requires |f.from| <= 247 && |f.to| <= 249 && |f.subject| <= 244 && |Decimal(|bundles|)| <= 233
    ensures var name := match e case Attach => Ascii("attach") case Base64 => Ascii("b64") case Raw => Ascii("raw");
            Concat([Ascii("From: ") + f.from + CRLF,
                    Ascii("To: ") + f.to + CRLF,
                    Ascii("Subject: ") + f.subject + CRLF,
                    Ascii("MIME-Version: 1.0") + CRLF,
                    Ascii("X-ION-Bundle-Encoding: ") + name + CRLF,
                    Ascii("X-ION-Bundle-Count: ") + Decimal(|bundles|) + CRLF])
            <= Message(f, e, bundles)
  {
    hide Ascii, Decimal, ContentType, Body;
    assert HeaderLines(f, e, |bundles|)
           == [Ascii("From: ") + f.from + CRLF,
               Ascii("To: ") + f.to + CRLF,
               Ascii("Subject: ") + f.subject + CRLF,
               Ascii("MIME-Version: 1.0") + CRLF,
               Ascii("X-ION-Bundle-Encoding: ") + EncodingName(e) + CRLF,
               Ascii("X-ION-Bundle-Count: ") + Decimal(|bundles|) + CRLF];
    hide HeaderLines, Concat;
    Associate3(Concat(HeaderLines(f, e, |bundles|)), ContentType(e), BLANK_LINE);
  }

  // ---- Plain bodies -----------------------------------------------------------------------------

  lemma SeparatorOctets()
    ensures CR !in SEPARATOR && LF !in SEPARATOR && |SEPARATOR| > 2
    ensures SEPARATOR[0] == DASH && DELIM[0] == DASH
  {
    PrintableIsSingleLine("ION-BUNDLE-MAIL-SEPARATOR");
    SingleLineAppend([DASH, DASH], BOUNDARY);
    SingleLineAppend(DELIM, [DASH, DASH]);
  }

  function Lead(lead: bool): Octets { if lead then CRLF else [] }

  /** Line ends around a text without separator do not make one. */
  lemma AbsentBetweenLineEnds(t: Octets)
    requires Absent(t, SEPARATOR)
    ensures Absent(CRLF + t, SEPARATOR) && Absent(t + CRLF, SEPARATOR) && Absent(CRLF + t + CRLF, SEPARATOR)
  {
    SeparatorOctets();
    AbsentJoin([CR], LF, t, SEPARATOR);
    assert [CR] + [LF] + t == CRLF + t;
    AbsentJoin(t, CR, [LF], SEPARATOR);
    assert t + [CR] + [LF] == t + CRLF;
    AbsentJoin(CRLF + t, CR, [LF], SEPARATOR);
    assert CRLF + t + [CR] + [LF] == CRLF + t + CRLF;
  }

  lemma AbsentBehindLead(lead: bool, t: Octets)
    requires Absent(t, SEPARATOR)
    ensures Absent(Lead(lead) + t + CRLF, SEPARATOR)
  {
    AbsentBetweenLineEnds(t);
    assert [] + t + CRLF == t + CRLF;
  }

  lemma FourthLast(l: Octets, t: Octets, rest: Octets)
    ensures l + (t + CRLF + SEPARATOR + rest) == l + t + CRLF + SEPARATOR + rest
  {}

  /** A chunk with a separator behind it. */
  lemma ChunkBefore(lead: bool, t: Octets, rest: Octets)
    requires Absent(t, SEPARATOR)
    ensures Chunks(Lead(lead) + (t + CRLF + SEPARATOR + rest), lead) == [t] + Chunks(rest, true)
  {
    AbsentBehindLead(lead, t);
    SeparatorOctets();
    hide Absent, OccursAt, Chunks, Lead;
    var a := Lead(lead) + t + CRLF;
    var s := Lead(lead) + (t + CRLF + SEPARATOR + rest);
    FourthLast(Lead(lead), t, rest);
    assert a[|a| - 1] == LF;
    FoundBehind(a, SEPARATOR, rest);
    assert s[..|a|] == a && s[|a| + |SEPARATOR|..] == rest;
    hide Find;
    ChunkOnce(s, lead, t, rest);
  }

  lemma ChunkOnce(s: Octets, lead: bool, t: Octets, rest: Octets)
    requires s != [] && SEPARATOR != [] && Find(s, SEPARATOR) == |Lead(lead)| + |t| + 2
    requires var n := |Lead(lead)| + |t| + 2;
             n + |SEPARATOR| <= |s| && s[..n] == Lead(lead) + t + CRLF && s[n + |SEPARATOR|..] == rest
    ensures Chunks(s, lead) == [t] + Chunks(rest, true)
  {
    var a := Lead(lead) + t + CRLF;
    hide Find;
    PartsOf(CRLF, t + CRLF);
    Associate3(CRLF, t, CRLF);
    assert !lead ==> a == t + CRLF;
    PartsOf(t, CRLF);
  }

  /** The last chunk. */
  lemma LastChunk(lead: bool, t: Octets)
    requires Absent(t, SEPARATOR)
    ensures var s: Octets := Lead(lead) + t;
            Chunks(s, lead) == if s == [] then [] else [t]
  {
    var s := Lead(lead) + t;
    AbsentBetweenLineEnds(t);
    assert [] + t == t;
    hide Absent, OccursAt;
    assert lead ==> s[..2] == CRLF && s[2..] == t;
  }

  lemma DeliveredShown(e: Encoding, b: Octets)
    ensures Delivered(e, Shown(e, b)) == if b == [] then [] else [b]
  {
    if !e.Raw? {
      TextRoundTrip(b, Text(b));
      if Text(b) == [] {
        assert Decode([]).Some?;
      }
    }
  }

  /** What is in a plain body comes back, leaving out what is empty. */
  lemma {:induction false} PlainRoundTrip(e: Encoding, bundles: seq<Octets>, lead: bool)
    requires bundles != [] && forall k :: 0 <= k < |bundles| ==> Absent(Shown(e, bundles[k]), SEPARATOR)
    ensures AllDelivered(e, Chunks(Lead(lead) + PlainBody(e, bundles), lead)) == NonEmpty(bundles)
    decreases |bundles|
  {
    hide Absent, Delivered, Shown, Chunks, Lead;
    var b, t := bundles[0], Shown(e, bundles[0]);
    DeliveredShown(e, b);
    if |bundles| == 1 {
      LastChunk(lead, t);
      NothingDelivered(e, lead, t);
      var one: seq<Octets> := [t];
      assert bundles[1..] == [] && one[1..] == [];
    } else {
      var rest := CRLF + PlainBody(e, bundles[1..]);
      ChunkBefore(lead, t, rest);
      PlainRoundTrip(e, bundles[1..], true);
      LeadIs(true);
      assert ([t] + Chunks(rest, true))[1..] == Chunks(rest, true);
    }
  }

  lemma LeadIs(lead: bool)
    ensures Lead(lead) == if lead then CRLF else []
  {}

  lemma NothingDelivered(e: Encoding, lead: bool, t: Octets)
    ensures Lead(lead) + t == [] ==> t == [] && Delivered(e, t) == []
  {}

  lemma TextLacksDashes(b: Octets)
    ensures DASH !in Text(b)
  {
    TextOctets(b);
  }

  // ---- Raw bodies -----------------------------------------------------------------------------------

  lemma AbsentSuffix(a: Octets, b: Octets, ndl: Octets)
    requires Absent(a + b, ndl)
    ensures Absent(b, ndl)
  {
    forall i: nat | i + |ndl| <= |b| ensures !OccursAt(b, ndl, i) {
      OccursInSuffix(a, b, ndl, |a| + i);
    }
  }

  lemma AbsentWithin(s: Octets, from: nat, to: nat, ndl: Octets)
    requires Absent(s, ndl) && from <= to <= |s|
    ensures Absent(s[from..to], ndl)
  {
    assert s == s[..from] + s[from..];
    AbsentSuffix(s[..from], s[from..], ndl);
    assert s[from..] == s[from..to] + s[to..];
    AbsentPrefix(s[from..to], s[to..], ndl);
  }

  /** What stands before the first occurrence contains none. */
  lemma AbsentBeforeFirst(s: Octets, ndl: Octets)
    requires |ndl| > 0 && Find(s, ndl) >= 0
    ensures Absent(s[..Find(s, ndl)], ndl)
  {
    var n := Find(s, ndl);
    assert s == s[..n] + s[n..];
    forall i: nat | i + |ndl| <= n ensures !OccursAt(s[..n], ndl, i) {
      OccursInPrefix(s[..n], s[n..], ndl, i);
    }
  }

  /** The first chunk, as it stands before the separator or at the end. */
  function FirstChunk(s: Octets, lead: bool): Octets {
    var i := Find(s, SEPARATOR);
    var chunk := if i < 0 then s else s[..i];
    var from := if lead && |chunk| >= 2 && chunk[..2] == CRLF then chunk[2..] else chunk;
    if i < 0 then from else Trimmed(from)
  }

  lemma FirstChunkLacks(s: Octets, lead: bool)
    ensures Absent(FirstChunk(s, lead), SEPARATOR)
  {
    SeparatorOctets();
    var i := Find(s, SEPARATOR);
    var chunk := if i < 0 then s else s[..i];
    if i >= 0 {
      AbsentBeforeFirst(s, SEPARATOR);
    }
    hide Absent, OccursAt, Find;
    var from := if lead && |chunk| >= 2 && chunk[..2] == CRLF then chunk[2..] else chunk;
    AbsentWithin(chunk, |chunk| - |from|, |chunk|, SEPARATOR);
    assert chunk[|chunk| - |from|..|chunk|] == from;
    var kept := if i < 0 then from else Trimmed(from);
    AbsentWithin(from, 0, |kept|, SEPARATOR);
    assert from[0..|kept|] == kept;
  }

  /** No chunk contains a separator. */
  lemma {:induction false} ChunksLackSeparator(s: Octets, lead: bool)
    ensures forall k :: 0 <= k < |Chunks(s, lead)| ==> Absent(Chunks(s, lead)[k], SEPARATOR)
    decreases |s|
  {
    hide Absent, OccursAt, Find, Chunks, FirstChunk;
    SeparatorOctets();
    ChunksAre(s, lead);
    if s != [] {
      FirstChunkLacks(s, lead);
      var i := Find(s, SEPARATOR);
      if i >= 0 {
        ChunksLackSeparator(s[i + |SEPARATOR|..], true);
      }
    }
  }

  /** The first chunk and those behind the separator that ends it. */
  lemma ChunksAre(s: Octets, lead: bool)
    ensures var i := Find(s, SEPARATOR);
            && SEPARATOR != [] && (i >= 0 ==> i + |SEPARATOR| <= |s|)
            && Chunks(s, lead) == if s == [] then []
                                  else [FirstChunk(s, lead)] + if i < 0 then [] else Chunks(s[i + |SEPARATOR|..], true)
  {
    SeparatorOctets();
    var i := Find(s, SEPARATOR);
    assert i >= 0 ==> i + |SEPARATOR| <= |s|;
    hide Absent, OccursAt, Find, Trimmed;
  }

  lemma {:induction false} DeliveredRawAreChunks(chunks: seq<Octets>, b: Octets)
    requires b in AllDelivered(Raw, chunks)
    ensures b in chunks
  {
    if b !in Delivered(Raw, chunks[0]) {
      DeliveredRawAreChunks(chunks[1..], b);
    }
  }

  lemma {:induction false} NonEmptyHas(bundles: seq<Octets>, b: Octets)
    requires b in bundles && b != []
    ensures b in NonEmpty(bundles)
  {
    if b != bundles[0] {
      NonEmptyHas(bundles[1..], b);
    }
  }

  /** Bundles sent raw come back exactly when none of them contains the separator. */
  lemma RawRoundTrip(f: Fields, bundles: seq<Octets>)
    requires bundles != []
    requires SingleLine(f.from) && SingleLine(f.to) && SingleLine(f.subject)
    ensures Parsed(Raw, Message(f, Raw, bundles)) == NonEmpty(bundles)
            <==> forall b :: b in bundles ==> Absent(b, SEPARATOR)
  {
    BodyFound(f, Raw, bundles);
    var chunks := Chunks(PlainBody(Raw, bundles), false);
    assert Lead(false) + PlainBody(Raw, bundles) == PlainBody(Raw, bundles);
    hide Message, Chunks, Absent, AllDelivered;
    assert Parsed(Raw, Message(f, Raw, bundles)) == AllDelivered(Raw, chunks);
    if forall b :: b in bundles ==> Absent(b, SEPARATOR) {
      PlainRoundTrip(Raw, bundles, false);
    }
    if AllDelivered(Raw, chunks) == NonEmpty(bundles) {
      forall b | b in bundles ensures Absent(b, SEPARATOR) {
        if b == [] {
          NothingAbsent();
        } else {
          NonEmptyHas(bundles, b);
          DeliveredRawAreChunks(chunks, b);
          ChunksLackSeparator(PlainBody(Raw, bundles), false);
        }
      }
    }
  }

  lemma NothingAbsent()
    ensures Absent([], SEPARATOR)
  {
    SeparatorOctets();
  }

  /** Bundles sent as base64 in the body always come back. */
  lemma Base64RoundTrip(f: Fields, bundles: seq<Octets>)
    requires bundles != []
    requires SingleLine(f.from) && SingleLine(f.to) && SingleLine(f.subject)
    ensures Parsed(Base64, Message(f, Base64, bundles)) == NonEmpty(bundles)
  {
    BodyFound(f, Base64, bundles);
    SeparatorOctets();
    forall k | 0 <= k < |bundles| ensures Absent(Shown(Base64, bundles[k]), SEPARATOR) {
      TextLacksDashes(bundles[k]);
      AbsentLacking(Text(bundles[k]), DASH, SEPARATOR);
    }
    assert Lead(false) + PlainBody(Base64, bundles) == PlainBody(Base64, bundles);
    hide Message, Chunks, Absent, AllDelivered, PlainBody;
    PlainRoundTrip(Base64, bundles, false);
  }

  // ---- Attachments ------------------------------------------------------------------------------------

  lemma PartHeadIsCalm(i: nat)
    ensures Calm(PartHead(i)) && PartHead(i)[0] == CR
  {
    DecimalIsSingleLine(i);
    SingleLineAppend(Decimal(i), PART_TAIL);
    LineIsLineLike(PART_TYPE, Decimal(i) + PART_TAIL);
    var l := Line(PART_TYPE, Decimal(i) + PART_TAIL);
    CalmText(PART_ENCODING);
    LinesCalm([l], PART_ENCODING);
    assert Concat([l]) == l + Concat([l][1..]) == l;
    CalmBehindLineEnd(l + PART_ENCODING);
  }

  lemma CalmBehindLineEnd(h: Octets)
    requires Calm(h) && h[0] != CR
    ensures Calm(CRLF + h)
  {
    var c := CRLF + h;
    assert forall i :: 2 <= i < |c| ==> c[i] == h[i - 2];
    assert c[2] == h[0];
  }

  /** Trimming takes off nothing but a line end. */
  lemma TrimmedText(b: Octets)
    ensures Unblanked(Trimmed(Text(b))) == Unblanked(Text(b))
  {
    var t := Text(b);
    if Trimmed(t) != t {
      assert t == Trimmed(t) + CRLF;
      UnblankedAppend(Trimmed(t), CRLF);
      UnblankedCrlf();
    }
  }

  lemma DeliveredTrimmed(b: Octets)
    ensures Delivered(Attach, Trimmed(Text(b))) == if b == [] then [] else [b]
  {
    TrimmedText(b);
    TextRoundTrip(b, Trimmed(Text(b)));
    if Trimmed(Text(b)) == [] {
      assert Decode([]).Some?;
    }
  }

  /** One part, from behind its delimiter on. */
  lemma PartStep(bundles: seq<Octets>, i: nat)
    requires bundles != []
    ensures Parts(Inside(bundles, i), DELIM)
            == [Trimmed(Text(bundles[0]))] + Parts(Inside(bundles[1..], i + 1), DELIM)
  {
    PartHeadIsCalm(i);
    TextLacksDashes(bundles[0]);
    SeparatorOctets();
    hide Calm, PartHead, Text, Parts, Trimmed;
    PartTaken(PartHead(i), Text(bundles[0]), Inside(bundles[1..], i + 1), DELIM);
  }

  /** A part is what stands between its header and the next delimiter. */
  lemma PartTaken(head: Octets, t: Octets, tail: Octets, ndl: Octets)
    requires Calm(head) && head[0] == CR && ndl != [] && ndl[0] == DASH && DASH !in t
    ensures Parts(head + BLANK_LINE + (t + (ndl + tail)), ndl) == [Trimmed(t)] + Parts(tail, ndl)
  {
    var rest := t + (ndl + tail);
    BlankLineFound(head, rest);
    PartsOf(head + BLANK_LINE, rest);
    Associate3(t, ndl, tail);
    FoundBehindOthers(t, ndl, tail);
    HeadFirst(head, BLANK_LINE + rest);
    Associate3(head, BLANK_LINE, rest);
    hide Calm, Find, Parts, Trimmed;
    PartsOnce(head + BLANK_LINE + rest, |head|, t, tail, ndl);
  }

  lemma HeadFirst(a: Octets, b: Octets)
    requires a != []
    ensures a + b != [] && (a + b)[0] == a[0]
  {}

  lemma PartsOnce(s: Octets, h: nat, t: Octets, tail: Octets, ndl: Octets)
    requires s != [] && s[0] != DASH && ndl != []
    requires Find(s, BLANK_LINE) == h && h + 4 <= |s| && s[h + 4..] == t + ndl + tail
    requires Find(t + ndl + tail, ndl) == |t|
    ensures Parts(s, ndl) == [Trimmed(t)] + Parts(tail, ndl)
  {
    hide Trimmed, Find;
    PartsOf(t, ndl + tail);
    PartsOf(t + ndl, tail);
    Associate3(t, ndl, tail);
  }

  lemma {:induction false} PartsRoundTrip(bundles: seq<Octets>, i: nat)
    ensures AllDelivered(Attach, Parts(Inside(bundles, i), DELIM)) == NonEmpty(bundles)
    decreases |bundles|
  {
    if bundles != [] {
      hide Delivered, Parts, Text, Inside, Trimmed;
      PartStep(bundles, i);
      PartsRoundTrip(bundles[1..], i + 1);
      DeliveredTrimmed(bundles[0]);
      var rest := Parts(Inside(bundles[1..], i + 1), DELIM);
      assert ([Trimmed(Text(bundles[0]))] + rest)[1..] == rest;
    }
  }

  // ---- The boundary -----------------------------------------------------------------------------------

  /** Text of lines that each lack ndl, and begin with an octet that ndl lacks, lacks ndl. */
  lemma {:induction false} LinesLack(lines: seq<Octets>, last: Octets, ndl: Octets)
    requires ndl != []
    requires forall k :: 0 <= k < |lines| ==> lines[k] != [] && lines[k][0] !in ndl && Absent(lines[k], ndl)
    requires last != [] && last[0] !in ndl && Absent(last, ndl)
    ensures Absent(Concat(lines) + last, ndl)
    ensures Concat(lines) + last != [] && (Concat(lines) + last)[0] !in ndl
  {
    if lines == [] {
      assert Concat(lines) + last == last;
    } else {
      var rest := Concat(lines[1..]) + last;
      LinesLack(lines[1..], last, ndl);
      assert rest == [rest[0]] + rest[1..];
      AbsentSuffix([rest[0]], rest[1..], ndl);
      AbsentJoin(lines[0], rest[0], rest[1..], ndl);
      assert Concat(lines) + last == lines[0] + [rest[0]] + rest[1..];
    }
  }

  lemma BoundaryIsOctets()
    ensures |BOUNDARY_IS| == 9 && BOUNDARY_IS[8] == 61
    ensures forall i :: 0 <= i < 9 ==> BOUNDARY_IS[i] >= 61 && BOUNDARY_IS[i] != 70 && BOUNDARY_IS[i] != 84
    ensures forall i :: 0 <= i < 9 ==>
              BOUNDARY_IS[i] != 83 && BOUNDARY_IS[i] != 77 && BOUNDARY_IS[i] != 88 && BOUNDARY_IS[i] != 67
  {}

  /** A header line whose value lacks it, behind a name that lacks '='. */
  lemma LineLacks(name: Octets, value: Octets)
    requires 0 < |name| < LINE_MAX && 61 !in name && name[|name| - 1] == 32 && Absent(value, BOUNDARY_IS)
    ensures Absent(Line(name, value), BOUNDARY_IS)
  {
    BoundaryIsOctets();
    var start := name[..|name| - 1];
    assert name == start + [32];
    assert forall i :: 0 <= i < |start| ==> start[i] in name;
    AbsentLacking(start, 61, BOUNDARY_IS);
    AbsentJoin(value, CR, [LF], BOUNDARY_IS);
    assert value + [CR] + [LF] == value + CRLF;
    AbsentJoin(start, 32, value + CRLF, BOUNDARY_IS);
    var whole := name + value + CRLF;
    assert whole == start + [32] + (value + CRLF);
    if |whole| > LINE_MAX {
      assert whole == whole[..LINE_MAX] + whole[LINE_MAX..];
      AbsentPrefix(whole[..LINE_MAX], whole[LINE_MAX..], BOUNDARY_IS);
    }
  }

  lemma NamesOfHeaders()
    ensures Ascii("From: ")[0] == 70 && Ascii("From: ")[5] == 32 && 61 !in Ascii("From: ")
    ensures Ascii("To: ")[0] == 84 && Ascii("To: ")[3] == 32 && 61 !in Ascii("To: ")
    ensures Ascii("Subject: ")[0] == 83 && Ascii("Subject: ")[8] == 32 && 61 !in Ascii("Subject: ")
  {}

  lemma NamesOfBundleHeaders()
    ensures var name := Ascii("X-ION-Bundle-Encoding: "); name[0] == 88 && name[|name| - 1] == 32 && 61 !in name
    ensures var name := Ascii("X-ION-Bundle-Count: "); name[0] == 88 && name[|name| - 1] == 32 && 61 !in name
    ensures forall e :: 61 !in EncodingName(e)
  {}

  lemma NamesOfMimeHeaders()
    ensures Ascii("MIME-Version: 1.0")[0] == 77 && 61 !in Ascii("MIME-Version: 1.0")
    ensures MULTIPART[0] == 67 && MULTIPART[|MULTIPART| - 1] == 32 && 61 !in MULTIPART
  {}

  lemma HeaderLinesLack(f: Fields, e: Encoding, count: nat)
    requires Absent(f.from, BOUNDARY_IS) && Absent(f.to, BOUNDARY_IS) && Absent(f.subject, BOUNDARY_IS)
    ensures var lines := HeaderLines(f, e, count);
            forall k :: 0 <= k < |lines| ==>
              lines[k] != [] && lines[k][0] !in BOUNDARY_IS && Absent(lines[k], BOUNDARY_IS)
  {
    BoundaryIsOctets();
    NamesOfHeaders();
    NamesOfBundleHeaders();
    NamesOfMimeHeaders();
    hide Absent, Ascii;
    LineLacks(Ascii("From: "), f.from);
    LineLacks(Ascii("To: "), f.to);
    LineLacks(Ascii("Subject: "), f.subject);
    AbsentLacking(EncodingName(e), 61, BOUNDARY_IS);
    LineLacks(Ascii("X-ION-Bundle-Encoding: "), EncodingName(e));
    DecimalIsSingleLine(count);
    AbsentLacking(Decimal(count), 61, BOUNDARY_IS);
    LineLacks(Ascii("X-ION-Bundle-Count: "), Decimal(count));
    AbsentLacking(Ascii("MIME-Version: 1.0") + CRLF, 61, BOUNDARY_IS);
  }

  lemma {:induction false} QuotedTaken(s: Octets, max: nat)
    requires QUOTE !in s && |s| <= max
    ensures TakeUntil(s + [QUOTE], [QUOTE], max) == s
  {
    if s == [] {
      assert [] + [QUOTE] == [QUOTE];
    } else {
      assert (s + [QUOTE])[1..] == s[1..] + [QUOTE];
      QuotedTaken(s[1..], max - 1);
    }
  }

  lemma {:induction false} TokenTaken(token: Octets, rest: Octets, stops: seq<uint8>, max: nat)
    requires (forall c :: c in token ==> c !in stops) && |token| <= max && (rest == [] || rest[0] in stops)
    ensures TakeUntil(token + rest, stops, max) == token
  {
    if token == [] {
      assert token + rest == rest;
    } else {
      assert (token + rest)[1..] == token[1..] + rest;
      TokenTaken(token[1..], rest, stops, max - 1);
    }
  }

  /** The first declaration in some headers, and what stands behind it. */
  lemma DeclaredAt(before: Octets, p: Octets)
    requires Absent(before, BOUNDARY_IS) && (before == [] || before[|before| - 1] !in BOUNDARY_IS)
    ensures BoundaryOf(before + BOUNDARY_IS + p)
            == if p != [] && p[0] == QUOTE then TakeUntil(p[1..], [QUOTE], 127)
               else TakeUntil(p, [CR, LF, 59, 32], 127)
  {
    FoundBehind(before, BOUNDARY_IS, p);
    PartsOf(before + BOUNDARY_IS, p);
    hide Find, Absent;
  }

  /** A boundary that another mailer declares is found in either form: quoted, or up to a blank, a
      semicolon or the end of the line. */
  lemma AnyBoundaryFound(before: Octets, token: Octets, rest: Octets)
    requires Absent(before, BOUNDARY_IS) && (before == [] || before[|before| - 1] !in BOUNDARY_IS)
    requires 0 < |token| <= 127
    ensures QUOTE !in token ==> BoundaryOf(before + BOUNDARY_IS + ([QUOTE] + (token + ([QUOTE] + rest)))) == token
    ensures token[0] != QUOTE && (forall c :: c in token ==> c !in [CR, LF, 59, 32])
            && (rest == [] || rest[0] in [CR, LF, 59, 32]) ==>
              BoundaryOf(before + BOUNDARY_IS + (token + rest)) == token
  {
    DeclaredAt(before, [QUOTE] + (token + ([QUOTE] + rest)));
    DeclaredAt(before, token + rest);
    hide Absent, BoundaryOf;
    PartsOf([QUOTE], token + ([QUOTE] + rest));
    if QUOTE !in token {
      TokenTaken(token, [QUOTE] + rest, [QUOTE], 127);
    }
    if (forall c :: c in token ==> c !in [CR, LF, 59, 32]) && (rest == [] || rest[0] in [CR, LF, 59, 32]) {
      TokenTaken(token, rest, [CR, LF, 59, 32], 127);
    }
  }

  lemma BoundaryOctets()
    ensures |BOUNDARY| == 25 && QUOTE !in BOUNDARY
  {}

  /** The headers before the declaration of the boundary. */
  function BeforeBoundary(f: Fields, count: nat): Octets { Concat(HeaderLines(f, Attach, count)) + MULTIPART }

  lemma NoBoundaryBefore(f: Fields, count: nat)
    requires Absent(f.from, BOUNDARY_IS) && Absent(f.to, BOUNDARY_IS) && Absent(f.subject, BOUNDARY_IS)
    ensures var a := BeforeBoundary(f, count);
            Absent(a, BOUNDARY_IS) && a != [] && a[|a| - 1] !in BOUNDARY_IS
  {
    var lines := HeaderLines(f, Attach, count);
    HeaderLinesLack(f, Attach, count);
    NamesOfMimeHeaders();
    BoundaryIsOctets();
    AbsentLacking(MULTIPART, 61, BOUNDARY_IS);
    hide Absent, HeaderLines, Ascii;
    LinesLack(lines, MULTIPART, BOUNDARY_IS);
    var a := Concat(lines) + MULTIPART;
    assert a[|a| - 1] == MULTIPART[|MULTIPART| - 1];
  }

  lemma HeaderInParts(f: Fields, count: nat)
    ensures Header(f, Attach, count) == BeforeBoundary(f, count) + BOUNDARY_IS + ([QUOTE] + BOUNDARY + [QUOTE])
  {
    hide HeaderLines, Ascii;
    Associate4(Concat(HeaderLines(f, Attach, count)), MULTIPART, BOUNDARY_IS, [QUOTE] + BOUNDARY + [QUOTE]);
  }

  /** The boundary that a built message declares is found. */
  lemma BoundaryFound(f: Fields, count: nat)
    requires Absent(f.from, BOUNDARY_IS) && Absent(f.to, BOUNDARY_IS) && Absent(f.subject, BOUNDARY_IS)
    ensures BoundaryOf(Header(f, Attach, count)) == BOUNDARY
  {
    hide Absent, OccursAt, Ascii, HeaderLines;
    NoBoundaryBefore(f, count);
    BoundaryOctets();
    BoundaryIsOctets();
    var a := BeforeBoundary(f, count);
    HeaderInParts(f, count);
    hide BeforeBoundary, Header, BoundaryOf, Find;
    FoundBehind(a, BOUNDARY_IS, [QUOTE] + BOUNDARY + [QUOTE]);
    var hdr := a + BOUNDARY_IS + ([QUOTE] + BOUNDARY + [QUOTE]);
    assert hdr[|a| + |BOUNDARY_IS|..] == [QUOTE] + BOUNDARY + [QUOTE];
    QuotedFound(a + BOUNDARY_IS + ([QUOTE] + BOUNDARY + [QUOTE]), |a|);
  }

  lemma QuotedFound(hdr: Octets, n: nat)
    requires BOUNDARY_IS != [] && Find(hdr, BOUNDARY_IS) == n && n + |BOUNDARY_IS| <= |hdr|
    requires hdr[n + |BOUNDARY_IS|..] == [QUOTE] + BOUNDARY + [QUOTE]
    ensures BoundaryOf(hdr) == BOUNDARY
  {
    BoundaryOctets();
    hide Find, Ascii;
    assert ([QUOTE] + BOUNDARY + [QUOTE])[1..] == BOUNDARY + [QUOTE];
    QuotedTaken(BOUNDARY, 127);
  }

  /** Bundles sent as attachments come back when no address or subject looks like a boundary
      declaration. */
  lemma AttachRoundTrip(f: Fields, bundles: seq<Octets>)
    requires bundles != []
    requires SingleLine(f.from) && SingleLine(f.to) && SingleLine(f.subject)
    requires Absent(f.from, BOUNDARY_IS) && Absent(f.to, BOUNDARY_IS) && Absent(f.subject, BOUNDARY_IS)
    ensures Parsed(Attach, Message(f, Attach, bundles)) == NonEmpty(bundles)
  {
    var h, body := Header(f, Attach, |bundles|), AttachBody(bundles, 1);
    BodyFound(f, Attach, bundles);
    BoundaryFound(f, |bundles|);
    assert (h + BLANK_LINE + body)[..|h|] == h;
    PartsOf(DELIM, Inside(bundles, 1));
    BoundaryOctets();
    hide Absent, OccursAt, Header, AttachBody, Parts, AllDelivered, Ascii, BoundaryOf, BodyOf, AttachChunks;
    BeginsAtOnce(body);
    PartsRoundTrip(bundles, 1);
    hide Find, Message;
    AttachChunksAre(Message(f, Attach, bundles), h, body);
  }

  lemma BeginsAtOnce(body: Octets)
    requires |body| >= |DELIM| > 0 && body[..|DELIM|] == DELIM
    ensures Find(body, DELIM) == 0
  {
    hide Absent, OccursAt;
    assert body == [] + DELIM + body[|DELIM|..];
    FoundBehindOthers([], DELIM, body[|DELIM|..]);
  }

  lemma AttachChunksAre(msg: Octets, h: Octets, body: Octets)
    requires Find(msg, BLANK_LINE) == |h| <= |msg| && msg[..|h|] == h
    requires BoundaryOf(h) == BOUNDARY != [] && BodyOf(msg) == body
    requires Find(body, DELIM) == 0 && |body| >= |DELIM|
    ensures AttachChunks(msg) == Parts(body[|DELIM|..], DELIM)
  {
    hide Find, BoundaryOf, BodyOf, Parts;
  }
}
