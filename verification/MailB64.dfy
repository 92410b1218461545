/** Base64 (RFC 4648, section 4) as the mail convergence layer writes it, wrapped at 76
    columns, and as it reads it back, through a 32-bit accumulator. */
module MailB64 {
  import opened Octets
  import opened Options

  const CR: uint8 := 13
  const LF: uint8 := 10
  const EQUALS: uint8 := 61
  const CRLF: Octets := [CR, LF]
  const COLUMNS := 76

  /** A digit's octet in the base64 alphabet: A-Z, a-z, 0-9, + and /. */
  function Digit(v: nat): uint8
    requires v < 64
  {
    if v < 26 then 65 + v else if v < 52 then 97 + v - 26 else if v < 62 then 48 + v - 52
    else if v == 62 then 43 else 47
  }

  /** b64val: the value of an octet, or -1. */
  function DigitValue(c: uint8): (v: int)
    ensures -1 <= v < 64
    ensures v >= 0 ==> Digit(v) == c
  {
    if 65 <= c <= 90 then c - 65
    else if 97 <= c <= 122 then c - 97 + 26
    else if 48 <= c <= 57 then c - 48 + 52
    else if c == 43 then 62
    else if c == 47 then 63
    else -1
  }

  lemma DigitsInvert(v: nat)
    requires v < 64
    ensures DigitValue(Digit(v)) == v && Digit(v) != EQUALS && !Blank(Digit(v))
  {}

  predicate Blank(c: uint8) { c == 32 || c == CR || c == LF || c == 9 }

  /** Three octets make four digits; what is left over is padded. */
  function Encode(s: Octets): (e: Octets)
  {
    if s == [] then []
    else if |s| == 1 then [Digit(s[0] / 4), Digit(s[0] % 4 * 16), EQUALS, EQUALS]
    else if |s| == 2 then
      [Digit(s[0] / 4), Digit(s[0] % 4 * 16 + s[1] / 16), Digit(s[1] % 16 * 4), EQUALS]
    else
      [Digit(s[0] / 4), Digit(s[0] % 4 * 16 + s[1] / 16), Digit(s[1] % 16 * 4 + s[2] / 64), Digit(s[2] % 64)]
      + Encode(s[3..])
  }

  /** Bits read but not yet part of an octet: how many, and their value. */
  function Pow(bits: nat): nat
    requires bits in {0, 2, 4, 6}
  {
    if bits == 0 then 1 else if bits == 2 then 4 else if bits == 4 then 16 else 64
  }

  /** Reading digits, with pend the value of the bits that are pending. Blanks are skipped,
      padding ends the text, anything else spoils it. */
  function DecodeFrom(pend: nat, bits: nat, s: Octets): Option<Octets>
    requires bits in {0, 2, 4, 6} && pend < Pow(bits)
    decreases |s|
  {
    if s == [] || s[0] == EQUALS then Some([])
    else if Blank(s[0]) then DecodeFrom(pend, bits, s[1..])
    else if DigitValue(s[0]) < 0 then None
    else
      var acc := pend * 64 + DigitValue(s[0]);
      if bits == 0 then DecodeFrom(acc, 6, s[1..])
      else
        var rest := DecodeFrom(acc % Pow(bits - 2), bits - 2, s[1..]);
        if rest.None? then None else Some([acc / Pow(bits - 2)] + rest.value)
  }

  function Decode(s: Octets): Option<Octets> { DecodeFrom(0, 0, s) }

  /** No more octets come out than went in. */
  lemma {:induction false} DecodeShortens(pend: nat, bits: nat, s: Octets)
    requires bits in {0, 2, 4, 6} && pend < Pow(bits)
    ensures DecodeFrom(pend, bits, s).Some? ==> |DecodeFrom(pend, bits, s).value| <= |s|
    decreases |s|
  {
    if s == [] || s[0] == EQUALS || (!Blank(s[0]) && DigitValue(s[0]) < 0) {
    } else if Blank(s[0]) {
      DecodeShortens(pend, bits, s[1..]);
    } else {
      var acc := pend * 64 + DigitValue(s[0]);
      if bits == 0 {
        DecodeShortens(acc, 6, s[1..]);
      } else {
        DecodeShortens(acc % Pow(bits - 2), bits - 2, s[1..]);
      }
    }
  }

  // ---- The round trip ------------------------------------------------------------------------

  function Prepend(a: nat, rest: Option<Octets>): Option<Octets>
    requires a < 256
  {
    if rest.None? then None else Some([a] + rest.value)
  }

  /** Reading one digit. */
  lemma ReadDigit(pend: nat, bits: nat, v: nat, rest: Octets)
    requires bits in {0, 2, 4, 6} && pend < Pow(bits) && v < 64
    ensures DecodeFrom(pend, bits, [Digit(v)] + rest)
            == if bits == 0 then DecodeFrom(pend * 64 + v, 6, rest)
               else Prepend((pend * 64 + v) / Pow(bits - 2),
                            DecodeFrom((pend * 64 + v) % Pow(bits - 2), bits - 2, rest))
  {
    DigitsInvert(v);
    assert ([Digit(v)] + rest)[1..] == rest;
  }

  lemma GroupArithmetic(a: uint8, b: uint8, c: uint8)
    ensures (a / 4 * 64 + (a % 4 * 16 + b / 16)) / 16 == a && (a / 4 * 64 + (a % 4 * 16 + b / 16)) % 16 == b / 16
    ensures (b / 16 * 64 + (b % 16 * 4 + c / 64)) / 4 == b && (b / 16 * 64 + (b % 16 * 4 + c / 64)) % 4 == c / 64
    ensures c / 64 * 64 + c % 64 == c
  {
    assert a / 4 * 64 + (a % 4 * 16 + b / 16) == a * 16 + b / 16;
    assert b / 16 * 64 + (b % 16 * 4 + c / 64) == b * 4 + c / 64;
  }

  /** The second half of a group. */
  lemma DecodeHalf(b: uint8, c: uint8, rest: Octets)
    requires Decode(rest).Some?
    ensures DecodeFrom(b / 16, 4, [Digit(b % 16 * 4 + c / 64)] + ([Digit(c % 64)] + rest))
            == Some([b] + ([c] + Decode(rest).value))
  {
    hide DecodeFrom, Digit;
    GroupArithmetic(0, b, c);
    ReadDigit(c / 64, 2, c % 64, rest);
    ReadDigit(b / 16, 4, b % 16 * 4 + c / 64, [Digit(c % 64)] + rest);
  }

  lemma DecodeGroup(a: uint8, b: uint8, c: uint8, rest: Octets)
    requires Decode(rest).Some?
    ensures var e := [Digit(a / 4), Digit(a % 4 * 16 + b / 16), Digit(b % 16 * 4 + c / 64), Digit(c % 64)];
            Decode(e + rest) == Some([a, b, c] + Decode(rest).value)
  {
    hide DecodeFrom, Digit;
    var d0, d1, d2, d3 := a / 4, a % 4 * 16 + b / 16, b % 16 * 4 + c / 64, c % 64;
    var e := [Digit(d0), Digit(d1), Digit(d2), Digit(d3)];
    GroupArithmetic(a, b, c);
    var half := [Digit(d2)] + ([Digit(d3)] + rest);
    assert e + rest == [Digit(d0)] + ([Digit(d1)] + half);
    DecodeHalf(b, c, rest);
    ReadDigit(d0, 6, d1, half);
    ReadDigit(0, 0, d0, [Digit(d1)] + half);
    assert [a] + ([b] + ([c] + Decode(rest).value)) == [a, b, c] + Decode(rest).value;
  }

  lemma DecodeOne(a: uint8)
    ensures Decode(Encode([a])) == Some([a])
  {
    var d0, d1 := a / 4, a % 4 * 16;
    GroupArithmetic(a, 0, 0);
    assert Encode([a]) == [Digit(d0)] + ([Digit(d1)] + [EQUALS, EQUALS]);
    ReadDigit(d0, 6, d1, [EQUALS, EQUALS]);
    ReadDigit(0, 0, d0, [Digit(d1)] + [EQUALS, EQUALS]);
    assert [a] + [] == [a];
  }

  lemma DecodeTwo(a: uint8, b: uint8)
    ensures Decode(Encode([a, b])) == Some([a, b])
  {
    var d0, d1, d2 := a / 4, a % 4 * 16 + b / 16, b % 16 * 4;
    GroupArithmetic(a, b, 0);
    assert Encode([a, b]) == [Digit(d0)] + ([Digit(d1)] + ([Digit(d2)] + [EQUALS]));
    ReadDigit(b / 16, 4, d2, [EQUALS]);
    ReadDigit(d0, 6, d1, [Digit(d2)] + [EQUALS]);
    ReadDigit(0, 0, d0, [Digit(d1)] + ([Digit(d2)] + [EQUALS]));
    assert DecodeFrom(0, 2, [EQUALS]) == Some([]);
    hide DecodeFrom, Digit, Encode;
    assert [b] + [] == [b] && [a] + [b] == [a, b];
  }

  /** Decoding an encoding gives the octets back. */
  lemma {:induction false} DecodeInvertsEncode(s: Octets)
    ensures Decode(Encode(s)) == Some(s)
  {
    if |s| == 1 {
      DecodeOne(s[0]);
      assert s == [s[0]];
    } else if |s| == 2 {
      DecodeTwo(s[0], s[1]);
      assert s == [s[0], s[1]];
    } else if |s| >= 3 {
      DecodeInvertsEncode(s[3..]);
      DecodeGroup(s[0], s[1], s[2], Encode(s[3..]));
      assert s == [s[0], s[1], s[2]] + s[3..];
    }
  }

  // ---- Wrapping ----------------------------------------------------------------------------------

  /** Lines of at most 76 digits. */
  function Wrap(e: Octets): Octets
    decreases |e|
  {
    if e == [] then []
    else if |e| <= COLUMNS then e + CRLF
    else e[..COLUMNS] + CRLF + Wrap(e[COLUMNS..])
  }

  /** Where each octet goes: a line end follows every 76th, and the last. */
  lemma {:induction false} WrapAt(e: Octets, i: nat)
    requires i < |e|
    ensures var at := i + i / 76 * 2;
            && at < |Wrap(e)| && Wrap(e)[at] == e[i]
            && (i % 76 == 75 || i == |e| - 1 ==> at + 2 < |Wrap(e)| && Wrap(e)[at + 1] == 13 && Wrap(e)[at + 2] == 10)
    decreases |e|
  {
    if i >= COLUMNS {
      WrapAt(e[COLUMNS..], i - COLUMNS);
      assert (i - 76) / 76 == i / 76 - 1 && (i - 76) % 76 == i % 76;
    }
  }

  function Unblanked(s: Octets): Octets {
    if s == [] then [] else (if Blank(s[0]) then [] else [s[0]]) + Unblanked(s[1..])
  }

  lemma {:induction false} UnblankedAppend(a: Octets, b: Octets)
    ensures Unblanked(a + b) == Unblanked(a) + Unblanked(b)
  {
    if a == [] {
      assert a + b == b;
    } else {
      assert (a + b)[1..] == a[1..] + b;
      UnblankedAppend(a[1..], b);
    }
  }

  lemma UnblankedCrlf()
    ensures Unblanked(CRLF) == []
  {
    assert CRLF[1..] == [LF] && [LF][1..] == [];
    assert Unblanked([LF]) == Unblanked([]);
  }

  predicate NoBlanks(s: Octets) { forall i :: 0 <= i < |s| ==> !Blank(s[i]) }

  lemma {:induction false} UnblankedSolid(s: Octets)
    requires NoBlanks(s)
    ensures Unblanked(s) == s
  {
    if s != [] {
      UnblankedSolid(s[1..]);
    }
  }

  /** Taking the blanks out of wrapped text unwraps it. */
  lemma {:induction false} UnwrapsToSame(e: Octets)
    requires NoBlanks(e)
    ensures Unblanked(Wrap(e)) == e
    decreases |e|
  {
    if e != [] {
      UnblankedCrlf();
      var line, rest := if |e| <= COLUMNS then e else e[..COLUMNS], if |e| <= COLUMNS then [] else e[COLUMNS..];
      UnblankedSolid(line);
      UnblankedAppend(line, CRLF);
      UnblankedAppend(line + CRLF, Wrap(rest));
      UnwrapsToSame(rest);
      assert |e| <= COLUMNS ==> line + CRLF + Wrap(rest) == line + CRLF;
    }
  }

  /** Blanks do not matter to the reader. */
  lemma {:induction false} BlanksIgnored(pend: nat, bits: nat, s: Octets)
    requires bits in {0, 2, 4, 6} && pend < Pow(bits)
    ensures DecodeFrom(pend, bits, s) == DecodeFrom(pend, bits, Unblanked(s))
    decreases |s|
  {
    if s != [] && s[0] != EQUALS {
      var t := Unblanked(s);
      if Blank(s[0]) {
        assert t == Unblanked(s[1..]);
        BlanksIgnored(pend, bits, s[1..]);
      } else {
        assert t[0] == s[0] && t[1..] == Unblanked(s[1..]);
        if DigitValue(s[0]) >= 0 {
          var acc := pend * 64 + DigitValue(s[0]);
          if bits == 0 {
            BlanksIgnored(acc, 6, s[1..]);
          } else {
            BlanksIgnored(acc % Pow(bits - 2), bits - 2, s[1..]);
          }
        }
      }
    } else if s != [] {
      assert Unblanked(s)[0] == EQUALS;
    }
  }

  /** The text of a bundle: its base64, wrapped. */
  function Text(bundle: Octets): Octets { Wrap(Encode(bundle)) }

  predicate Base64Octet(c: uint8) { DigitValue(c) >= 0 || c == EQUALS }

  lemma {:induction false} EncodeOctets(s: Octets)
    ensures forall i :: 0 <= i < |Encode(s)| ==> Base64Octet(Encode(s)[i])
    ensures NoBlanks(Encode(s))
  {
    forall v: nat | v < 64 ensures DigitValue(Digit(v)) == v && !Blank(Digit(v)) {
      DigitsInvert(v);
    }
    if |s| >= 3 {
      EncodeOctets(s[3..]);
    }
  }

  lemma {:induction false} WrapOctets(e: Octets)
    requires forall i :: 0 <= i < |e| ==> Base64Octet(e[i])
    ensures forall i :: 0 <= i < |Wrap(e)| ==> Base64Octet(Wrap(e)[i]) || Wrap(e)[i] in CRLF
    decreases |e|
  {
    hide Base64Octet;
    if |e| > COLUMNS {
      WrapOctets(e[COLUMNS..]);
    }
  }

  /** The text of a bundle consists of base64 digits, padding and line ends. */
  lemma TextOctets(bundle: Octets)
    ensures forall i :: 0 <= i < |Text(bundle)| ==> Base64Octet(Text(bundle)[i]) || Text(bundle)[i] in CRLF
  {
    EncodeOctets(bundle);
    WrapOctets(Encode(bundle));
  }

  /** Reading the text of a bundle, or any part of it that leaves out only blanks, gives the
      bundle back. */
  lemma TextRoundTrip(bundle: Octets, s: Octets)
    requires Unblanked(s) == Unblanked(Text(bundle))
    ensures Decode(s) == Some(bundle)
  {
    EncodeOctets(bundle);
    UnwrapsToSame(Encode(bundle));
    BlanksIgnored(0, 0, s);
    DecodeInvertsEncode(bundle);
  }

  // ---- The code ------------------------------------------------------------------------------------

  /** mailB64EncodedLen */
  function EncodedLen(n: nat): nat { (n + 2) / 3 * 4 + 1 }

  lemma RoomForGroups(n: nat, groups: nat)
    requires 3 * groups <= n
    ensures 4 * groups + (if n == 3 * groups then 0 else 4) < EncodedLen(n)
  {}

  /** mailB64Encode: fails exactly when the buffer cannot hold the text and its terminator. */
  method EncodeTo(s: Octets, out: array<uint8>) returns (rc: int, o: nat)
    modifies out
    ensures rc == -1 || rc == 0
    ensures rc == -1 <==> out.Length < EncodedLen(|s|)
    ensures rc == 0 ==> o < out.Length && out[..o] == Encode(s) && out[o] == 0
  {
    o := 0;
    if out.Length < EncodedLen(|s|) {
      return -1, o;
    }
    o := EncodeGroups(s, out);
    out[o] := 0;
    rc := 0;
  }

  /** What stands in the buffer after so many groups. */
  function EncodedHead(s: Octets, groups: nat): Octets
    requires 3 * groups <= |s|
  {
    if groups == 0 then [] else EncodedHead(s, groups - 1) + EncodedGroup(s, 3 * groups - 3)
  }

  lemma {:induction false} HeadAndTail(s: Octets, groups: nat)
    requires 3 * groups <= |s|
    ensures EncodedHead(s, groups) + Encode(s[3 * groups..]) == Encode(s)
    ensures |EncodedHead(s, groups)| == 4 * groups
  {
    if groups == 0 {
      assert s[0..] == s;
    } else {
      hide Encode, EncodedGroup;
      var i := 3 * groups - 3;
      assert EncodedHead(s, groups) == EncodedHead(s, groups - 1) + EncodedGroup(s, i);
      hide EncodedHead;
      HeadAndTail(s, groups - 1);
      EncodeStep(s, i);
      Associate3(EncodedHead(s, groups - 1), EncodedGroup(s, i), Encode(s[i + 3..]));
    }
  }

  method EncodeGroups(s: Octets, out: array<uint8>) returns (o: nat)
    requires out.Length >= EncodedLen(|s|)
    modifies out
    ensures o < out.Length && out[..o] == Encode(s)
  {
    hide Encode, Digit, EncodedLen, EncodedGroup;
    o := 0;
    var i := 0;
    ghost var groups := 0;
    while i + 3 <= |s|
      invariant i == 3 * groups <= |s| && o == 4 * groups <= out.Length
      invariant out[..o] == EncodedHead(s, groups)
    {
      RoomForGroups(|s|, groups);
      PutGroup(s, i, out, o);
      o := o + 4;
      i := i + 3;
      groups := groups + 1;
    }
    RoomForGroups(|s|, groups);
    HeadAndTail(s, groups);
    o := EncodeTail(s[i..], out, o);
  }

  method PutGroup(s: Octets, i: nat, out: array<uint8>, o: nat)
    requires i + 3 <= |s| && o + 4 <= out.Length
    modifies out
    ensures out[..o + 4] == old(out[..o]) + EncodedGroup(s, i)
  {
    hide Packed, Digit;
    var v := Packed(s[i], s[i + 1], s[i + 2]);
    PutFour(out, o, Digit(v / 0x4_0000 % 64), Digit(v / 0x1000 % 64), Digit(v / 64 % 64), Digit(v % 64));
  }

  /** The one or two octets that are left over. */
  method EncodeTail(s: Octets, out: array<uint8>, o: nat) returns (next: nat)
    requires |s| < 3 && o + (if s == [] then 0 else 4) < out.Length
    modifies out
    ensures o <= next < out.Length && out[..next] == old(out[..o]) + Encode(s)
  {
    hide Packed, Digit;
    next := o;
    if |s| == 1 {
      var v := Packed(s[0], 0, 0);
      PutFour(out, o, Digit(v / 0x4_0000 % 64), Digit(v / 0x1000 % 64), EQUALS, EQUALS);
      next := o + 4;
    } else if |s| == 2 {
      var v := Packed(s[0], s[1], 0);
      PutFour(out, o, Digit(v / 0x4_0000 % 64), Digit(v / 0x1000 % 64), Digit(v / 64 % 64), EQUALS);
      next := o + 4;
    } else {
      assert out[..o] + [] == out[..o];
    }
  }

  method PutFour(out: array<uint8>, o: nat, a: uint8, b: uint8, c: uint8, d: uint8)
    requires o + 4 <= out.Length
    modifies out
    ensures out[..o + 4] == old(out[..o]) + [a, b, c, d]
  {
    out[o], out[o + 1], out[o + 2], out[o + 3] := a, b, c, d;
    assert out[..o] == old(out[..o]);
  }

  function EncodedGroup(s: Octets, i: nat): Octets
    requires i + 3 <= |s|
  {
    [Digit(s[i] / 4), Digit(s[i] % 4 * 16 + s[i + 1] / 16),
     Digit(s[i + 1] % 16 * 4 + s[i + 2] / 64), Digit(s[i + 2] % 64)]
  }

  lemma EncodeStep(s: Octets, i: nat)
    requires i + 3 <= |s|
    ensures Encode(s[i..]) == EncodedGroup(s, i) + Encode(s[i + 3..])
  {
    assert s[i..][3..] == s[i + 3..];
  }

  /** Three octets in one number, and its four digits. */
  function Packed(a: uint8, b: uint8, c: uint8): (v: nat)
    ensures v < 0x100_0000
    ensures v / 0x4_0000 % 64 == a / 4 && v / 0x1000 % 64 == a % 4 * 16 + b / 16
    ensures v / 64 % 64 == b % 16 * 4 + c / 64 && v % 64 == c % 64
  {
    FirstDigit(a, b, c);
    SecondDigit(a, b, c);
    ThirdDigit(a, b, c);
    FourthDigit(a, b, c);
    a * 0x1_0000 + b * 0x100 + c
  }

  lemma By64(q: int, r: int)
    requires 0 <= r < 64
    ensures (64 * q + r) / 64 == q && (64 * q + r) % 64 == r
  {}

  lemma FirstDigit(a: int, b: int, c: int)
    requires 0 <= a < 256 && 0 <= b < 256 && 0 <= c < 256
    ensures (a * 0x1_0000 + b * 0x100 + c) / 0x4_0000 % 64 == a / 4
  {
    assert a * 0x1_0000 + b * 0x100 + c == 0x4_0000 * (a / 4) + (a % 4 * 0x1_0000 + b * 0x100 + c);
  }

  lemma SecondDigit(a: int, b: int, c: int)
    requires 0 <= a < 256 && 0 <= b < 256 && 0 <= c < 256
    ensures (a * 0x1_0000 + b * 0x100 + c) / 0x1000 % 64 == a % 4 * 16 + b / 16
  {
    var q := a * 16 + b / 16;
    assert (0x1000 * q + (b % 16 * 0x100 + c)) / 0x1000 == q;
    assert a * 0x1_0000 + b * 0x100 + c == 0x1000 * q + (b % 16 * 0x100 + c);
    By64(a / 4, a % 4 * 16 + b / 16);
  }

  lemma ThirdDigit(a: int, b: int, c: int)
    requires 0 <= a < 256 && 0 <= b < 256 && 0 <= c < 256
    ensures (a * 0x1_0000 + b * 0x100 + c) / 64 % 64 == b % 16 * 4 + c / 64
  {
    By64(a * 1024 + b * 4 + c / 64, c % 64);
    By64(a * 16 + b / 16, b % 16 * 4 + c / 64);
  }

  lemma FourthDigit(a: int, b: int, c: int)
    requires 0 <= a < 256 && 0 <= b < 256 && 0 <= c < 256
    ensures (a * 0x1_0000 + b * 0x100 + c) % 64 == c % 64
  {
    By64(a * 1024 + b * 4 + c / 64, c % 64);
  }

  /** The accumulator's low bits are the pending ones, however often it has wrapped around. */
  predicate Holds(acc: uint32, bits: nat, pend: nat) {
    bits in {0, 2, 4, 6} && pend == acc % Pow(bits)
  }

  /** One digit into the wrapping accumulator. */
  lemma AccumulatorStep(acc: uint32, bits: nat, pend: nat, v: nat)
    requires Holds(acc, bits, pend) && v < 64
    ensures var wrapped := (acc * 64 + v) % 0x1_0000_0000;
            if bits == 0 then Holds(wrapped, 6, pend * 64 + v)
            else
              && Holds(wrapped, bits - 2, (pend * 64 + v) % Pow(bits - 2))
              && wrapped / Pow(bits - 2) % 256 == (pend * 64 + v) / Pow(bits - 2)
  {
    var x, t := acc * 64 + v, pend * 64 + v;
    var k := x / 0x1_0000_0000;
    var wrapped := x % 0x1_0000_0000;
    assert wrapped == x - k * 0x1_0000_0000;
    if bits == 0 {
      LowBits6(acc - k * 0x400_0000, v);
    } else if bits == 2 {
      LowBits8(acc / 4 - k * 0x100_0000, t);
    } else if bits == 4 {
      LowBits10(acc / 16 - k * 0x40_0000, t);
    } else {
      LowBits12(acc / 64 - k * 0x10_0000, t);
    }
  }

  /** The low bits of a number are what is left above a multiple of their range. */
  lemma LowBits6(m: int, t: nat)
    requires t < 64
    ensures (m * 64 + t) % 64 == t
  {}

  lemma LowBits8(m: int, t: nat)
    requires t < 256
    ensures (m * 256 + t) % 256 == t
  {}

  lemma LowBits10(m: int, t: nat)
    requires t < 1024
    ensures (m * 1024 + t) / 4 % 256 == t / 4 && (m * 1024 + t) % 4 == t % 4
  {
    assert m * 1024 + t == 4 * (m * 256 + t / 4) + t % 4;
    LowBits8(m, t / 4);
  }

  lemma LowBits12(m: int, t: nat)
    requires t < 4096
    ensures (m * 4096 + t) / 16 % 256 == t / 16 && (m * 4096 + t) % 16 == t % 16
  {
    assert m * 4096 + t == 16 * (m * 256 + t / 16) + t % 16;
    LowBits8(m, t / 16);
  }

  /** What has been decoded, followed by what the rest decodes to from here. */
  ghost function Decoding(out: array<uint8>, o: nat, pend: nat, bits: nat, rest: Octets): Option<Octets>
    requires o <= out.Length && bits in {0, 2, 4, 6} && pend < Pow(bits)
    reads out
  {
    var r := DecodeFrom(pend, bits, rest);
    if r.None? then None else Some(out[..o] + r.value)
  }

  /** What has been decoded fits the buffer together with what the rest decodes to. */
  ghost predicate WillFit(out: array<uint8>, o: nat, pend: nat, bits: nat, rest: Octets)
    requires o <= out.Length && bits in {0, 2, 4, 6} && pend < Pow(bits)
    reads out
  {
    var all := Decoding(out, o, pend, bits, rest);
    all.Some? && |all.value| <= out.Length
  }

  /** One digit goes into the accumulator, and an octet comes out when there is one, unless
      the buffer is full. */
  method Accumulate(acc: uint32, bits: nat, v: nat, out: array<uint8>, o: nat, ghost pend: nat, ghost rest: Octets)
    returns (full: bool, acc': uint32, bits': nat, o': nat, ghost pend': nat)
    requires Holds(acc, bits, pend) && v < 64 && o <= out.Length
    modifies out
    ensures full ==> !old(WillFit(out, o, pend, bits, [Digit(v)] + rest))
    ensures !full ==> Holds(acc', bits', pend') && o <= o' <= o + 1 && o' <= out.Length
    ensures !full ==> Decoding(out, o', pend', bits', rest) == old(Decoding(out, o, pend, bits, [Digit(v)] + rest))
  {
    AccumulatorStep(acc, bits, pend, v);
    ReadDigit(pend, bits, v, rest);
    hide DecodeFrom, Digit;
    ghost var before := out[..o];
    acc', bits', o' := (acc * 64 + v) % 0x1_0000_0000, bits + 6, o;
    pend' := pend * 64 + v;
    full := false;
    if bits' >= 8 {
      bits' := bits' - 8;
      if o >= out.Length {
        full := true;
        return;
      }
      out[o] := acc' / Pow(bits') % 256;
      assert out[..o + 1] == before + [pend' / Pow(bits')];
      Regroup(before, pend' / Pow(bits'), DecodeFrom(pend' % Pow(bits'), bits', rest));
      pend' := pend' % Pow(bits');
      o' := o + 1;
    }
  }

  /** mailB64Decode: the accumulator wraps around at 32 bits, and no octet suffers. */
  method DecodeTo(s: Octets, out: array<uint8>) returns (rc: int, o: nat)
    modifies out
    ensures rc == (if Decode(s).Some? && |Decode(s).value| <= out.Length then 0 else -1)
    ensures rc == 0 ==> o <= out.Length && out[..o] == Decode(s).value
  {
    var acc: uint32, bits: nat, i: nat := 0, 0, 0;
    o := 0;
    ghost var pend: nat := 0;
    ghost var all := Decode(s);
    assert s[0..] == s && (all.Some? ==> out[..0] + all.value == all.value);
    while i < |s|
      invariant i <= |s| && o <= out.Length && Holds(acc, bits, pend)
      invariant Decoding(out, o, pend, bits, s[i..]) == all
    {
      var c := s[i];
      if c == EQUALS {
        break;
      }
      assert s[i..][0] == c && s[i..][1..] == s[i + 1..];
      if Blank(c) {
        i := i + 1;
        continue;
      }
      var v := DigitValue(c);
      if v < 0 {
        return -1, o;
      }
      assert s[i..] == [Digit(v)] + s[i + 1..];
      var full: bool;
      full, acc, bits, o, pend := Accumulate(acc, bits, v, out, o, pend, s[i + 1..]);
      if full {
        return -1, o;
      }
      i := i + 1;
    }
    assert DecodeFrom(pend, bits, s[i..]) == Some([]);
    assert out[..o] + [] == out[..o];
    rc := 0;
  }

  lemma Regroup(done: Octets, x: nat, rest: Option<Octets>)
    requires x < 256
    ensures rest.Some? ==> done + [x] + rest.value == done + ([x] + rest.value)
  {}

  // ---- The alphabet and the bits -----------------------------------------------------------------

  /** The alphabet of section 4 of RFC 4648. */
  lemma DigitIsLetter(v: nat)
    requires v < 64
    ensures v < 26 ==> Digit(v) == 'A' as int + v
    ensures 26 <= v < 52 ==> Digit(v) == 'a' as int + (v - 26)
    ensures 52 <= v < 62 ==> Digit(v) == '0' as int + (v - 52)
    ensures v == 62 ==> Digit(v) == '+' as int
    ensures v == 63 ==> Digit(v) == '/' as int
    ensures EQUALS == '=' as int
  {}

  /** Four digits say the 24 bits of three octets, most significant first; what is left over is
      filled up with zero bits and padded. */
  lemma EncodeSays(s: Octets)
    requires s != []
    ensures var e := Encode(s);
            && |e| >= 4
            && (|s| >= 3 ==>
                  && e[4..] == Encode(s[3..])
                  && DigitValue(e[0]) * 0x4_0000 + DigitValue(e[1]) * 0x1000 + DigitValue(e[2]) * 64 + DigitValue(e[3])
                     == s[0] as int * 0x1_0000 + s[1] as int * 0x100 + s[2])
            && (|s| == 2 ==>
                  && e[3..] == ['=' as int]
                  && DigitValue(e[0]) * 0x1000 + DigitValue(e[1]) * 64 + DigitValue(e[2])
                     == (s[0] as int * 0x100 + s[1]) * 4)
            && (|s| == 1 ==>
                  && e[2..] == ['=' as int, '=' as int]
                  && DigitValue(e[0]) * 64 + DigitValue(e[1]) == s[0] as int * 16)
  {
    var e := Encode(s);
    DigitsInvert(s[0] / 4);
    if |s| == 1 {
      DigitsInvert(s[0] % 4 * 16);
    } else {
      DigitsInvert(s[0] % 4 * 16 + s[1] / 16);
      if |s| == 2 {
        DigitsInvert(s[1] % 16 * 4);
      } else {
        DigitsInvert(s[1] % 16 * 4 + s[2] / 64);
        DigitsInvert(s[2] % 64);
      }
    }
    hide Digit, DigitValue;
  }
}
