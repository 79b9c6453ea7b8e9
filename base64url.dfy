/** The URL- and filename-safe base64 alphabet of section 5 of RFC 4648,
    with '=' padding, as Go's `base64.URLEncoding` writes it. */
module Base64Url {
  import opened Domain

  type Byte = x: int | 0 <= x < 256

  /** A 6-bit value, the index of one output character. */
  type Sextet = x: int | 0 <= x < 64

  const Pad: char := '='

  /** The 64 characters of the alphabet: A-Z, a-z, 0-9, '-' and '_'. */
  predicate IsAlphabetChar(c: char) {
    ('A' <= c <= 'Z') || ('a' <= c <= 'z') || ('0' <= c <= '9') || c == '-' || c == '_'
  }

  /** Table 2 of RFC 4648, written as ranges. */
  function EncodeSextet(v: Sextet): (c: char)
    ensures IsAlphabetChar(c)
  {
    if v < 26 then ('A' as int + v) as char
    else if v < 52 then ('a' as int + (v - 26)) as char
    else if v < 62 then ('0' as int + (v - 52)) as char
    else if v == 62 then '-'
    else '_'
  }

  /** The inverse of EncodeSextet, None outside the alphabet (and on '='). */
  function DecodeChar(c: char): (r: Option<Sextet>)
    ensures r.Some? <==> IsAlphabetChar(c)
  {
    if 'A' <= c <= 'Z' then Some(c as int - 'A' as int)
    else if 'a' <= c <= 'z' then Some(c as int - 'a' as int + 26)
    else if '0' <= c <= '9' then Some(c as int - '0' as int + 52)
    else if c == '-' then Some(62)
    else if c == '_' then Some(63)
    else None
  }

  lemma DecodeEncodeSextet(v: Sextet)
    ensures DecodeChar(EncodeSextet(v)) == Some(v)
  {
  }

  /** The four sextets of a 3-byte group, most significant bits first. */
  function Hi(b0: Byte): Sextet { b0 / 4 }
  function MidHi(b0: Byte, b1: Byte): Sextet { (b0 % 4) * 16 + b1 / 16 }
  function MidLo(b1: Byte, b2: Byte): Sextet { (b1 % 16) * 4 + b2 / 64 }
  function Lo(b2: Byte): Sextet { b2 % 64 }

  /** The three bytes carried by four sextets. */
  function Join0(c0: Sextet, c1: Sextet): Byte { c0 * 4 + c1 / 16 }
  function Join1(c1: Sextet, c2: Sextet): Byte { (c1 % 16) * 16 + c2 / 4 }
  function Join2(c2: Sextet, c3: Sextet): Byte { (c2 % 4) * 64 + c3 }

  lemma GroupRoundTrip(b0: Byte, b1: Byte, b2: Byte)
    ensures Join0(Hi(b0), MidHi(b0, b1)) == b0
    ensures Join1(MidHi(b0, b1), MidLo(b1, b2)) == b1
    ensures Join2(MidLo(b1, b2), Lo(b2)) == b2
  {
  }

  /** A zero-filled final group leaves the unused low bits of its last
      sextet zero. */
  lemma ZeroFill(b0: Byte, b1: Byte)
    ensures MidHi(b0, 0) % 16 == 0 && MidLo(b1, 0) % 4 == 0
  {
  }

  /** The four characters of one complete 3-byte group. */
  function EncodeGroup(b0: Byte, b1: Byte, b2: Byte): seq<char>
  {
    [EncodeSextet(Hi(b0)), EncodeSextet(MidHi(b0, b1)),
     EncodeSextet(MidLo(b1, b2)), EncodeSextet(Lo(b2))]
  }

  /** The final group of one or two bytes, zero-filled and padded with '='
      to four characters. */
  function EncodeFinal(b: seq<Byte>): seq<char>
    requires 1 <= |b| <= 2
  {
    if |b| == 1 then
      [EncodeSextet(Hi(b[0])), EncodeSextet(MidHi(b[0], 0)), Pad, Pad]
    else
      [EncodeSextet(Hi(b[0])), EncodeSextet(MidHi(b[0], b[1])),
       EncodeSextet(MidLo(b[1], 0)), Pad]
  }

  /** Groups of three bytes become four characters each, then the final
      partial group, if any. */
  function Encode(b: seq<Byte>): (s: string)
    ensures |s| % 4 == 0
    ensures forall i :: 0 <= i < |s| ==> IsAlphabetChar(s[i]) || s[i] == Pad
    decreases |b|
  {
    if |b| == 0 then []
    else if |b| < 3 then EncodeFinal(b)
    else EncodeGroup(b[0], b[1], b[2]) + Encode(b[3..])
  }

  /** Four alphabet characters carry three bytes. */
  function DecodeGroup(q: string): Option<seq<Byte>>
    requires |q| == 4
  {
    match (DecodeChar(q[0]), DecodeChar(q[1]), DecodeChar(q[2]), DecodeChar(q[3]))
    case (Some(c0), Some(c1), Some(c2), Some(c3)) =>
      Some([Join0(c0, c1), Join1(c1, c2), Join2(c2, c3)])
    case _ => None
  }

  /** A group ending in '=' carries one byte (two alphabet characters and
      "==") or two bytes (three and "="); the bits past the last byte must
      be zero. */
  function DecodeFinal(q: string): Option<seq<Byte>>
    requires |q| == 4
  {
    if DecodeChar(q[0]).None? || DecodeChar(q[1]).None? then None
    else
      var c0, c1 := DecodeChar(q[0]).value, DecodeChar(q[1]).value;
      if q[2] == Pad then
        if c1 % 16 == 0 then Some([Join0(c0, c1)]) else None
      else if DecodeChar(q[2]).None? then None
      else
        var c2 := DecodeChar(q[2]).value;
        if c2 % 4 == 0 then Some([Join0(c0, c1), Join1(c1, c2)]) else None
  }

  /** Strict decoding: four characters at a time, '=' only in the last
      group. */
  function Decode(s: string): (r: Option<seq<Byte>>)
    decreases |s|
  {
    if |s| == 0 then Some([])
    else if |s| < 4 then None
    else if s[3] == Pad then
      if |s| == 4 then DecodeFinal(s) else None
    else
      match DecodeGroup(s[..4])
      case None => None
      case Some(g) =>
        match Decode(s[4..])
        case Some(rest) => Some(g + rest)
        case None => None
  }

  lemma {:induction false} EncodeLength(b: seq<Byte>)
    ensures |Encode(b)| == 4 * ((|b| + 2) / 3)
    decreases |b|
  {
    if |b| >= 3 {
      EncodeLength(b[3..]);
      assert |Encode(b)| == 4 + |Encode(b[3..])|;
      assert (|b| - 3 + 2) / 3 + 1 == (|b| + 2) / 3;
    }
  }

  /** Without a partial final group there is no '=' padding: every
      character is from the alphabet. */
  lemma {:induction false} EncodeUnpadded(b: seq<Byte>)
    requires |b| % 3 == 0
    ensures forall i :: 0 <= i < |Encode(b)| ==> IsAlphabetChar(Encode(b)[i])
    decreases |b|
  {
    if |b| >= 3 {
      EncodeUnpadded(b[3..]);
      assert Encode(b) == EncodeGroup(b[0], b[1], b[2]) + Encode(b[3..]);
    }
  }

  /** The decoder's view of a final group with one byte. */
  lemma DecodeFinalOne(c0: Sextet, c1: Sextet)
    requires c1 % 16 == 0
    ensures DecodeFinal([EncodeSextet(c0), EncodeSextet(c1), Pad, Pad]) == Some([Join0(c0, c1)])
  {
    DecodeEncodeSextet(c0);
    DecodeEncodeSextet(c1);
  }

  /** The decoder's view of a final group with two bytes. */
  lemma DecodeFinalTwo(c0: Sextet, c1: Sextet, c2: Sextet)
    requires c2 % 4 == 0
    ensures DecodeFinal([EncodeSextet(c0), EncodeSextet(c1), EncodeSextet(c2), Pad])
         == Some([Join0(c0, c1), Join1(c1, c2)])
  {
    DecodeEncodeSextet(c0);
    DecodeEncodeSextet(c1);
    DecodeEncodeSextet(c2);
  }

  lemma DecodeEncodeOne(b0: Byte)
    ensures Decode(Encode([b0])) == Some([b0])
  {
    var q := [EncodeSextet(Hi(b0)), EncodeSextet(MidHi(b0, 0)), Pad, Pad];
    assert Encode([b0]) == q;
    assert Decode(q) == DecodeFinal(q);
    ZeroFill(b0, 0);
    DecodeFinalOne(Hi(b0), MidHi(b0, 0));
    GroupRoundTrip(b0, 0, 0);
  }

  lemma DecodeEncodeTwo(b0: Byte, b1: Byte)
    ensures Decode(Encode([b0, b1])) == Some([b0, b1])
  {
    ZeroFill(b0, b1);
    DecodeFinalTwo(Hi(b0), MidHi(b0, b1), MidLo(b1, 0));
    GroupRoundTrip(b0, b1, 0);
  }

  lemma DecodeGroupOfEncodeGroup(b0: Byte, b1: Byte, b2: Byte)
    ensures DecodeGroup(EncodeGroup(b0, b1, b2)) == Some([b0, b1, b2])
  {
    DecodeEncodeSextet(Hi(b0));
    DecodeEncodeSextet(MidHi(b0, b1));
    DecodeEncodeSextet(MidLo(b1, b2));
    DecodeEncodeSextet(Lo(b2));
    GroupRoundTrip(b0, b1, b2);
  }

  /** A complete group in front of a decodable rest decodes group by
      group. */
  lemma DecodeAppendGroup(g: string, t: string, x: seq<Byte>, y: seq<Byte>)
    requires |g| == 4 && g[3] != Pad
    requires DecodeGroup(g) == Some(x) && Decode(t) == Some(y)
    ensures Decode(g + t) == Some(x + y)
  {
    assert (g + t)[..4] == g && (g + t)[4..] == t && (g + t)[3] == g[3];
  }

  lemma SplitFirstGroup(b: seq<Byte>)
    requires |b| >= 3
    ensures [b[0], b[1], b[2]] + b[3..] == b
  {
  }

  /** The inductive step: a leading complete group decodes back to its
      bytes, followed by whatever the rest decodes to. */
  lemma DecodeEncodeGroup(b: seq<Byte>)
    requires |b| >= 3 && Decode(Encode(b[3..])) == Some(b[3..])
    ensures Decode(Encode(b)) == Some(b)
  {
    DecodeGroupOfEncodeGroup(b[0], b[1], b[2]);
    DecodeAppendGroup(EncodeGroup(b[0], b[1], b[2]), Encode(b[3..]), [b[0], b[1], b[2]], b[3..]);
    SplitFirstGroup(b);
  }

  /** Decoding undoes encoding, so distinct byte strings have distinct
      encodings. */
  lemma {:induction false} DecodeEncode(b: seq<Byte>)
    ensures Decode(Encode(b)) == Some(b)
    decreases |b|
  {
    if |b| == 0 {
    } else if |b| == 1 {
      assert b == [b[0]];
      DecodeEncodeOne(b[0]);
    } else if |b| == 2 {
      assert b == [b[0], b[1]];
      DecodeEncodeTwo(b[0], b[1]);
    } else {
      DecodeEncode(b[3..]);
      DecodeEncodeGroup(b);
    }
  }

  lemma EncodeInjective(a: seq<Byte>, b: seq<Byte>)
    requires Encode(a) == Encode(b)
    ensures a == b
  {
    DecodeEncode(a);
    DecodeEncode(b);
  }
}
