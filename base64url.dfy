// The URL- and filename-safe base64 alphabet (section 5 of RFC 4648), the
// padded encoding that Python's `base64.urlsafe_b64encode` produces, and the
// `_b64url` helper that strips the trailing '=' padding (section 3.2 of
// RFC 4648 allows omitting it).

module Base64Url {
  import opened Wrappers

  type Byte = x: int | 0 <= x < 256

  /** The character for a 6-bit value: A-Z, a-z, 0-9, then '-' and '_'. */
  function SextetChar(v: int): (c: char)
    requires 0 <= v < 64
    ensures IsUrlChar(c) && c != '='
  {
    if v < 26 then ('A' as int + v) as char
    else if v < 52 then ('a' as int + (v - 26)) as char
    else if v < 62 then ('0' as int + (v - 52)) as char
    else if v == 62 then '-'
    else '_'
  }

  predicate IsUrlChar(c: char)
  {
    'A' <= c <= 'Z' || 'a' <= c <= 'z' || '0' <= c <= '9' || c == '-' || c == '_'
  }

  /** The 6-bit value of an alphabet character. */
  function CharSextet(c: char): (v: int)
    requires IsUrlChar(c)
    ensures 0 <= v < 64 && SextetChar(v) == c
  {
    if 'A' <= c <= 'Z' then c as int - 'A' as int
    else if 'a' <= c <= 'z' then c as int - 'a' as int + 26
    else if '0' <= c <= '9' then c as int - '0' as int + 52
    else if c == '-' then 62
    else 63
  }

  lemma SextetRoundTrip(v: int)
    requires 0 <= v < 64
    ensures CharSextet(SextetChar(v)) == v
  {
  }

  /** Three bytes as four characters. */
  function Quad(b0: Byte, b1: Byte, b2: Byte): string
  {
    [SextetChar(b0 / 4), SextetChar((b0 % 4) * 16 + b1 / 16),
     SextetChar((b1 % 16) * 4 + b2 / 64), SextetChar(b2 % 64)]
  }

  /** `base64.urlsafe_b64encode`: every full group of three bytes gives four
      characters; a final group of one or two bytes gives two or three
      characters and is padded with '=' to four. */
  function Encode(b: seq<Byte>): (r: string)
    ensures |r| == 4 * ((|b| + 2) / 3)
    decreases |b|
  {
    if |b| == 0 then ""
    else if |b| == 1 then assert |Unpadded(b)| == 2; Unpadded(b) + "=="
    else if |b| == 2 then assert |Unpadded(b)| == 3; Unpadded(b) + "="
    else
      GroupCount(|b|);
      Quad(b[0], b[1], b[2]) + Encode(b[3..])
  }

  lemma GroupCount(n: int)
    requires n >= 3
    ensures 4 * ((n - 3 + 2) / 3) + 4 == 4 * ((n + 2) / 3)
  {
  }

  /** `rstrip(b"=")`: drop every trailing '='. */
  function StripPadding(s: string): (r: string)
    ensures r <= s && (r == [] || r[|r| - 1] != '=')
    ensures forall i :: |r| <= i < |s| ==> s[i] == '='
    decreases |s|
  {
    if |s| > 0 && s[|s| - 1] == '=' then StripPadding(s[..|s| - 1]) else s
  }

  /** `_b64url`. */
  function B64Url(b: seq<Byte>): string
  {
    StripPadding(Encode(b))
  }

  /** The unpadded encoding, written directly: 4 characters per full group,
      2 or 3 for a final partial group. */
  function Unpadded(b: seq<Byte>): (r: string)
    ensures |r| == (4 * |b| + 2) / 3
    ensures forall i :: 0 <= i < |r| ==> IsUrlChar(r[i])
    decreases |b|
  {
    if |b| == 0 then ""
    else if |b| == 1 then [SextetChar(b[0] / 4), SextetChar((b[0] % 4) * 16)]
    else if |b| == 2 then
      [SextetChar(b[0] / 4), SextetChar((b[0] % 4) * 16 + b[1] / 16),
       SextetChar((b[1] % 16) * 4)]
    else
      assert (4 * (|b| - 3) + 2) / 3 + 4 == (4 * |b| + 2) / 3;
      Quad(b[0], b[1], b[2]) + Unpadded(b[3..])
  }

  /** The padded encoding is the unpadded one followed by nothing but '='. */
  lemma {:induction false} EncodeIsUnpaddedPlusPad(b: seq<Byte>)
    ensures Unpadded(b) <= Encode(b)
    ensures forall i :: |Unpadded(b)| <= i < |Encode(b)| ==> Encode(b)[i] == '='
    decreases |b|
  {
    if |b| >= 3 {
      EncodeIsUnpaddedPlusPad(b[3..]);
    }
  }

  /** Stripping the padding recovers exactly the unpadded encoding. */
  lemma B64UrlIsUnpadded(b: seq<Byte>)
    ensures B64Url(b) == Unpadded(b)
  {
    EncodeIsUnpaddedPlusPad(b);
    var e, u := Encode(b), Unpadded(b);
    StripPaddingOf(u, e);
  }

  lemma {:induction false} StripPaddingOf(u: string, e: string)
    requires u <= e && (u == [] || u[|u| - 1] != '=')
    requires forall i :: |u| <= i < |e| ==> e[i] == '='
    ensures StripPadding(e) == u
    decreases |e|
  {
    if |e| > |u| {
      assert e[|e| - 1] == '=';
      StripPaddingOf(u, e[..|e| - 1]);
    } else {
      assert e == u;
    }
  }

  /** `_b64url` output has no '=' and only base64url characters; for n
      bytes it is ceil(4n/3) characters long. */
  lemma B64UrlShape(b: seq<Byte>)
    ensures |B64Url(b)| == (4 * |b| + 2) / 3
    ensures forall i :: 0 <= i < |B64Url(b)| ==> IsUrlChar(B64Url(b)[i]) && B64Url(b)[i] != '='
  {
    B64UrlIsUnpadded(b);
  }

  predicate AllUrlChars(s: string)
  {
    forall i :: 0 <= i < |s| ==> IsUrlChar(s[i])
  }

  /** Decoding of one group of 2, 3 or 4 characters into 1, 2 or 3 bytes;
      None for a character outside the alphabet. */
  function DecodeGroupChars(s: string): (r: Option<seq<Byte>>)
    requires 2 <= |s| <= 4
    ensures r.Some? ==> |r.value| == |s| - 1
  {
    if !AllUrlChars(s) then None
    else
      var v0, v1 := CharSextet(s[0]), CharSextet(s[1]);
      if |s| == 2 then Some([v0 * 4 + v1 / 16])
      else
        var v2 := CharSextet(s[2]);
        if |s| == 3 then Some([v0 * 4 + v1 / 16, (v1 % 16) * 16 + v2 / 4])
        else
          var v3 := CharSextet(s[3]);
          Some([v0 * 4 + v1 / 16, (v1 % 16) * 16 + v2 / 4, (v2 % 4) * 64 + v3])
  }

  /** Decoding of unpadded base64url text, group by group; None for a
      character outside the alphabet or a length that leaves a single
      character over. */
  function Decode(s: string): (r: Option<seq<Byte>>)
    decreases |s|
  {
    if |s| == 0 then Some([])
    else if |s| == 1 then None
    else
      var n := if |s| < 4 then |s| else 4;
      match DecodeGroupChars(s[..n])
      case None => None
      case Some(g) =>
        match Decode(s[n..])
        case None => None
        case Some(rest) => Some(g + rest)
  }

  lemma ByteSplit(b0: Byte, b1: Byte, b2: Byte)
    ensures (b0 / 4) * 4 + ((b0 % 4) * 16 + b1 / 16) / 16 == b0
    ensures (((b0 % 4) * 16 + b1 / 16) % 16) * 16 + ((b1 % 16) * 4 + b2 / 64) / 4 == b1
    ensures (((b1 % 16) * 4 + b2 / 64) % 4) * 64 + b2 % 64 == b2
  {
  }

  /** Decoding undoes `_b64url`. */
  lemma {:induction false} DecodeB64Url(b: seq<Byte>)
    ensures Decode(B64Url(b)) == Some(b)
  {
    B64UrlIsUnpadded(b);
    DecodeUnpadded(b);
  }

  lemma {:induction false} DecodeUnpadded(b: seq<Byte>)
    ensures Decode(Unpadded(b)) == Some(b)
    decreases |b|
  {
    if 1 <= |b| <= 2 {
      DecodeLastGroup(b);
    } else if |b| >= 3 {
      DecodeUnpadded(b[3..]);
      DecodeFirstGroup(b);
    }
  }

  lemma ShortSeq<T>(b: seq<T>)
    requires 1 <= |b| <= 2
    ensures |b| == 1 ==> b == [b[0]]
    ensures |b| == 2 ==> b == [b[0], b[1]]
    ensures b + [] == b
  {
  }

  lemma SplitFirstThree<T>(b: seq<T>)
    requires |b| >= 3
    ensures b == [b[0], b[1], b[2]] + b[3..]
  {
  }

  /** Text of one final partial group decodes back to its one or two bytes. */
  lemma DecodeLastGroup(b: seq<Byte>)
    requires 1 <= |b| <= 2
    ensures Decode(Unpadded(b)) == Some(b)
  {
    ShortSeq(b);
    if |b| == 1 {
      GroupOfOne(b[0]);
    } else {
      GroupOfTwo(b[0], b[1]);
    }
    var s := Unpadded(b);
    assert s[..|s|] == s && s[|s|..] == [];
  }

  /** A leading full group decodes back to its three bytes, given that the
      rest of the text decodes back to the rest of the bytes. */
  lemma DecodeFirstGroup(b: seq<Byte>)
    requires |b| >= 3 && Decode(Unpadded(b[3..])) == Some(b[3..])
    ensures Decode(Unpadded(b)) == Some(b)
  {
    SplitFirstThree(b);
    var s, t := Unpadded(b), Unpadded(b[3..]);
    assert s == Quad(b[0], b[1], b[2]) + t;
    assert s[..4] == Quad(b[0], b[1], b[2]) && s[4..] == t;
    GroupOfThree(b[0], b[1], b[2]);
  }

  /** A final group of one byte decodes back to it. */
  lemma GroupOfOne(b0: Byte)
    ensures DecodeGroupChars(Unpadded([b0])) == Some([b0])
  {
    var v0, v1 := b0 / 4, (b0 % 4) * 16;
    assert Unpadded([b0]) == [SextetChar(v0), SextetChar(v1)];
    SextetRoundTrip(v0);
    SextetRoundTrip(v1);
    ByteSplit(b0, 0, 0);
  }

  /** A final group of two bytes decodes back to them. */
  lemma GroupOfTwo(b0: Byte, b1: Byte)
    ensures DecodeGroupChars(Unpadded([b0, b1])) == Some([b0, b1])
  {
    var v0, v1, v2 := b0 / 4, (b0 % 4) * 16 + b1 / 16, (b1 % 16) * 4;
    assert Unpadded([b0, b1]) == [SextetChar(v0), SextetChar(v1), SextetChar(v2)];
    SextetRoundTrip(v0);
    SextetRoundTrip(v1);
    SextetRoundTrip(v2);
    ByteSplit(b0, b1, 0);
  }

  /** One full group decodes back to its three bytes. */
  lemma GroupOfThree(b0: Byte, b1: Byte, b2: Byte)
    ensures DecodeGroupChars(Quad(b0, b1, b2)) == Some([b0, b1, b2])
  {
    SextetRoundTrip(b0 / 4);
    SextetRoundTrip((b0 % 4) * 16 + b1 / 16);
    SextetRoundTrip((b1 % 16) * 4 + b2 / 64);
    SextetRoundTrip(b2 % 64);
    ByteSplit(b0, b1, b2);
  }

  /** Different byte strings have different `_b64url` encodings. */
  lemma B64UrlInjective(a: seq<Byte>, b: seq<Byte>)
    requires B64Url(a) == B64Url(b)
    ensures a == b
  {
    DecodeB64Url(a);
    DecodeB64Url(b);
  }
}
