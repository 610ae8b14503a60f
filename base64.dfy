/**
 * Base 64 encoding with the URL- and filename-safe alphabet and without
 * padding, as defined in section 5 of RFC 4648. This is the text form of
 * every public identifier and access token of the service.
 *
 * Decoding is strict, like the decoder the service uses: a character outside
 * the alphabet (the padding character '=' included), a length of 1 modulo 4,
 * or non-zero unused bits in the last character are all rejected.
 */
module Base64Url {
  import opened Ints
  import opened Wrappers

  /** A 6-bit value: the payload of one base 64 character. */
  type sextet = x: int | 0 <= x < 64

  /** The alphabet of table 2 in section 5 of RFC 4648. */
  function SextetChar(v: sextet): char
  {
    if v < 26 then ('A' as int + v) as char
    else if v < 52 then ('a' as int + (v - 26)) as char
    else if v < 62 then ('0' as int + (v - 52)) as char
    else if v == 62 then '-'
    else '_'
  }

  /** The inverse of the alphabet: `None` for a character outside it. */
  function CharSextet(c: char): (r: Option<sextet>)
    ensures r.Some? ==> SextetChar(r.value) == c
  {
    if 'A' <= c <= 'Z' then Some(c as int - 'A' as int)
    else if 'a' <= c <= 'z' then Some(c as int - 'a' as int + 26)
    else if '0' <= c <= '9' then Some(c as int - '0' as int + 52)
    else if c == '-' then Some(62)
    else if c == '_' then Some(63)
    else None
  }

  lemma {:induction false} CharSextetOfSextetChar(v: sextet)
    ensures CharSextet(SextetChar(v)) == Some(v)
  {
  }

  /** The characters of a sequence of sextets. */
  function Chars(v: seq<sextet>): (s: seq<char>)
    ensures |s| == |v|
  {
    seq(|v|, i requires 0 <= i < |v| => SextetChar(v[i]))
  }

  /** The sextets of a text, or `None` if a character is outside the alphabet. */
  function Sextets(s: seq<char>): (r: Option<seq<sextet>>)
    ensures r.Some? ==> |r.value| == |s| && Chars(r.value) == s
    ensures r.None? <==> exists i :: 0 <= i < |s| && CharSextet(s[i]).None?
  {
    if forall i :: 0 <= i < |s| ==> CharSextet(s[i]).Some? then
      Some(seq(|s|, i requires 0 <= i < |s| => CharSextet(s[i]).value))
    else
      None
  }

  lemma {:induction false} SextetsOfChars(v: seq<sextet>)
    ensures Sextets(Chars(v)) == Some(v)
  {
    var s := Chars(v);
    forall i | 0 <= i < |v|
      ensures CharSextet(s[i]) == Some(v[i])
    {
      CharSextetOfSextetChar(v[i]);
    }
    assert Sextets(s).value == v;
  }

  /** Three bytes become four sextets. */
  function GroupSextets(b0: byte, b1: byte, b2: byte): seq<sextet>
  {
    [b0 / 4, (b0 % 4) * 16 + b1 / 16, (b1 % 16) * 4 + b2 / 64, b2 % 64]
  }

  /** The sextets of the bytes, a final group of one or two bytes unpadded. */
  function EncodeSextets(b: seq<byte>): (v: seq<sextet>)
    ensures |v| == (4 * |b| + 2) / 3
    decreases |b|
  {
    if |b| == 0 then []
    else if |b| == 1 then [b[0] / 4, (b[0] % 4) * 16]
    else if |b| == 2 then [b[0] / 4, (b[0] % 4) * 16 + b[1] / 16, (b[1] % 16) * 4]
    else GroupSextets(b[0], b[1], b[2]) + EncodeSextets(b[3..])
  }

  /** `URL_SAFE_NO_PAD.encode(b)` */
  function Encode(b: seq<byte>): (s: seq<char>)
    ensures |s| == (4 * |b| + 2) / 3
  {
    Chars(EncodeSextets(b))
  }

  /** Four sextets become three bytes. */
  function GroupBytes(v0: sextet, v1: sextet, v2: sextet, v3: sextet): seq<byte>
  {
    [v0 * 4 + v1 / 16, (v1 % 16) * 16 + v2 / 4, (v2 % 4) * 64 + v3]
  }

  /**
   * The bytes of a sequence of sextets: a final group of one sextet is an
   * invalid length, and the bits a final group of two or three sextets does
   * not use must be zero.
   */
  function DecodeSextets(v: seq<sextet>): (r: Option<seq<byte>>)
    decreases |v|
  {
    if |v| == 0 then Some([])
    else if |v| == 1 then None
    else if |v| == 2 then
      var b0: byte := v[0] as int * 4 + v[1] as int / 16;
      if v[1] % 16 == 0 then Some([b0]) else None
    else if |v| == 3 then
      var b0: byte := v[0] as int * 4 + v[1] as int / 16;
      var b1: byte := (v[1] as int % 16) * 16 + v[2] as int / 4;
      if v[2] % 4 == 0 then Some([b0, b1]) else None
    else
      match DecodeSextets(v[4..])
      case None => None
      case Some(rest) => Some(GroupBytes(v[0], v[1], v[2], v[3]) + rest)
  }

  /** `URL_SAFE_NO_PAD.decode(s)`, with every decode error collapsed into `None`. */
  function Decode(s: seq<char>): Option<seq<byte>>
  {
    match Sextets(s)
    case None => None
    case Some(v) => DecodeSextets(v)
  }

  lemma {:induction false} GroupRoundTrip(b0: byte, b1: byte, b2: byte)
    ensures var g := GroupSextets(b0, b1, b2); GroupBytes(g[0], g[1], g[2], g[3]) == [b0, b1, b2]
  {
  }

  lemma {:induction false} DecodeSextetsOfEncode(b: seq<byte>)
    ensures DecodeSextets(EncodeSextets(b)) == Some(b)
    decreases |b|
  {
    if |b| == 1 {
      OneByteRoundTrip(b);
    } else if |b| == 2 {
      TwoBytesRoundTrip(b);
    } else if |b| >= 3 {
      var g := GroupSextets(b[0], b[1], b[2]);
      var v := EncodeSextets(b);
      assert v == g + EncodeSextets(b[3..]);
      assert v[4..] == EncodeSextets(b[3..]);
      DecodeSextetsOfEncode(b[3..]);
      GroupRoundTrip(b[0], b[1], b[2]);
      assert b == [b[0], b[1], b[2]] + b[3..];
    }
  }

  lemma {:induction false} OneByteRoundTrip(b: seq<byte>)
    requires |b| == 1
    ensures DecodeSextets(EncodeSextets(b)) == Some(b)
  {
    var b0 := b[0];
    var x: sextet, y: sextet := b0 / 4, (b0 % 4) * 16;
    assert EncodeSextets(b) == [x, y];
    LastByteRoundTrip(b0);
    DecodePair(x, y);
    assert b == [b0];
  }

  lemma {:induction false} TwoBytesRoundTrip(b: seq<byte>)
    requires |b| == 2
    ensures DecodeSextets(EncodeSextets(b)) == Some(b)
  {
    var b0, b1 := b[0], b[1];
    var x: sextet, y: sextet, z: sextet := b0 / 4, (b0 % 4) * 16 + b1 / 16, (b1 % 16) * 4;
    assert EncodeSextets(b) == [x, y, z];
    LastBytesRoundTrip(b0, b1);
    DecodeTriple(x, y, z);
    assert b == [b0, b1];
  }

  /** Two sextets decode to one byte when the unused bits are zero. */
  lemma {:induction false} DecodePair(x: sextet, y: sextet)
    requires y % 16 == 0
    ensures DecodeSextets([x, y]) == Some([x as int * 4 + y as int / 16])
  {
  }

  /** Three sextets decode to two bytes when the unused bits are zero. */
  lemma {:induction false} DecodeTriple(x: sextet, y: sextet, z: sextet)
    requires z % 4 == 0
    ensures DecodeSextets([x, y, z]) == Some([x as int * 4 + y as int / 16, (y as int % 16) * 16 + z as int / 4])
  {
  }

  /** A final byte survives its two sextets. */
  lemma {:induction false} LastByteRoundTrip(b0: byte)
    ensures var v1 := (b0 % 4) * 16; (b0 / 4) * 4 + v1 / 16 == b0 as int && v1 % 16 == 0
  {
    var lo := b0 % 4;
    assert (lo * 16) / 16 == lo;
  }

  /** Two final bytes survive their three sextets. */
  lemma {:induction false} LastBytesRoundTrip(b0: byte, b1: byte)
    ensures var v1, v2 := (b0 % 4) * 16 + b1 / 16, (b1 % 16) * 4;
      && (b0 / 4) * 4 + v1 / 16 == b0 as int
      && (v1 % 16) * 16 + v2 / 4 == b1 as int
      && v2 % 4 == 0
  {
    var lo0, hi1, lo1 := b0 % 4, b1 / 16, b1 % 16;
    var v1 := lo0 * 16 + hi1;
    assert v1 / 16 == lo0 && v1 % 16 == hi1;
    assert (lo1 * 4) / 4 == lo1;
  }

  /** Decoding inverts encoding: every byte string survives the round trip. */
  lemma {:induction false} DecodeEncode(b: seq<byte>)
    ensures Decode(Encode(b)) == Some(b)
  {
    SextetsOfChars(EncodeSextets(b));
    DecodeSextetsOfEncode(b);
  }

  lemma {:induction false} EncodeOfDecodeSextets(v: seq<sextet>)
    requires DecodeSextets(v).Some?
    ensures EncodeSextets(DecodeSextets(v).value) == v
    decreases |v|
  {
    if |v| >= 4 {
      var rest := DecodeSextets(v[4..]).value;
      var g := GroupBytes(v[0], v[1], v[2], v[3]);
      EncodeOfDecodeSextets(v[4..]);
      GroupBytesRoundTrip(v[0], v[1], v[2], v[3]);
      var b := g + rest;
      assert b[..3] == g && b[3..] == rest;
      assert EncodeSextets(b) == GroupSextets(g[0], g[1], g[2]) + EncodeSextets(rest);
      assert v == v[..4] + v[4..];
    } else if |v| >= 2 {
      ShortGroupRoundTrip(v);
    }
  }

  /** Four sextets that make three bytes are the sextets of those bytes. */
  lemma {:induction false} GroupBytesRoundTrip(v0: sextet, v1: sextet, v2: sextet, v3: sextet)
    ensures var g := GroupBytes(v0, v1, v2, v3); GroupSextets(g[0], g[1], g[2]) == [v0, v1, v2, v3]
  {
    var hi1, lo1 := v1 as int / 16, v1 as int % 16;
    var hi2, lo2 := v2 as int / 4, v2 as int % 4;
    var g0, g1, g2 := v0 as int * 4 + hi1, lo1 * 16 + hi2, lo2 * 64 + v3 as int;
    assert g0 / 4 == v0 as int && g0 % 4 == hi1;
    assert g1 / 16 == lo1 && g1 % 16 == hi2;
    assert g2 / 64 == lo2 && g2 % 64 == v3 as int;
  }

  /** A final group of two or three sextets that decodes is the encoding of its bytes. */
  lemma {:induction false} ShortGroupRoundTrip(v: seq<sextet>)
    requires 2 <= |v| <= 3 && DecodeSextets(v).Some?
    ensures EncodeSextets(DecodeSextets(v).value) == v
  {
    if |v| == 2 {
      PairGroupRoundTrip(v);
    } else {
      TripleGroupRoundTrip(v);
    }
  }

  lemma {:induction false} PairGroupRoundTrip(v: seq<sextet>)
    requires |v| == 2 && DecodeSextets(v).Some?
    ensures EncodeSextets(DecodeSextets(v).value) == v
  {
    var b0: byte := v[0] as int * 4 + v[1] as int / 16;
    assert DecodeSextets(v).value == [b0];
    PairRoundTrip(v[0], v[1]);
    var e := EncodeSextets([b0]);
    assert e == [b0 / 4, (b0 % 4) * 16];
    assert e[0] == v[0] && e[1] == v[1];
  }

  lemma {:induction false} TripleGroupRoundTrip(v: seq<sextet>)
    requires |v| == 3 && DecodeSextets(v).Some?
    ensures EncodeSextets(DecodeSextets(v).value) == v
  {
    var b0: byte := v[0] as int * 4 + v[1] as int / 16;
    var b1: byte := (v[1] as int % 16) * 16 + v[2] as int / 4;
    assert DecodeSextets(v).value == [b0, b1];
    TripleRoundTrip(v[0], v[1], v[2]);
    var e := EncodeSextets([b0, b1]);
    assert e == [b0 / 4, (b0 % 4) * 16 + b1 / 16, (b1 % 16) * 4];
    assert e[0] == v[0] && e[1] == v[1] && e[2] == v[2];
  }

  /** Two sextets whose unused bits are zero are the sextets of their byte. */
  lemma {:induction false} PairRoundTrip(v0: sextet, v1: sextet)
    requires v1 % 16 == 0
    ensures var b0 := v0 as int * 4 + v1 as int / 16; b0 / 4 == v0 as int && (b0 % 4) * 16 == v1 as int
  {
    var hi := v1 as int / 16;
    assert v1 as int == hi * 16;
    var b0 := v0 as int * 4 + hi;
    assert b0 / 4 == v0 as int && b0 % 4 == hi;
  }

  /** Three sextets whose unused bits are zero are the sextets of their two bytes. */
  lemma {:induction false} TripleRoundTrip(v0: sextet, v1: sextet, v2: sextet)
    requires v2 % 4 == 0
    ensures var b0, b1 := v0 as int * 4 + v1 as int / 16, (v1 as int % 16) * 16 + v2 as int / 4;
      && b0 / 4 == v0 as int
      && (b0 % 4) * 16 + b1 / 16 == v1 as int
      && (b1 % 16) * 4 == v2 as int
  {
    var hi1, lo1 := v1 as int / 16, v1 as int % 16;
    var hi2 := v2 as int / 4;
    assert v2 as int == hi2 * 4;
    var b0, b1 := v0 as int * 4 + hi1, lo1 * 16 + hi2;
    assert b0 / 4 == v0 as int && b0 % 4 == hi1;
    assert b1 / 16 == lo1 && b1 % 16 == hi2;
  }

  /**
   * Encoding inverts decoding: the decoder accepts exactly one text per byte
   * string, so a text that decodes is the canonical encoding of its bytes.
   */
  lemma {:induction false} EncodeDecode(s: seq<char>)
    requires Decode(s).Some?
    ensures Encode(Decode(s).value) == s
  {
    EncodeOfDecodeSextets(Sextets(s).value);
  }

  /** A decoded text has three bytes for every four characters. */
  lemma {:induction false} DecodedLength(s: seq<char>)
    requires Decode(s).Some?
    ensures |s| == (4 * |Decode(s).value| + 2) / 3
  {
    EncodeDecode(s);
  }
}
