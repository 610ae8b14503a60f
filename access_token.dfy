/** Access tokens (models/access_token.rs): 32 random bytes, shown as unpadded URL-safe base 64. */
module AccessTokens {
  import opened Ints
  import opened Wrappers
  import Base64Url

  const TOKEN_LEN: int := 32

  type TokenBytes = s: seq<byte> | |s| == TOKEN_LEN witness seq(TOKEN_LEN, _ => 0)

  datatype AccessToken = AccessToken(bytes: TokenBytes)

  datatype TokenParseError = InvalidBase64 | WrongLength

  /** The error texts; the base 64 decoder's own texts are not modelled. */
  function ErrorMessage(e: TokenParseError): string
  {
    match e
    case InvalidBase64 => "invalid base64"
    case WrongLength => "length must be 32 bytes"
  }

  /** `FromStr`: base 64 decoding, then a check for exactly 32 bytes. */
  function FromStr(s: string): (r: Result<AccessToken, TokenParseError>)
    ensures r.Ok? <==> |s| == 43 && Base64Url.Decode(s).Some?
    ensures r.Err? && Base64Url.Decode(s).Some? ==> ErrorMessage(r.error) == "length must be 32 bytes"
  {
    match Base64Url.Decode(s)
    case None => Err(InvalidBase64)
    case Some(bytes) =>
      Base64Url.DecodedLength(s);
      if |bytes| == TOKEN_LEN then Ok(AccessToken(bytes)) else Err(WrongLength)
  }

  /** `Serialize`: the base 64 text of the 32 bytes, always 43 characters long. */
  function Serialize(t: AccessToken): (s: string)
    ensures |s| == 43
  {
    Base64Url.Encode(t.bytes)
  }

  /** `Deserialize` (the string visitor): decode, then the same length rule. */
  function Deserialize(s: string): Result<AccessToken, TokenParseError>
  {
    var decoded := Base64Url.Decode(s);
    if decoded.None? then Err(InvalidBase64)
    else if |decoded.value| != TOKEN_LEN then Err(WrongLength)
    else Ok(AccessToken(decoded.value))
  }

  /** Parsing and deserializing accept the same texts, with the same results and errors. */
  lemma {:induction false} DeserializeAgreesWithFromStr(s: string)
    ensures Deserialize(s) == FromStr(s)
  {
  }

  /** Parsing a serialized token gives it back. */
  lemma {:induction false} FromStrSerialize(t: AccessToken)
    ensures FromStr(Serialize(t)) == Ok(t)
  {
    Base64Url.DecodeEncode(t.bytes);
  }

  /** Only the serialized form parses: a parsed text is the serialization of its token. */
  lemma {:induction false} SerializeFromStr(s: string)
    requires FromStr(s).Ok?
    ensures Serialize(FromStr(s).value) == s
  {
    Base64Url.EncodeDecode(s);
  }
}
