/**
 * Public identifiers (models.rs): random 16-byte UUIDs shown as unpadded
 * URL-safe base 64, and the sequential internal ids used inside storage keys.
 * The Rust macro stamps the same code onto every identifier type; here it is
 * written once, on `Uuid`, and each identifier type wraps a `Uuid`.
 */
module Ids {
  import opened Ints
  import opened Wrappers
  import Base64Url

  const UUID_LEN: int := 16

  type Uuid = s: seq<byte> | |s| == UUID_LEN witness seq(UUID_LEN, _ => 0)

  datatype AccountId = AccountId(uuid: Uuid)
  datatype MetricId = MetricId(uuid: Uuid)
  datatype SeriesId = SeriesId(uuid: Uuid)

  /** `Display`: the base 64 text of the 16 bytes, always 22 characters long. */
  function Display(u: Uuid): (s: string)
    ensures |s| == 22
  {
    Base64Url.Encode(u)
  }

  datatype IdParseError = InvalidBase64 | InvalidLength(len: nat)

  /**
   * `Deserialize` (the string visitor): base 64 decoding, then
   * `Uuid::from_slice`, which wants exactly 16 bytes.
   */
  function Parse(s: string): (r: Result<Uuid, IdParseError>)
    ensures r.Ok? <==> |s| == 22 && Base64Url.Decode(s).Some?
  {
    match Base64Url.Decode(s)
    case None => Err(InvalidBase64)
    case Some(bytes) =>
      Base64Url.DecodedLength(s);
      if |bytes| == UUID_LEN then Ok(bytes) else Err(InvalidLength(|bytes|))
  }

  /** Parsing the displayed form gives back the same identifier. */
  lemma {:induction false} ParseDisplay(u: Uuid)
    ensures Parse(Display(u)) == Ok(u)
  {
    Base64Url.DecodeEncode(u);
  }

  /** Only the displayed form parses: a parsed text is the display of its result. */
  lemma {:induction false} DisplayParse(s: string)
    requires Parse(s).Ok?
    ensures Display(Parse(s).value) == s
  {
    Base64Url.EncodeDecode(s);
  }

  /** The bincode encoding: the 16 raw bytes, with no length prefix. */
  function BincodeEncode(u: Uuid): (b: seq<byte>)
    ensures |b| == UUID_LEN
  {
    u
  }

  datatype DecodeError = UnexpectedEnd

  /** The bincode decoding: the next 16 bytes of the input, and what follows them. */
  function BincodeDecode(b: seq<byte>): (r: Result<(Uuid, seq<byte>), DecodeError>)
    ensures r.Ok? <==> |b| >= UUID_LEN
    ensures r.Ok? ==> BincodeEncode(r.value.0) + r.value.1 == b
  {
    if |b| < UUID_LEN then Err(UnexpectedEnd) else Ok((b[..UUID_LEN], b[UUID_LEN..]))
  }

  /** Decoding inverts encoding, whatever follows in the input. */
  lemma {:induction false} BincodeRoundTrip(u: Uuid, rest: seq<byte>)
    ensures BincodeDecode(BincodeEncode(u) + rest) == Ok((u, rest))
  {
    assert (u + rest)[..UUID_LEN] == u;
    assert (u + rest)[UUID_LEN..] == rest;
  }

  /** An internal id (`SeriesInternalId`, `MetricInternalId`): a `u64` counter. */
  type InternalId = u64

  /** The derived `Default` of an internal id. */
  const DEFAULT_INTERNAL_ID: InternalId := 0

  /** `next`: the following id, one more; the `u64` addition overflows only at `u64::MAX`. */
  function Next(id: InternalId): (r: InternalId)
    requires id < U64_MAX
    ensures r > id
    ensures r - id == 1
  {
    id + 1
  }
}
