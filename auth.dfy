/**
 * The `Auth` extractor (routes/auth.rs): from the Authorization header to the
 * stored record of the access token it carries. Each stage that can fail
 * fails with its own error; the lookup only reads the tables.
 */
module Auth {
  import opened Ints
  import opened Wrappers
  import opened Text
  import opened AccessTokens
  import opened Db
  import opened Errors
  import Base64Url

  /** The bytes `HeaderValue::to_str` accepts: visible ASCII and tab. */
  predicate VisibleAscii(b: byte)
  {
    32 <= b < 127 || b == 9
  }

  /** `HeaderValue::to_str`: the header as text, if every byte is visible ASCII. */
  function HeaderToStr(h: seq<byte>): (r: Option<string>)
    ensures r.Some? <==> forall i :: 0 <= i < |h| ==> VisibleAscii(h[i])
    ensures r.Some? ==> |r.value| == |h| && forall i :: 0 <= i < |h| ==> r.value[i] as int == h[i]
  {
    if forall i :: 0 <= i < |h| ==> VisibleAscii(h[i]) then
      Some(seq(|h|, i requires 0 <= i < |h| => h[i] as char))
    else
      None
  }

  const BEARER: string := "Bearer "

  /** The header stage: a present header, readable as text, starting with "Bearer ". */
  function BearerHeader(header: Option<seq<byte>>): (r: Option<string>)
    ensures r.Some? <==> header.Some? && HeaderToStr(header.value).Some? && StartsWith(HeaderToStr(header.value).value, BEARER)
    ensures r.Some? ==> r.value == HeaderToStr(header.value).value
  {
    if header.None? then None
    else
      match HeaderToStr(header.value)
      case None => None
      case Some(text) => if StartsWith(text, BEARER) then Some(text) else None
  }

  /** `from_request_parts`: the record of the token the header carries. */
  function Authenticate(t: Tables, header: Option<seq<byte>>): (r: Result<AccessTokenRecord, UserRequestError>)
    ensures r.Err? ==> r.error in {MissingAuthorizationToken, MalformedAuthoraizationToken, InvalidAuthorizationToken}
    ensures r == Err(MissingAuthorizationToken) <==> BearerHeader(header).None?
    ensures r == Err(MalformedAuthoraizationToken) <==>
      BearerHeader(header).Some? && FromStr(TrimStartMatches(BearerHeader(header).value, BEARER)).Err?
    ensures r.Ok? || r == Err(InvalidAuthorizationToken) ==>
      BearerHeader(header).Some? && FromStr(TrimStartMatches(BearerHeader(header).value, BEARER)).Ok?
    ensures r.Ok? || r == Err(InvalidAuthorizationToken) ==>
      var token := FromStr(TrimStartMatches(BearerHeader(header).value, BEARER)).value;
      (r.Ok? <==> token in t.accessTokens) && (r.Ok? ==> r.value == t.accessTokens[token])
  {
    match BearerHeader(header)
    case None => Err(MissingAuthorizationToken)
    case Some(text) =>
      match FromStr(TrimStartMatches(text, BEARER))
      case Err(_) => Err(MalformedAuthoraizationToken)
      case Ok(token) =>
        if token in t.accessTokens then Ok(t.accessTokens[token]) else Err(InvalidAuthorizationToken)
  }

  /** The bytes of a text whose characters are all below 256. */
  function Latin1(s: string): (b: seq<byte>)
    requires forall i :: 0 <= i < |s| ==> s[i] as int < 256
    ensures |b| == |s| && forall i :: 0 <= i < |s| ==> b[i] == s[i] as int
  {
    seq(|s|, i requires 0 <= i < |s| => s[i] as int)
  }

  /** Every character of a serialized token is in the base 64 alphabet. */
  lemma {:induction false} SerializedAlphabet(token: AccessToken)
    ensures forall i :: 0 <= i < |Serialize(token)| ==> Base64Url.CharSextet(Serialize(token)[i]).Some?
  {
    FromStrSerialize(token);
    assert Base64Url.Sextets(Serialize(token)).Some?;
  }

  /** Reading the bytes of a visible-ASCII text as a header gives the text back. */
  lemma {:induction false} HeaderOfText(text: string)
    requires forall i :: 0 <= i < |text| ==> 32 <= text[i] as int < 127
    ensures forall i :: 0 <= i < |text| ==> text[i] as int < 256
    ensures HeaderToStr(Latin1(text)) == Some(text)
  {
    var h := Latin1(text);
    assert forall i :: 0 <= i < |h| ==> VisibleAscii(h[i]);
    var r := HeaderToStr(h).value;
    assert forall i :: 0 <= i < |text| ==> r[i] == text[i];
    assert r == text;
  }

  /** A serialized token is visible ASCII and does not itself start with "Bearer ". */
  lemma {:induction false} SerializedIsPlain(token: AccessToken)
    ensures forall i :: 0 <= i < |Serialize(token)| ==> 32 <= Serialize(token)[i] as int < 127
    ensures !StartsWith(Serialize(token), BEARER)
  {
    var s := Serialize(token);
    SerializedAlphabet(token);
    assert Base64Url.CharSextet(s[6]).Some?;
    assert s[6] != BEARER[6];
  }

  /** "Bearer ", once or repeated, followed by a serialized token: a visible-ASCII text with the scheme prefix. */
  lemma {:induction false} BearerTextIsPlain(token: AccessToken, repeats: nat)
    requires repeats >= 1
    ensures var text := Repeat(BEARER, repeats) + Serialize(token);
      && (forall i :: 0 <= i < |text| ==> 32 <= text[i] as int < 127)
      && StartsWith(text, BEARER)
  {
    var s := Serialize(token);
    var text := Repeat(BEARER, repeats) + s;
    SerializedIsPlain(token);
    RepeatBearerVisible(repeats);
    forall i | 0 <= i < |text| ensures 32 <= text[i] as int < 127 {
      if i >= |Repeat(BEARER, repeats)| {
        assert text[i] == s[i - |Repeat(BEARER, repeats)|];
      }
    }
    assert Repeat(BEARER, repeats) == BEARER + Repeat(BEARER, repeats - 1);
    assert text[..|BEARER|] == BEARER;
  }

  /**
   * A header made of "Bearer " (once or repeated) and a serialized token
   * resolves to that token's record, or to `InvalidAuthorizationToken` when
   * the token is not stored.
   */
  lemma {:induction false} AuthenticateBearer(t: Tables, token: AccessToken, repeats: nat)
    requires repeats >= 1
    ensures var text := Repeat(BEARER, repeats) + Serialize(token);
      (forall i :: 0 <= i < |text| ==> text[i] as int < 256)
      && Authenticate(t, Some(Latin1(text)))
         == if token in t.accessTokens then Ok(t.accessTokens[token]) else Err(InvalidAuthorizationToken)
  {
    var text := Repeat(BEARER, repeats) + Serialize(token);
    BearerTextIsPlain(token, repeats);
    HeaderOfText(text);
    assert BearerHeader(Some(Latin1(text))) == Some(text);
    SerializedIsPlain(token);
    TrimStartMatchesRepeat(BEARER, repeats, Serialize(token));
    FromStrSerialize(token);
  }

  /** The characters of repeated "Bearer " are visible ASCII. */
  lemma {:induction false} RepeatBearerVisible(k: nat)
    ensures forall i :: 0 <= i < |Repeat(BEARER, k)| ==> 32 <= Repeat(BEARER, k)[i] as int < 127
  {
    if k > 0 {
      RepeatBearerVisible(k - 1);
      var r := Repeat(BEARER, k);
      assert r == BEARER + Repeat(BEARER, k - 1);
      forall i | 0 <= i < |r| ensures 32 <= r[i] as int < 127 {
        if i >= |BEARER| {
          assert r[i] == Repeat(BEARER, k - 1)[i - |BEARER|];
        }
      }
    }
  }

  /** A token that is not "Bearer "-prefixed is refused at the first stage, whatever follows. */
  lemma {:induction false} SchemeIsCaseSensitive(t: Tables, token: AccessToken)
    ensures var text := "bearer " + Serialize(token);
      (forall i :: 0 <= i < |text| ==> text[i] as int < 256)
      && Authenticate(t, Some(Latin1(text))) == Err(MissingAuthorizationToken)
  {
    var text := "bearer " + Serialize(token);
    SerializedAlphabet(token);
    assert forall i :: 0 <= i < |text| ==> text[i] as int < 256 by {
      forall i | 0 <= i < |text| ensures text[i] as int < 256 {
        if i >= 7 {
          assert text[i] == Serialize(token)[i - 7];
        }
      }
    }
    assert text[0] == 'b';
  }
}
