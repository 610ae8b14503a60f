/**
 * The router's own logic (routes.rs): the page limit, the cache-control
 * layer, and serving static assets with brotli negotiation.
 */
module Routes {
  import opened Wrappers
  import opened Ints
  import opened Text
  import opened StaticAssets
  import Auth

  /** `MAX_DATA_POINTS_LIMIT`: how many entries a chart query reads before it may stop. */
  const MAX_DATA_POINTS_LIMIT: nat := 1000

  /** Response header names, as the header map stores them. */
  const CONTENT_TYPE: string := "content-type"
  const CONTENT_ENCODING: string := "content-encoding"
  const CACHE_CONTROL: string := "cache-control"

  /** `CACHEABLE_CONTENT_TYPES`: content-type prefixes and their max-age in seconds, in the order they are tried. */
  const CACHEABLE_CONTENT_TYPES: seq<(string, nat)> := [
    ("text/html", 60),
    ("image/svg+xml", 60),
    ("text/css", 60 * 60 * 24),
    ("application/javascript", 60 * 60 * 24)
  ]

  /** The index of the first entry of `table` whose prefix starts `contentType`, or `|table|` if none does. */
  function FirstMatch(table: seq<(string, nat)>, contentType: string): (i: nat)
    ensures i <= |table|
    ensures i < |table| ==> StartsWith(contentType, table[i].0)
    ensures forall j :: 0 <= j < i ==> !StartsWith(contentType, table[j].0)
  {
    if |table| == 0 then 0
    else if StartsWith(contentType, table[0].0) then 0
    else
      var i := FirstMatch(table[1..], contentType);
      assert forall j :: 1 <= j <= i ==> table[j] == table[1..][j - 1];
      i + 1
  }

  /** The max-age of the first cacheable prefix the content type starts with. */
  function MaxAge(contentType: string): (r: Option<nat>)
    ensures r.None? <==> forall j :: 0 <= j < |CACHEABLE_CONTENT_TYPES| ==> !StartsWith(contentType, CACHEABLE_CONTENT_TYPES[j].0)
    ensures r.Some? ==>
      exists j :: (0 <= j < |CACHEABLE_CONTENT_TYPES|
                   && StartsWith(contentType, CACHEABLE_CONTENT_TYPES[j].0) && r.value == CACHEABLE_CONTENT_TYPES[j].1)
  {
    var i := FirstMatch(CACHEABLE_CONTENT_TYPES, contentType);
    if i < |CACHEABLE_CONTENT_TYPES| then Some(CACHEABLE_CONTENT_TYPES[i].1) else None
  }

  /** Pages and charts are cached for a minute, scripts and style sheets for a day; other types not at all. */
  lemma MaxAges()
    ensures MaxAge("text/html; charset=utf-8") == Some(60)
    ensures MaxAge("image/svg+xml") == Some(60)
    ensures MaxAge("text/css") == Some(86400)
    ensures MaxAge("application/javascript") == Some(86400)
    ensures MaxAge("application/json") == None
    ensures MaxAge("application/octet-stream") == None
  {
    PageMaxAge();
    ChartMaxAge();
    StyleMaxAge();
    ScriptMaxAge();
    JsonMaxAge();
    OctetStreamMaxAge();
  }

  /** JSON answers are not cached. */
  lemma JsonMaxAge()
    ensures MaxAge("application/json") == None
  {
    NoCacheablePrefix("application/json", 13);
  }

  /** Pages are cached for a minute. */
  lemma PageMaxAge()
    ensures MaxAge("text/html; charset=utf-8") == Some(60)
  {
    assert StartsWith("text/html; charset=utf-8", "text/html");
  }

  /** Charts are cached for a minute. */
  lemma ChartMaxAge()
    ensures MaxAge("image/svg+xml") == Some(60)
  {
    DiffersAt("image/svg+xml", "text/html", 0);
    assert StartsWith("image/svg+xml", "image/svg+xml");
  }

  /** Style sheets are cached for a day. */
  lemma StyleMaxAge()
    ensures MaxAge("text/css") == Some(86400)
  {
    DiffersAt("text/css", "text/html", 5);
    DiffersAt("text/css", "image/svg+xml", 0);
    assert StartsWith("text/css", "text/css");
  }

  /** Scripts are cached for a day. */
  lemma ScriptMaxAge()
    ensures MaxAge("application/javascript") == Some(86400)
  {
    DiffersAt("application/javascript", "text/html", 0);
    DiffersAt("application/javascript", "image/svg+xml", 0);
    DiffersAt("application/javascript", "text/css", 0);
    assert StartsWith("application/javascript", "application/javascript");
  }

  /** The fallback content type is not cached. */
  lemma OctetStreamMaxAge()
    ensures MaxAge("application/octet-stream") == None
  {
    NoCacheablePrefix("application/octet-stream", 12);
  }

  /** A content type starting with "a" that differs from "application/javascript" at index `i` has no max-age. */
  lemma {:induction false} NoCacheablePrefix(contentType: string, i: nat)
    requires |contentType| > 0 && contentType[0] == 'a'
    requires i < 22 && i < |contentType| && contentType[i] != "application/javascript"[i]
    ensures MaxAge(contentType).None?
  {
    DiffersAt(contentType, "application/javascript", i);
  }

  /** The decimal digits of a number, as `format!` writes it. */
  function Decimal(n: nat): (s: string)
    ensures |s| >= 1
    ensures forall i :: 0 <= i < |s| ==> '0' <= s[i] <= '9'
  {
    if n < 10 then [('0' as int + n) as char]
    else Decimal(n / 10) + [('0' as int + n % 10) as char]
  }

  /** The value of a decimal text. */
  function DecimalValue(s: string): nat
    requires forall i :: 0 <= i < |s| ==> '0' <= s[i] <= '9'
  {
    if |s| == 0 then 0 else DecimalValue(s[..|s| - 1]) * 10 + (s[|s| - 1] as int - '0' as int)
  }

  /** The digits written are those of the number. */
  lemma {:induction false} DecimalRoundTrip(n: nat)
    ensures DecimalValue(Decimal(n)) == n
  {
    if n >= 10 {
      var s := Decimal(n);
      assert s[..|s| - 1] == Decimal(n / 10);
      DecimalRoundTrip(n / 10);
    }
  }

  /** The response headers after the `cache_control` layer. */
  function CacheControlHeaders(headers: map<string, string>): (r: map<string, string>)
    ensures CONTENT_TYPE !in headers ==> r == headers
    ensures CONTENT_TYPE in headers && MaxAge(headers[CONTENT_TYPE]).None? ==> r == headers
    ensures CONTENT_TYPE in headers && MaxAge(headers[CONTENT_TYPE]).Some? ==>
      && r.Keys == headers.Keys + {CACHE_CONTROL}
      && r[CACHE_CONTROL] == "public, max-age=" + Decimal(MaxAge(headers[CONTENT_TYPE]).value)
      && forall h :: h in headers && h != CACHE_CONTROL ==> r[h] == headers[h]
  {
    if CONTENT_TYPE in headers then
      match MaxAge(headers[CONTENT_TYPE])
      case Some(secs) => headers[CACHE_CONTROL := "public, max-age=" + Decimal(secs)]
      case None => headers
    else headers
  }

  /** A response whose headers a middleware layer changes in place. */
  class Response {
    var headers: map<string, string>
    var body: seq<byte>

    constructor (headers: map<string, string>, body: seq<byte>)
      ensures this.headers == headers && this.body == body
    {
      this.headers := headers;
      this.body := body;
    }

    /** `cache_control`: sets "cache-control" from the content type; the body is untouched. */
    method CacheControl()
      modifies this
      ensures headers == CacheControlHeaders(old(headers))
      ensures body == old(body)
    {
      if CONTENT_TYPE in headers {
        var contentType := headers[CONTENT_TYPE];
        var secs := MaxAge(contentType);
        if secs.Some? {
          headers := headers[CACHE_CONTROL := "public, max-age=" + Decimal(secs.value)];
        }
      }
    }
  }

  /** Whether one Accept-Encoding value, split on ',' and trimmed, lists "br"; an unreadable value lists nothing. */
  predicate ValueAcceptsBrotli(value: seq<byte>)
  {
    match Auth.HeaderToStr(value)
    case None => false
    case Some(text) => AnyIsBr(Split(text, ','))
  }

  /** `any(|s| s.trim() == "br")` */
  function AnyIsBr(parts: seq<string>): (r: bool)
    ensures r <==> exists i :: 0 <= i < |parts| && RustTrim(parts[i]) == "br"
  {
    if |parts| == 0 then false
    else if RustTrim(parts[0]) == "br" then true
    else
      var r := AnyIsBr(parts[1..]);
      BrInTail(parts);
      r
  }

  /** When the first piece is not "br", a piece is "br" exactly when one of the rest is. */
  lemma {:induction false} BrInTail(parts: seq<string>)
    requires |parts| > 0 && RustTrim(parts[0]) != "br"
    ensures (exists i :: 0 <= i < |parts| && RustTrim(parts[i]) == "br")
        <==> (exists i :: 0 <= i < |parts| - 1 && RustTrim(parts[1..][i]) == "br")
  {
    if exists i :: 0 <= i < |parts| && RustTrim(parts[i]) == "br" {
      var i :| 0 <= i < |parts| && RustTrim(parts[i]) == "br";
      assert parts[1..][i - 1] == parts[i];
    }
    if exists i :: 0 <= i < |parts| - 1 && RustTrim(parts[1..][i]) == "br" {
      var i :| 0 <= i < |parts| - 1 && RustTrim(parts[1..][i]) == "br";
      assert parts[i + 1] == parts[1..][i];
    }
  }

  /** Brotli is accepted when any Accept-Encoding value lists it. */
  function AcceptsBrotli(values: seq<seq<byte>>): (r: bool)
    ensures r <==> exists i :: 0 <= i < |values| && ValueAcceptsBrotli(values[i])
  {
    if |values| == 0 then false
    else if ValueAcceptsBrotli(values[0]) then true
    else
      var r := AcceptsBrotli(values[1..]);
      BrotliInTail(values);
      r
  }

  /** When the first value does not list brotli, some value lists it exactly when one of the rest does. */
  lemma {:induction false} BrotliInTail(values: seq<seq<byte>>)
    requires |values| > 0 && !ValueAcceptsBrotli(values[0])
    ensures (exists i :: 0 <= i < |values| && ValueAcceptsBrotli(values[i]))
        <==> (exists i :: 0 <= i < |values| - 1 && ValueAcceptsBrotli(values[1..][i]))
  {
    if exists i :: 0 <= i < |values| && ValueAcceptsBrotli(values[i]) {
      var i :| 0 <= i < |values| && ValueAcceptsBrotli(values[i]);
      assert values[1..][i - 1] == values[i];
    }
    if exists i :: 0 <= i < |values| - 1 && ValueAcceptsBrotli(values[1..][i]) {
      var i :| 0 <= i < |values| - 1 && ValueAcceptsBrotli(values[1..][i]);
      assert values[i + 1] == values[1..][i];
    }
  }

  /** What the static file handler answers. */
  datatype StaticReply = NotFound | Served(headers: map<string, string>, body: seq<byte>)

  /**
   * The static file handler: 404 for an unknown asset; otherwise its content
   * type (octet-stream when it has none) and the compressed body, marked as
   * brotli, only when brotli is accepted and the asset has a compressed form.
   */
  function ServeStatic(cache: AssetCache, path: string, acceptEncoding: seq<seq<byte>>): (r: StaticReply)
    ensures r.NotFound? <==> GetFromPath(cache, path).None?
    ensures r.Served? ==>
      var asset := GetFromPath(cache, path).value;
      && CONTENT_TYPE in r.headers
      && r.headers[CONTENT_TYPE] == (if ContentType(asset).Some? then ContentType(asset).value else "application/octet-stream")
      && (CONTENT_ENCODING in r.headers <==> AcceptsBrotli(acceptEncoding) && asset.compressed.Some?)
      && (CONTENT_ENCODING in r.headers ==> r.headers[CONTENT_ENCODING] == "br" && r.body == asset.compressed.value)
      && (CONTENT_ENCODING !in r.headers ==> r.body == asset.raw)
      && r.headers.Keys <= {CONTENT_TYPE, CONTENT_ENCODING}
  {
    match GetFromPath(cache, path)
    case None => NotFound
    case Some(asset) =>
      var headers := map[CONTENT_TYPE := if ContentType(asset).Some? then ContentType(asset).value else "application/octet-stream"];
      if AcceptsBrotli(acceptEncoding) && asset.compressed.Some? then
        Served(headers[CONTENT_ENCODING := "br"], asset.compressed.value)
      else
        Served(headers, asset.raw)
  }

  /** The response header names are distinct. */
  lemma HeaderNamesDistinct()
    ensures CACHE_CONTROL != CONTENT_TYPE && CACHE_CONTROL != CONTENT_ENCODING && CONTENT_TYPE != CONTENT_ENCODING
  {
    assert CACHE_CONTROL[1] != CONTENT_TYPE[1] && CACHE_CONTROL[1] != CONTENT_ENCODING[1];
    assert CONTENT_TYPE[8] != CONTENT_ENCODING[8];
  }

  /** A script response leaves the cache-control layer cacheable for a day. */
  lemma {:induction false} ScriptIsCached(headers: map<string, string>)
    requires CONTENT_TYPE in headers && headers[CONTENT_TYPE] == "application/javascript"
    ensures CacheControlHeaders(headers)[CACHE_CONTROL] == "public, max-age=" + Decimal(86400)
  {
    ScriptMaxAge();
  }

  /** An octet-stream response leaves the cache-control layer without cache-control. */
  lemma {:induction false} OctetStreamIsNotCached(headers: map<string, string>)
    requires CACHE_CONTROL !in headers
    requires CONTENT_TYPE in headers && headers[CONTENT_TYPE] == "application/octet-stream"
    ensures CACHE_CONTROL !in CacheControlHeaders(headers)
  {
    OctetStreamMaxAge();
  }

  /** Served scripts carry a one-day cache-control once the layer has run; assets without a known type carry none. */
  lemma {:induction false} StaticCaching(cache: AssetCache, path: string, acceptEncoding: seq<seq<byte>>)
    requires GetFromPath(cache, path).Some?
    ensures var asset := GetFromPath(cache, path).value;
      var headers := CacheControlHeaders(ServeStatic(cache, path, acceptEncoding).headers);
      && (Ext(asset) == Some("js") ==> headers[CACHE_CONTROL] == "public, max-age=" + Decimal(86400))
      && (ContentType(asset).None? ==> CACHE_CONTROL !in headers)
  {
    var asset := GetFromPath(cache, path).value;
    var served := ServeStatic(cache, path, acceptEncoding).headers;
    if Ext(asset) == Some("js") {
      ScriptIsCached(served);
    }
    if ContentType(asset).None? {
      HeaderNamesDistinct();
      OctetStreamIsNotCached(served);
    }
  }
}
