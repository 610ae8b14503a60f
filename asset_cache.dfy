/**
 * The static asset cache (asset_cache.rs): assets are stored under a cache
 * key made from their file name, and a request path is looked up under the
 * key made the same way, so "name.hash.ext" finds what was loaded as "name.ext".
 */
module StaticAssets {
  import opened Ints
  import opened Wrappers
  import opened Text

  /** `HASH_SPLIT_CHAR`; it is also the extension separator. */
  const HASH_SPLIT_CHAR: char := '.'

  /** A cached asset: where it was loaded from, its bytes, and its brotli-compressed bytes when it has them. */
  datatype StaticAsset = StaticAsset(path: string, raw: seq<byte>, compressed: Option<seq<byte>>)

  datatype AssetCache = AssetCache(assets: map<string, StaticAsset>)

  /** The cache key of a name already split into its '.'-separated segments. */
  function KeyOfSegments(parts: seq<string>): string
    requires |parts| >= 1
  {
    parts[0] + "." + if |parts| > 1 then parts[|parts| - 1] else ""
  }

  /**
   * `get_cache_key`: the first '.'-separated segment, a '.', and the last of
   * the segments after it (nothing when there is no other segment).
   */
  function GetCacheKey(path: string): (r: string)
    ensures |Split(r, HASH_SPLIT_CHAR)| == 2
    ensures Split(r, HASH_SPLIT_CHAR)[0] == Split(path, HASH_SPLIT_CHAR)[0]
    ensures var parts := Split(path, HASH_SPLIT_CHAR);
      Split(r, HASH_SPLIT_CHAR)[1] == if |parts| > 1 then parts[|parts| - 1] else ""
  {
    var parts := Split(path, HASH_SPLIT_CHAR);
    var ext := if |parts| > 1 then parts[|parts| - 1] else "";
    SplitJoin([parts[0], ext], HASH_SPLIT_CHAR);
    KeyOfSegments(parts)
  }

  /** A hashed file name "name.hash.ext", and any other middle segments, map to "name.ext". */
  lemma {:induction false} CacheKeyOfSegments(parts: seq<string>)
    requires |parts| >= 2
    requires forall i :: 0 <= i < |parts| ==> HASH_SPLIT_CHAR !in parts[i]
    ensures GetCacheKey(Join(parts, HASH_SPLIT_CHAR)) == parts[0] + "." + parts[|parts| - 1]
  {
    var path := Join(parts, HASH_SPLIT_CHAR);
    SplitJoin(parts, HASH_SPLIT_CHAR);
    assert KeyOfSegments(Split(path, HASH_SPLIT_CHAR)) == KeyOfSegments(parts);
  }

  /** A name without any '.' gets an empty extension. */
  lemma {:induction false} CacheKeyWithoutDot(name: string)
    requires HASH_SPLIT_CHAR !in name
    ensures GetCacheKey(name) == name + "."
  {
    SplitJoin([name], HASH_SPLIT_CHAR);
  }

  /** A cache key is its own cache key. */
  lemma {:induction false} CacheKeyIdempotent(path: string)
    ensures GetCacheKey(GetCacheKey(path)) == GetCacheKey(path)
  {
    var r := GetCacheKey(path);
    var parts := Split(r, HASH_SPLIT_CHAR);
    assert Join(parts, HASH_SPLIT_CHAR) == parts[0] + [HASH_SPLIT_CHAR] + parts[1];
  }

  /** `get` */
  function Get(cache: AssetCache, key: string): (r: Option<StaticAsset>)
    ensures r.Some? <==> key in cache.assets
    ensures r.Some? ==> r.value == cache.assets[key]
  {
    if key in cache.assets then Some(cache.assets[key]) else None
  }

  /** `get_from_path`: the lookup of the path's cache key. */
  function GetFromPath(cache: AssetCache, path: string): (r: Option<StaticAsset>)
    ensures r == Get(cache, GetCacheKey(path))
  {
    Get(cache, GetCacheKey(path))
  }

  /** `ext`: the last '.'-separated segment of the asset's path; it always exists. */
  function Ext(asset: StaticAsset): (r: Option<string>)
    ensures r.Some?
    ensures HASH_SPLIT_CHAR !in r.value
  {
    Some(LastSegment(Split(asset.path, HASH_SPLIT_CHAR)))
  }

  /** The last of a name's '.'-separated segments. */
  function LastSegment(parts: seq<string>): string
    requires |parts| >= 1
  {
    parts[|parts| - 1]
  }

  /** The extension of a path made of segments is its last segment. */
  lemma {:induction false} ExtOfSegments(asset: StaticAsset, parts: seq<string>)
    requires |parts| >= 1
    requires forall i :: 0 <= i < |parts| ==> HASH_SPLIT_CHAR !in parts[i]
    requires asset.path == Join(parts, HASH_SPLIT_CHAR)
    ensures Ext(asset) == Some(parts[|parts| - 1])
  {
    var path := Join(parts, HASH_SPLIT_CHAR);
    SplitJoin(parts, HASH_SPLIT_CHAR);
    assert Ext(StaticAsset(path, asset.raw, asset.compressed)) == Some(LastSegment(parts));
    assert asset == StaticAsset(path, asset.raw, asset.compressed);
  }

  /** `content_type`: scripts and style sheets have one; everything else has none. */
  function ContentType(asset: StaticAsset): (r: Option<string>)
    ensures r == Some("application/javascript") <==> Ext(asset) == Some("js")
    ensures r == Some("text/css") <==> Ext(asset) == Some("css")
    ensures r.None? <==> Ext(asset) != Some("js") && Ext(asset) != Some("css")
  {
    match Ext(asset)
    case Some(ext) =>
      if ext == "js" then Some("application/javascript")
      else if ext == "css" then Some("text/css")
      else None
    case None => None
  }

  /** The cache that inserting the loaded files in order produces: a later file with the same key replaces an earlier one. */
  function CacheOf(files: seq<(string, StaticAsset)>): map<string, StaticAsset>
  {
    if |files| == 0 then map[]
    else CacheOf(files[..|files| - 1])[GetCacheKey(files[|files| - 1].0) := files[|files| - 1].1]
  }

  /** The index of the last file whose name has cache key `key`, or -1 when none has. */
  function LastWithKey(files: seq<(string, StaticAsset)>, key: string): (r: int)
    ensures -1 <= r < |files|
    ensures r >= 0 ==> GetCacheKey(files[r].0) == key
    ensures forall j :: r < j < |files| ==> GetCacheKey(files[j].0) != key
  {
    if |files| == 0 then -1
    else if GetCacheKey(files[|files| - 1].0) == key then |files| - 1
    else
      var r := LastWithKey(files[..|files| - 1], key);
      assert forall j :: r < j < |files| - 1 ==> files[j] == files[..|files| - 1][j];
      r
  }

  /** A key is cached exactly when some file name has it, and it holds the asset of the last such file. */
  lemma {:induction false} CacheOfLookup(files: seq<(string, StaticAsset)>, key: string)
    ensures key in CacheOf(files) <==> LastWithKey(files, key) >= 0
    ensures key in CacheOf(files) ==> CacheOf(files)[key] == files[LastWithKey(files, key)].1
  {
    if |files| > 0 {
      var init := files[..|files| - 1];
      CacheOfLookup(init, key);
      if LastWithKey(files, key) >= 0 && GetCacheKey(files[|files| - 1].0) != key {
        assert files[LastWithKey(files, key)] == init[LastWithKey(init, key)];
      }
    }
  }

  /** The insertion loop of `load_files`, over the files already read. */
  method BuildCache(files: seq<(string, StaticAsset)>) returns (cache: AssetCache)
    ensures cache.assets == CacheOf(files)
  {
    var assets: map<string, StaticAsset> := map[];
    var i := 0;
    while i < |files|
      invariant 0 <= i <= |files|
      invariant assets == CacheOf(files[..i])
    {
      assert files[..i + 1][..i] == files[..i];
      assets := assets[GetCacheKey(files[i].0) := files[i].1];
      i := i + 1;
    }
    assert files[..|files|] == files;
    cache := AssetCache(assets);
  }
}
