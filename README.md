# perfit storage core, modelled in Dafny

perfit is a small metrics service. Clients create **metrics**, post **data points** to them (a value plus optional metadata, stamped with the current second) and read them back as JSON, SVG or an HTML chart. All state lives in an embedded ordered key-value store:
- the root-account table;
- accounts;
- access tokens and their reverse index;
- metrics and the metrics reverse index (internal id → metric id);
- data points, keyed by `(metric internal id, second, index within that second)`;
- the older series and samples tables.

Access is by bearer token. A Root token creates accounts. An Admin token creates further tokens for its own account.

This project models that core:

- **Identifiers and value types.**
  - Random 16-byte ids and their URL-safe unpadded base64 text form (section 5 of RFC 4648). This covers their bincode layout and the internal-id successor.
  - 32-byte access tokens.
  - `Ts` seconds arithmetic and hour rounding.
  - The 256-byte metadata bound.
- **The store.**
  - Unordered tables are Dafny `map`s and `set`s.
  - Ordered tables are strictly sorted association lists. Their keys are integer tuples under lexicographic order (`OrderedTable`).
  - A `Db.Database` object holds the committed tables.
  - A `Db.WriteTransaction` object is a private copy that the handler changes insert by insert. `Db.Database.Commit` publishes it.
- **Request handlers.** Each handler is a method that opens a transaction, inserts step by step and commits only when every step succeeded. Its `ensures` ties the committed tables and the result to a specification function (`…Outcome`). Lemmas beside that function state what the handler promises:
  - a fresh internal id;
  - no same-second overwrite;
  - isolation from other metrics;
  - privilege checks before any write;
  - the two token entries written together;
  - idempotent root bootstrap.
- **Read paths.**
  - Scan bounds (`key_range`).
  - The 1000-entry pagination rule that never splits a same-second group.
  - Format dispatch in `metric_get`.
  - The older `get_samples`.
- **Small decision functions.**
  - Error-to-status mapping.
  - The cache-control max-age table.
  - Brotli negotiation for static files.
  - Asset cache-key normalisation and content types.
  - The browser-side `htmx:configRequest` parameter filter (`assets/script.js`). It is modelled as a `Parameters` object whose loop deletes keys in place.

Randomness and the clock are inputs. Generated ids and tokens, `now`, and whether writing the root credentials file succeeded are parameters of the operations.

Modules, one per source file, plus helpers:

| file | module | models |
|---|---|---|
| wrappers.dfy | Wrappers | `Option`, `Result` |
| ints.dfy | Ints | `u64`, bytes |
| text.dfy | Text | `starts_with`, `trim_start_matches`, `split`, Rust and JavaScript `trim` |
| base64.dfy | Base64Url | URL-safe unpadded base64 |
| ordered_table.dfy | OrderedTable | ordered tables, `range`, `last`, `insert` |
| ids.dfy | Ids | `src/models.rs` |
| access_token.dfy | AccessTokens | `src/models/access_token.rs` |
| ts.dfy | Time | `src/models/ts.rs` |
| errors.dfy | Errors | `src/routes/error.rs` |
| db.dfy | Db | `src/db.rs` |
| metric.dfy | MetricRoutes | `src/routes/metric.rs` |
| series.dfy | SeriesRoutes | `src/routes/series.rs` |
| auth.dfy | Auth | `src/routes/auth.rs` |
| token.dfy | TokenRoutes | `src/routes/token.rs` |
| account.dfy | AccountRoutes | `src/routes/account.rs` |
| state.dfy | AppState | `src/state.rs` |
| asset_cache.dfy | StaticAssets | `src/asset_cache.rs` |
| routes.dfy | Routes | `src/routes.rs` |
| script.dfy | Script | `assets/script.js` |

### Where the source files disagree, and what the model follows

The files come from different revisions of the repository. Where the source files disagree, the model follows the code that calls the declaration.

- **Data-point key.** `src/db.rs:35-39` declares `DataPoint` as `(metric_internal_id, ts)`. `metric_post` and `get_metric` build and read a third field, `idx`. The model uses the triple `(internal id, second, idx)`.
- **Metric internal id.** `MetricInternalId` is not part of this model's source files. It is modelled like `SeriesInternalId` (`src/models.rs:100-107`): a `u64` with `next`.
- **Token privilege call.** `token_new` (`src/routes/token.rs:25`) passes the requested token type to `ensure_can_create_tokens`, which `src/db.rs:61` declares over an `AccountId`. The model keeps the predicate as `db.rs` declares it. The handler passes the caller's own account id, the only argument of that type in scope. Hence an Admin caller always passes, and any other type is refused.
- **Table names.**
  - `metric.rs` opens `TABLE_METRICS_REV`, while `db.rs` declares the same table as `TABLE_METRIC_REV`.
  - `TABLE_ACCESS_TOKENS_REV` is used by `token.rs` but is not declared in `db.rs`. It is modelled as a set of `(account id, token)` pairs.
- **Empty metadata.** `DataPointMetadata` has no `Default` derive in `db.rs`, yet `metric_post` calls `unwrap_or_default()`. The model stores the empty string (`Db.EMPTY_METADATA`).
- **Static asset fields.** `StaticAsset` has `path`/`contents` in `asset_cache.rs` but `raw`/`compressed` in `routes.rs`. The model gives it `path`, `raw` and an optional `compressed`.
- **Series errors.** `series.rs` raises a `SeriesNotFound` error that `error.rs` does not know. `SeriesRoutes` gives it its own error type.
- **Token and account handlers.**
  - `account_new` (`src/routes/account.rs:17-48`) and `init_root_account` (`src/state.rs`) write a token record but no reverse-token entry; the model writes none either.
  - `token_new` stores whatever token type the request names, Root included.
  - No handler replaces or deletes an existing token.

## Model

| member | source | states |
|---|---|---|
| Errors.UserErrorResponse | src/routes/error.rs:54-69 | The message is the variant's display text. The status is 401 exactly for Unauthorized and InvalidAuthorizationToken, and 404 exactly for FormatNotSupported. Every other variant gets 400, so the mapping is total. |
| Errors.ErrorResponse | src/routes/error.rs:71-86 | A user root cause answers as that user error. Any other root cause answers 500 with the fixed message "Internal Service Error", and 500 occurs only then. |
| Errors.InternalErrorsLookAlike | src/routes/error.rs:75-83 | Any two non-user errors give the identical response, whose message is "Internal Service Error". |
| Base64Url.DecodeEncode | src/models.rs:21-28 | Decoding the unpadded URL-safe encoding of any byte string gives back that byte string. |
| Base64Url.EncodeDecode | src/models.rs:81-89 | Any text that decodes re-encodes to exactly itself. Unpadded decoding is canonical. |
| Base64Url.DecodedLength | src/models.rs:83-88 | Text that decodes has length ⌈4n/3⌉ for n decoded bytes. |
| Ids.Display | src/models.rs:21-28 | The text form of a 16-byte id is its 22-character base64url encoding. |
| Ids.Parse | src/models.rs:77-89 | Parsing succeeds iff the text is base64url that decodes to exactly 16 bytes. |
| Ids.ParseDisplay | src/models.rs:54-94 | Parsing the displayed form of an id gives back the id. |
| Ids.DisplayParse | src/models.rs:54-94 | An accepted text is exactly the display of the id it parses to. |
| Ids.BincodeEncode | src/models.rs:30-37 | The bincode form of an id is its 16 raw bytes. |
| Ids.BincodeDecode | src/models.rs:38-52 | Decoding succeeds iff at least 16 bytes remain. The consumed prefix re-encodes the decoded id. |
| Ids.BincodeRoundTrip | src/models.rs:30-51 | Decoding an encoded id, followed by any rest, yields that id and the untouched rest. |
| Ids.Next | src/models.rs:100-107 | The successor of an internal id below the u64 maximum is exactly one more: greater by 1, so no id lies between. |
| AccessTokens.FromStr | src/models/access_token.rs:25-34 | Succeeds iff the text decodes without padding to exactly 32 bytes. A decodable text of the wrong length fails with "length must be 32 bytes". |
| AccessTokens.Serialize | src/models/access_token.rs:37-45 | A token serializes to its 43-character unpadded base64url form. |
| AccessTokens.DeserializeAgreesWithFromStr | src/models/access_token.rs:61-77 | Deserialize applies exactly the decode-and-length rule of `from_str`. |
| AccessTokens.FromStrSerialize | src/models/access_token.rs:25-45 | `from_str(serialize(t)) == t` for every token. |
| AccessTokens.SerializeFromStr | src/models/access_token.rs:25-45 | Every accepted text is the serialization of the token it parses to. |
| Time.Default | src/models/ts.rs:8-9 | The default timestamp is `ZERO`. |
| Time.Sub | src/models/ts.rs:32-38 | Subtraction saturates: it is 0 when the right side is not smaller, else the exact difference. |
| Time.Inc | src/models/ts.rs:60-62 | `inc` moves exactly one second later. |
| Time.IncAbsolute | src/models/ts.rs:51-62 | `inc(x).to_absolute_secs() == x.to_absolute_secs() + 1`. |
| Time.SubDuration | src/routes/metric.rs:195 | Subtracting a duration from a representable time gives a representable time. |
| Time.FromSystemTime | src/models/ts.rs:17-24 | Gives the whole seconds since the epoch (floor), or 0 for a time before the epoch. |
| Time.FromOffsetDateTime | src/models/ts.rs:11-15 | Gives the unix timestamp. A negative timestamp wraps modulo 2^64, like the `as u64` cast. |
| Time.RoundDownToHour | src/models/ts.rs:83-90 | Rounding down gives a multiple of 3600 that is ≤ t and within 3600 of t. |
| Time.RoundUpToHour | src/models/ts.rs:92-95 | Rounding up gives a multiple of 3600 in [t, t+3600), and t itself when t is on the hour. |
| Time.RoundUpExclusiveToHour | src/models/ts.rs:96-98 | Exclusive rounding gives a multiple of 3600 strictly above t and at most t+3600. |
| Time.RoundUpExclusiveVersusInclusive | src/models/ts.rs:92-98 | The two upward roundings agree except on an hour boundary, where the exclusive one gives t+3600. |
| Text.TrimStartMatches | src/routes/auth.rs:31 | The result does not start with the pattern, and the input is some number of pattern repetitions followed by the result. |
| Text.TrimStartMatchesRepeat | src/routes/auth.rs:31 | Trimming k repetitions of the pattern in front of a text that does not start with it gives back exactly that text. |
| Text.Split | src/asset_cache.rs:36 | Splitting on a separator gives at least one separator-free part, and joining the parts restores the input. |
| Text.SplitJoin | src/asset_cache.rs:36 | Splitting a join of separator-free parts gives back the parts. |
| OrderedTable.Insert | src/routes/metric.rs:77 | Inserting into a sorted table, as `table.insert` does on the reverse, data-point and sample tables, keeps it sorted and adds exactly the key. |
| OrderedTable.GetInsert | src/routes/metric.rs:129-139 | After an insert the key maps to the new value, and every other key keeps its old value. |
| OrderedTable.Last | src/routes/metric.rs:62-63 | `last()` is None iff the table is empty. Otherwise it is the stored entry with the greatest key. |
| OrderedTable.Range | src/routes/metric.rs:220-222 | A range scan is sorted and holds exactly the table's keys within [lo, hi). |
| OrderedTable.GetRange | src/routes/metric.rs:220-222 | A key's value in the range is its value in the table when in bounds, else absent. |
| Db.EnsureCanCreateTokens | src/db.rs:61-67 | Succeeds iff the record is Admin and belongs to the given account. Otherwise it fails with Unauthorized. |
| Db.EnsureCanCreateAccounts | src/db.rs:68-73 | Succeeds iff the record is Root. Otherwise it fails with Unauthorized. |
| Db.PrivilegesDisjoint | src/db.rs:60-74 | No token passes both privilege checks. |
| Db.Utf8Length | src/db.rs:101 | The UTF-8 byte length of a text lies between its character count and four times it. |
| Db.MetadataTryNew | src/db.rs:97-105 | Accepts iff the UTF-8 byte length is at most 256, keeping the text unchanged. `DataPointMetadata` is a subset type with that bound, so every stored record respects it. |
| Db.MetadataBoundEverywhere | src/db.rs:108-127 | `from_str`, `try_new` and `Deserialize` agree. A text of more than 256 characters is always refused. |
| Db.DataPointOfKey | src/routes/metric.rs:129-134 | Every well-formed data-point key is the key of some data point. |
| Db.DataPointOrder | src/routes/metric.rs:112-123 | Data-point keys order by internal id, then second, then index. |
| Db.SampleOrder | src/routes/series.rs:74-80 | Sample keys order by internal id, then second. |
| Db.WriteTransaction.InsertDataPoint | src/routes/metric.rs:129-139 | The data-point table becomes the old one with the key inserted. The other tables are unchanged, and well-formedness is kept. |
| Db.WriteTransaction.InsertMetricRev | src/routes/metric.rs:77 | The metrics reverse table becomes the old one with the internal id inserted. The other tables are unchanged. |
| Db.Database.BeginWrite | src/db.rs:146-152 | A write transaction starts as a fresh private copy of the committed tables. |
| Db.Database.Commit | src/db.rs:153-159 | Committing publishes exactly the transaction's tables. |
| MetricRoutes.NextInternalId | src/routes/metric.rs:61-65 | The new internal id is 0 iff the reverse table is empty. Otherwise it is the last key plus one: strictly above every existing id, with its predecessor present. Overflow past u64::MAX is an error. |
| MetricRoutes.LastInternalId | src/routes/metric.rs:62-64 | The last reverse entry carries the greatest internal id in the table. |
| MetricRoutes.MetricNewOutcome | src/routes/metric.rs:58-83 | On success the result is the generated metric id. On overflow nothing changes. |
| MetricRoutes.MetricNewEffect | src/routes/metric.rs:69-79 | The metric keys grow by exactly the new id, which maps to (now, the caller's account, a fresh internal id). The reverse table gains exactly that id, mapped back. Other metrics keep their records, and every other table is equal to before. |
| MetricRoutes.MetricNewKeepsIndex | src/routes/metric.rs:61-77 | Writing the record and its reverse entry together keeps every metric's internal id mapped back to that metric, even when the generated metric id was taken. |
| MetricRoutes.IndexedIdsDistinct | src/routes/metric.rs:61-77 | Under that index, two different metrics never share an internal id. |
| MetricRoutes.MetricNew | src/routes/metric.rs:54-84 | The handler commits exactly the outcome's tables and returns its result. Nothing is committed on error. |
| MetricRoutes.InSameSecond | src/routes/metric.rs:113-123 | A key lies in `(id, ts, 0)..(id, ts+1, 0)` iff it has internal id `id` and second `ts`. |
| MetricRoutes.LastOfSecond | src/routes/metric.rs:124-126 | The last entry of that scan has the greatest index among the same-second keys. |
| MetricRoutes.NextIdx | src/routes/metric.rs:112-127 | The new index is above every existing index for that (metric, second). It is 0 when there are none, and one past an existing index otherwise. Overflow is an error. |
| MetricRoutes.MetricPostOutcome | src/routes/metric.rs:99-145 | An unknown metric fails with MetricNotFound and changes nothing. Success returns `ts` in absolute seconds. Only the data-point table can change; every other table is left equal. |
| MetricRoutes.MetricPostEffect | src/routes/metric.rs:112-145 | Exactly one new key `(internal id, now, idx)` is added, and it was absent before, so nothing is overwritten. It holds the value and the metadata, or the empty default. All other keys keep their values. |
| MetricRoutes.MetricPostIsolation | src/routes/metric.rs:129-139 | Under the index, every key of every other metric reads the same after a post, and the index still holds. |
| MetricRoutes.MetricPost | src/routes/metric.rs:94-146 | The handler commits exactly the outcome's tables and returns its result. Nothing is committed on error. |
| MetricRoutes.Bound | src/routes/metric.rs:193-203 | A bound is absent iff neither a relative nor a fixed one is given. A relative bound is the floor, in seconds, of `now - duration`, or 0 when that is before the epoch. Otherwise the fixed date-time is converted. |
| MetricRoutes.RelativeBoundWins | src/routes/metric.rs:193-203 | For start and for end alike: with a relative bound, changing the fixed bound changes nothing, and without one the fixed bound is used. |
| MetricRoutes.KeyRange | src/routes/metric.rs:172-191 | Building the range fails exactly when the internal id is u64::MAX. The fallback `next()` is evaluated even when an end is given. |
| MetricRoutes.KeyRangeExact | src/routes/metric.rs:172-191 | A key is inside the range iff it has this internal id, its second is ≥ start (or 0), and it lies below `(id, end, 0)` when an end is given. Without an end, every key of the id is inside. |
| MetricRoutes.PageEnd | src/routes/metric.rs:227-232 | The take_while stops at the first position ≥ 1000 whose index is 0, or at the end of the scan. |
| MetricRoutes.Page | src/routes/metric.rs:220-235 | The page is a prefix of the scan and holds at least min(n, 1000) entries. It is followed by nothing or by an idx-0 entry. Its length is the first position at or past 1000 that holds an idx-0 entry, or the whole scan when there is none. |
| MetricRoutes.PageKeepsSecondsWhole | src/routes/metric.rs:224-232 | No same-second group is split: when the scan goes on after the page, its next entry has another (metric, second) than the page's last one. |
| MetricRoutes.GetMetric | src/routes/metric.rs:206-240 | An unknown metric fails with MetricNotFound. The result is Ok exactly when the metric is known and its key range can be built. It is then the page of the range scan, each entry as its second and its record. |
| MetricRoutes.FormatOf | src/routes/metric.rs:269-296 | "html" and "" give the chart, "svg" and "json" their formats. Anything else is FormatNotSupported. |
| MetricRoutes.MetricGet | src/routes/metric.rs:263-297 | An unsupported type fails before any read. JSON records carry the second, the value and the metadata of each read point, in order. |
| SeriesRoutes.SeriesNewOutcome | src/routes/series.rs:31-51 | On success the result is the generated series id. On overflow nothing changes. |
| SeriesRoutes.SeriesNewEffect | src/routes/series.rs:40-50 | The series keys grow by exactly the new id, whose record is (now, the caller's account, an internal id no series had). The reverse table gains exactly that id, mapped back. Other series keep their records, and every other table is equal to before. |
| SeriesRoutes.SeriesNewInternalId | src/routes/series.rs:32-37 | The new internal id is 0 for the first series, and otherwise one more than the last: above every earlier id. |
| SeriesRoutes.SeriesNewKeepsIndex | src/routes/series.rs:32-48 | Writing the record and its reverse entry together keeps every series' internal id mapped back to that series. |
| SeriesRoutes.SeriesNew | src/routes/series.rs:25-55 | The handler commits exactly the outcome's tables and returns its result. |
| SeriesRoutes.SeriesPostOutcome | src/routes/series.rs:66-86 | An unknown series fails with SeriesNotFound and writes nothing. Success returns `ts` in absolute seconds. Only the samples table can change; every other table is left equal. |
| SeriesRoutes.SeriesPostEffect | src/routes/series.rs:74-80 | The sample lands at `(internal id, now)`. Every other key is unchanged. |
| SeriesRoutes.SeriesPostIsolation | src/routes/series.rs:74-80 | Under the index, every key of every other series reads the same after a post, and the index still holds. |
| SeriesRoutes.SameSecondOverwrites | src/routes/series.rs:74-80 | Two posts in the same second target the same key. The second value replaces the first. |
| SeriesRoutes.SeriesPost | src/routes/series.rs:58-87 | The handler commits exactly the outcome's tables and returns its result. |
| SeriesRoutes.KeyRange | src/routes/series.rs:109-124 | Building the range fails exactly when the internal id is u64::MAX. The fallback `next()` is evaluated even when an end is given. |
| SeriesRoutes.KeyRangeExact | src/routes/series.rs:109-124 | A key is inside `(id, start or 0)..(id, end)`, or `..(id+1, 0)`, iff it has this id and its second is in bounds. |
| SeriesRoutes.Take | src/routes/series.rs:141-146 | `take(1000)` is the prefix of length min(n, 1000). |
| SeriesRoutes.GetSamples | src/routes/series.rs:127-150 | An unknown series fails with SeriesNotFound. The result is Ok exactly when the series is known and its key range can be built. It is then at most 1000 samples, a prefix of the scan in key order. |
| Auth.HeaderToStr | src/routes/auth.rs:27 | A header value is text iff every byte is visible ASCII or tab. The text has the same code points. |
| Auth.BearerHeader | src/routes/auth.rs:24-29 | A header is accepted iff present, textual and starting with "Bearer ". |
| Auth.Authenticate | src/routes/auth.rs:24-47 | Missing, non-text or non-Bearer headers give MissingAuthorizationToken. A token that does not parse gives MalformedAuthoraizationToken. An unknown token gives InvalidAuthorizationToken. Otherwise the result is exactly the stored record, read without writing. |
| Auth.AuthenticateBearer | src/routes/auth.rs:24-47 | A header of one or more "Bearer " prefixes before a serialized token resolves to that token's record, or to InvalidAuthorizationToken when it is not stored. |
| Auth.SchemeIsCaseSensitive | src/routes/auth.rs:28 | A lower-case "bearer " header is refused as MissingAuthorizationToken. |
| TokenRoutes.TokenNewOutcome | src/routes/token.rs:25-52 | Fails with Unauthorized, writing nothing, iff the caller is not Admin. Success returns the caller's account id and the new token. |
| TokenRoutes.TokenNewEffect | src/routes/token.rs:28-45 | The token keys grow by exactly the new token, which maps to (now, the caller's account, the requested type). The reverse set gains exactly that pair. Other tokens keep their records, and every other table is equal to before. |
| TokenRoutes.TokenNewKeepsReverseTokens | src/routes/token.rs:32-45 | Every reverse pair names a stored token of that account, before and after. |
| TokenRoutes.TokenNew | src/routes/token.rs:20-53 | The check runs before the transaction. The handler commits exactly the outcome's tables and returns its result. |
| AccountRoutes.AccountNewOutcome | src/routes/account.rs:21-47 | Fails with Unauthorized, writing nothing, iff the caller is not Root. Success returns the new account id and its admin token. |
| AccountRoutes.AccountNewEffect | src/routes/account.rs:27-41 | The account keys and token keys each grow by exactly the new entry. The new token is an Admin token of that account: it can create tokens for it but cannot create accounts. Other accounts and tokens keep their records, and every other table, the reverse set included, is equal to before. |
| AccountRoutes.AccountNewKeepsReverseTokens | src/routes/account.rs:27-41 | Every reverse pair still names a stored token of its account. |
| AccountRoutes.AccountNew | src/routes/account.rs:17-48 | The check runs before the transaction. The handler commits exactly the outcome's tables and returns its result. |
| AppState.InitRootOutcome | src/state.rs:23-70 | A non-empty root table gives None with nothing changed. A failed credentials write on an empty table is an error, with nothing changed. Success returns exactly the inserted account id and token. |
| AppState.InitRootEffect | src/state.rs:36-49 | The new id becomes the only root account and gains the record (now). The token keys grow by exactly a Root token owned by it. Other accounts and tokens keep their records, and every other table is equal to before. |
| AppState.InitRootIdempotent | src/state.rs:29-31 | After a successful call, a second call returns None and changes nothing. |
| AppState.InitRootAccount | src/state.rs:23-70 | The method commits exactly the outcome's tables and returns its result. |
| AppState.ChartUrls | src/state.rs:73-79 | The SVG URL is the HTML URL followed by "/svg". The HTML URL is "/s/" followed by the id's text form, which parses back to the id. |
| StaticAssets.GetCacheKey | src/asset_cache.rs:35-42 | The key is the first '.'-segment, a '.', then the last segment, which is empty when there is only one. The key has exactly two segments. |
| StaticAssets.CacheKeyOfSegments | src/asset_cache.rs:35-42 | "name.hash.ext" maps to "name.ext". More generally, dot-free segments map to first "." last. |
| StaticAssets.CacheKeyWithoutDot | src/asset_cache.rs:35-42 | A name without a dot maps to the name followed by ".". |
| StaticAssets.CacheKeyIdempotent | src/asset_cache.rs:35-42 | Normalising a key again leaves it unchanged. |
| StaticAssets.Get | src/asset_cache.rs:25-27 | Lookup finds exactly the stored asset for a key. |
| StaticAssets.GetFromPath | src/asset_cache.rs:30-33 | A path lookup is the lookup of its cache key. |
| StaticAssets.Ext | src/asset_cache.rs:125-129 | The extension is never None and contains no '.'. |
| StaticAssets.ExtOfSegments | src/asset_cache.rs:125-129 | The extension is the last '.'-segment of the path. |
| StaticAssets.ContentType | src/asset_cache.rs:131-139 | js maps to application/javascript and css to text/css. Anything else gives None. |
| StaticAssets.CacheOfLookup | src/asset_cache.rs:94-103 | After loading, a key holds the asset of the last file with that cache key. A key with no such file is absent. |
| StaticAssets.BuildCache | src/asset_cache.rs:94-103 | The insert loop builds exactly the keyed map, with later files replacing earlier ones. |
| Routes.FirstMatch | src/routes.rs:205-207 | `find` returns the first table entry whose prefix the content type starts with. |
| Routes.MaxAge | src/routes.rs:197-208 | There is no max-age iff no listed prefix matches. Otherwise it is the first match's seconds. |
| Routes.MaxAges | src/routes.rs:198-203 | text/html and image/svg+xml get 60, text/css and application/javascript 86400, other types none. |
| Routes.PageMaxAge | src/routes.rs:199 | An HTML page, whatever its charset parameter, is cacheable for 60 seconds. |
| Routes.ChartMaxAge | src/routes.rs:200 | An SVG chart is cacheable for 60 seconds. |
| Routes.StyleMaxAge | src/routes.rs:201 | A style sheet is cacheable for a day. |
| Routes.ScriptMaxAge | src/routes.rs:202 | A script is cacheable for a day. |
| Routes.JsonMaxAge | src/routes.rs:198-207 | A JSON answer matches no listed prefix and gets no max-age. |
| Routes.OctetStreamMaxAge | src/routes.rs:198-207 | The fallback content type matches no listed prefix and gets no max-age. |
| Routes.DecimalRoundTrip | src/routes.rs:209 | The decimal rendering of the max-age reads back as the same number. |
| Routes.CacheControlHeaders | src/routes.rs:197-213 | With no content type or no matching prefix the headers are unchanged. Otherwise cache-control is set to "public, max-age=N" and nothing else changes. |
| Routes.Response.CacheControl | src/routes.rs:194-216 | The middleware updates the response's header map in place as above and leaves the body alone. |
| Routes.AnyIsBr | src/routes.rs:169 | True iff some ','-separated, trimmed element equals "br". |
| Routes.AcceptsBrotli | src/routes.rs:165-171 | Brotli is accepted iff some textual Accept-Encoding value lists "br". |
| Routes.ServeStatic | src/routes.rs:150-184 | An unknown asset is 404. The content type is the asset's, or application/octet-stream. The compressed body and `Content-Encoding: br` are sent iff brotli is accepted and a compressed form exists. Otherwise the raw body is sent without that header. |
| Routes.StaticCaching | src/routes.rs:158-212 | Once the cache-control layer has run, a served .js asset is cacheable for a day. An asset without a known content type gets no cache-control. |
| Routes.ScriptIsCached | src/routes.rs:196-213 | For a script response the middleware sets cache-control to "public, max-age=86400". |
| Routes.OctetStreamIsNotCached | src/routes.rs:196-213 | For an octet-stream response without cache-control, the middleware adds none. |
| Script.WithoutBlank | assets/script.js:5-9 | Exactly the parameters with non-blank values remain, unchanged. |
| Script.FilteredHasNoBlank | assets/script.js:5-20 | After the handler no whitespace-only value remains, and surviving values are unchanged. |
| Script.FilteredKeeps | assets/script.js:5-20 | A non-blank parameter is removed iff it is a fixed bound of the chart form whose relative bound survived blank removal. |
| Script.PreferRelativeRemoves | assets/script.js:13-20 | Of the keys present, exactly the chart form's "start-fixed" and "end-fixed" are removed, and only when their relative counterpart is present. |
| Script.RelativeOverFixed | assets/script.js:12-19 | On the chart form a present start-rel removes start-fixed, and a present end-rel removes end-fixed. |
| Script.BlankRelativeKeepsFixed | assets/script.js:5-15 | A blank start-rel is removed first, so it does not delete a non-blank start-fixed. |
| Script.OtherFormsOnlyDropBlank | assets/script.js:5-12 | On any other form only blank removal applies. |
| Script.Parameters.ConfigRequest | assets/script.js:2-21 | The handler leaves exactly the filtered parameter map. |
| Script.Parameters.DropBlank | assets/script.js:5-9 | The delete loop leaves exactly the non-blank parameters. |
| Script.Parameters.PreferRelativeBounds | assets/script.js:12-20 | Fixed bounds with a present relative partner are deleted on the chart form. |

## Left out

- Rendering is not modelled: `src/fragment.rs`, `render_chart_form`, `render_svg` and the floating-point clamp and NaN helpers. These are UI code and `f64` numerics. `MetricRoutes.MetricGet` returns the format chosen and the JSON records; the chart and SVG bodies are not built.
- `metric_find`, `metric_get_default_type` and `series_get` are not modelled. They are lookups and rendering entry points around the modelled operations.
- The router, middleware layering, CORS, compression layers, rate limiting, async and `block_in_place` are framework plumbing and not modelled.
- The storage engine and bincode layout of tables are not modelled. Tables are maps and sorted association lists. Storage and table-opening errors are not modelled: every read and insert succeeds.
- Generated ids, tokens and metric ids (`generate`), the clock (`Ts::now`, `SystemTime::now`) and writing the root credentials file are parameters. `metric_post` reads the clock once in the source; `MetricOpts::key_range` reads it once per call. The model takes one `now` per operation. `init_root_account` and `account_new` stamp `created` twice with `Ts::now()`; the model uses one `now` for both.
- Arithmetic overflow: `next()`, `inc()` and `idx + 1` on `u64::MAX` would panic (debug builds) or wrap (release builds). The model turns each into an internal error that aborts the transaction. `MetricRoutes.KeyRange` and `SeriesRoutes.KeyRange` do the same for the fallback `next()`. `unwrap_or` evaluates it eagerly, so they fail for internal id u64::MAX even when an end is given.
- `Time.FromSystemTime`: `SystemTime` is modelled as signed nanoseconds from the epoch, bounded above by the platform's signed 64-bit seconds; its platform-specific lower bound is not modelled.
- `Time.RoundDownToHour`, `Time.RoundUpToHour`, `Time.RoundUpExclusiveToHour`: modelled on UTC seconds, not on `OffsetDateTime` values with dates and offsets; `our_fmt` and date display are not modelled.
- HTTP header values are modelled as byte strings. `to_str` accepts visible ASCII and tab. The response header map holds one value per name.
- `AssetCache::load_files` directory reading, the extension filter and brotli compression are not modelled. `StaticAssets.BuildCache` takes the already-read `(file name, asset)` list in directory order.
- `Script.Parameters`: parameter values are modelled as strings. Prototype-inherited properties, which `hasOwnProperty` skips, are not modelled.
- Decoder error messages other than "length must be 32 bytes" are not modelled; a failed base64 decode is one error value.
- `OrderedTable.Range`: a lower bound above the upper bound gives an empty scan; what the storage engine does with such a range is not part of this model.
- `MetricOpts` rendering fields (`title`, `x_label`, `y_label`, `min`, `max`) are not modelled; they only affect rendering.
- `DataPointValue` and `SampleValue` are modelled as raw 32- and 64-bit patterns; their floating-point meaning is not used.
