/**
 * The store (db.rs): records, privilege checks, the metadata bound, the key
 * layouts of the ordered tables, and write transactions that commit only when
 * their body succeeds.
 */
module Db {
  import opened Ints
  import opened Wrappers
  import opened Ids
  import opened AccessTokens
  import opened Time
  import opened OrderedTable
  import Errors

  datatype AccessTokenType = Root | Admin | Metrics

  datatype AccountRecord = AccountRecord(created: Ts)

  datatype AccessTokenRecord = AccessTokenRecord(created: Ts, accountId: AccountId, tokenType: AccessTokenType)

  /** `ensure_can_create_tokens`: an Admin token, for its own account only. */
  function EnsureCanCreateTokens(rec: AccessTokenRecord, accountId: AccountId): (r: Result<(), Errors.UserRequestError>)
    ensures r.Ok? <==> rec.tokenType == Admin && accountId == rec.accountId
    ensures r.Err? ==> r.error == Errors.Unauthorized
  {
    if rec.tokenType.Admin? && accountId == rec.accountId then Ok(()) else Err(Errors.Unauthorized)
  }

  /** `ensure_can_create_accounts`: a Root token only. */
  function EnsureCanCreateAccounts(rec: AccessTokenRecord): (r: Result<(), Errors.UserRequestError>)
    ensures r.Ok? <==> rec.tokenType == Root
    ensures r.Err? ==> r.error == Errors.Unauthorized
  {
    if rec.tokenType.Root? then Ok(()) else Err(Errors.Unauthorized)
  }

  /** The two privileges belong to different tiers: no token holds both. */
  lemma {:induction false} PrivilegesDisjoint(rec: AccessTokenRecord, accountId: AccountId)
    ensures !(EnsureCanCreateTokens(rec, accountId).Ok? && EnsureCanCreateAccounts(rec).Ok?)
  {
  }

  datatype MetricRecord = MetricRecord(created: Ts, accountId: AccountId, internalId: InternalId)

  /** `DataPointValue(f32)`: carried, never computed on, so kept as its 32 bits. */
  datatype DataPointValue = DataPointValue(bits: bv32)

  /** The length of a character in UTF-8. */
  function Utf8Len(c: char): (n: int)
    ensures 1 <= n <= 4
  {
    if c as int < 0x80 then 1
    else if c as int < 0x800 then 2
    else if c as int < 0x1_0000 then 3
    else 4
  }

  /** `str::len`: the length in bytes of the UTF-8 encoding. */
  function Utf8Length(s: string): (n: nat)
    ensures |s| <= n <= 4 * |s|
  {
    if |s| == 0 then 0 else Utf8Len(s[0]) + Utf8Length(s[1..])
  }

  /** `DataPointMetadata::MAX_LEN` */
  const METADATA_MAX_LEN: int := 256

  /** A metadata text, before its length is checked. */
  datatype MetadataText = MetadataText(text: string)

  /**
   * `DataPointMetadata`: its field is private, so every value was built by
   * `try_new` or `Deserialize` and is at most 256 bytes long.
   */
  type DataPointMetadata = m: MetadataText | Utf8Length(m.text) <= METADATA_MAX_LEN witness MetadataText("")

  datatype MetadataError = MetadataTooLong

  /** `try_new`: accepts at most 256 bytes. */
  function MetadataTryNew(s: string): (r: Result<DataPointMetadata, MetadataError>)
    ensures r.Ok? <==> Utf8Length(s) <= METADATA_MAX_LEN
    ensures r.Ok? ==> r.value.text == s
  {
    if METADATA_MAX_LEN < Utf8Length(s) then Err(MetadataTooLong) else Ok(MetadataText(s))
  }

  /** `FromStr`, which calls `try_new`. */
  function MetadataFromStr(s: string): Result<DataPointMetadata, MetadataError>
  {
    MetadataTryNew(s)
  }

  /** `Deserialize`: its own check of the same bound. */
  function MetadataDeserialize(s: string): Result<DataPointMetadata, MetadataError>
  {
    if METADATA_MAX_LEN < Utf8Length(s) then Err(MetadataTooLong) else Ok(MetadataText(s))
  }

  /** Every way in enforces the same bound with the same outcome. */
  lemma {:induction false} MetadataBoundEverywhere(s: string)
    ensures MetadataFromStr(s) == MetadataTryNew(s) == MetadataDeserialize(s)
    ensures |s| > METADATA_MAX_LEN ==> MetadataDeserialize(s).Err?
  {
  }

  /** The metadata stored when a post carries none: the empty text. */
  const EMPTY_METADATA: DataPointMetadata := MetadataText("")

  datatype DataPointRecord = DataPointRecord(value: DataPointValue, metadata: DataPointMetadata)

  /** The key of a data point: metric, second, and the index within that second. */
  datatype DataPoint = DataPoint(metricInternalId: InternalId, ts: Ts, idx: u64)
  {
    function Key(): Key
    {
      [metricInternalId, ts.secs, idx]
    }
  }

  predicate IsU64(x: int)
  {
    0 <= x < U64_LIMIT
  }

  predicate IsDataPointKey(k: Key)
  {
    |k| == 3 && IsU64(k[0]) && IsU64(k[1]) && IsU64(k[2])
  }

  /** A sequence of entries with data point keys, such as a scan of the data-points table. */
  predicate DataPointKeys<V>(scan: seq<Entry<V>>)
  {
    forall j :: 0 <= j < |scan| ==> IsDataPointKey(scan[j].key)
  }

  function DataPointOfKey(k: Key): (p: DataPoint)
    requires IsDataPointKey(k)
    ensures p.Key() == k
  {
    DataPoint(k[0], Ts(k[1]), k[2])
  }

  /** Data point keys order by metric, then second, then index. */
  lemma {:induction false} DataPointOrder(p: DataPoint, q: DataPoint)
    ensures Less(p.Key(), q.Key()) <==>
      (p.metricInternalId < q.metricInternalId
       || (p.metricInternalId == q.metricInternalId
           && (p.ts.secs < q.ts.secs || (p.ts.secs == q.ts.secs && p.idx < q.idx))))
  {
    LessTriple(p.metricInternalId, p.ts.secs, p.idx, q.metricInternalId, q.ts.secs, q.idx);
  }

  /** The key of an internal-id reverse table. */
  function InternalIdKey(id: InternalId): Key
  {
    [id]
  }

  predicate IsInternalIdKey(k: Key)
  {
    |k| == 1 && IsU64(k[0])
  }

  datatype SeriesRecord = SeriesRecord(created: Ts, accountId: AccountId, internalId: InternalId)

  /** `SampleValue` is not part of this model; a sample is carried as its 64 bits. */
  datatype SampleValue = SampleValue(bits: bv64)

  datatype SampleRecord = SampleRecord(value: SampleValue)

  /** The key of a sample of the older series tables: series and second. */
  datatype Sample = Sample(seriesInternalId: InternalId, ts: Ts)
  {
    function Key(): Key
    {
      [seriesInternalId, ts.secs]
    }
  }

  predicate IsSampleKey(k: Key)
  {
    |k| == 2 && IsU64(k[0]) && IsU64(k[1])
  }

  /** An ordered table keyed by internal ids. */
  ghost predicate InternalIdTable<V>(t: seq<Entry<V>>)
  {
    Sorted(t) && forall k :: k in KeySet(t) ==> IsInternalIdKey(k)
  }

  /** The data-points table: ordered, keyed by (metric, second, index). */
  ghost predicate DataPointTable(t: seq<Entry<DataPointRecord>>)
  {
    Sorted(t) && forall k :: k in KeySet(t) ==> IsDataPointKey(k)
  }

  /** The samples table: ordered, keyed by (series, second). */
  ghost predicate SampleTable(t: seq<Entry<SampleRecord>>)
  {
    Sorted(t) && forall k :: k in KeySet(t) ==> IsSampleKey(k)
  }

  function SampleOfKey(k: Key): (s: Sample)
    requires IsSampleKey(k)
    ensures s.Key() == k
  {
    Sample(k[0], Ts(k[1]))
  }

  /** Sample keys order by series, then second. */
  lemma {:induction false} SampleOrder(s: Sample, q: Sample)
    ensures Less(s.Key(), q.Key()) <==>
      (s.seriesInternalId < q.seriesInternalId
       || (s.seriesInternalId == q.seriesInternalId && s.ts.secs < q.ts.secs))
  {
    LessPair(s.seriesInternalId, s.ts.secs, q.seriesInternalId, q.ts.secs);
  }

  /** The content of every table of the store. */
  datatype Tables = Tables(
    rootAccount: set<AccountId>,
    accounts: map<AccountId, AccountRecord>,
    accessTokens: map<AccessToken, AccessTokenRecord>,
    accessTokensRev: set<(AccountId, AccessToken)>,
    metrics: map<MetricId, MetricRecord>,
    metricsRev: seq<Entry<MetricId>>,
    dataPoints: seq<Entry<DataPointRecord>>,
    series: map<SeriesId, SeriesRecord>,
    seriesRev: seq<Entry<SeriesId>>,
    samples: seq<Entry<SampleRecord>>)
  {
    /** What the storage engine guarantees: ordered tables, keys of the table's key type. */
    ghost predicate WellFormed()
    {
      && InternalIdTable(metricsRev)
      && DataPointTable(dataPoints)
      && InternalIdTable(seriesRev)
      && SampleTable(samples)
    }
  }

  /** A freshly created store: every table exists and is empty. */
  const EMPTY_TABLES: Tables := Tables({}, map[], map[], {}, map[], [], [], map[], [], [])

  /** What a request handler leaves committed, and what it answers. */
  datatype Outcome<T> = Outcome(tables: Tables, result: Result<T, Errors.Cause>)

  /**
   * Every reverse-token entry names a stored token of the same account:
   * the forward and reverse entries written by `token_new` agree.
   */
  ghost predicate ReverseTokensSound(t: Tables)
  {
    forall p :: p in t.accessTokensRev ==> p.1 in t.accessTokens && t.accessTokens[p.1].accountId == p.0
  }

  /** Inserting a data point keeps the store well formed. */
  lemma {:induction false} InsertDataPointWellFormed(t: Tables, p: DataPoint, rec: DataPointRecord)
    requires t.WellFormed()
    ensures t.(dataPoints := Insert(t.dataPoints, p.Key(), rec)).WellFormed()
  {
    var d := Insert(t.dataPoints, p.Key(), rec);
    assert KeySet(d) == KeySet(t.dataPoints) + {p.Key()};
    assert DataPointTable(d);
  }

  /**
   * Every metric's internal id maps back to it in the reverse table, as
   * `metric_new` writes the two together; so distinct metrics have distinct
   * internal ids.
   */
  ghost predicate MetricsIndexed(t: Tables)
  {
    forall m :: m in t.metrics ==> Get(t.metricsRev, InternalIdKey(t.metrics[m].internalId)) == Some(m)
  }

  /** Every series' internal id maps back to it in the reverse table. */
  ghost predicate SeriesIndexed(t: Tables)
  {
    forall s :: s in t.series ==> Get(t.seriesRev, InternalIdKey(t.series[s].internalId)) == Some(s)
  }

  /** A write transaction: a private copy of the tables that its inserts change. */
  class WriteTransaction {
    var tables: Tables

    constructor (snapshot: Tables)
      ensures tables == snapshot
    {
      tables := snapshot;
    }

    method InsertRootAccount(id: AccountId)
      modifies this
      ensures tables == old(tables).(rootAccount := old(tables).rootAccount + {id})
    {
      tables := tables.(rootAccount := tables.rootAccount + {id});
    }

    method InsertAccount(id: AccountId, rec: AccountRecord)
      modifies this
      ensures tables == old(tables).(accounts := old(tables).accounts[id := rec])
    {
      tables := tables.(accounts := tables.accounts[id := rec]);
    }

    method InsertAccessToken(token: AccessToken, rec: AccessTokenRecord)
      modifies this
      ensures tables == old(tables).(accessTokens := old(tables).accessTokens[token := rec])
    {
      tables := tables.(accessTokens := tables.accessTokens[token := rec]);
    }

    method InsertAccessTokenRev(id: AccountId, token: AccessToken)
      modifies this
      ensures tables == old(tables).(accessTokensRev := old(tables).accessTokensRev + {(id, token)})
    {
      tables := tables.(accessTokensRev := tables.accessTokensRev + {(id, token)});
    }

    method InsertMetric(id: MetricId, rec: MetricRecord)
      modifies this
      ensures tables == old(tables).(metrics := old(tables).metrics[id := rec])
    {
      tables := tables.(metrics := tables.metrics[id := rec]);
    }

    method InsertMetricRev(internalId: InternalId, id: MetricId)
      requires tables.WellFormed()
      modifies this
      ensures tables.WellFormed()
      ensures tables == old(tables).(metricsRev := Insert(old(tables).metricsRev, InternalIdKey(internalId), id))
    {
      tables := tables.(metricsRev := Insert(tables.metricsRev, InternalIdKey(internalId), id));
    }

    method InsertDataPoint(p: DataPoint, rec: DataPointRecord)
      requires tables.WellFormed()
      modifies this
      ensures tables.WellFormed()
      ensures tables == old(tables).(dataPoints := Insert(old(tables).dataPoints, p.Key(), rec))
    {
      InsertDataPointWellFormed(tables, p, rec);
      tables := tables.(dataPoints := Insert(tables.dataPoints, p.Key(), rec));
    }

    method InsertSeries(id: SeriesId, rec: SeriesRecord)
      modifies this
      ensures tables == old(tables).(series := old(tables).series[id := rec])
    {
      tables := tables.(series := tables.series[id := rec]);
    }

    method InsertSeriesRev(internalId: InternalId, id: SeriesId)
      requires tables.WellFormed()
      modifies this
      ensures tables.WellFormed()
      ensures tables == old(tables).(seriesRev := Insert(old(tables).seriesRev, InternalIdKey(internalId), id))
    {
      tables := tables.(seriesRev := Insert(tables.seriesRev, InternalIdKey(internalId), id));
    }

    method InsertSample(s: Sample, rec: SampleRecord)
      requires tables.WellFormed()
      modifies this
      ensures tables.WellFormed()
      ensures tables == old(tables).(samples := Insert(old(tables).samples, s.Key(), rec))
    {
      tables := tables.(samples := Insert(tables.samples, s.Key(), rec));
    }
  }

  /**
   * The store. `write_with` is `BeginWrite`, the transaction body, and
   * `Commit` only once the body has returned `Ok`; a body that fails drops
   * its transaction, so nothing it wrote becomes visible. `read_with` is a
   * function of `tables`, which it cannot change.
   */
  class Database {
    var tables: Tables

    constructor (initial: Tables)
      ensures tables == initial
    {
      tables := initial;
    }

    /** `begin_write`: a transaction over a copy of the committed tables. */
    method BeginWrite() returns (tx: WriteTransaction)
      ensures fresh(tx) && tx.tables == tables
    {
      tx := new WriteTransaction(tables);
    }

    /** `commit`: the transaction's tables become the committed ones. */
    method Commit(tx: WriteTransaction)
      modifies this
      ensures tables == tx.tables
    {
      tables := tx.tables;
    }
  }
}
