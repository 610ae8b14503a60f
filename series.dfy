/**
 * The older series handlers (routes/series.rs): the same scheme as metrics,
 * but a sample is keyed by series and second only, and a query reads at most
 * the page limit.
 */
module SeriesRoutes {
  import opened Ints
  import opened Wrappers
  import opened Ids
  import opened Time
  import opened OrderedTable
  import opened Db
  import opened Errors
  import MetricRoutes
  import Routes

  /** The errors of these handlers: `SeriesNotFound` is their own. */
  datatype SeriesError = SeriesNotFound(series: SeriesId) | SeriesInternal(internal: InternalError)

  /** The tables a handler leaves committed, and what it answers. */
  datatype SeriesOutcome<T> = SeriesOutcome(tables: Tables, result: Result<T, SeriesError>)

  /** What `series_new` commits: the series' record and its reverse entry, both or neither. */
  function SeriesNewOutcome(t: Tables, accountId: AccountId, id: SeriesId, now: Ts): (o: SeriesOutcome<SeriesId>)
    requires t.WellFormed()
    ensures o.tables.WellFormed()
    ensures o.result.Err? ==> o.tables == t && o.result.error == SeriesInternal(Overflow)
    ensures o.result.Ok? ==> o.result.value == id
  {
    match MetricRoutes.NextInternalId(t.seriesRev)
    case Err(e) => SeriesOutcome(t, Err(SeriesInternal(e)))
    case Ok(internalId) =>
      SeriesOutcome(t.(series := t.series[id := SeriesRecord(now, accountId, internalId)],
                       seriesRev := Insert(t.seriesRev, InternalIdKey(internalId), id)),
                    Ok(id))
  }

  /**
   * A new series gets an internal id no series had (the last one plus one,
   * or 0 for the first), owned by the caller, and the reverse table maps it
   * back; no other entry of any table changes.
   */
  lemma {:induction false} SeriesNewEffect(t: Tables, accountId: AccountId, id: SeriesId, now: Ts)
    requires t.WellFormed()
    requires SeriesNewOutcome(t, accountId, id, now).result.Ok?
    ensures var u := SeriesNewOutcome(t, accountId, id, now).tables;
      && u.series.Keys == t.series.Keys + {id}
      && u.series[id].accountId == accountId
      && u.series[id].created == now
      && InternalIdKey(u.series[id].internalId) !in KeySet(t.seriesRev)
      && KeySet(u.seriesRev) == KeySet(t.seriesRev) + {InternalIdKey(u.series[id].internalId)}
      && Get(u.seriesRev, InternalIdKey(u.series[id].internalId)) == Some(id)
      && (forall k :: k != InternalIdKey(u.series[id].internalId) ==> Get(u.seriesRev, k) == Get(t.seriesRev, k))
      && (forall s :: s in t.series && s != id ==> u.series[s] == t.series[s])
      && u.(series := t.series, seriesRev := t.seriesRev) == t
  {
    var internalId := MetricRoutes.NextInternalId(t.seriesRev).value;
    var rec := SeriesRecord(now, accountId, internalId);
    var u := SeriesNewOutcome(t, accountId, id, now).tables;
    assert u == t.(series := t.series[id := rec], seriesRev := Insert(t.seriesRev, InternalIdKey(internalId), id));
    assert u.series[id] == rec;
    forall k ensures Get(u.seriesRev, k) == if k == InternalIdKey(internalId) then Some(id) else Get(t.seriesRev, k) {
      GetInsert(t.seriesRev, InternalIdKey(internalId), id, k);
    }
  }

  /** The new internal id is the last one plus one, or 0 for the first series: above every earlier id. */
  lemma {:induction false} SeriesNewInternalId(t: Tables, accountId: AccountId, id: SeriesId, now: Ts)
    requires t.WellFormed()
    requires SeriesNewOutcome(t, accountId, id, now).result.Ok?
    ensures var u := SeriesNewOutcome(t, accountId, id, now).tables;
      && (KeySet(t.seriesRev) == {} ==> u.series[id].internalId == DEFAULT_INTERNAL_ID)
      && (forall k :: k in KeySet(t.seriesRev) ==> k[0] < u.series[id].internalId)
      && (KeySet(t.seriesRev) != {} ==> InternalIdKey(u.series[id].internalId - 1) in KeySet(t.seriesRev))
  {
  }

  /** Creating a series keeps every series indexed by its internal id. */
  lemma {:induction false} SeriesNewKeepsIndex(t: Tables, accountId: AccountId, id: SeriesId, now: Ts)
    requires t.WellFormed() && SeriesIndexed(t)
    ensures SeriesIndexed(SeriesNewOutcome(t, accountId, id, now).tables)
  {
    var o := SeriesNewOutcome(t, accountId, id, now);
    if o.result.Ok? {
      SeriesNewEffect(t, accountId, id, now);
      var u := o.tables;
      forall s | s in u.series
        ensures Get(u.seriesRev, InternalIdKey(u.series[s].internalId)) == Some(s)
      {
        if s != id {
          var k := InternalIdKey(t.series[s].internalId);
          assert k in KeySet(t.seriesRev);
        }
      }
    }
  }

  /** `series_new`: one write transaction, committed only when it succeeds. */
  method SeriesNew(db: Database, auth: AccessTokenRecord, id: SeriesId, now: Ts) returns (r: Result<SeriesId, SeriesError>)
    requires db.tables.WellFormed()
    modifies db
    ensures db.tables == SeriesNewOutcome(old(db.tables), auth.accountId, id, now).tables
    ensures r == SeriesNewOutcome(old(db.tables), auth.accountId, id, now).result
  {
    var tx := db.BeginWrite();
    var internalId := MetricRoutes.NextInternalId(tx.tables.seriesRev);
    if internalId.Err? {
      return Err(SeriesInternal(internalId.error));
    }
    tx.InsertSeries(id, SeriesRecord(now, auth.accountId, internalId.value));
    tx.InsertSeriesRev(internalId.value, id);
    db.Commit(tx);
    r := Ok(id);
  }

  /** What `series_post` commits and answers. */
  function SeriesPostOutcome(t: Tables, id: SeriesId, value: SampleValue, now: Ts): (o: SeriesOutcome<u64>)
    requires t.WellFormed()
    ensures o.tables.WellFormed()
    ensures o.result.Err? <==> id !in t.series
    ensures o.result.Err? ==> o.tables == t && o.result.error == SeriesNotFound(id)
    ensures o.result.Ok? ==> o.result.value == ToAbsoluteSecs(now)
    ensures o.tables.series == t.series && o.tables.dataPoints == t.dataPoints
    ensures o.tables.(samples := t.samples) == t
  {
    if id !in t.series then SeriesOutcome(t, Err(SeriesNotFound(id)))
    else
      SeriesOutcome(t.(samples := Insert(t.samples, Sample(t.series[id].internalId, now).Key(), SampleRecord(value))),
                    Ok(ToAbsoluteSecs(now)))
  }

  /**
   * A posted sample is what the series holds for that second afterwards,
   * whether or not the second already had one; every other key keeps its sample.
   */
  lemma {:induction false} SeriesPostEffect(t: Tables, id: SeriesId, value: SampleValue, now: Ts, k: Key)
    requires t.WellFormed()
    requires id in t.series
    ensures var u := SeriesPostOutcome(t, id, value, now).tables;
      var key := Sample(t.series[id].internalId, now).Key();
      && Get(u.samples, key) == Some(SampleRecord(value))
      && KeySet(u.samples) == KeySet(t.samples) + {key}
      && (k != key ==> Get(u.samples, k) == Get(t.samples, k))
  {
    var key := Sample(t.series[id].internalId, now).Key();
    GetInsert(t.samples, key, SampleRecord(value), key);
    GetInsert(t.samples, key, SampleRecord(value), k);
  }

  /**
   * A post never touches another series' samples: every key of every other
   * series reads the same, and the index stays intact.
   */
  lemma {:induction false} SeriesPostIsolation(t: Tables, id: SeriesId, value: SampleValue, now: Ts, other: SeriesId, k: Key)
    requires t.WellFormed() && SeriesIndexed(t)
    requires id in t.series && other in t.series && other != id
    requires |k| > 0 && k[0] == t.series[other].internalId
    ensures Get(SeriesPostOutcome(t, id, value, now).tables.samples, k) == Get(t.samples, k)
    ensures SeriesIndexed(SeriesPostOutcome(t, id, value, now).tables)
  {
    assert Get(t.seriesRev, InternalIdKey(t.series[id].internalId)) == Some(id);
    assert Get(t.seriesRev, InternalIdKey(t.series[other].internalId)) == Some(other);
    SeriesPostEffect(t, id, value, now, k);
  }

  /** Two posts to a series within one second: the second replaces the first, under the same key. */
  lemma {:induction false} SameSecondOverwrites(t: Tables, id: SeriesId, first: SampleValue, second: SampleValue, now: Ts)
    requires t.WellFormed()
    requires id in t.series
    ensures var u := SeriesPostOutcome(t, id, first, now).tables;
      var w := SeriesPostOutcome(u, id, second, now).tables;
      && KeySet(w.samples) == KeySet(u.samples)
      && Get(w.samples, Sample(t.series[id].internalId, now).Key()) == Some(SampleRecord(second))
  {
    var u := SeriesPostOutcome(t, id, first, now).tables;
    SeriesPostEffect(t, id, first, now, []);
    SeriesPostEffect(u, id, second, now, []);
  }

  /** `series_post`: one write transaction, committed only when it succeeds. */
  method SeriesPost(db: Database, id: SeriesId, value: SampleValue, now: Ts) returns (r: Result<u64, SeriesError>)
    requires db.tables.WellFormed()
    modifies db
    ensures db.tables == SeriesPostOutcome(old(db.tables), id, value, now).tables
    ensures r == SeriesPostOutcome(old(db.tables), id, value, now).result
  {
    var tx := db.BeginWrite();
    if id !in tx.tables.series {
      return Err(SeriesNotFound(id));
    }
    var record := tx.tables.series[id];
    tx.InsertSample(Sample(record.internalId, now), SampleRecord(value));
    db.Commit(tx);
    r := Ok(ToAbsoluteSecs(now));
  }

  /** The query options that decide the range; the rest only affects rendering. */
  datatype SeriesOpts = SeriesOpts(start: Option<OffsetDateTime>, end: Option<OffsetDateTime>)

  predicate ValidOpts(opts: SeriesOpts)
  {
    && (opts.start.Some? ==> ValidDateTime(opts.start.value))
    && (opts.end.Some? ==> ValidDateTime(opts.end.value))
  }

  /**
   * `key_range`: from `(id, start or 0)` up to, exclusively, `(id, end)`,
   * or `(id + 1, 0)` when there is no end. The fallback `id + 1` is computed
   * even when an end is given, so the largest u64 overflows either way.
   */
  function KeyRange(opts: SeriesOpts, internalId: InternalId): (r: Result<(Sample, Sample), InternalError>)
    requires ValidOpts(opts)
    ensures r.Err? <==> internalId == U64_MAX
  {
    if internalId == U64_MAX then Err(Overflow)
    else
      var lo := Sample(internalId, if opts.start.Some? then FromOffsetDateTime(opts.start.value) else ZERO);
      match opts.end
      case Some(e) => Ok((lo, Sample(internalId, FromOffsetDateTime(e))))
      case None => Ok((lo, Sample(Next(internalId), ZERO)))
  }

  /** The range holds exactly this series' keys from the start second on, and before the end second when there is one. */
  lemma {:induction false} KeyRangeExact(opts: SeriesOpts, internalId: InternalId, k: Key)
    requires ValidOpts(opts)
    requires KeyRange(opts, internalId).Ok?
    requires IsSampleKey(k)
    ensures var (lo, hi) := KeyRange(opts, internalId).value;
      InBounds(k, lo.Key(), hi.Key()) <==>
        (k[0] == internalId && lo.ts.secs <= k[1] && (opts.end.None? || k[1] < hi.ts.secs))
  {
    var (lo, hi) := KeyRange(opts, internalId).value;
    var s := SampleOfKey(k);
    SampleOrder(s, lo);
    SampleOrder(s, hi);
  }

  /** `take(MAX_DATA_POINTS_LIMIT)`: the first entries of a scan, at most the limit. */
  function Take<V>(scan: seq<Entry<V>>): (r: seq<Entry<V>>)
    ensures |r| == if |scan| < Routes.MAX_DATA_POINTS_LIMIT then |scan| else Routes.MAX_DATA_POINTS_LIMIT
    ensures r == scan[..|r|]
  {
    if |scan| < Routes.MAX_DATA_POINTS_LIMIT then scan else scan[..Routes.MAX_DATA_POINTS_LIMIT]
  }

  /** `get_samples`: the series' record, the scan of its key range, and its first page as (second, record) pairs. */
  function GetSamples(t: Tables, id: SeriesId, opts: SeriesOpts): (r: Result<seq<(Ts, SampleRecord)>, SeriesError>)
    requires t.WellFormed() && ValidOpts(opts)
    ensures id !in t.series ==> r == Err(SeriesNotFound(id))
    ensures r.Ok? ==> |r.value| <= Routes.MAX_DATA_POINTS_LIMIT
    ensures r.Ok? <==> id in t.series && KeyRange(opts, t.series[id].internalId).Ok?
    ensures r.Ok? ==>
      var (lo, hi) := KeyRange(opts, t.series[id].internalId).value;
      var page := Take(Range(t.samples, lo.Key(), hi.Key()));
      |r.value| == |page| && forall j :: 0 <= j < |page| ==> r.value[j] == (Ts(page[j].key[1]), page[j].value)
  {
    if id !in t.series then Err(SeriesNotFound(id))
    else
      match KeyRange(opts, t.series[id].internalId)
      case Err(e) => Err(SeriesInternal(e))
      case Ok((lo, hi)) =>
        var page := Take(Range(t.samples, lo.Key(), hi.Key()));
        Ok(seq(|page|, j requires 0 <= j < |page| => (Ts(page[j].key[1]), page[j].value)))
  }
}
