/**
 * The metric handlers (routes/metric.rs): creating a metric, posting a data
 * point, the key range of a chart query and the page it reads.
 *
 * Each write handler is a method on the `Database` that runs one write
 * transaction; what it leaves behind is given by a function of the committed
 * tables, and the properties of that function are proved as lemmas.
 */
module MetricRoutes {
  import opened Ints
  import opened Wrappers
  import opened Ids
  import opened Time
  import opened OrderedTable
  import opened Db
  import opened Errors
  import Routes

  /*
   * Internal ids
   */

  /**
   * `last().map(next).unwrap_or_default()` on a reverse table: one more than
   * the last internal id, or 0 when there is none. `next` on the largest u64
   * overflows, which aborts the handler.
   */
  function NextInternalId<V>(rev: seq<Entry<V>>): (r: Result<InternalId, InternalError>)
    requires InternalIdTable(rev)
    ensures r.Err? <==> InternalIdKey(U64_MAX) in KeySet(rev)
    ensures r.Err? ==> r.error == Overflow
    ensures r.Ok? ==> forall k :: k in KeySet(rev) ==> k[0] < r.value
    ensures r.Ok? ==> (KeySet(rev) == {} <==> r.value == DEFAULT_INTERNAL_ID)
    ensures r.Ok? && KeySet(rev) != {} ==> InternalIdKey(r.value - 1) in KeySet(rev)
  {
    LastInternalId(rev);
    var last := Last(rev);
    if last.None? then Ok(DEFAULT_INTERNAL_ID)
    else
      var top := last.value.key;
      assert top == InternalIdKey(top[0]);
      if top[0] == U64_MAX then Err(Overflow)
      else Ok(Next(top[0]))
  }

  /** The last entry of a reverse table holds its largest internal id. */
  lemma {:induction false} LastInternalId<V>(rev: seq<Entry<V>>)
    requires InternalIdTable(rev)
    ensures Last(rev).Some? ==> Last(rev).value.key in KeySet(rev)
    ensures Last(rev).Some? ==> forall k :: k in KeySet(rev) ==> k[0] <= Last(rev).value.key[0]
  {
    var last := Last(rev);
    if last.Some? {
      forall k | k in KeySet(rev) ensures k[0] <= last.value.key[0] {
        if k != last.value.key {
          LessSingle(k[0], last.value.key[0]);
          assert k == [k[0]] && last.value.key == [last.value.key[0]];
        }
      }
    }
  }

  /*
   * metric_new
   */

  /** What `metric_new` commits: the metric's record and its reverse entry, both or neither. */
  function MetricNewOutcome(t: Tables, accountId: AccountId, id: MetricId, now: Ts): (o: Outcome<MetricId>)
    requires t.WellFormed()
    ensures o.tables.WellFormed()
    ensures o.result.Err? ==> o.tables == t && o.result.error == Internal(Overflow)
    ensures o.result.Ok? ==> o.result.value == id
  {
    match NextInternalId(t.metricsRev)
    case Err(e) => Outcome(t, Err(Internal(e)))
    case Ok(internalId) =>
      Outcome(t.(metrics := t.metrics[id := MetricRecord(now, accountId, internalId)],
                 metricsRev := Insert(t.metricsRev, InternalIdKey(internalId), id)),
              Ok(id))
  }

  /**
   * A new metric gets an internal id no metric had, owned by the caller;
   * the reverse table maps that id back, and no other entry of any table changes.
   */
  lemma {:induction false} MetricNewEffect(t: Tables, accountId: AccountId, id: MetricId, now: Ts)
    requires t.WellFormed()
    requires MetricNewOutcome(t, accountId, id, now).result.Ok?
    ensures var u := MetricNewOutcome(t, accountId, id, now).tables;
      && u.metrics.Keys == t.metrics.Keys + {id}
      && u.metrics[id].accountId == accountId
      && u.metrics[id].created == now
      && InternalIdKey(u.metrics[id].internalId) !in KeySet(t.metricsRev)
      && KeySet(u.metricsRev) == KeySet(t.metricsRev) + {InternalIdKey(u.metrics[id].internalId)}
      && Get(u.metricsRev, InternalIdKey(u.metrics[id].internalId)) == Some(id)
      && (forall k :: k != InternalIdKey(u.metrics[id].internalId) ==> Get(u.metricsRev, k) == Get(t.metricsRev, k))
      && (forall m :: m in t.metrics && m != id ==> u.metrics[m] == t.metrics[m])
      && u.(metrics := t.metrics, metricsRev := t.metricsRev) == t
  {
    var internalId := NextInternalId(t.metricsRev).value;
    var u := MetricNewOutcome(t, accountId, id, now).tables;
    forall k ensures Get(u.metricsRev, k) == if k == InternalIdKey(internalId) then Some(id) else Get(t.metricsRev, k) {
      GetInsert(t.metricsRev, InternalIdKey(internalId), id, k);
    }
  }

  /**
   * Creating a metric keeps every metric indexed by its internal id, even
   * when the generated metric id was already taken.
   */
  lemma {:induction false} MetricNewKeepsIndex(t: Tables, accountId: AccountId, id: MetricId, now: Ts)
    requires t.WellFormed() && MetricsIndexed(t)
    ensures MetricsIndexed(MetricNewOutcome(t, accountId, id, now).tables)
  {
    var o := MetricNewOutcome(t, accountId, id, now);
    if o.result.Ok? {
      MetricNewEffect(t, accountId, id, now);
      var u := o.tables;
      var newKey := InternalIdKey(u.metrics[id].internalId);
      forall m | m in u.metrics
        ensures Get(u.metricsRev, InternalIdKey(u.metrics[m].internalId)) == Some(m)
      {
        if m != id {
          var k := InternalIdKey(t.metrics[m].internalId);
          assert k in KeySet(t.metricsRev);
          assert k != newKey;
        }
      }
    }
  }

  /** Under the index, two different metrics never share an internal id. */
  lemma {:induction false} IndexedIdsDistinct(t: Tables, m1: MetricId, m2: MetricId)
    requires MetricsIndexed(t)
    requires m1 in t.metrics && m2 in t.metrics && m1 != m2
    ensures t.metrics[m1].internalId != t.metrics[m2].internalId
  {
    assert Get(t.metricsRev, InternalIdKey(t.metrics[m1].internalId)) == Some(m1);
    assert Get(t.metricsRev, InternalIdKey(t.metrics[m2].internalId)) == Some(m2);
  }

  /** `metric_new`: one write transaction, committed only when it succeeds. */
  method MetricNew(db: Database, auth: AccessTokenRecord, id: MetricId, now: Ts) returns (r: Result<MetricId, Cause>)
    requires db.tables.WellFormed()
    modifies db
    ensures db.tables == MetricNewOutcome(old(db.tables), auth.accountId, id, now).tables
    ensures r == MetricNewOutcome(old(db.tables), auth.accountId, id, now).result
  {
    var tx := db.BeginWrite();
    var internalId := NextInternalId(tx.tables.metricsRev);
    if internalId.Err? {
      return Err(Internal(internalId.error));
    }
    tx.InsertMetric(id, MetricRecord(now, auth.accountId, internalId.value));
    tx.InsertMetricRev(internalId.value, id);
    db.Commit(tx);
    r := Ok(id);
  }

  /*
   * metric_post
   */

  /** The keys of one metric's data points within one second: `(id, ts, 0)..(id, ts + 1, 0)`. */
  function SameSecond(points: seq<Entry<DataPointRecord>>, internalId: InternalId, ts: Ts): (r: seq<Entry<DataPointRecord>>)
    requires Sorted(points)
    requires ts.secs < U64_MAX
    ensures Sorted(r)
  {
    Range(points, DataPoint(internalId, ts, 0).Key(), DataPoint(internalId, Inc(ts), 0).Key())
  }

  /** A data point key falls in that range exactly when it has that metric and that second. */
  lemma {:induction false} InSameSecond(k: Key, internalId: InternalId, ts: Ts)
    requires IsDataPointKey(k) && ts.secs < U64_MAX
    ensures InBounds(k, DataPoint(internalId, ts, 0).Key(), DataPoint(internalId, Inc(ts), 0).Key()) <==>
      (k[0] == internalId && k[1] == ts.secs)
  {
    var p := DataPointOfKey(k);
    assert Inc(ts).secs == ts.secs + 1;
    DataPointOrder(p, DataPoint(internalId, ts, 0));
    DataPointOrder(p, DataPoint(internalId, Inc(ts), 0));
  }

  /** The last entry of that range carries the largest index used in that second. */
  lemma {:induction false} LastOfSecond(points: seq<Entry<DataPointRecord>>, internalId: InternalId, ts: Ts)
    requires DataPointTable(points) && ts.secs < U64_MAX
    ensures var last := Last(SameSecond(points, internalId, ts));
      && (last.Some? ==> last.value.key in KeySet(points) && last.value.key[0] == internalId && last.value.key[1] == ts.secs)
      && (last.Some? ==> forall k :: k in KeySet(points) && k[0] == internalId && k[1] == ts.secs ==> k[2] <= last.value.key[2])
      && (last.None? ==> forall k :: k in KeySet(points) ==> !(k[0] == internalId && k[1] == ts.secs))
  {
    var sec := SameSecond(points, internalId, ts);
    forall k | k in KeySet(points)
      ensures k in KeySet(sec) <==> k[0] == internalId && k[1] == ts.secs
    {
      InSameSecond(k, internalId, ts);
    }
    var last := Last(sec);
    if last.Some? {
      var top := last.value.key;
      forall k | k in KeySet(points) && k[0] == internalId && k[1] == ts.secs
        ensures k[2] <= top[2]
      {
        if k != top {
          DataPointOrder(DataPointOfKey(k), DataPointOfKey(top));
        }
      }
    }
  }

  /**
   * The index of a new data point: one more than the last index used by the
   * same metric in the same second, or 0 for the first point of that second.
   */
  function NextIdx(points: seq<Entry<DataPointRecord>>, internalId: InternalId, ts: Ts): (r: Result<u64, InternalError>)
    requires DataPointTable(points)
    requires ts.secs < U64_MAX
    ensures r.Err? <==> DataPoint(internalId, ts, U64_MAX).Key() in KeySet(points)
    ensures r.Err? ==> r.error == Overflow
    ensures r.Ok? ==> forall k :: k in KeySet(points) && k[0] == internalId && k[1] == ts.secs ==> k[2] < r.value
    ensures r.Ok? && r.value > 0 ==> DataPoint(internalId, ts, r.value - 1).Key() in KeySet(points)
  {
    LastOfSecond(points, internalId, ts);
    var last := Last(SameSecond(points, internalId, ts));
    var full := DataPoint(internalId, ts, U64_MAX).Key();
    if last.None? then
      assert full !in KeySet(points);
      Ok(0)
    else
      var top := last.value.key;
      assert IsDataPointKey(top);
      assert top == DataPoint(internalId, ts, top[2]).Key();
      if top[2] == U64_MAX then Err(Overflow)
      else
        assert full !in KeySet(points);
        Ok(top[2] + 1)
  }

  /** What `metric_post` commits and answers. */
  function MetricPostOutcome(t: Tables, id: MetricId, value: DataPointValue, metadata: Option<DataPointMetadata>, now: Ts): (o: Outcome<u64>)
    requires t.WellFormed()
    ensures o.tables.WellFormed()
    ensures o.result.Err? ==> o.tables == t
    ensures id !in t.metrics <==> o.result == Err(User(MetricNotFound(id)))
    ensures o.result.Ok? ==> o.result.value == ToAbsoluteSecs(now)
    ensures o.tables.metrics == t.metrics && o.tables.metricsRev == t.metricsRev
    ensures o.tables.(dataPoints := t.dataPoints) == t
  {
    if id !in t.metrics then Outcome(t, Err(User(MetricNotFound(id))))
    else if now.secs == U64_MAX then Outcome(t, Err(Internal(Overflow)))
    else
      match NextIdx(t.dataPoints, t.metrics[id].internalId, now)
      case Err(e) => Outcome(t, Err(Internal(e)))
      case Ok(idx) =>
        var rec := DataPointRecord(value, if metadata.Some? then metadata.value else EMPTY_METADATA);
        var p := DataPoint(t.metrics[id].internalId, now, idx);
        InsertDataPointWellFormed(t, p, rec);
        Outcome(t.(dataPoints := Insert(t.dataPoints, p.Key(), rec)), Ok(ToAbsoluteSecs(now)))
  }

  /**
   * A posted point lands under a key that was free, in the metric's own
   * second; it carries the value and the metadata, the empty text when none
   * was sent; every other key keeps its point.
   */
  lemma {:induction false} MetricPostEffect(t: Tables, id: MetricId, value: DataPointValue, metadata: Option<DataPointMetadata>, now: Ts)
    requires t.WellFormed()
    requires MetricPostOutcome(t, id, value, metadata, now).result.Ok?
    ensures var u := MetricPostOutcome(t, id, value, metadata, now).tables;
      var rec := DataPointRecord(value, if metadata.Some? then metadata.value else EMPTY_METADATA);
      exists idx: u64 ::
        && DataPoint(t.metrics[id].internalId, now, idx).Key() !in KeySet(t.dataPoints)
        && Get(u.dataPoints, DataPoint(t.metrics[id].internalId, now, idx).Key()) == Some(rec)
        && KeySet(u.dataPoints) == KeySet(t.dataPoints) + {DataPoint(t.metrics[id].internalId, now, idx).Key()}
        && forall k :: k != DataPoint(t.metrics[id].internalId, now, idx).Key() ==> Get(u.dataPoints, k) == Get(t.dataPoints, k)
  {
    var internalId := t.metrics[id].internalId;
    var idx := NextIdx(t.dataPoints, internalId, now).value;
    var key := DataPoint(internalId, now, idx).Key();
    var rec := DataPointRecord(value, if metadata.Some? then metadata.value else EMPTY_METADATA);
    var u := MetricPostOutcome(t, id, value, metadata, now).tables;
    assert u.dataPoints == Insert(t.dataPoints, key, rec);
    forall k ensures Get(u.dataPoints, k) == if k == key then Some(rec) else Get(t.dataPoints, k) {
      GetInsert(t.dataPoints, key, rec, k);
    }
    assert key !in KeySet(t.dataPoints);
  }

  /**
   * A post never touches another metric's points: every key of every other
   * metric reads the same, and the index stays intact.
   */
  lemma {:induction false} MetricPostIsolation(t: Tables, id: MetricId, value: DataPointValue, metadata: Option<DataPointMetadata>, now: Ts,
                                                other: MetricId, k: Key)
    requires t.WellFormed() && MetricsIndexed(t)
    requires id in t.metrics && other in t.metrics && other != id
    requires |k| > 0 && k[0] == t.metrics[other].internalId
    ensures Get(MetricPostOutcome(t, id, value, metadata, now).tables.dataPoints, k) == Get(t.dataPoints, k)
    ensures MetricsIndexed(MetricPostOutcome(t, id, value, metadata, now).tables)
  {
    IndexedIdsDistinct(t, id, other);
    var o := MetricPostOutcome(t, id, value, metadata, now);
    if o.result.Ok? {
      MetricPostEffect(t, id, value, metadata, now);
    }
  }

  /** `metric_post`: one write transaction, committed only when it succeeds. */
  method MetricPost(db: Database, id: MetricId, value: DataPointValue, metadata: Option<DataPointMetadata>, now: Ts)
    returns (r: Result<u64, Cause>)
    requires db.tables.WellFormed()
    modifies db
    ensures db.tables == MetricPostOutcome(old(db.tables), id, value, metadata, now).tables
    ensures r == MetricPostOutcome(old(db.tables), id, value, metadata, now).result
  {
    var tx := db.BeginWrite();
    if id !in tx.tables.metrics {
      return Err(User(MetricNotFound(id)));
    }
    var record := tx.tables.metrics[id];
    var ts := now;
    if ts.secs == U64_MAX {
      return Err(Internal(Overflow));
    }
    var idx := NextIdx(tx.tables.dataPoints, record.internalId, ts);
    if idx.Err? {
      return Err(Internal(idx.error));
    }
    var meta := if metadata.Some? then metadata.value else EMPTY_METADATA;
    tx.InsertDataPoint(DataPoint(record.internalId, ts, idx.value), DataPointRecord(value, meta));
    db.Commit(tx);
    r := Ok(ToAbsoluteSecs(ts));
  }

  /*
   * MetricOpts::key_range
   */

  /** The query options that decide the range; titles, labels and the value bounds only affect rendering. */
  datatype MetricOpts = MetricOpts(
    startFixed: Option<OffsetDateTime>,
    endFixed: Option<OffsetDateTime>,
    startRel: Option<Duration>,
    endRel: Option<Duration>)

  predicate ValidOpts(opts: MetricOpts)
  {
    && (opts.startFixed.Some? ==> ValidDateTime(opts.startFixed.value))
    && (opts.endFixed.Some? ==> ValidDateTime(opts.endFixed.value))
  }

  /**
   * A bound given relative to now, or else a fixed one: a relative bound is
   * the whole seconds of `now - duration`, the epoch when that is earlier.
   */
  function Bound(rel: Option<Duration>, fixed: Option<OffsetDateTime>, now: SystemTime): (r: Option<Ts>)
    requires Representable(now)
    requires fixed.Some? ==> ValidDateTime(fixed.value)
    ensures r.None? <==> rel.None? && fixed.None?
    ensures rel.Some? && rel.value.nanos <= now.nanos ==>
      r.value.secs * NANOS_PER_SEC <= now.nanos - rel.value.nanos < (r.value.secs + 1) * NANOS_PER_SEC
    ensures rel.Some? && now.nanos < rel.value.nanos ==> r.value == ZERO
    ensures rel.None? && fixed.Some? ==> r == Some(FromOffsetDateTime(fixed.value))
  {
    if rel.Some? then Some(FromSystemTime(SubDuration(now, rel.value)))
    else if fixed.Some? then Some(FromOffsetDateTime(fixed.value))
    else None
  }

  /** `start` */
  function Start(opts: MetricOpts, now: SystemTime): Option<Ts>
    requires Representable(now) && ValidOpts(opts)
  {
    Bound(opts.startRel, opts.startFixed, now)
  }

  /** `end` */
  function End(opts: MetricOpts, now: SystemTime): Option<Ts>
    requires Representable(now) && ValidOpts(opts)
  {
    Bound(opts.endRel, opts.endFixed, now)
  }

  /** A relative bound wins: once it is given, the fixed one makes no difference. */
  lemma {:induction false} RelativeBoundWins(opts: MetricOpts, fixedStart: Option<OffsetDateTime>, fixedEnd: Option<OffsetDateTime>, now: SystemTime)
    requires Representable(now) && ValidOpts(opts)
    requires fixedStart.Some? ==> ValidDateTime(fixedStart.value)
    requires fixedEnd.Some? ==> ValidDateTime(fixedEnd.value)
    ensures opts.startRel.Some? ==> Start(opts.(startFixed := fixedStart), now) == Start(opts, now)
    ensures opts.endRel.Some? ==> End(opts.(endFixed := fixedEnd), now) == End(opts, now)
    ensures opts.startRel.None? && fixedStart.Some? ==> Start(opts.(startFixed := fixedStart), now) == Some(FromOffsetDateTime(fixedStart.value))
    ensures opts.endRel.None? && fixedEnd.Some? ==> End(opts.(endFixed := fixedEnd), now) == Some(FromOffsetDateTime(fixedEnd.value))
  {
  }

  /**
   * `key_range`: from `(id, start or 0, 0)` up to, exclusively, `(id, end, 0)`,
   * or `(id + 1, 0, 0)` when there is no end. The fallback `id + 1` is
   * computed even when an end is given, so the largest u64 overflows either way.
   */
  function KeyRange(opts: MetricOpts, internalId: InternalId, now: SystemTime): (r: Result<(DataPoint, DataPoint), InternalError>)
    requires Representable(now) && ValidOpts(opts)
    ensures r.Err? <==> internalId == U64_MAX
  {
    if internalId == U64_MAX then Err(Overflow)
    else
      var lo := DataPoint(internalId, if Start(opts, now).Some? then Start(opts, now).value else ZERO, 0);
      match End(opts, now)
      case Some(e) => Ok((lo, DataPoint(internalId, e, 0)))
      case None => Ok((lo, DataPoint(Next(internalId), ZERO, 0)))
  }

  /**
   * The range holds exactly this metric's keys from the start second on,
   * and before the end second when there is one: never another metric's.
   */
  lemma {:induction false} KeyRangeExact(opts: MetricOpts, internalId: InternalId, now: SystemTime, k: Key)
    requires Representable(now) && ValidOpts(opts)
    requires KeyRange(opts, internalId, now).Ok?
    requires IsDataPointKey(k)
    ensures var (lo, hi) := KeyRange(opts, internalId, now).value;
      var start := if Start(opts, now).Some? then Start(opts, now).value.secs else 0;
      InBounds(k, lo.Key(), hi.Key()) <==>
        (k[0] == internalId && start <= k[1] && (End(opts, now).None? || k[1] < End(opts, now).value.secs))
  {
    var (lo, hi) := KeyRange(opts, internalId, now).value;
    var p := DataPointOfKey(k);
    DataPointOrder(p, lo);
    DataPointOrder(p, hi);
  }

  /*
   * get_metric
   */

  /**
   * Where the page ends: entries are taken while fewer than the limit have
   * been taken, and past the limit while they continue a second (index
   * other than 0).
   */
  function PageEnd<V>(scan: seq<Entry<V>>, i: nat): (n: nat)
    requires i <= |scan|
    requires DataPointKeys(scan)
    ensures i <= n <= |scan|
    ensures forall j :: i <= j < n ==> j < Routes.MAX_DATA_POINTS_LIMIT || scan[j].key[2] != 0
    ensures n < |scan| ==> Routes.MAX_DATA_POINTS_LIMIT <= n && scan[n].key[2] == 0
    decreases |scan| - i
  {
    if i == |scan| || (Routes.MAX_DATA_POINTS_LIMIT <= i && scan[i].key[2] == 0) then i
    else PageEnd(scan, i + 1)
  }

  /** The `take_while` page of a scan: a prefix of it. */
  function Page<V>(scan: seq<Entry<V>>): (r: seq<Entry<V>>)
    requires DataPointKeys(scan)
    ensures |r| <= |scan| && r == scan[..|r|]
    ensures |scan| <= Routes.MAX_DATA_POINTS_LIMIT ==> r == scan
    ensures Routes.MAX_DATA_POINTS_LIMIT <= |r| || r == scan
    ensures |r| < |scan| ==> scan[|r|].key[2] == 0
    ensures |r| == PageEnd(scan, 0)
  {
    scan[..PageEnd(scan, 0)]
  }

  /**
   * A page never cuts a second in two: when the scan goes on after the page,
   * its next entry belongs to another metric or another second than the
   * page's last entry.
   */
  lemma {:induction false} PageKeepsSecondsWhole(scan: seq<Entry<DataPointRecord>>)
    requires Sorted(scan)
    requires DataPointKeys(scan)
    ensures var n := |Page(scan)|;
      0 < n < |scan| ==> scan[n - 1].key[..2] != scan[n].key[..2]
  {
    var n := |Page(scan)|;
    if 0 < n < |scan| {
      var a := scan[n - 1].key;
      var b := scan[n].key;
      assert Less(a, b);
      DataPointOrder(DataPointOfKey(a), DataPointOfKey(b));
      assert a[..2] == [a[0], a[1]] && b[..2] == [b[0], b[1]];
    }
  }

  /** `get_metric`: the metric's record, the scan of its key range, and its page as (second, record) pairs. */
  function GetMetric(t: Tables, id: MetricId, opts: MetricOpts, now: SystemTime): (r: Result<seq<(Ts, DataPointRecord)>, Cause>)
    requires t.WellFormed() && Representable(now) && ValidOpts(opts)
    ensures id !in t.metrics ==> r == Err(User(MetricNotFound(id)))
    ensures r.Err? ==> r.error == User(MetricNotFound(id)) || r.error == Internal(Overflow)
    ensures r.Ok? <==> id in t.metrics && KeyRange(opts, t.metrics[id].internalId, now).Ok?
    ensures r.Ok? ==>
      var (lo, hi) := KeyRange(opts, t.metrics[id].internalId, now).value;
      var page := Page(Range(t.dataPoints, lo.Key(), hi.Key()));
      |r.value| == |page| && forall j :: 0 <= j < |page| ==> r.value[j] == (Ts(page[j].key[1]), page[j].value)
  {
    if id !in t.metrics then Err(User(MetricNotFound(id)))
    else
      match KeyRange(opts, t.metrics[id].internalId, now)
      case Err(e) => Err(Internal(e))
      case Ok((lo, hi)) =>
        var scan := Range(t.dataPoints, lo.Key(), hi.Key());
        var page := Page(scan);
        Ok(seq(|page|, j requires 0 <= j < |page| => (Ts(page[j].key[1]), page[j].value)))
  }

  /*
   * metric_get
   */

  /** The answers `metric_get` serves; rendering the chart and the SVG is not part of this model. */
  datatype MetricFormat = Chart | Svg | Json

  /** The `type` path segment: "html" or "" is the chart page. */
  function FormatOf(kind: string): (r: Result<MetricFormat, UserRequestError>)
    ensures r == Ok(Chart) <==> kind == "html" || kind == ""
    ensures r == Ok(Svg) <==> kind == "svg"
    ensures r == Ok(Json) <==> kind == "json"
    ensures r.Err? ==> r.error == FormatNotSupported
  {
    if kind == "html" || kind == "" then Ok(Chart)
    else if kind == "svg" then Ok(Svg)
    else if kind == "json" then Ok(Json)
    else Err(FormatNotSupported)
  }

  /** A JSON body record: second, value and metadata of a data point. */
  datatype RawRecord = RawRecord(t: Ts, v: DataPointValue, m: DataPointMetadata)

  /** `metric_get`: the format is decided first; every format reads the points through `get_metric`. */
  function MetricGet(t: Tables, id: MetricId, kind: string, opts: MetricOpts, now: SystemTime): (r: Result<(MetricFormat, seq<RawRecord>), Cause>)
    requires t.WellFormed() && Representable(now) && ValidOpts(opts)
    ensures FormatOf(kind).Err? ==> r == Err(User(FormatNotSupported))
    ensures FormatOf(kind).Ok? ==> (r.Ok? <==> GetMetric(t, id, opts, now).Ok?)
    ensures r.Ok? ==> r.value.0 == FormatOf(kind).value && |r.value.1| == |GetMetric(t, id, opts, now).value|
    ensures r.Ok? ==> forall j :: 0 <= j < |r.value.1| ==>
      var (ts, rec) := GetMetric(t, id, opts, now).value[j];
      r.value.1[j] == RawRecord(ts, rec.value, rec.metadata)
  {
    match FormatOf(kind)
    case Err(e) => Err(User(e))
    case Ok(format) =>
      match GetMetric(t, id, opts, now)
      case Err(e) => Err(e)
      case Ok(points) =>
        Ok((format, seq(|points|, j requires 0 <= j < |points| => RawRecord(points[j].0, points[j].1.value, points[j].1.metadata))))
  }
}
