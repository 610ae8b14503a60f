/**
 * Timestamps: whole seconds since the Unix epoch in a `u64` (models/ts.rs),
 * and the hour rounding used to frame charts, on UTC seconds.
 */
module Time {
  import opened Ints

  const NANOS_PER_SEC: int := 1_000_000_000
  const SECS_PER_HOUR: int := 60 * 60

  /** `Ts(u64)`: seconds since the epoch. */
  datatype Ts = Ts(secs: u64)

  /** `Ts::ZERO`, also what `Ts::default()` gives. */
  const ZERO: Ts := Ts(0)

  /** The derived `Default` of the newtype: the default `u64`. */
  function Default(): (r: Ts)
    ensures r == ZERO
  {
    Ts(0 as u64)
  }

  /** `to_absolute_secs` */
  function ToAbsoluteSecs(t: Ts): u64
  {
    t.secs
  }

  /** `a - b`: saturating subtraction, the least distance that takes `b` to or past `a`. */
  function Sub(a: Ts, b: Ts): (r: u64)
    ensures b.secs + r >= a.secs
    ensures r > 0 ==> b.secs + r == a.secs
  {
    if a.secs <= b.secs then 0 else a.secs - b.secs
  }

  /** `inc`: the next second; the `u64` addition overflows only at `u64::MAX`. */
  function Inc(t: Ts): (r: Ts)
    requires t.secs < U64_MAX
    ensures Sub(r, t) == 1 && Sub(t, r) == 0
  {
    Ts(t.secs + 1)
  }

  /** One second after `t`, in absolute seconds. */
  lemma {:induction false} IncAbsolute(t: Ts)
    requires t.secs < U64_MAX
    ensures ToAbsoluteSecs(Inc(t)) == ToAbsoluteSecs(t) + 1
  {
  }

  /**
   * A wall-clock reading, in nanoseconds relative to the epoch (negative
   * before it). The platform keeps whole seconds in a signed 64-bit value.
   */
  datatype SystemTime = SystemTime(nanos: int)

  predicate Representable(t: SystemTime)
  {
    t.nanos < 0x8000_0000_0000_0000 * NANOS_PER_SEC
  }

  /** A span of time in nanoseconds (`std::time::Duration`). */
  datatype Duration = Duration(nanos: nat)

  /** `now - d` */
  function SubDuration(now: SystemTime, d: Duration): (r: SystemTime)
    ensures Representable(now) ==> Representable(r)
  {
    SystemTime(now.nanos - d.nanos)
  }

  /**
   * `Ts::from(SystemTime)`: whole seconds since the epoch, rounded down; a
   * time before the epoch is `Ts::default()`.
   */
  function FromSystemTime(t: SystemTime): (r: Ts)
    requires Representable(t)
    ensures t.nanos < 0 ==> r == ZERO
    ensures 0 <= t.nanos ==> r.secs * NANOS_PER_SEC <= t.nanos < (r.secs + 1) * NANOS_PER_SEC
  {
    if t.nanos < 0 then Default() else Ts(t.nanos / NANOS_PER_SEC)
  }

  /**
   * An `OffsetDateTime` of the `time` crate, by its Unix timestamp in
   * seconds; the crate bounds it to the years -9999 to 9999.
   */
  datatype OffsetDateTime = OffsetDateTime(unixTimestamp: int)

  const MIN_UNIX_TIMESTAMP: int := -377_705_116_800
  const MAX_UNIX_TIMESTAMP: int := 253_402_300_799

  predicate ValidDateTime(t: OffsetDateTime)
  {
    MIN_UNIX_TIMESTAMP <= t.unixTimestamp <= MAX_UNIX_TIMESTAMP
  }

  /**
   * `Ts::from(OffsetDateTime)`: `unix_timestamp() as u64`, so a time before
   * the epoch wraps around to a second near `u64::MAX`.
   */
  function FromOffsetDateTime(t: OffsetDateTime): (r: Ts)
    requires ValidDateTime(t)
    ensures 0 <= t.unixTimestamp ==> r.secs == t.unixTimestamp
    ensures t.unixTimestamp < 0 ==> r.secs == t.unixTimestamp + U64_LIMIT
  {
    Ts(AsU64(t.unixTimestamp))
  }

  /**
   * `round_down_to_hour` of a UTC date-time, on its Unix timestamp: the
   * start of its hour. Unix time has exactly 3600 seconds in every UTC hour.
   */
  function RoundDownToHour(t: int): (r: int)
    ensures r % SECS_PER_HOUR == 0
    ensures r <= t < r + SECS_PER_HOUR
  {
    t - t % SECS_PER_HOUR
  }

  /** `round_up_to_hour`: the first hour boundary at or after `t`. */
  function RoundUpToHour(t: int): (r: int)
    ensures r % SECS_PER_HOUR == 0
    ensures t <= r < t + SECS_PER_HOUR
    ensures t % SECS_PER_HOUR == 0 ==> r == t
  {
    RoundDownToHour(t + (SECS_PER_HOUR - 1))
  }

  /** `round_up_exclusive_to_hour`: the first hour boundary strictly after `t`. */
  function RoundUpExclusiveToHour(t: int): (r: int)
    ensures r % SECS_PER_HOUR == 0
    ensures t < r <= t + SECS_PER_HOUR
  {
    RoundDownToHour(t + SECS_PER_HOUR)
  }

  /** The two upward roundings agree except on an hour boundary, where the exclusive one moves on. */
  lemma {:induction false} RoundUpExclusiveVersusInclusive(t: int)
    ensures RoundUpExclusiveToHour(t)
         == if t % SECS_PER_HOUR == 0 then t + SECS_PER_HOUR else RoundUpToHour(t)
  {
    var a := RoundUpExclusiveToHour(t);
    var b := RoundUpToHour(t);
    if t % SECS_PER_HOUR != 0 {
      assert t < b;
      assert a <= b by {
        assert b - SECS_PER_HOUR < t;
      }
      assert b <= a by {
        assert t < a;
      }
    }
  }
}
