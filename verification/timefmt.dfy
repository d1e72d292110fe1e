/** `format_time`: a unix timestamp rendered as "N units ago" relative to the
    current time, or as a local calendar stamp once it is three days old. */
module TimeFormat {
  import opened Wrappers
  import opened PyInt

  /** The whole seconds `datetime.fromtimestamp(t, timezone.utc)` accepts:
      0001-01-01T00:00:00Z through 9999-12-31T23:59:59Z. Outside them it raises. */
  const MinEpoch: int := -62135596800
  const MaxEpoch: int := 253402300799

  /** The bucket bounds of `format_time` are written as the literals the
      source uses: 60 (a minute), 3600 (an hour), 86400 (a day) and 259200
      (three days) seconds, and 1000000 microseconds per second. */

  const SecondsAgo: string := "秒前"
  const MinutesAgo: string := "分钟前"
  const HoursAgo: string := "小时前"
  const DaysAgo: string := "天前"

  type Micros = m: int | 0 <= m < 1000000

  /** A reading of `datetime.now(timezone.utc)`: whole seconds since the epoch
      (rounded down) and the microseconds past them. */
  datatype Instant = Instant(seconds: int, micros: Micros)

  /** What the formatter takes from its host: the current instant, and the
      rendering `datetime.astimezone().strftime("%m/%d %H:%M")` of an epoch second
      in the host's local time zone. */
  datatype Clock = Clock(now: Instant, localStamp: int -> string)

  /** The Python value handed to `format_time`. */
  datatype Timestamp = IntValue(i: int) | StrValue(s: string) | NoneValue

  /** `int(timestamp)` followed by the range check of `datetime.fromtimestamp`;
      `None` wherever either raises (`ValueError`, `TypeError`, `OverflowError`). */
  function Epoch(ts: Timestamp): (r: Option<int>)
    ensures r.Some? ==> MinEpoch <= r.value <= MaxEpoch
    ensures ts.NoneValue? ==> r.None?
    ensures ts.IntValue? ==> (r.Some? <==> MinEpoch <= ts.i <= MaxEpoch)
    ensures ts.IntValue? && r.Some? ==> r.value == ts.i
    ensures ts.StrValue? ==>
      (r.Some? <==> ParseInt(ts.s).Some? && MinEpoch <= ParseInt(ts.s).value <= MaxEpoch)
    ensures ts.StrValue? && r.Some? ==> r.value == ParseInt(ts.s).value
  {
    var parsed := match ts
      case IntValue(i) => Some(i)
      case StrValue(s) => ParseInt(s)
      case NoneValue => None;
    if parsed.Some? && MinEpoch <= parsed.value <= MaxEpoch then parsed else None
  }

  /** `(now - dt).total_seconds()` for `dt` at epoch second `t`, exactly, in microseconds. */
  function ElapsedMicros(t: int, now: Instant): int {
    (now.seconds - t) * 1000000 + now.micros
  }

  /** `int(a / b)` for a real quotient: division rounded toward zero. */
  function TruncDiv(a: int, b: int): int
    requires b > 0
  {
    if a >= 0 then a / b else -((-a) / b)
  }

  /** The bucket chain of `format_time` for the time elapsed from epoch second
      `t` to `now`; `stamp` is the absolute rendering used from three days on.
      The time is compared with each bound in turn, the first that exceeds it
      picks the unit, and the count is the elapsed time in that unit truncated
      toward zero. */
  function Ago(t: int, now: Instant, stamp: string): (r: string)
    ensures var e, M := ElapsedMicros(t, now), 1000000;
      && (e < 60 * M ==> r == ShowInt(TruncDiv(e, M)) + SecondsAgo)
      && (60 * M <= e < 3600 * M ==> r == ShowInt(TruncDiv(e, 60 * M)) + MinutesAgo)
      && (3600 * M <= e < 86400 * M ==> r == ShowInt(TruncDiv(e, 3600 * M)) + HoursAgo)
      && (86400 * M <= e < 259200 * M ==> r == ShowInt(TruncDiv(e, 86400 * M)) + DaysAgo)
      && (259200 * M <= e ==> r == stamp)
    ensures ElapsedMicros(t, now) < 259200 * 1000000 ==> r != ""
  {
    var d, m := now.seconds - t, now.micros;
    if d < 60 then
      var n := if d < 0 && m > 0 then d + 1 else d;
      assert TruncDiv(d * 1000000 + m, 1000000) == n by { TruncSeconds(d, m); }
      ShowInt(n) + SecondsAgo
    else if d < 3600 then
      assert TruncDiv(d * 1000000 + m, 60 * 1000000) == d / 60 by { Truncated(d, m, 60); }
      ShowInt(d / 60) + MinutesAgo
    else if d < 86400 then
      assert TruncDiv(d * 1000000 + m, 3600 * 1000000) == d / 3600 by { Truncated(d, m, 3600); }
      ShowInt(d / 3600) + HoursAgo
    else if d < 259200 then
      assert TruncDiv(d * 1000000 + m, 86400 * 1000000) == d / 86400 by { Truncated(d, m, 86400); }
      ShowInt(d / 86400) + DaysAgo
    else
      stamp
  }

  /** `format_time(timestamp)`: the elapsed time since a readable timestamp,
      bucketed by `Ago`; bad input gives "". */
  function FormatTime(ts: Timestamp, clock: Clock): (r: string)
    ensures Epoch(ts).None? ==> r == ""
    ensures Epoch(ts).Some? ==>
      var t, M := Epoch(ts).value, 1000000;
      var e := ElapsedMicros(t, clock.now);
      && (e < 60 * M ==> r == ShowInt(TruncDiv(e, M)) + SecondsAgo)
      && (60 * M <= e < 3600 * M ==> r == ShowInt(TruncDiv(e, 60 * M)) + MinutesAgo)
      && (3600 * M <= e < 86400 * M ==> r == ShowInt(TruncDiv(e, 3600 * M)) + HoursAgo)
      && (86400 * M <= e < 259200 * M ==> r == ShowInt(TruncDiv(e, 86400 * M)) + DaysAgo)
      && (259200 * M <= e ==> r == clock.localStamp(t))
    ensures r == "" ==> Epoch(ts).None? || clock.localStamp(Epoch(ts).value) == ""
  {
    match Epoch(ts)
    case None => ""
    case Some(t) => Ago(t, clock.now, clock.localStamp(t))
  }

  lemma DivUnique(a: int, b: int, q: int, r: int)
    requires b > 0 && 0 <= r < b && a == q * b + r
    ensures a / b == q
  {
    var q', r' := a / b, a % b;
    assert (q - q') * b == r' - r;
    if q > q' {
      AtLeastOnce(q - q', b);
    } else if q < q' {
      AtLeastOnce(q' - q, b);
    }
  }

  lemma AtLeastOnce(x: int, b: int)
    requires x >= 1 && b > 0
    ensures x * b >= b
  {
  }

  /** With `d` whole seconds and `m` microseconds elapsed, a whole-second bound is
      crossed exactly when `d` crosses it, and the truncated count of seconds is
      `d`, except that a negative elapsed time with a fraction truncates up. */
  lemma SecondsCount(d: int, m: Micros)
    ensures forall b: int :: d * 1000000 + m < b * 1000000 <==> d < b
    ensures TruncDiv(d * 1000000 + m, 1000000) == if d < 0 && m > 0 then d + 1 else d
  {
    var M := 1000000;
    forall b: int ensures d * M + m < b * M <==> d < b {
      if d < b {
        assert d * M + M <= b * M;
      } else {
        assert b * M <= d * M;
      }
    }
    TruncSeconds(d, m);
  }

  /** The truncated count of seconds, on its own. */
  lemma TruncSeconds(d: int, m: Micros)
    ensures TruncDiv(d * 1000000 + m, 1000000) == if d < 0 && m > 0 then d + 1 else d
  {
    var M := 1000000;
    var e := d * M + m;
    if d >= 0 {
      DivUnique(e, M, d, m);
    } else {
      assert e < 0 by { assert d * M <= -M; }
      if m == 0 {
        DivUnique(-e, M, -d, 0);
      } else {
        DivUnique(-e, M, -d - 1, M - m);
      }
    }
  }

  /** For a non-negative elapsed time, truncating to whole units ignores the
      microseconds. */
  lemma WholeUnits(d: int, m: Micros, u: int)
    requires d >= 0 && u > 0
    ensures TruncDiv(d * 1000000 + m, u * 1000000) == d / u
    ensures forall b: int :: d * 1000000 + m < b * 1000000 <==> d < b
  {
    SecondsCount(d, m);
    Truncated(d, m, u);
  }

  /** The truncated count of whole units, on its own. */
  lemma Truncated(d: int, m: Micros, u: int)
    requires d >= 0 && u > 0
    ensures TruncDiv(d * 1000000 + m, u * 1000000) == d / u
  {
    var M := 1000000;
    var q, r := d / u, d % u;
    assert d * M + m == q * (u * M) + (r * M + m) by {
      assert d == q * u + r;
      assert d * M == q * (u * M) + r * M;
    }
    assert r * M + m < u * M by {
      assert r * M <= (u - 1) * M;
    }
    DivUnique(d * M + m, u * M, q, r * M + m);
  }

  /** The buckets for an elapsed time of exactly `e` whole seconds, `e` below three
      days: `e` seconds, `e / 60` minutes, `e / 3600` hours or `e / 86400` days,
      the first bound that `e` is under deciding. */
  lemma WholeSecondsElapsed(ts: Timestamp, clock: Clock)
    requires Epoch(ts).Some? && clock.now.micros == 0
    requires clock.now.seconds - Epoch(ts).value < 259200
    ensures var e := clock.now.seconds - Epoch(ts).value;
      FormatTime(ts, clock) ==
        if e < 60 then ShowInt(e) + SecondsAgo
        else if e < 3600 then ShowInt(e / 60) + MinutesAgo
        else if e < 86400 then ShowInt(e / 3600) + HoursAgo
        else ShowInt(e / 86400) + DaysAgo
  {
    var t := Epoch(ts).value;
    var e := clock.now.seconds - t;
    var r := FormatTime(ts, clock);
    assert ElapsedMicros(t, clock.now) == e * 1000000;
    if e < 60 {
      assert r == ShowInt(e) + SecondsAgo by { TruncSeconds(e, 0); }
    } else if e < 3600 {
      assert r == ShowInt(e / 60) + MinutesAgo by { Truncated(e, 0, 60); }
    } else if e < 86400 {
      assert r == ShowInt(e / 3600) + HoursAgo by { Truncated(e, 0, 3600); }
    } else {
      assert r == ShowInt(e / 86400) + DaysAgo by { Truncated(e, 0, 86400); }
    }
  }

  /** A timestamp attribute holding the decimal digits of `t` formats exactly as
      the integer `t` does. */
  lemma DecimalStringAgrees(t: int, clock: Clock)
    ensures FormatTime(StrValue(ShowInt(t)), clock) == FormatTime(IntValue(t), clock)
  {
    ParseShowInt(t);
  }

  /** Anything `int()` rejects, and `None`, formats as the empty string. */
  lemma UnreadableIsBlank(s: string, clock: Clock)
    requires ParseInt(s).None?
    ensures FormatTime(StrValue(s), clock) == ""
    ensures FormatTime(NoneValue, clock) == ""
  {
  }

  /** A `{'timestamp': ts, 'formatted': ...}` record as both extractors emit it. */
  datatype Stamp = Stamp(timestamp: Option<string>, formatted: Option<string>)

  /** The record for a `time_stamp` attribute: formatted only when the attribute
      is present and non-empty (`format_time(ts) if ts else None`). */
  function StampOf(ts: Option<string>, clock: Clock): (r: Stamp)
    ensures r.timestamp == ts
    ensures r.formatted.Some? <==> ts.Some? && ts.value != ""
    ensures r.formatted.Some? ==> r.formatted.value == FormatTime(StrValue(ts.value), clock)
  {
    Stamp(ts, if ts.Some? && ts.value != "" then Some(FormatTime(StrValue(ts.value), clock)) else None)
  }
}
