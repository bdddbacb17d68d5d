/** The wall clock `java.util.Calendar` shows for an instant: the local time
    (the instant plus the zone's offset) split into a day number, hour,
    minute, second and millisecond, and the rounding down to the last half
    hour that the EPG placeholder starts at. */
module WallClock {

  const MS_PER_SECOND: int := 1000
  const MS_PER_MINUTE: int := 60_000
  const MS_PER_HOUR: int := 3_600_000
  const MS_PER_DAY: int := 86_400_000
  const HALF_HOUR_MS: int := 1_800_000

  /** The calendar fields of a local time. */
  datatype Fields = Fields(day: int, hour: int, minute: int, second: int, milli: int)

  predicate ValidFields(f: Fields) {
    0 <= f.hour < 24 && 0 <= f.minute < 60 && 0 <= f.second < 60 && 0 <= f.milli < 1000
  }

  /** The local time the fields denote, in milliseconds. */
  function FromFields(f: Fields): int {
    f.day * MS_PER_DAY + f.hour * MS_PER_HOUR + f.minute * MS_PER_MINUTE
      + f.second * MS_PER_SECOND + f.milli
  }

  /** Splits a local time into its fields (days before the epoch count
      down, so the time of day is never negative). */
  function ToFields(local: int): (f: Fields)
    ensures ValidFields(f)
    ensures FromFields(f) == local
  {
    var ms := local % MS_PER_DAY;
    var inHour := ms % MS_PER_HOUR;
    var inMinute := inHour % MS_PER_MINUTE;
    Fields(local / MS_PER_DAY, ms / MS_PER_HOUR, inHour / MS_PER_MINUTE,
           inMinute / MS_PER_SECOND, inMinute % MS_PER_SECOND)
  }

  /** Fields determine the local time and the local time determines the
      fields: splitting is the inverse of composing. */
  lemma FieldsRoundTrip(f: Fields)
    requires ValidFields(f)
    ensures ToFields(FromFields(f)) == f
  {
    var t := FromFields(f);
    var inMinute := f.second * MS_PER_SECOND + f.milli;
    var inHour := f.minute * MS_PER_MINUTE + inMinute;
    var ms := f.hour * MS_PER_HOUR + inHour;
    DivModUnique(t, MS_PER_DAY, f.day, ms);
    DivModUnique(ms, MS_PER_HOUR, f.hour, inHour);
    DivModUnique(inHour, MS_PER_MINUTE, f.minute, inMinute);
    DivModUnique(inMinute, MS_PER_SECOND, f.second, f.milli);
  }

  /** Quotient and remainder by one of the clock's units are unique. */
  lemma DivModUnique(x: int, d: int, q: int, r: int)
    requires d == MS_PER_SECOND || d == MS_PER_MINUTE || d == MS_PER_HOUR
             || d == MS_PER_DAY || d == HALF_HOUR_MS
    requires 0 <= r < d && x == q * d + r
    ensures x / d == q && x % d == r
  {
    if d == MS_PER_SECOND {
      assert x == q * 1000 + r;
    } else if d == MS_PER_MINUTE {
      assert x == q * 60_000 + r;
    } else if d == MS_PER_HOUR {
      assert x == q * 3_600_000 + r;
    } else if d == MS_PER_DAY {
      assert x == q * 86_400_000 + r;
    } else {
      assert x == q * 1_800_000 + r;
    }
  }

  /** `getLastHalfHourMillis(t)` on a calendar whose zone is `offsetMs` ahead
      of UTC: the minute field becomes `minute - minute % 30`, second and
      millisecond become 0, the other fields are kept. */
  function LastHalfHour(t: int, offsetMs: int): (r: int)
    ensures var before, after := ToFields(t + offsetMs), ToFields(r + offsetMs);
            && after.minute == before.minute - before.minute % 30
            && after.second == 0 && after.milli == 0
            && after.day == before.day && after.hour == before.hour
  {
    var f := ToFields(t + offsetMs);
    var minutes := f.minute;
    var difference := minutes % 30;
    var minutes' := if difference != 0 then minutes - difference else minutes;
    var g := f.(minute := minutes', second := 0, milli := 0);
    FieldsRoundTrip(g);
    FromFields(g) - offsetMs
  }

  /** On the millisecond line the rounding drops exactly the local time
      elapsed since the last half-hour mark: the result is at most `t`,
      less than half an hour earlier, and itself on a half-hour mark. */
  lemma LastHalfHourMillis(t: int, offsetMs: int)
    ensures LastHalfHour(t, offsetMs) == t - (t + offsetMs) % HALF_HOUR_MS
    ensures LastHalfHour(t, offsetMs) <= t < LastHalfHour(t, offsetMs) + HALF_HOUR_MS
    ensures (LastHalfHour(t, offsetMs) + offsetMs) % HALF_HOUR_MS == 0
  {
    var local := t + offsetMs;
    var f := ToFields(local);
    LastHalfHourClears(t, offsetMs);
    var below := HalfHourSplit(f);
    var mark := f.day * 48 + f.hour * 2 + f.minute / 30;
    DivModUnique(local, HALF_HOUR_MS, mark, below);
    assert LastHalfHour(t, offsetMs) + offsetMs == mark * HALF_HOUR_MS;
    DivModUnique(mark * HALF_HOUR_MS, HALF_HOUR_MS, mark, 0);
  }

  /** The rounding clears the seconds and the minutes past the last mark
      of the local fields. */
  lemma LastHalfHourClears(t: int, offsetMs: int)
    ensures var f := ToFields(t + offsetMs);
            LastHalfHour(t, offsetMs)
              == FromFields(f.(minute := f.minute - f.minute % 30, second := 0, milli := 0)) - offsetMs
  {
  }

  /** The local time of valid fields is a whole number of half hours plus
      the time `below` elapsed since the last mark, and clearing the seconds
      and the minutes past the mark subtracts exactly `below`. */
  lemma HalfHourSplit(f: Fields) returns (below: int)
    requires ValidFields(f)
    ensures below == f.minute % 30 * MS_PER_MINUTE + f.second * MS_PER_SECOND + f.milli
    ensures 0 <= below < HALF_HOUR_MS
    ensures FromFields(f) == (f.day * 48 + f.hour * 2 + f.minute / 30) * HALF_HOUR_MS + below
    ensures FromFields(f.(minute := f.minute - f.minute % 30, second := 0, milli := 0)) == FromFields(f) - below
  {
    below := f.minute % 30 * MS_PER_MINUTE + f.second * MS_PER_SECOND + f.milli;
    if f.minute < 30 {
      assert f.minute % 30 == f.minute && f.minute / 30 == 0;
    } else {
      assert f.minute % 30 == f.minute - 30 && f.minute / 30 == 1;
    }
  }

  /** Rounding an instant already on a half-hour mark changes nothing, so
      rounding twice is rounding once. */
  lemma LastHalfHourIdempotent(t: int, offsetMs: int)
    ensures LastHalfHour(LastHalfHour(t, offsetMs), offsetMs) == LastHalfHour(t, offsetMs)
  {
    var r := LastHalfHour(t, offsetMs);
    LastHalfHourMillis(t, offsetMs);
    LastHalfHourMillis(r, offsetMs);
  }

  /** In a zone whose offset is a whole number of half hours (UTC among
      them) the result is a multiple of 30 minutes since the epoch. */
  lemma LastHalfHourUtcAligned(t: int, offsetMs: int)
    requires offsetMs % HALF_HOUR_MS == 0
    ensures LastHalfHour(t, offsetMs) % HALF_HOUR_MS == 0
  {
    LastHalfHourMillis(t, offsetMs);
    var r := LastHalfHour(t, offsetMs);
    var k := (r + offsetMs) / HALF_HOUR_MS;
    var j := offsetMs / HALF_HOUR_MS;
    assert r == (k - j) * HALF_HOUR_MS;
  }
}
