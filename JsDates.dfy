/**
 * The part of JavaScript's `Date` the deadline selector uses: a time value counted in
 * milliseconds (or the invalid time value NaN), its split into calendar day and
 * time-of-day fields, copying a `Date`, and `setHours(h, m, s, ms)` done in place.
 *
 * Local time is modelled with a zero offset from the time value and no daylight-saving
 * changes: the day is an abstract day number, not a calendar date.
 */
module JsDates {
  import opened JsText

  const MS_PER_SECOND: nat := 1000
  const MS_PER_MINUTE: nat := 60 * MS_PER_SECOND
  const MS_PER_HOUR: nat := 60 * MS_PER_MINUTE
  const MS_PER_DAY: nat := 24 * MS_PER_HOUR

  /** A `Date`'s time value: milliseconds from the epoch, or NaN for an Invalid Date. */
  datatype TimeValue = At(ms: int) | Invalid

  /** The fields of a time value: a day number and the wall-clock time within that day. */
  datatype DateTime = DateTime(day: int, hour: int, minute: int, second: int, millisecond: int)
  {
    predicate InRange() {
      0 <= hour < 24 && 0 <= minute < 60 && 0 <= second < 60 && 0 <= millisecond < 1000
    }
  }

  /** The time value a set of fields stands for. */
  function Compose(dt: DateTime): int {
    dt.day * MS_PER_DAY + dt.hour * MS_PER_HOUR + dt.minute * MS_PER_MINUTE
      + dt.second * MS_PER_SECOND + dt.millisecond
  }

  /** `Day(t)`, `HourFromTime(t)`, ... of a time value: floor division and non-negative remainders. */
  function Fields(t: int): (dt: DateTime)
    ensures dt.InRange()
    ensures Compose(dt) == t
  {
    var inDay := t % MS_PER_DAY;
    var inHour := inDay % MS_PER_HOUR;
    var inMinute := inHour % MS_PER_MINUTE;
    DateTime(t / MS_PER_DAY, inDay / MS_PER_HOUR, inHour / MS_PER_MINUTE,
             inMinute / MS_PER_SECOND, inMinute % MS_PER_SECOND)
  }

  /** Fields in range are recovered exactly from the time value they stand for. */
  lemma FieldsOfCompose(dt: DateTime)
    requires dt.InRange()
    ensures Fields(Compose(dt)) == dt
  {
    var t := Compose(dt);
    var inDay := dt.hour * MS_PER_HOUR + dt.minute * MS_PER_MINUTE + dt.second * MS_PER_SECOND + dt.millisecond;
    var inHour := dt.minute * MS_PER_MINUTE + dt.second * MS_PER_SECOND + dt.millisecond;
    var inMinute := dt.second * MS_PER_SECOND + dt.millisecond;
    assert 0 <= inMinute < MS_PER_MINUTE;
    assert 0 <= inHour < MS_PER_HOUR;
    assert 0 <= inDay < MS_PER_DAY;
    DivModUnique(t, MS_PER_DAY, dt.day, inDay);
    DivModUnique(inDay, MS_PER_HOUR, dt.hour, inHour);
    DivModUnique(inHour, MS_PER_MINUTE, dt.minute, inMinute);
    DivModUnique(inMinute, MS_PER_SECOND, dt.second, dt.millisecond);
  }

  /** Floor division is the only split of `x` into `q * d + r` with `0 <= r < d`. */
  lemma DivModUnique(x: int, d: int, q: int, r: int)
    requires d > 0 && 0 <= r < d && x == q * d + r
    ensures x / d == q && x % d == r
  {
    var q', r' := x / d, x % d;
    assert (q - q') * d == r' - r by {
      assert x == q' * d + r';
      assert q * d - q' * d == (q - q') * d;
    }
    if q' < q {
      MulAtLeast(q - q', d);
    } else if q' > q {
      MulAtLeast(q' - q, d);
    }
  }

  lemma MulAtLeast(k: int, d: int)
    requires k >= 1 && d > 0
    ensures k * d >= d
  {
    assert k * d == (k - 1) * d + d;
  }

  /** Taking the remainder by a multiple of `a` first does not change the remainder by `a`. */
  lemma ModOfMultiple(x: int, a: int, k: int)
    requires a > 0 && k > 0
    ensures (x % (k * a)) % a == x % a
  {
    var r := x % (k * a);
    var q := x / (k * a);
    assert x == q * (k * a) + r;
    assert x == (q * k + r / a) * a + r % a by {
      assert r == (r / a) * a + r % a;
      assert q * (k * a) == (q * k) * a;
    }
    DivModUnique(x, a, q * k + r / a, r % a);
  }

  /** A time value that is a whole number of minutes has second and millisecond 0. */
  lemma WholeMinutesFields(k: int)
    ensures Fields(k * MS_PER_MINUTE).second == 0 && Fields(k * MS_PER_MINUTE).millisecond == 0
  {
    var t := k * MS_PER_MINUTE;
    DivModUnique(t, MS_PER_MINUTE, k, 0);
    ModOfMultiple(t, MS_PER_HOUR, 24);
    ModOfMultiple(t, MS_PER_MINUTE, 60);
    assert ((t % MS_PER_DAY) % MS_PER_HOUR) % MS_PER_MINUTE == 0;
  }

  /** The time of day `h:m:s.ms` on the day `t` falls in, as `MakeDate(Day(t), MakeTime(h, m, s, ms))`. */
  function AtTimeOfDay(t: int, h: int, m: int, s: int, ms: int): int {
    Fields(t).day * MS_PER_DAY + h * MS_PER_HOUR + m * MS_PER_MINUTE + s * MS_PER_SECOND + ms
  }

  /**
   * The time value `setHours(h, m, s, ms)` leaves in a `Date` that held `t`:
   * NaN if the date was invalid or any argument is NaN.
   */
  function SetHoursValue(t: TimeValue, h: JsNumber, m: JsNumber, s: JsNumber, ms: JsNumber): (r: TimeValue)
    ensures r.At? <==> t.At? && h.Num? && m.Num? && s.Num? && ms.Num?
  {
    if t.Invalid? || h.NaN? || m.NaN? || s.NaN? || ms.NaN? then Invalid
    else At(AtTimeOfDay(t.ms, h.v, m.v, s.v, ms.v))
  }

  /** Setting an in-range time of day keeps the day and sets exactly the four time fields. */
  lemma SetHoursFields(t: int, h: int, m: int, s: int, ms: int)
    requires 0 <= h < 24 && 0 <= m < 60 && 0 <= s < 60 && 0 <= ms < 1000
    ensures Fields(AtTimeOfDay(t, h, m, s, ms)) == DateTime(Fields(t).day, h, m, s, ms)
  {
    FieldsOfCompose(DateTime(Fields(t).day, h, m, s, ms));
  }

  /** Out-of-range hours carry into the following days, as `setHours(25, ...)` does. */
  lemma SetHoursCarries(t: int, h: nat, m: int)
    requires 0 <= m < 60
    ensures Fields(AtTimeOfDay(t, h, m, 0, 0)) == DateTime(Fields(t).day + h / 24, h % 24, m, 0, 0)
  {
    var q, r := h / 24, h % 24;
    var dt := DateTime(Fields(t).day + q, r, m, 0, 0);
    assert h * 3_600_000 == q * 86_400_000 + r * 3_600_000 by {
      assert h == q * 24 + r;
    }
    assert Compose(dt) == AtTimeOfDay(t, h, m, 0, 0);
    FieldsOfCompose(dt);
  }

  /** A mutable JavaScript `Date`. */
  class JsDate {
    var value: TimeValue

    /** `new Date(other)`: a fresh `Date` holding the same time value. */
    constructor Copy(other: JsDate)
      ensures value == other.value
    {
      value := other.value;
    }

    /** `date.setHours(h, m, s, ms)`, changing this `Date` in place. */
    method SetHours(h: JsNumber, m: JsNumber, s: JsNumber, ms: JsNumber)
      modifies this
      ensures value == SetHoursValue(old(value), h, m, s, ms)
    {
      value := SetHoursValue(value, h, m, s, ms);
    }
  }
}
