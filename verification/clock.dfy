/** Integer clamping (`clampInt`), month lengths (`daysInMonth`) and the calendar reading the
    availability check works from. */
module Clock {
  import opened JsValues

  /** `Math.trunc`: the integer part, rounding toward zero. */
  function Trunc(x: real): (t: int)
    ensures 0.0 <= x ==> 0 <= t && t as real <= x < t as real + 1.0
    ensures x < 0.0 ==> t <= 0 && t as real - 1.0 < x <= t as real
  {
    if x >= 0.0 then x.Floor else -((-x).Floor)
  }

  function Min(a: int, b: int): int { if a <= b then a else b }
  function Max(a: int, b: int): int { if a >= b then a else b }

  /** `clampInt(v, min, max, def)`: the default for a non-finite number, otherwise the
      truncated number pulled into lo..hi. */
  function ClampInt(v: JsNumber, lo: int, hi: int, def: int): (r: int)
    ensures v.NonFinite? ==> r == def
    ensures v.Finite? && lo <= hi ==> lo <= r <= hi
    ensures v.Finite? && lo <= Trunc(v.x) <= hi ==> r == Trunc(v.x)
    ensures v.Finite? && Trunc(v.x) < lo <= hi ==> r == lo
    ensures v.Finite? && lo <= hi < Trunc(v.x) ==> r == hi
  {
    match v
    case NonFinite => def
    case Finite(x) => Min(hi, Max(lo, Trunc(x)))
  }

  /** Clamping a value that is already clamped changes nothing, whatever the default. */
  lemma ClampIntIdempotent(v: JsNumber, lo: int, hi: int, def: int, def': int)
    requires lo <= hi && (v.NonFinite? ==> lo <= def <= hi)
    ensures var c := ClampInt(v, lo, hi, def);
      ClampInt(Finite(c as real), lo, hi, def') == c
  {
    var c := ClampInt(v, lo, hi, def);
    assert Trunc(c as real) == c;
  }

  /** `daysInMonth`: the length of a month in a common year; anything that is not a month
      number is clamped to one first (non-finite input reads as January). */
  function DaysInMonth(month: JsNumber): (r: int)
    ensures 28 <= r <= 31
    ensures var m := ClampInt(month, 1, 12, 1);
      && (r == 31 <==> m in {1, 3, 5, 7, 8, 10, 12})
      && (r == 30 <==> m in {4, 6, 9, 11})
      && (r == 28 <==> m == 2)
  {
    var m := ClampInt(month, 1, 12, 1);
    [31, 28, 31, 30, 31, 30, 31, 31, 30, 31, 30, 31][m - 1]
  }

  /** The part of a JavaScript `Date` the availability check reads. */
  datatype DateTime = DateTime(month: int, day: int, hour: int, minute: int)

  /** What a `Date` object's accessors can return: month 1..12 (`getMonth() + 1`), day 1..31,
      hour 0..23, minute 0..59. */
  predicate ValidDateTime(dt: DateTime) {
    1 <= dt.month <= 12 && 1 <= dt.day <= 31 && 0 <= dt.hour <= 23 && 0 <= dt.minute <= 59
  }

  /** `getHours() + getMinutes() / 60`: the time of day as a fractional hour. */
  function HourOf(dt: DateTime): (h: real)
    ensures ValidDateTime(dt) ==> dt.hour as real <= h < dt.hour as real + 1.0 && h < 24.0
  {
    dt.hour as real + dt.minute as real / 60.0
  }
}
