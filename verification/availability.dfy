/** Whether an item can be caught now (`isCatchable`), with the clock reading of
    `getNowDateTime` lifted into a parameter. */
module Availability {
  import opened JsValues
  import opened Clock
  import opened Catalog
  import opened AppState

  /** `getNowDateTime`: the wall clock in auto mode; otherwise the manual month (day 1) at the
      manual hour (minute 0), each clamped, with the wall clock's value as the fallback. */
  function GetNowDateTime(s: Settings, wall: DateTime): (dt: DateTime)
    ensures s.nowMode.Auto? ==> dt == wall
    ensures !s.nowMode.Auto? ==> dt.day == 1 && dt.minute == 0
    ensures !s.nowMode.Auto? && ValidDateTime(wall) ==> ValidDateTime(dt)
    ensures !s.nowMode.Auto? && s.manualMonth.Finite? && 1 <= Trunc(s.manualMonth.x) <= 12
            ==> dt.month == Trunc(s.manualMonth.x)
    ensures !s.nowMode.Auto? && s.manualMonth.Finite? && Trunc(s.manualMonth.x) < 1
            ==> dt.month == 1
    ensures !s.nowMode.Auto? && s.manualMonth.Finite? && Trunc(s.manualMonth.x) > 12
            ==> dt.month == 12
    ensures !s.nowMode.Auto? && s.manualMonth.NonFinite? ==> dt.month == wall.month
    ensures !s.nowMode.Auto? && s.manualHour.Finite? && 0 <= Trunc(s.manualHour.x) <= 23
            ==> dt.hour == Trunc(s.manualHour.x)
    ensures !s.nowMode.Auto? && s.manualHour.Finite? && Trunc(s.manualHour.x) < 0
            ==> dt.hour == 0
    ensures !s.nowMode.Auto? && s.manualHour.Finite? && Trunc(s.manualHour.x) > 23
            ==> dt.hour == 23
    ensures !s.nowMode.Auto? && s.manualHour.NonFinite? ==> dt.hour == wall.hour
  {
    if s.nowMode == Auto then wall
    else
      DateTime(ClampInt(s.manualMonth, 1, 12, wall.month), 1,
               ClampInt(s.manualHour, 0, 23, wall.hour), 0)
  }

  /** One window matches the fractional hour: `[0, 24]` always; a window with `end < start`
      crosses midnight; any other is half-open. A window with a non-finite bound never matches. */
  predicate WindowMatches(w: Window, hour: real) {
    match (w.start, w.end)
    case (Finite(a), Finite(b)) =>
      (a == 0.0 && b == 24.0) || (if b < a then hour >= a || hour < b else a <= hour && hour < b)
    case _ => false
  }

  /** The window loop of `isCatchable`: true at the first matching window, false if none does. */
  function AnyWindowMatches(ws: seq<Window>, hour: real): (r: bool)
    ensures r <==> exists i :: 0 <= i < |ws| && WindowMatches(ws[i], hour)
    decreases |ws|
  {
    if ws == [] then false
    else if WindowMatches(ws[0], hour) then true
    else
      var r := AnyWindowMatches(ws[1..], hour);
      assert forall i :: 1 <= i < |ws| ==> ws[i] == ws[1..][i - 1];
      r
  }

  /** The manual any-time override is on. */
  predicate AnytimeOverride(s: Settings) {
    s.nowMode == Manual && s.manualAnytime
  }

  /** `isCatchable`. */
  function IsCatchable(item: Item, s: Settings, wall: DateTime): (r: bool)
    ensures var dt := GetNowDateTime(s, wall);
      var inSeason := dt.month in MonthsFor(item, s.hemisphere);
      && (!inSeason ==> !r)
      && (inSeason && AnytimeOverride(s) ==> r)
      && (inSeason && item.windows == [] ==> r)
      && (inSeason && !AnytimeOverride(s) && item.windows != [] ==>
            (r <==> exists i :: 0 <= i < |item.windows| && WindowMatches(item.windows[i], HourOf(dt))))
  {
    var dt := GetNowDateTime(s, wall);
    var months := MonthsFor(item, s.hemisphere);
    if dt.month !in months then false
    else if AnytimeOverride(s) then true
    else if item.windows == [] then true
    else AnyWindowMatches(item.windows, HourOf(dt))
  }

  /** A window is half-open: its end hour is never matched, except by the full-day window. */
  lemma WindowEndExcluded(a: real, b: real)
    requires !(a == 0.0 && b == 24.0)
    ensures !WindowMatches(Window(Finite(a), Finite(b)), b)
  {
  }

  /** A window's start hour is matched exactly when the window is not empty; an empty window
      (start equal to end) matches no hour at all. */
  lemma WindowStartIncluded(a: real, b: real, hour: real)
    ensures WindowMatches(Window(Finite(a), Finite(b)), a) <==> a != b
    ensures a == b ==> !WindowMatches(Window(Finite(a), Finite(b)), hour)
  {
  }

  /** Within a day, a midnight-crossing window `[a, b)` with `b < a` matches exactly the hours
      that the window `[b, a)` does not. */
  lemma CrossingWindowIsComplement(a: real, b: real, hour: real)
    requires b < a && 0.0 <= hour < 24.0
    ensures WindowMatches(Window(Finite(a), Finite(b)), hour)
            <==> !WindowMatches(Window(Finite(b), Finite(a)), hour)
  {
  }

  /** An item active in March to May from 9:00 to 17:00: catchable in April at 10:00, not at
      20:00, and not in June at any hour. */
  lemma SeasonAndWindowExample(item: Item, s: Settings, hour: int)
    requires item.months == map["north" := [3, 4, 5]]
    requires item.windows == [Window(Finite(9.0), Finite(17.0))]
    requires s.hemisphere == "north" && s.nowMode == Auto
    requires 0 <= hour <= 23
    ensures IsCatchable(item, s, DateTime(4, 1, 10, 0))
    ensures !IsCatchable(item, s, DateTime(4, 1, 20, 0))
    ensures !IsCatchable(item, s, DateTime(6, 1, hour, 0))
  {
    assert WindowMatches(item.windows[0], 10.0);
  }

  /** A window from 21:00 to 4:00 is open at 23:00 and at 2:00 but not at 10:00. */
  lemma MidnightWindowExample()
    ensures WindowMatches(Window(Finite(21.0), Finite(4.0)), 23.0)
    ensures WindowMatches(Window(Finite(21.0), Finite(4.0)), 2.0)
    ensures !WindowMatches(Window(Finite(21.0), Finite(4.0)), 10.0)
  {
  }
}
