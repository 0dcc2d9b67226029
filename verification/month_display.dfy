/** Display of an item's active months (`formatMonthsDisplayFromArray`): "1年中" for the whole
    year, otherwise the maximal runs, with a January run and a December run merged into a
    single run across the new year. */
module MonthDisplay {
  import opened JsValues
  import opened MonthRanges

  const AllYearLabel: string := "1年中"

  /** The merge rule fires: at least two runs, the first starting in January and the last
      ending in December. */
  predicate Merges(rs: seq<Range>) {
    |rs| >= 2 && rs[0].s == 1 && rs[|rs| - 1].e == 12
  }

  /** The runs in display order: when the merge rule fires, the merged run `{s: last.s, e: first.e}`
      comes first, followed by the middle runs; otherwise the runs are unchanged. */
  function DisplayRuns(rs: seq<Range>): seq<Range> {
    if Merges(rs) then [Range(rs[|rs| - 1].s, rs[0].e)] + rs[1..|rs| - 1] else rs
  }

  /** Month `m` lies in run `r` read on the circular calendar: a run with s > e wraps past December. */
  predicate CoversCircular(r: Range, m: int) {
    if r.s <= r.e then r.s <= m <= r.e else r.s <= m || m <= r.e
  }

  predicate InDisplay(d: seq<Range>, m: int) {
    exists i :: 0 <= i < |d| && CoversCircular(d[i], m)
  }

  /** Every bound of every run is a month. */
  predicate MonthRuns(d: seq<Range>) {
    forall i :: 0 <= i < |d| ==> IsMonth(d[i].s) && IsMonth(d[i].e)
  }

  /** Runs that lie within the calendar year: separated, from January at the earliest to
      December at the latest. */
  predicate YearRuns(rs: seq<Range>) {
    Separated(rs) && (rs != [] ==> 1 <= rs[0].s && rs[|rs| - 1].e <= 12)
  }

  lemma YearRunsAreMonthRuns(rs: seq<Range>)
    requires YearRuns(rs)
    ensures MonthRuns(rs)
  {
    forall i | 0 <= i < |rs|
      ensures IsMonth(rs[i].s) && IsMonth(rs[i].e)
    {
      if 0 < i {
        assert rs[0].e + 2 <= rs[i].s;
      }
      if i < |rs| - 1 {
        assert rs[i].e + 2 <= rs[|rs| - 1].s;
      }
    }
  }

  /** Only the first display run can wrap past December, and it does so exactly when the merge
      rule fires; the merged run goes from the last run's start to the first run's end and is
      followed by the middle runs unchanged. Without a merge the runs are shown as they are. */
  lemma DisplayRunsShape(rs: seq<Range>)
    requires YearRuns(rs)
    ensures var d := DisplayRuns(rs);
      && MonthRuns(d)
      && (forall i :: 1 <= i < |d| ==> d[i].s <= d[i].e)
      && ((d != [] && d[0].s > d[0].e) <==> Merges(rs))
    ensures Merges(rs) ==>
      var d := DisplayRuns(rs);
      |d| == |rs| - 1 && d[0] == Range(rs[|rs| - 1].s, rs[0].e) && d[1..] == rs[1..|rs| - 1]
    ensures !Merges(rs) ==> DisplayRuns(rs) == rs
  {
    YearRunsAreMonthRuns(rs);
    if Merges(rs) {
      assert rs[0].e + 2 <= rs[|rs| - 1].s;
      var d := DisplayRuns(rs);
      forall i | 1 <= i < |d| ensures d[i].s <= d[i].e {
        assert d[i] == rs[i];
      }
    }
  }

  /** With the merge rule fired, the merged run read circularly covers the months of the first
      and the last run, and the middle runs are kept. */
  lemma MergedCover(rs: seq<Range>, m: int)
    requires YearRuns(rs) && Merges(rs) && IsMonth(m)
    ensures InDisplay(DisplayRuns(rs), m) <==> InRuns(rs, m)
  {
    if InRuns(rs, m) {
      MergedCoverRuns(rs, m);
    }
    if InDisplay(DisplayRuns(rs), m) {
      MergedCoverDisplay(rs, m);
    }
  }

  /** A month of a run is shown by the merged display. */
  lemma MergedCoverRuns(rs: seq<Range>, m: int)
    requires YearRuns(rs) && Merges(rs) && InRuns(rs, m)
    ensures InDisplay(DisplayRuns(rs), m)
  {
    var n := |rs|;
    var d := DisplayRuns(rs);
    assert rs[0].e + 2 <= rs[n - 1].s;
    var i :| 0 <= i < n && rs[i].s <= m <= rs[i].e;
    if i == 0 || i == n - 1 {
      assert CoversCircular(d[0], m);
    } else {
      assert d[i] == rs[i];
      assert CoversCircular(d[i], m);
    }
  }

  /** A month the merged display shows lies in one of the runs. */
  lemma MergedCoverDisplay(rs: seq<Range>, m: int)
    requires YearRuns(rs) && Merges(rs) && IsMonth(m) && InDisplay(DisplayRuns(rs), m)
    ensures InRuns(rs, m)
  {
    var n := |rs|;
    var d := DisplayRuns(rs);
    assert rs[0].e + 2 <= rs[n - 1].s;
    var i :| 0 <= i < |d| && CoversCircular(d[i], m);
    if i == 0 {
      if rs[n - 1].s <= m {
        assert rs[n - 1].s <= m <= rs[n - 1].e;
      } else {
        assert rs[0].s <= m <= rs[0].e;
      }
    } else {
      assert d[i] == rs[i];
      assert rs[i].s <= m <= rs[i].e;
    }
  }

  /** Reordering for display keeps the months shown: read circularly, the display runs cover
      exactly the months of the runs. */
  lemma DisplayRunsCover(rs: seq<Range>)
    requires YearRuns(rs)
    ensures forall m :: IsMonth(m) ==> (InDisplay(DisplayRuns(rs), m) <==> InRuns(rs, m))
  {
    forall m | IsMonth(m)
      ensures InDisplay(DisplayRuns(rs), m) <==> InRuns(rs, m)
    {
      if Merges(rs) {
        MergedCover(rs, m);
      } else {
        if InRuns(rs, m) {
          var i :| 0 <= i < |rs| && rs[i].s <= m <= rs[i].e;
          assert CoversCircular(rs[i], m);
        }
        if InDisplay(rs, m) {
          var i :| 0 <= i < |rs| && CoversCircular(rs[i], m);
          assert rs[i].s <= m <= rs[i].e;
        }
      }
    }
  }

  // ---------------------------------------------------------------------------
  // Rendering: `${s}月` for a one-month run, `${s}月～${e}月` otherwise, joined with "、".

  predicate IsDigit(c: char) { '0' <= c <= '9' }

  function Digit(d: int): (c: char)
    requires 0 <= d <= 9
    ensures IsDigit(c) && c as int - '0' as int == d
  {
    (('0' as int) + d) as char
  }

  /** The decimal numeral of a month. */
  function MonthText(m: int): (t: string)
    requires IsMonth(m)
    ensures 1 <= |t| <= 2 && forall i :: 0 <= i < |t| ==> IsDigit(t[i])
  {
    if m < 10 then [Digit(m)] else ['1', Digit(m - 10)]
  }

  function RangeLabel(r: Range): string
    requires IsMonth(r.s) && IsMonth(r.e)
  {
    if r.s == r.e then MonthText(r.s) + "月"
    else MonthText(r.s) + "月～" + MonthText(r.e) + "月"
  }

  function Render(d: seq<Range>): string
    requires MonthRuns(d)
  {
    if d == [] then ""
    else if |d| == 1 then RangeLabel(d[0])
    else RangeLabel(d[0]) + "、" + Render(d[1..])
  }

  // ---------------------------------------------------------------------------
  // Reading a rendered month display back into runs.

  /** A one- or two-digit numeral at the front of `t`, and what follows it. */
  function ParseNumber(t: string): (r: Option<(int, string)>)
    ensures r.Some? ==> |r.value.1| < |t|
  {
    if t == [] || !IsDigit(t[0]) then None
    else if |t| >= 2 && IsDigit(t[1]) then
      Some((10 * (t[0] as int - '0' as int) + (t[1] as int - '0' as int), t[2..]))
    else Some((t[0] as int - '0' as int, t[1..]))
  }

  /** One run label at the front of `t`, and what follows it. */
  function ParseLabel(t: string): (r: Option<(Range, string)>)
    ensures r.Some? ==> |r.value.1| < |t|
  {
    match ParseNumber(t)
    case None => None
    case Some((s, t1)) =>
      if t1 == [] || t1[0] != '月' then None
      else
        var t2 := t1[1..];
        if t2 != [] && t2[0] == '～' then
          match ParseNumber(t2[1..])
          case None => None
          case Some((e, t3)) =>
            if t3 == [] || t3[0] != '月' then None else Some((Range(s, e), t3[1..]))
        else Some((Range(s, s), t2))
  }

  /** A non-empty "、"-separated list of run labels filling all of `t`. */
  function ParseLabels(t: string): Option<seq<Range>>
    decreases |t|
  {
    match ParseLabel(t)
    case None => None
    case Some((r, rest)) =>
      if rest == [] then Some([r])
      else if rest[0] == '、' && |rest| > 1 then
        match ParseLabels(rest[1..])
        case None => None
        case Some(rs) => Some([r] + rs)
      else None
  }

  /** The runs a month display string denotes; the empty string denotes no runs. */
  function ParseRuns(t: string): Option<seq<Range>> {
    if t == [] then Some([]) else ParseLabels(t)
  }

  lemma ParseMonthText(m: int, rest: string)
    requires IsMonth(m) && (rest == [] || !IsDigit(rest[0]))
    ensures ParseNumber(MonthText(m) + rest) == Some((m, rest))
  {
    var t := MonthText(m) + rest;
    if m < 10 {
      assert t[0] == Digit(m) && t[1..] == rest;
    } else {
      assert t[0] == '1' && t[1] == Digit(m - 10) && t[2..] == rest;
    }
  }

  lemma ParseRangeLabel(r: Range, rest: string)
    requires IsMonth(r.s) && IsMonth(r.e) && (rest == [] || rest[0] == '、')
    ensures ParseLabel(RangeLabel(r) + rest) == Some((r, rest))
  {
    if r.s == r.e {
      ParseSingleLabel(r, rest);
    } else {
      ParseSpanLabel(r, rest);
    }
  }

  lemma ParseSingleLabel(r: Range, rest: string)
    requires IsMonth(r.s) && r.s == r.e && (rest == [] || rest[0] == '、')
    ensures ParseLabel(RangeLabel(r) + rest) == Some((r, rest))
  {
    var ts := MonthText(r.s);
    var t1 := "月" + rest;
    assert RangeLabel(r) + rest == ts + t1;
    ParseMonthText(r.s, t1);
    assert t1[0] == '月' && t1[1..] == rest;
  }

  lemma ParseSpanLabel(r: Range, rest: string)
    requires IsMonth(r.s) && IsMonth(r.e) && r.s != r.e && (rest == [] || rest[0] == '、')
    ensures ParseLabel(RangeLabel(r) + rest) == Some((r, rest))
  {
    var ts, te := MonthText(r.s), MonthText(r.e);
    var t3 := "月" + rest;
    var u := te + t3;
    var t1 := "月～" + u;
    assert RangeLabel(r) + rest == ts + t1;
    ParseMonthText(r.s, t1);
    ParseMonthText(r.e, t3);
    ParseLabelOfSpan(ts + t1, r.s, r.e, u, rest);
  }

  /** A numeral, "月～", a numeral and "月" read as the span between the two numbers. */
  lemma ParseLabelOfSpan(t: string, s: int, e: int, u: string, rest: string)
    requires ParseNumber(t) == Some((s, "月～" + u))
    requires ParseNumber(u) == Some((e, "月" + rest))
    ensures ParseLabel(t) == Some((Range(s, e), rest))
  {
    var t1, t3 := "月～" + u, "月" + rest;
    assert t1[0] == '月' && t1[1..][0] == '～' && t1[1..][1..] == u;
    assert t3[0] == '月' && t3[1..] == rest;
  }

  /** Rendering loses nothing: reading a rendered display back yields the runs that were rendered. */
  lemma {:induction false} ParseRender(d: seq<Range>)
    requires MonthRuns(d)
    ensures ParseRuns(Render(d)) == Some(d)
    decreases |d|
  {
    if d != [] {
      ParseLabelsRender(d);
    }
  }

  lemma {:induction false} ParseLabelsRender(d: seq<Range>)
    requires MonthRuns(d) && d != []
    ensures Render(d) != [] && ParseLabels(Render(d)) == Some(d)
    decreases |d|
  {
    if |d| == 1 {
      ParseRangeLabel(d[0], "");
      assert RangeLabel(d[0]) + "" == RangeLabel(d[0]);
      assert d == [d[0]];
    } else {
      var tail := Render(d[1..]);
      var rest := "、" + tail;
      ParseRangeLabel(d[0], rest);
      assert Render(d) == RangeLabel(d[0]) + rest;
      ParseLabelsRender(d[1..]);
      assert rest[0] == '、' && rest[1..] == tail && |rest| > 1;
      assert ParseLabels(rest[1..]) == Some(d[1..]);
      assert [d[0]] + d[1..] == d;
    }
  }

  /** Different run lists are displayed differently. */
  lemma RenderInjective(d1: seq<Range>, d2: seq<Range>)
    requires MonthRuns(d1) && MonthRuns(d2) && Render(d1) == Render(d2)
    ensures d1 == d2
  {
    ParseRender(d1);
    ParseRender(d2);
  }

  /** A non-empty run list never renders as the empty string or as the whole-year label. */
  lemma RenderIsNotALabel(d: seq<Range>)
    requires MonthRuns(d) && d != []
    ensures Render(d) != "" && Render(d) != AllYearLabel
  {
    ParseRender(d);
    assert ParseNumber(AllYearLabel) == Some((1, AllYearLabel[1..]));
    assert ParseRuns(AllYearLabel) == None;
  }

  // ---------------------------------------------------------------------------

  /** Runs of a month list, bounded by the calendar year. */
  lemma RunsOfMonthsAreYearRuns(months: seq<int>)
    ensures YearRuns(Runs(SortedMonths(months)))
  {
    var a := SortedMonths(months);
    var rs := Runs(a);
    if rs != [] {
      assert InRuns(rs, rs[0].s);
      assert InRuns(rs, rs[|rs| - 1].e);
    }
  }

  /** `formatMonthsDisplayFromArray`. */
  function FormatMonthsDisplay(months: seq<int>): string {
    var uniq := SortedMonths(months);
    if |uniq| == 0 then ""
    else if |uniq| == 12 then AllYearLabel
    else
      var ranges := Runs(uniq);
      if |ranges| == 0 then ""
      else
        RunsOfMonthsAreYearRuns(months);
        DisplayRunsShape(ranges);
        Render(DisplayRuns(ranges))
  }

  /** The display is empty exactly when no value of the list is a month, and is the whole-year
      label exactly when all twelve months are present. */
  lemma FormatMonthsDisplayLabels(months: seq<int>)
    ensures FormatMonthsDisplay(months) == "" <==> MonthSet(months) == {}
    ensures FormatMonthsDisplay(months) == AllYearLabel <==> MonthSet(months) == AllMonths
  {
    var uniq := SortedMonths(months);
    if |uniq| == 0 {
      assert forall m :: m !in MonthSet(months);
      assert MonthSet(months) == {};
      assert 1 in AllMonths;
    } else if |uniq| != 12 {
      assert uniq[0] in MonthSet(months);
      FormatIsRenderedRuns(months);
      RenderIsNotALabel(DisplayRuns(Runs(uniq)));
    }
  }

  /** Given that not all twelve months are active, the merge rule fires exactly when both
      January and December are. */
  lemma MergesIffJanuaryAndDecember(months: seq<int>)
    requires MonthSet(months) != AllMonths
    ensures Merges(Runs(SortedMonths(months))) <==> 1 in MonthSet(months) && 12 in MonthSet(months)
  {
    var a := SortedMonths(months);
    var rs := Runs(a);
    var ms := MonthSet(months);
    RunsOfMonthsAreYearRuns(months);
    RunsCharacterized(months, rs);
    if Merges(rs) {
      assert InRuns(rs, rs[0].s) && InRuns(rs, rs[|rs| - 1].e);
    }
    if 1 in ms && 12 in ms {
      FirstRunStartsLowest(rs, ms, 1);
      LastRunEndsHighest(rs, ms, 12);
      // A single run from January to December would hold every month.
      assert |rs| == 1 ==> forall m :: 1 <= m <= 12 ==> InRuns(rs, m);
      AllMonthsPresent(months);
    }
  }

  /** For a partial-year month list the display is the rendering of its display runs. */
  lemma FormatIsRenderedRuns(months: seq<int>)
    requires MonthSet(months) != {} && MonthSet(months) != AllMonths
    ensures var rs := Runs(SortedMonths(months));
      && YearRuns(rs) && MonthRuns(DisplayRuns(rs))
      && FormatMonthsDisplay(months) == Render(DisplayRuns(rs))
  {
    var a := SortedMonths(months);
    var x :| x in MonthSet(months);
    assert x in a;
    RunsOfMonthsAreYearRuns(months);
    DisplayRunsShape(Runs(a));
  }

  /** The display runs of a month list, read circularly, cover exactly its months. */
  lemma DisplayDenotesMonths(months: seq<int>)
    ensures var d := DisplayRuns(Runs(SortedMonths(months)));
      forall m :: IsMonth(m) ==> (InDisplay(d, m) <==> m in MonthSet(months))
  {
    var a := SortedMonths(months);
    RunsOfMonthsAreYearRuns(months);
    DisplayRunsCover(Runs(a));
    forall m | IsMonth(m)
      ensures InRuns(Runs(a), m) <==> m in MonthSet(months)
    {
      assert m in a <==> m in MonthSet(months);
    }
  }

  /** After the first display run, the runs do not wrap and ascend with gaps between them. */
  lemma DisplayTailAscends(rs: seq<Range>)
    requires YearRuns(rs)
    ensures var d := DisplayRuns(rs);
      && (forall i :: 1 <= i < |d| ==> d[i].s <= d[i].e)
      && (d != [] ==> Separated(d[1..]))
  {
    var d := DisplayRuns(rs);
    DisplayRunsShape(rs);
    if Merges(rs) {
      assert d[1..] == rs[1..|rs| - 1];
      SeparatedSlice(rs, 1, |rs| - 1);
    } else if d != [] {
      SeparatedSlice(rs, 1, |rs|);
    }
  }

  /** Read back, the display of a partial-year month list denotes exactly its months on the
      circular calendar; only the first run may wrap past December, which happens exactly when
      January and December are both active; the other runs ascend with gaps between them. */
  lemma FormatMonthsDisplayReadsBack(months: seq<int>)
    requires MonthSet(months) != {} && MonthSet(months) != AllMonths
    ensures var t := ParseRuns(FormatMonthsDisplay(months));
      && t.Some? && t.value != []
      && (forall m :: IsMonth(m) ==> (InDisplay(t.value, m) <==> m in MonthSet(months)))
      && (t.value[0].s > t.value[0].e <==> 1 in MonthSet(months) && 12 in MonthSet(months))
      && (forall i :: 1 <= i < |t.value| ==> t.value[i].s <= t.value[i].e)
      && Separated(t.value[1..])
  {
    var a := SortedMonths(months);
    var rs := Runs(a);
    var d := DisplayRuns(rs);
    FormatIsRenderedRuns(months);
    ParseRender(d);
    assert ParseRuns(FormatMonthsDisplay(months)) == Some(d);
    assert rs != [] by {
      var x :| x in MonthSet(months);
      assert x in a;
    }
    DisplayRunsShape(rs);
    MergesIffJanuaryAndDecember(months);
    DisplayDenotesMonths(months);
    RunsOfMonthsAreYearRuns(months);
    DisplayTailAscends(rs);
  }

  /** The year runs a wrapping first display run stands for: its part from January, the runs
      after it, then its part up to December. */
  function Unwrapped(d: seq<Range>): seq<Range>
    requires d != []
  {
    [Range(1, d[0].e)] + d[1..] + [Range(d[0].s, 12)]
  }

  /** `d` shows the month set `ms` in display form: runs of months that, read circularly, cover
      exactly `ms`. A first run that wraps past December leaves separated runs once it is cut at
      the new year. Without a wrap the runs are separated and never hold both a January start
      and a December end, which would have been merged. */
  ghost predicate IsDisplayOf(d: seq<Range>, ms: set<int>) {
    && d != [] && MonthRuns(d) && ms <= AllMonths
    && (forall m :: IsMonth(m) ==> (InDisplay(d, m) <==> m in ms))
    && (if d[0].s > d[0].e then Separated(Unwrapped(d)) else Separated(d) && !Merges(d))
  }

  /** Cutting the merged run at the new year gives back the runs it was merged from. */
  lemma UnwrapMerged(rs: seq<Range>)
    requires Merges(rs)
    ensures Unwrapped(DisplayRuns(rs)) == rs
  {
    var n := |rs|;
    var u := Unwrapped(DisplayRuns(rs));
    assert |u| == n;
    forall i | 0 <= i < n ensures u[i] == rs[i] {
      if 0 < i < n - 1 {
        assert u[i] == rs[1..n - 1][i - 1];
      }
    }
  }

  /** Merging the runs of a wrapping display, cut at the new year, gives back the display. */
  lemma MergeUnwrapped(d: seq<Range>)
    requires d != [] && d[0].s > d[0].e
    ensures Merges(Unwrapped(d)) && DisplayRuns(Unwrapped(d)) == d
  {
    var u := Unwrapped(d);
    assert u[1..|u| - 1] == d[1..];
    assert DisplayRuns(u) == [d[0]] + d[1..];
  }

  /** The display runs of a partial-year month list show its months in display form. */
  lemma DisplayRunsAreDisplay(months: seq<int>)
    requires MonthSet(months) != {} && MonthSet(months) != AllMonths
    ensures IsDisplayOf(DisplayRuns(Runs(SortedMonths(months))), MonthSet(months))
  {
    var a := SortedMonths(months);
    var rs := Runs(a);
    assert rs != [] by {
      var x :| x in MonthSet(months);
      assert x in a;
    }
    RunsOfMonthsAreYearRuns(months);
    DisplayRunsShape(rs);
    DisplayDenotesMonths(months);
    if Merges(rs) {
      UnwrapMerged(rs);
    }
  }

  /** A month of a wrapping display's unwrapped runs is one the display shows. */
  lemma UnwrappedCoverRuns(d: seq<Range>, m: int)
    requires d != [] && MonthRuns(d) && d[0].s > d[0].e && Separated(Unwrapped(d))
    requires InRuns(Unwrapped(d), m)
    ensures IsMonth(m) && InDisplay(d, m)
  {
    var u := Unwrapped(d);
    var n := |u|;
    var i :| 0 <= i < n && u[i].s <= m <= u[i].e;
    if i == 0 {
      assert CoversCircular(d[0], m);
    } else if i == n - 1 {
      assert u[0].e + 2 <= u[i].s;
      assert CoversCircular(d[0], m);
    } else {
      assert u[i] == d[i];
      assert u[0].e + 2 <= u[i].s && u[i].e + 2 <= u[n - 1].s;
      assert CoversCircular(d[i], m);
    }
  }

  /** A month a wrapping display shows lies in its unwrapped runs. */
  lemma UnwrappedCoverDisplay(d: seq<Range>, m: int)
    requires d != [] && d[0].s > d[0].e && Separated(Unwrapped(d))
    requires IsMonth(m) && InDisplay(d, m)
    ensures InRuns(Unwrapped(d), m)
  {
    var u := Unwrapped(d);
    var n := |u|;
    var i :| 0 <= i < |d| && CoversCircular(d[i], m);
    if i == 0 {
      if d[0].s <= m {
        assert u[n - 1].s <= m <= u[n - 1].e;
      } else {
        assert u[0].s <= m <= u[0].e;
      }
    } else {
      assert u[i] == d[i];
      assert u[i].s <= m <= u[i].e;
    }
  }

  /** A wrapping display of a month list's months is the display of its maximal runs. */
  lemma WrappedDisplayOf(months: seq<int>, d: seq<Range>)
    requires IsDisplayOf(d, MonthSet(months)) && d[0].s > d[0].e
    ensures d == DisplayRuns(Runs(SortedMonths(months)))
  {
    var ms := MonthSet(months);
    var u := Unwrapped(d);
    forall m ensures InRuns(u, m) <==> m in ms {
      if InRuns(u, m) {
        UnwrappedCoverRuns(d, m);
      }
      if m in ms {
        assert m in AllMonths;
        UnwrappedCoverDisplay(d, m);
      }
    }
    assert IsRunDecomposition(u, ms);
    RunsCharacterized(months, u);
    var rs := Runs(SortedMonths(months));
    assert u == rs;
    MergeUnwrapped(d);
    assert DisplayRuns(u) == d;
  }

  /** Runs that do not wrap show, read circularly, exactly the months they hold. */
  lemma PlainCover(d: seq<Range>, m: int)
    requires MonthRuns(d) && Separated(d)
    ensures InRuns(d, m) <==> IsMonth(m) && InDisplay(d, m)
  {
    if InRuns(d, m) {
      var i :| 0 <= i < |d| && d[i].s <= m <= d[i].e;
      assert IsMonth(d[i].s) && IsMonth(d[i].e);
      assert CoversCircular(d[i], m);
    }
    if InDisplay(d, m) {
      var i :| 0 <= i < |d| && CoversCircular(d[i], m);
      assert d[i].s <= m <= d[i].e;
    }
  }

  /** A display without a wrap of a month list's months is the display of its maximal runs. */
  lemma PlainDisplayOf(months: seq<int>, d: seq<Range>)
    requires IsDisplayOf(d, MonthSet(months)) && d[0].s <= d[0].e
    ensures d == DisplayRuns(Runs(SortedMonths(months)))
  {
    var ms := MonthSet(months);
    forall m ensures InRuns(d, m) <==> m in ms {
      PlainCover(d, m);
      assert m in ms ==> m in AllMonths;
    }
    assert IsRunDecomposition(d, ms);
    RunsCharacterized(months, d);
    assert !Merges(d);
  }

  /** For a list with some but not all months, the display is the rendering of a run list
      exactly when that list shows the list's months in display form. */
  lemma FormatMonthsDisplayIsDisplay(months: seq<int>, d: seq<Range>)
    requires MonthSet(months) != {} && MonthSet(months) != AllMonths && MonthRuns(d)
    ensures FormatMonthsDisplay(months) == Render(d) <==> IsDisplayOf(d, MonthSet(months))
  {
    var dr := DisplayRuns(Runs(SortedMonths(months)));
    FormatIsRenderedRuns(months);
    DisplayRunsAreDisplay(months);
    if FormatMonthsDisplay(months) == Render(d) {
      RenderInjective(d, dr);
    }
    if IsDisplayOf(d, MonthSet(months)) {
      if d[0].s > d[0].e {
        WrappedDisplayOf(months, d);
      } else {
        PlainDisplayOf(months, d);
      }
    }
  }

  /** The runs of the example month list in the comment on `formatMonthsDisplayFromArray`. */
  lemma ExampleRuns()
    ensures IsRunDecomposition([Range(1, 4), Range(7, 9), Range(11, 12)],
                               MonthSet([1, 2, 3, 4, 7, 8, 9, 11, 12]))
  {
    var months := [1, 2, 3, 4, 7, 8, 9, 11, 12];
    var rs := [Range(1, 4), Range(7, 9), Range(11, 12)];
    forall m ensures InRuns(rs, m) <==> m in MonthSet(months) {
      if 1 <= m <= 4 {
        assert rs[0].s <= m <= rs[0].e;
      } else if 7 <= m <= 9 {
        assert rs[1].s <= m <= rs[1].e;
      } else if 11 <= m <= 12 {
        assert rs[2].s <= m <= rs[2].e;
      }
    }
  }

  // The example lemmas take their literal operands as parameters fixed by a requires: the solver
  // then reasons about a variable instead of re-expanding the literal in every step.

  /** The rendering of the example's display runs. */
  lemma ExampleRender(d: seq<Range>)
    requires d == [Range(11, 4), Range(7, 9)]
    ensures Render(d) == "11月～4月、7月～9月"
  {
    assert RangeLabel(d[0]) == "11月～4月";
    assert RangeLabel(d[1]) == "7月～9月";
    assert Render(d) == RangeLabel(d[0]) + "、" + RangeLabel(d[1]);
  }

  /** The merge rule applied to the example's runs. */
  lemma ExampleMerge(rs: seq<Range>)
    requires rs == [Range(1, 4), Range(7, 9), Range(11, 12)]
    ensures DisplayRuns(rs) == [Range(11, 4), Range(7, 9)]
  {
    assert Merges(rs);
    assert rs[1..|rs| - 1] == [Range(7, 9)];
  }

  /** The example list is displayed as the rendering of the display runs of 1-4, 7-9, 11-12. */
  lemma ExampleDisplayRuns(months: seq<int>, rs: seq<Range>)
    requires months == [1, 2, 3, 4, 7, 8, 9, 11, 12]
    requires rs == [Range(1, 4), Range(7, 9), Range(11, 12)]
    ensures FormatMonthsDisplay(months) == Render(DisplayRuns(rs))
  {
    ExampleRuns();
    RunsCharacterized(months, rs);
    assert 5 !in MonthSet(months) && 1 in MonthSet(months);
    FormatIsRenderedRuns(months);
  }

  /** The example in the comment on `formatMonthsDisplayFromArray`: 1-4, 7-9 and 11-12 display
      as "11月～4月、7月～9月". */
  lemma FormatExample(months: seq<int>)
    requires months == [1, 2, 3, 4, 7, 8, 9, 11, 12]
    ensures FormatMonthsDisplay(months) == "11月～4月、7月～9月"
  {
    var rs := [Range(1, 4), Range(7, 9), Range(11, 12)];
    ExampleDisplayRuns(months, rs);
    ExampleMerge(rs);
    ExampleRender(DisplayRuns(rs));
  }
}
