/** Month lists and their decomposition into maximal contiguous runs
    (`monthsToRangeObjs`). */
module MonthRanges {

  predicate IsMonth(m: int) { 1 <= m <= 12 }

  /** Every month of the calendar. */
  const AllMonths: set<int> := set m | 1 <= m <= 12

  /** The months a stored month list denotes: its values in 1..12, duplicates merged. */
  function MonthSet(months: seq<int>): set<int> {
    set m | m in months && IsMonth(m)
  }

  predicate StrictlyAscending(a: seq<int>) {
    forall i, j :: 0 <= i < j < |a| ==> a[i] < a[j]
  }

  /** The months k..12 that occur in `months`, ascending, each once. */
  function MonthsFrom(months: seq<int>, k: int): (a: seq<int>)
    requires 1 <= k <= 13
    ensures StrictlyAscending(a)
    ensures forall m :: m in a <==> k <= m <= 12 && m in months
    ensures |a| <= 13 - k
    ensures |a| == 13 - k <==> forall m :: k <= m <= 12 ==> m in months
    decreases 13 - k
  {
    if k == 13 then []
    else
      var rest := MonthsFrom(months, k + 1);
      assert forall i :: 0 <= i < |rest| ==> k < rest[i] by {
        forall i | 0 <= i < |rest| ensures k < rest[i] {
          assert rest[i] in rest;
        }
      }
      if k in months then [k] + rest else rest
  }

  /** The in-range values of `months`, deduplicated and sorted ascending
      (`Array.from(new Set(...)).sort(...)` after dropping values outside 1..12). */
  function SortedMonths(months: seq<int>): (a: seq<int>)
    ensures StrictlyAscending(a)
    ensures forall m :: m in a <==> m in MonthSet(months)
    ensures |a| == 12 <==> MonthSet(months) == AllMonths
  {
    AllMonthsPresent(months);
    MonthsFrom(months, 1)
  }

  /** A month list covers the whole year exactly when each of 1..12 occurs in it. */
  lemma AllMonthsPresent(months: seq<int>)
    ensures (forall m :: 1 <= m <= 12 ==> m in months) <==> MonthSet(months) == AllMonths
  {
    if forall m :: 1 <= m <= 12 ==> m in months {
      forall m ensures m in AllMonths <==> m in MonthSet(months) {
      }
    }
    if MonthSet(months) == AllMonths {
      forall m | 1 <= m <= 12 ensures m in months {
        assert m in AllMonths;
      }
    }
  }

  /** A range object `{s, e}`: the months s..e. */
  datatype Range = Range(s: int, e: int)

  /** Month `m` lies inside one of the runs. */
  predicate InRuns(rs: seq<Range>, m: int) {
    exists i :: 0 <= i < |rs| && rs[i].s <= m <= rs[i].e
  }

  /** Every run is non-empty, the runs ascend, and between two runs at least one month is missing. */
  predicate Separated(rs: seq<Range>) {
    && (forall i :: 0 <= i < |rs| ==> rs[i].s <= rs[i].e)
    && (forall i, j :: 0 <= i < j < |rs| ==> rs[i].e + 2 <= rs[j].s)
  }

  /** A contiguous stretch of separated runs is separated. */
  lemma SeparatedSlice(rs: seq<Range>, lo: int, hi: int)
    requires Separated(rs) && 0 <= lo <= hi <= |rs|
    ensures Separated(rs[lo..hi])
  {
    var t := rs[lo..hi];
    assert forall i :: 0 <= i < |t| ==> t[i] == rs[lo + i];
  }

  /** `rs` is the decomposition of the month set `ms` into maximal contiguous runs. */
  ghost predicate IsRunDecomposition(rs: seq<Range>, ms: set<int>) {
    Separated(rs) && forall m :: InRuns(rs, m) <==> m in ms
  }

  /** Extending the last run by the month just after it keeps the runs separated and adds that month. */
  lemma ExtendLastRun(prev: seq<Range>, m: int)
    requires Separated(prev) && prev != [] && prev[|prev| - 1].e + 1 == m
    ensures var rs := prev[..|prev| - 1] + [Range(prev[|prev| - 1].s, m)];
      && Separated(rs)
      && rs[0].s == prev[0].s
      && forall x :: InRuns(rs, x) <==> InRuns(prev, x) || x == m
  {
    var last := prev[|prev| - 1];
    var rs := prev[..|prev| - 1] + [Range(last.s, m)];
    forall x
      ensures InRuns(rs, x) <==> InRuns(prev, x) || x == m
    {
      if InRuns(prev, x) {
        var i :| 0 <= i < |prev| && prev[i].s <= x <= prev[i].e;
        assert rs[i].s <= x <= rs[i].e;
      }
      if x == m {
        assert rs[|rs| - 1].s <= x <= rs[|rs| - 1].e;
      }
      if InRuns(rs, x) {
        var i :| 0 <= i < |rs| && rs[i].s <= x <= rs[i].e;
        if i < |rs| - 1 {
          assert prev[i] == rs[i];
        } else if x < m {
          assert prev[|prev| - 1].s <= x <= prev[|prev| - 1].e;
        }
      }
    }
  }

  /** Opening a new one-month run at least two months after the last run keeps the runs separated. */
  lemma OpenRun(prev: seq<Range>, m: int)
    requires Separated(prev) && (prev != [] ==> prev[|prev| - 1].e + 2 <= m)
    ensures var rs := prev + [Range(m, m)];
      && Separated(rs)
      && (prev != [] ==> rs[0] == prev[0])
      && forall x :: InRuns(rs, x) <==> InRuns(prev, x) || x == m
  {
    var rs := prev + [Range(m, m)];
    forall i, j | 0 <= i < j < |rs|
      ensures rs[i].e + 2 <= rs[j].s
    {
      if j == |rs| - 1 && i < |prev| - 1 {
        assert prev[i].e + 2 <= prev[|prev| - 1].s;
      }
    }
    forall x
      ensures InRuns(rs, x) <==> InRuns(prev, x) || x == m
    {
      if InRuns(prev, x) {
        var i :| 0 <= i < |prev| && prev[i].s <= x <= prev[i].e;
        assert rs[i] == prev[i];
      }
      if x == m {
        assert rs[|rs| - 1].s <= x <= rs[|rs| - 1].e;
      }
      if InRuns(rs, x) {
        var i :| 0 <= i < |rs| && rs[i].s <= x <= rs[i].e;
        if i < |prev| {
          assert prev[i] == rs[i];
        }
      }
    }
  }

  /** One step of the scan: month `m` extends the last run when it directly follows it, and
      opens a new one-month run otherwise. */
  function Step(prev: seq<Range>, m: int): seq<Range> {
    if prev != [] && prev[|prev| - 1].e + 1 == m then
      prev[..|prev| - 1] + [Range(prev[|prev| - 1].s, m)]
    else
      prev + [Range(m, m)]
  }

  /** A step by a month above every listed month keeps the runs separated, adds exactly that
      month, keeps the first run's start and ends the last run at that month. */
  lemma StepProps(prev: seq<Range>, m: int)
    requires Separated(prev) && (prev != [] ==> prev[|prev| - 1].e < m)
    ensures var rs := Step(prev, m);
      && Separated(rs)
      && (forall x :: InRuns(rs, x) <==> InRuns(prev, x) || x == m)
      && |rs| <= |prev| + 1
      && rs != []
      && rs[0].s == (if prev == [] then m else prev[0].s)
      && rs[|rs| - 1].e == m
  {
    if prev != [] && prev[|prev| - 1].e + 1 == m {
      ExtendLastRun(prev, m);
    } else {
      OpenRun(prev, m);
    }
  }

  /** The maximal runs of an ascending list, built by stepping through its months in order. */
  function Runs(a: seq<int>): (rs: seq<Range>)
    requires StrictlyAscending(a)
    ensures Separated(rs)
    ensures forall m :: InRuns(rs, m) <==> m in a
    ensures |rs| <= |a|
    ensures a == [] <==> rs == []
    ensures a != [] ==> rs[0].s == a[0] && rs[|rs| - 1].e == a[|a| - 1]
    decreases |a|
  {
    if a == [] then []
    else
      LastElement(a);
      StepProps(Runs(a[..|a| - 1]), a[|a| - 1]);
      Step(Runs(a[..|a| - 1]), a[|a| - 1])
  }

  /** An ascending list is its front followed by its largest element. */
  lemma LastElement(a: seq<int>)
    requires StrictlyAscending(a) && a != []
    ensures StrictlyAscending(a[..|a| - 1])
    ensures forall x :: x in a <==> x in a[..|a| - 1] || x == a[|a| - 1]
    ensures |a| > 1 ==> a[..|a| - 1][0] == a[0] && a[..|a| - 1][|a| - 2] < a[|a| - 1]
  {
    assert a == a[..|a| - 1] + [a[|a| - 1]];
  }

  /** The runs of a longer prefix are one step on from the runs of the shorter one. */
  lemma RunsStep(a: seq<int>, i: int)
    requires StrictlyAscending(a) && 1 <= i < |a|
    ensures Runs(a[..i]) != []
    ensures Runs(a[..i + 1]) == Step(Runs(a[..i]), a[i])
  {
    var b := a[..i + 1];
    assert b[..|b| - 1] == a[..i] && b[|b| - 1] == a[i];
  }

  /** `monthsToRangeObjs`: the in-range months of `months`, deduplicated and sorted, as
      maximal runs. */
  method MonthsToRangeObjs(months: seq<int>) returns (ranges: seq<Range>)
    ensures ranges == Runs(SortedMonths(months))
    ensures IsRunDecomposition(ranges, MonthSet(months))
  {
    var a := SortedMonths(months);
    RunsDecompose(months);
    ranges := ScanRuns(a);
  }

  /** The single left-to-right pass of `monthsToRangeObjs` over the sorted months: extend the
      open run by the next month, or close it and open a new one. */
  method ScanRuns(a: seq<int>) returns (ranges: seq<Range>)
    requires StrictlyAscending(a)
    ensures ranges == Runs(a)
  {
    if a == [] {
      return [];
    }
    ranges := [];
    var s, p := a[0], a[0];
    var i := 1;
    RunsOfFirst(a);
    while i < |a|
      invariant 1 <= i <= |a|
      invariant ranges + [Range(s, p)] == Runs(a[..i])
    {
      var m := a[i];
      LoopStep(a, i, ranges, s, p);
      if m == p + 1 {
        p := m;
      } else {
        ranges := ranges + [Range(s, p)];
        s, p := m, m;
      }
      i := i + 1;
    }
    ranges := ranges + [Range(s, p)];
    assert a[..i] == a;
  }

  /** The first month alone forms one run. */
  lemma RunsOfFirst(a: seq<int>)
    requires StrictlyAscending(a) && a != []
    ensures Runs(a[..1]) == [Range(a[0], a[0])]
  {
    var b := a[..1];
    assert b[..0] == [] && b[0] == a[0];
  }

  /** One pass of the loop body keeps the loop's open run and closed runs equal to the runs of
      the months scanned so far. */
  lemma LoopStep(a: seq<int>, i: int, closed: seq<Range>, s: int, p: int)
    requires StrictlyAscending(a) && 1 <= i < |a|
    requires closed + [Range(s, p)] == Runs(a[..i])
    ensures a[i] == p + 1 ==> closed + [Range(s, a[i])] == Runs(a[..i + 1])
    ensures a[i] != p + 1 ==> (closed + [Range(s, p)]) + [Range(a[i], a[i])] == Runs(a[..i + 1])
  {
    RunsStep(a, i);
    var prev := closed + [Range(s, p)];
    assert prev[..|prev| - 1] == closed && prev[|prev| - 1] == Range(s, p);
  }

  /** The runs of the sorted month list decompose the list's month set. */
  lemma RunsDecompose(months: seq<int>)
    ensures IsRunDecomposition(Runs(SortedMonths(months)), MonthSet(months))
  {
    var a := SortedMonths(months);
    forall m ensures InRuns(Runs(a), m) <==> m in MonthSet(months) {
      assert m in a <==> m in MonthSet(months);
    }
  }

  /** The months of `ms` after month `e`. */
  function MonthsAfter(ms: set<int>, e: int): set<int> {
    set m | m in ms && m > e
  }

  /** Dropping the first run of a decomposition leaves a decomposition of the later months. */
  lemma DropFirstRun(rs: seq<Range>, ms: set<int>)
    requires IsRunDecomposition(rs, ms) && rs != []
    ensures IsRunDecomposition(rs[1..], MonthsAfter(ms, rs[0].e))
  {
    var tl := rs[1..];
    forall m
      ensures InRuns(tl, m) <==> m in MonthsAfter(ms, rs[0].e)
    {
      if InRuns(tl, m) {
        var j :| 0 <= j < |tl| && tl[j].s <= m <= tl[j].e;
        assert rs[j + 1] == tl[j];
        assert rs[0].e + 2 <= rs[j + 1].s;
        assert InRuns(rs, m);
      }
      if m in MonthsAfter(ms, rs[0].e) {
        assert InRuns(rs, m);
        var i :| 0 <= i < |rs| && rs[i].s <= m <= rs[i].e;
        assert i != 0;
        assert tl[i - 1] == rs[i];
      }
    }
  }

  /** A decomposition has runs exactly when the month set is non-empty. */
  lemma EmptyDecomposition(rs: seq<Range>, ms: set<int>)
    requires IsRunDecomposition(rs, ms)
    ensures rs == [] <==> ms == {}
  {
    if rs != [] {
      assert InRuns(rs, rs[0].s);
    } else {
      forall m ensures m !in ms {
        assert !InRuns(rs, m);
      }
      assert ms == {};
    }
  }

  /** The first run starts at or below every month of the set. */
  lemma FirstRunStartsLowest(rs: seq<Range>, ms: set<int>, x: int)
    requires IsRunDecomposition(rs, ms) && rs != [] && x in ms
    ensures rs[0].s <= x
  {
    assert InRuns(rs, x);
    var i :| 0 <= i < |rs| && rs[i].s <= x <= rs[i].e;
    if i > 0 {
      assert rs[0].e + 2 <= rs[i].s;
    }
  }

  /** The last run ends at or above every month of the set. */
  lemma LastRunEndsHighest(rs: seq<Range>, ms: set<int>, x: int)
    requires IsRunDecomposition(rs, ms) && rs != [] && x in ms
    ensures x <= rs[|rs| - 1].e
  {
    assert InRuns(rs, x);
    var i :| 0 <= i < |rs| && rs[i].s <= x <= rs[i].e;
    if i < |rs| - 1 {
      assert rs[i].e + 2 <= rs[|rs| - 1].s;
    }
  }

  /** The month right after the first run is missing from the set: runs are maximal. */
  lemma FirstRunEndsAtGap(rs: seq<Range>, ms: set<int>)
    requires IsRunDecomposition(rs, ms) && rs != []
    ensures rs[0].e + 1 !in ms
  {
    forall i | 0 <= i < |rs|
      ensures !(rs[i].s <= rs[0].e + 1 <= rs[i].e)
    {
      if i > 0 {
        assert rs[0].e + 2 <= rs[i].s;
      }
    }
    assert !InRuns(rs, rs[0].e + 1);
  }

  /** Two decompositions of the same set agree on their first run. */
  lemma FirstRunDetermined(rs1: seq<Range>, rs2: seq<Range>, ms: set<int>)
    requires IsRunDecomposition(rs1, ms) && IsRunDecomposition(rs2, ms)
    requires rs1 != [] && rs2 != []
    ensures rs1[0] == rs2[0]
  {
    var a, b := rs1[0], rs2[0];
    assert InRuns(rs1, a.s) && InRuns(rs2, b.s);
    FirstRunStartsLowest(rs1, ms, b.s);
    FirstRunStartsLowest(rs2, ms, a.s);
    FirstRunEndsAtGap(rs1, ms);
    FirstRunEndsAtGap(rs2, ms);
    assert a.e + 1 <= b.e ==> InRuns(rs2, a.e + 1);
    assert b.e + 1 <= a.e ==> InRuns(rs1, b.e + 1);
  }

  /** A month set has only one decomposition into maximal runs. */
  lemma {:induction false} RunDecompositionUnique(rs1: seq<Range>, rs2: seq<Range>, ms: set<int>)
    requires IsRunDecomposition(rs1, ms) && IsRunDecomposition(rs2, ms)
    ensures rs1 == rs2
    decreases |rs1|
  {
    EmptyDecomposition(rs1, ms);
    EmptyDecomposition(rs2, ms);
    if rs1 != [] {
      FirstRunDetermined(rs1, rs2, ms);
      DropFirstRun(rs1, ms);
      DropFirstRun(rs2, ms);
      RunDecompositionUnique(rs1[1..], rs2[1..], MonthsAfter(ms, rs1[0].e));
      assert rs1 == [rs1[0]] + rs1[1..];
      assert rs2 == [rs2[0]] + rs2[1..];
    }
  }

  /** The runs `monthsToRangeObjs` computes are the only decomposition of the in-range months into
      maximal runs. */
  lemma RunsCharacterized(months: seq<int>, rs: seq<Range>)
    ensures IsRunDecomposition(rs, MonthSet(months)) <==> rs == Runs(SortedMonths(months))
  {
    var a := SortedMonths(months);
    RunsDecompose(months);
    if IsRunDecomposition(rs, MonthSet(months)) {
      RunDecompositionUnique(rs, Runs(a), MonthSet(months));
    }
  }
}
