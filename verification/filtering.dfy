/** The per-category filter (`applyFilters`): a conjunction of predicates over items, applied
    in order-preserving fashion. */
module Filtering {
  import opened Seqs
  import opened MonthRanges
  import opened Catalog
  import opened AppState

  /** `getFishShadowLabelByNo`: the shadow-size label of an item number, "" when the table has
      none. The table's contents are a parameter. */
  function ShadowLabel(shadows: map<int, string>, no: int): string {
    if no in shadows then shadows[no] else ""
  }

  /** `needle` occurs in `hay` starting at index `i`. */
  predicate OccursAt(hay: string, needle: string, i: int) {
    0 <= i <= |hay| - |needle| && hay[i..i + |needle|] == needle
  }

  /** `hay.includes(needle)`. */
  predicate Contains(hay: string, needle: string) {
    exists i | 0 <= i <= |hay| - |needle| :: OccursAt(hay, needle, i)
  }

  /** The hemisphere `applyFilters` reads: the setting, or "north" when it is empty. */
  function FilterHemisphere(s: Settings): string {
    if s.hemisphere == "" then "north" else s.hemisphere
  }

  /** The item is active in all twelve months of the hemisphere (`mSet.size >= 12`). */
  predicate IsAllYear(item: Item, hemisphere: string) {
    |MonthSet(MonthsFor(item, hemisphere))| >= 12
  }

  /** The number of distinct values of an ascending list is its length. */
  lemma {:induction false} AscendingCardinality(a: seq<int>)
    requires StrictlyAscending(a)
    ensures |set m | m in a| == |a|
    decreases |a|
  {
    if a != [] {
      var init := a[..|a| - 1];
      AscendingCardinality(init);
      assert a == init + [a[|a| - 1]];
      assert a[|a| - 1] !in init;
      assert (set m | m in a) == (set m | m in init) + {a[|a| - 1]};
    }
  }

  /** Having twelve or more distinct in-range months means having every month. */
  lemma AllYearMeansEveryMonth(item: Item, hemisphere: string)
    ensures IsAllYear(item, hemisphere) <==> MonthSet(MonthsFor(item, hemisphere)) == AllMonths
  {
    var ms := MonthsFor(item, hemisphere);
    var a := SortedMonths(ms);
    AscendingCardinality(a);
    assert (set m | m in a) == MonthSet(ms);
  }

  /** The item passes every predicate of `applyFilters`, in the order it tests them: all-year
      exclusion, caught status, fish shadow, name query, place query (not for sea creatures).
      Queries are compared after `norm`, the text normalisation. */
  predicate Keep(kind: Kind, f: CategoryFilter, marks: map<string, Mark>, s: Settings,
                 shadows: map<int, string>, norm: string -> string, item: Item)
  {
    && (f.excludeAllYear ==> !IsAllYear(item, FilterHemisphere(s)))
    && (f.caught == CaughtOnly ==> MarkOf(marks, item.id).caught)
    && (f.caught == UncaughtOnly ==> !MarkOf(marks, item.id).caught)
    && (kind == Fish && f.shadow != "" ==> ShadowLabel(shadows, item.no) == f.shadow)
    && (norm(f.name) != "" ==> Contains(norm(item.name), norm(f.name)))
    && (kind != Sea && norm(f.place) != "" ==> Contains(norm(item.place), norm(f.place)))
  }

  /** `applyFilters`: the items that pass the filter, in their original order. */
  function ApplyFilters(kind: Kind, items: seq<Item>, f: CategoryFilter, marks: map<string, Mark>,
                        s: Settings, shadows: map<int, string>, norm: string -> string): (r: seq<Item>)
    ensures IsSubsequence(r, items)
    ensures forall i :: 0 <= i < |r| ==> r[i] in items && Keep(kind, f, marks, s, shadows, norm, r[i])
    ensures forall i :: 0 <= i < |items| && Keep(kind, f, marks, s, shadows, norm, items[i]) ==> items[i] in r
  {
    var keep := (it: Item) => Keep(kind, f, marks, s, shadows, norm, it);
    FilterIsSubsequence(items, keep);
    Filter(items, keep)
  }

  /** Turning on "exclude all-year" removes exactly the items active in every month of the
      hemisphere and leaves the others in order. */
  lemma ExcludeAllYearExact(kind: Kind, items: seq<Item>, f: CategoryFilter, marks: map<string, Mark>,
                            s: Settings, shadows: map<int, string>, norm: string -> string)
    ensures var hemi := FilterHemisphere(s);
      ApplyFilters(kind, items, f.(excludeAllYear := true), marks, s, shadows, norm)
      == Filter(ApplyFilters(kind, items, f.(excludeAllYear := false), marks, s, shadows, norm),
                (it: Item) => MonthSet(MonthsFor(it, hemi)) != AllMonths)
  {
    var hemi := FilterHemisphere(s);
    var on, off := f.(excludeAllYear := true), f.(excludeAllYear := false);
    forall it: Item ensures Keep(kind, on, marks, s, shadows, norm, it)
                        <==> Keep(kind, off, marks, s, shadows, norm, it)
                             && MonthSet(MonthsFor(it, hemi)) != AllMonths
    {
      AllYearMeansEveryMonth(it, hemi);
    }
    FilterTwice(items, (it: Item) => Keep(kind, off, marks, s, shadows, norm, it),
                (it: Item) => MonthSet(MonthsFor(it, hemi)) != AllMonths,
                (it: Item) => Keep(kind, on, marks, s, shadows, norm, it));
  }

  /** "Caught only" keeps exactly the marked items of the result without a status filter, in
      order. */
  lemma CaughtOnlyExact(kind: Kind, items: seq<Item>, f: CategoryFilter, marks: map<string, Mark>,
                        s: Settings, shadows: map<int, string>, norm: string -> string)
    ensures ApplyFilters(kind, items, f.(caught := CaughtOnly), marks, s, shadows, norm)
      == Filter(ApplyFilters(kind, items, f.(caught := AllItems), marks, s, shadows, norm),
                (it: Item) => MarkOf(marks, it.id).caught)
  {
    var all, only := f.(caught := AllItems), f.(caught := CaughtOnly);
    FilterTwice(items, (it: Item) => Keep(kind, all, marks, s, shadows, norm, it),
                (it: Item) => MarkOf(marks, it.id).caught,
                (it: Item) => Keep(kind, only, marks, s, shadows, norm, it));
  }

  /** "Uncaught only" keeps exactly the unmarked items of the result without a status filter,
      in order. */
  lemma UncaughtOnlyExact(kind: Kind, items: seq<Item>, f: CategoryFilter, marks: map<string, Mark>,
                          s: Settings, shadows: map<int, string>, norm: string -> string)
    ensures ApplyFilters(kind, items, f.(caught := UncaughtOnly), marks, s, shadows, norm)
      == Filter(ApplyFilters(kind, items, f.(caught := AllItems), marks, s, shadows, norm),
                (it: Item) => !MarkOf(marks, it.id).caught)
  {
    var all, only := f.(caught := AllItems), f.(caught := UncaughtOnly);
    FilterTwice(items, (it: Item) => Keep(kind, all, marks, s, shadows, norm, it),
                (it: Item) => !MarkOf(marks, it.id).caught,
                (it: Item) => Keep(kind, only, marks, s, shadows, norm, it));
  }

  /** The shadow filter and the name and place queries only ever remove items: the result with
      them is a subsequence of the result with all three empty (given that normalising the
      empty string yields the empty string). */
  lemma QueriesOnlyRemove(kind: Kind, items: seq<Item>, f: CategoryFilter, marks: map<string, Mark>,
                          s: Settings, shadows: map<int, string>, norm: string -> string)
    requires norm("") == ""
    ensures IsSubsequence(
      ApplyFilters(kind, items, f, marks, s, shadows, norm),
      ApplyFilters(kind, items, f.(shadow := "", name := "", place := ""), marks, s, shadows, norm))
  {
    var g := f.(shadow := "", name := "", place := "");
    FilterMonotone(items, (it: Item) => Keep(kind, f, marks, s, shadows, norm, it),
                   (it: Item) => Keep(kind, g, marks, s, shadows, norm, it));
  }

  /** The fish shadow filter set to `wanted` keeps exactly the items whose number the shadow
      table maps to `wanted`, in order; items the table does not list are dropped. */
  lemma ShadowFilterExact(items: seq<Item>, f: CategoryFilter, marks: map<string, Mark>,
                          s: Settings, shadows: map<int, string>, norm: string -> string,
                          wanted: string)
    requires wanted != ""
    ensures ApplyFilters(Fish, items, f.(shadow := wanted), marks, s, shadows, norm)
      == Filter(ApplyFilters(Fish, items, f.(shadow := ""), marks, s, shadows, norm),
                (it: Item) => it.no in shadows && shadows[it.no] == wanted)
  {
    var off, on := f.(shadow := ""), f.(shadow := wanted);
    FilterTwice(items, (it: Item) => Keep(Fish, off, marks, s, shadows, norm, it),
                (it: Item) => it.no in shadows && shadows[it.no] == wanted,
                (it: Item) => Keep(Fish, on, marks, s, shadows, norm, it));
  }

  /** The filter a category starts with (no status, shadow, name or place filter, all-year
      items included) keeps every item, in order. */
  lemma EmptyFilterKeepsAll(kind: Kind, items: seq<Item>, marks: map<string, Mark>,
                            s: Settings, shadows: map<int, string>, norm: string -> string)
    requires norm("") == ""
    ensures ApplyFilters(kind, items, CategoryFilter(AllItems, "", "", "", false), marks, s,
                         shadows, norm) == items
  {
    var f := CategoryFilter(AllItems, "", "", "", false);
    FilterKeepsAll(items, (it: Item) => Keep(kind, f, marks, s, shadows, norm, it));
  }
}
