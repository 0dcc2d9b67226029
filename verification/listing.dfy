/** The list a category tab shows (the filter and sort block of `renderList`): the filtered
    items, optionally only the catchable ones, sorted by catchability and number. */
module Listing {
  import opened Seqs
  import opened Clock
  import opened Catalog
  import opened AppState
  import opened Availability
  import opened Filtering

  /** With the "catchable now" display switched off, "only catchable" and "catchable first"
      are forced off; nothing else changes. */
  function EffectiveSettings(s: Settings): (e: Settings)
    ensures !s.showNowUI ==> !e.showNowOnly && !e.sortNowFirst
    ensures s.showNowUI ==> e == s
    ensures e.(showNowOnly := s.showNowOnly, sortNowFirst := s.sortNowFirst) == s
  {
    if s.showNowUI then s else s.(showNowOnly := false, sortNowFirst := false)
  }

  /** A sort key: the comparator orders by `rank`, then by item number. */
  datatype Key = Key(rank: int, no: int)

  predicate KeyLe(a: Key, b: Key) {
    a.rank < b.rank || (a.rank == b.rank && a.no <= b.no)
  }

  predicate SortedBy<T>(xs: seq<T>, key: T -> Key) {
    forall i, j :: 0 <= i < j < |xs| ==> KeyLe(key(xs[i]), key(xs[j]))
  }

  /** Putting an element in front of a sorted sequence whose keys are all at least its own. */
  lemma SortedCons<T>(y: T, rest: seq<T>, key: T -> Key)
    requires SortedBy(rest, key)
    requires forall i :: 0 <= i < |rest| ==> KeyLe(key(y), key(rest[i]))
    ensures SortedBy([y] + rest, key)
  {
    var r := [y] + rest;
    forall i, j | 0 <= i < j < |r| ensures KeyLe(key(r[i]), key(r[j])) {
      if i == 0 {
        assert r[j] == rest[j - 1];
      } else {
        assert r[i] == rest[i - 1] && r[j] == rest[j - 1];
      }
    }
  }

  /** Inserts `x` before the first element whose key is not below its own. */
  function Insert<T(==)>(x: T, ys: seq<T>, key: T -> Key): (r: seq<T>)
    requires SortedBy(ys, key)
    ensures SortedBy(r, key)
    ensures multiset(r) == multiset(ys) + multiset{x}
    decreases |ys|
  {
    if ys == [] then [x]
    else if KeyLe(key(x), key(ys[0])) then
      SortedCons(x, ys, key);
      [x] + ys
    else
      var tl := ys[1..];
      assert ys == [ys[0]] + tl;
      assert SortedBy(tl, key);
      var rest := Insert(x, tl, key);
      forall i | 0 <= i < |rest| ensures KeyLe(key(ys[0]), key(rest[i])) {
        assert rest[i] in multiset(rest);
        if rest[i] != x {
          assert rest[i] in multiset(tl);
          var j :| 0 <= j < |tl| && tl[j] == rest[i];
          assert ys[j + 1] == tl[j];
        }
      }
      SortedCons(ys[0], rest, key);
      [ys[0]] + rest
  }

  /** Stable insertion sort by `key` (JavaScript's `Array.prototype.sort` is stable). */
  function SortBy<T(==)>(xs: seq<T>, key: T -> Key): (r: seq<T>)
    ensures SortedBy(r, key)
    ensures multiset(r) == multiset(xs)
    decreases |xs|
  {
    if xs == [] then []
    else
      assert xs == [xs[0]] + xs[1..];
      Insert(xs[0], SortBy(xs[1..], key), key)
  }

  /** One step of `InsertKeepsTies`: passing over a head element that cannot tie with `x`. */
  lemma PassOverHead<T>(x: T, y: T, rest: seq<T>, tl: seq<T>, p: T -> bool)
    requires Filter(rest, p) == (if p(x) then [x] else []) + Filter(tl, p)
    requires p(x) ==> !p(y)
    ensures Filter([y] + rest, p) == (if p(x) then [x] else []) + Filter([y] + tl, p)
  {
    FilterCons(y, rest, p);
    FilterCons(y, tl, p);
    var fr, ft := Filter(rest, p), Filter(tl, p);
    if p(x) {
      assert Filter([y] + rest, p) == fr;
      assert Filter([y] + tl, p) == ft;
    } else {
      assert [] + ft == ft;
      assert fr == ft;
      if p(y) {
        assert Filter([y] + rest, p) == [y] + fr;
        assert Filter([y] + tl, p) == [y] + ft;
      } else {
        assert Filter([y] + rest, p) == fr;
        assert Filter([y] + tl, p) == ft;
      }
    }
  }

  /** Inserting `x` puts it ahead of every element with the same key. */
  lemma {:induction false} InsertKeepsTies<T>(x: T, ys: seq<T>, key: T -> Key, k: Key, sameKey: T -> bool)
    requires SortedBy(ys, key)
    requires forall y :: sameKey(y) <==> key(y) == k
    ensures Filter(Insert(x, ys, key), sameKey)
            == (if sameKey(x) then [x] else []) + Filter(ys, sameKey)
    decreases |ys|
  {
    if ys == [] {
      FilterCons(x, [], sameKey);
    } else if KeyLe(key(x), key(ys[0])) {
      FilterCons(x, ys, sameKey);
    } else {
      var tl := ys[1..];
      assert ys == [ys[0]] + tl;
      assert SortedBy(tl, key);
      var rest := Insert(x, tl, key);
      assert Insert(x, ys, key) == [ys[0]] + rest;
      InsertKeepsTies(x, tl, key, k, sameKey);
      assert sameKey(x) ==> key(ys[0]) != k;
      PassOverHead(x, ys[0], rest, tl, sameKey);
    }
  }

  /** The sort is stable: the elements sharing any one key keep their relative order. */
  lemma {:induction false} SortKeepsTies<T>(xs: seq<T>, key: T -> Key, k: Key, sameKey: T -> bool)
    requires forall y :: sameKey(y) <==> key(y) == k
    ensures Filter(SortBy(xs, key), sameKey) == Filter(xs, sameKey)
    decreases |xs|
  {
    if xs != [] {
      var x, tl := xs[0], xs[1..];
      SortByCons(xs, key);
      SortKeepsTies(tl, key, k, sameKey);
      InsertKeepsTies(x, SortBy(tl, key), key, k, sameKey);
      FilterHead(xs, sameKey);
    }
  }

  /** Sorting a non-empty sequence inserts its head into the sorted tail. */
  lemma SortByCons<T>(xs: seq<T>, key: T -> Key)
    requires xs != []
    ensures SortBy(xs, key) == Insert(xs[0], SortBy(xs[1..], key), key)
  {
  }

  /** The comparator of `renderList`: with "catchable first", catchable items rank 0 and the
      others 1, otherwise all rank alike; ties are broken by item number. */
  function ItemKey(e: Settings, wall: DateTime, it: Item): Key {
    Key(if e.sortNowFirst && !IsCatchable(it, e, wall) then 1 else 0, it.no)
  }

  /** The filtered items of a tab before sorting: `applyFilters`, then, with "only catchable"
      in effect, only the items catchable now. */
  function Shown(kind: Kind, items: seq<Item>, f: CategoryFilter, marks: map<string, Mark>,
                 s: Settings, wall: DateTime, shadows: map<int, string>, norm: string -> string)
    : (r: seq<Item>)
    ensures var e := EffectiveSettings(s);
      forall i :: 0 <= i < |r| ==>
        r[i] in items && Keep(kind, f, marks, s, shadows, norm, r[i])
        && (e.showNowOnly ==> IsCatchable(r[i], e, wall))
    ensures var e := EffectiveSettings(s);
      forall i | 0 <= i < |items| && Keep(kind, f, marks, s, shadows, norm, items[i])
                 && (e.showNowOnly ==> IsCatchable(items[i], e, wall)) :: items[i] in r
  {
    var filtered := ApplyFilters(kind, items, f, marks, s, shadows, norm);
    var e := EffectiveSettings(s);
    if e.showNowOnly then
      var catchable := (it: Item) => IsCatchable(it, e, wall);
      FilterSelects(items, filtered, (it: Item) => Keep(kind, f, marks, s, shadows, norm, it), catchable);
      Filter(filtered, catchable)
    else filtered
  }

  /** The unsorted list is one order-preserving selection of the catalogue: the items passing
      the filter and, with "only catchable" in effect, catchable now. */
  lemma ShownIsOneFilter(kind: Kind, items: seq<Item>, f: CategoryFilter, marks: map<string, Mark>,
                         s: Settings, wall: DateTime, shadows: map<int, string>, norm: string -> string)
    ensures var e := EffectiveSettings(s);
      Shown(kind, items, f, marks, s, wall, shadows, norm)
      == Filter(items, (it: Item) => Keep(kind, f, marks, s, shadows, norm, it)
                                     && (e.showNowOnly ==> IsCatchable(it, e, wall)))
    ensures IsSubsequence(Shown(kind, items, f, marks, s, wall, shadows, norm), items)
  {
    var e := EffectiveSettings(s);
    var keep := (it: Item) => Keep(kind, f, marks, s, shadows, norm, it);
    var both := (it: Item) => Keep(kind, f, marks, s, shadows, norm, it)
                              && (e.showNowOnly ==> IsCatchable(it, e, wall));
    if e.showNowOnly {
      FilterTwice(items, keep, (it: Item) => IsCatchable(it, e, wall), both);
    } else {
      FilterAgree(items, keep, both);
    }
    FilterIsSubsequence(items, both);
  }

  /** The list `renderList` draws: the shown items sorted stably by `ItemKey`. */
  function ListView(kind: Kind, items: seq<Item>, f: CategoryFilter, marks: map<string, Mark>,
                    s: Settings, wall: DateTime, shadows: map<int, string>, norm: string -> string)
    : (r: seq<Item>)
    ensures multiset(r) == multiset(Shown(kind, items, f, marks, s, wall, shadows, norm))
    ensures var e := EffectiveSettings(s);
      forall i :: 0 <= i < |r| ==>
        r[i] in items && Keep(kind, f, marks, s, shadows, norm, r[i])
        && (e.showNowOnly ==> IsCatchable(r[i], e, wall))
    ensures var e := EffectiveSettings(s);
      forall i | 0 <= i < |items| && Keep(kind, f, marks, s, shadows, norm, items[i])
                 && (e.showNowOnly ==> IsCatchable(items[i], e, wall)) :: items[i] in r
    ensures var e := EffectiveSettings(s);
      forall i, j :: 0 <= i < j < |r| && e.sortNowFirst && IsCatchable(r[j], e, wall)
                     ==> IsCatchable(r[i], e, wall)
    ensures var e := EffectiveSettings(s);
      forall i, j :: 0 <= i < j < |r|
                     && (e.sortNowFirst ==> IsCatchable(r[i], e, wall) == IsCatchable(r[j], e, wall))
                     ==> r[i].no <= r[j].no
  {
    var e := EffectiveSettings(s);
    var shown := Shown(kind, items, f, marks, s, wall, shadows, norm);
    var r := SortBy(shown, (it: Item) => ItemKey(e, wall, it));
    SameElements(r, shown);
    SortedItems(r, e, wall);
    r
  }

  /** Sequences with the same multiset have the same members. */
  lemma SameElements<T>(r: seq<T>, xs: seq<T>)
    requires multiset(r) == multiset(xs)
    ensures forall i :: 0 <= i < |r| ==> r[i] in xs
    ensures forall i :: 0 <= i < |xs| ==> xs[i] in r
  {
    forall i | 0 <= i < |r| ensures r[i] in xs {
      assert r[i] in multiset(r);
    }
    forall i | 0 <= i < |xs| ensures xs[i] in r {
      assert xs[i] in multiset(xs);
    }
  }

  /** What a sequence sorted by `ItemKey` means: catchable items first (when that is in
      effect), and ascending numbers among items of equal rank. */
  lemma SortedItems(r: seq<Item>, e: Settings, wall: DateTime)
    requires SortedBy(r, (it: Item) => ItemKey(e, wall, it))
    ensures forall i, j :: 0 <= i < j < |r| && e.sortNowFirst && IsCatchable(r[j], e, wall)
                           ==> IsCatchable(r[i], e, wall)
    ensures forall i, j :: 0 <= i < j < |r|
                           && (e.sortNowFirst ==> IsCatchable(r[i], e, wall) == IsCatchable(r[j], e, wall))
                           ==> r[i].no <= r[j].no
  {
    var key := (it: Item) => ItemKey(e, wall, it);
    forall i, j | 0 <= i < j < |r| ensures KeyLe(ItemKey(e, wall, r[i]), ItemKey(e, wall, r[j])) {
      assert KeyLe(key(r[i]), key(r[j]));
    }
  }

  /** The sort is stable: items with equal keys (same catchability rank and same number) appear
      in the order the filter left them. */
  lemma ListViewKeepsTies(kind: Kind, items: seq<Item>, f: CategoryFilter, marks: map<string, Mark>,
                          s: Settings, wall: DateTime, shadows: map<int, string>,
                          norm: string -> string, k: Key)
    ensures var e := EffectiveSettings(s);
      Filter(ListView(kind, items, f, marks, s, wall, shadows, norm),
             (it: Item) => ItemKey(e, wall, it) == k)
      == Filter(Shown(kind, items, f, marks, s, wall, shadows, norm),
                (it: Item) => ItemKey(e, wall, it) == k)
  {
    var e := EffectiveSettings(s);
    var key := (it: Item) => ItemKey(e, wall, it);
    SortKeepsTies(Shown(kind, items, f, marks, s, wall, shadows, norm), key, k,
                  (it: Item) => ItemKey(e, wall, it) == k);
  }
}
