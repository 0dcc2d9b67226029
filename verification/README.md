# Collectible checklist: availability, month display and list pipeline

This project models the pure logic of `app.js`, a browser checklist for a life-simulation
game. The checklist tracks fish, bugs and sea creatures, and the model covers the parts
that decide what the list shows:

- **Month ranges.** `monthsToRangeObjs` turns an item's active months into maximal runs of
  consecutive months. `formatMonthsDisplayFromArray` turns the runs into the display text
  (`"1年中"` for the whole year, `"11月～4月、7月～9月"` with the year-wrap merge rule).
- **Availability.** `isCatchable` checks the current month against the item's months for
  the hemisphere, then the manual any-time override, then the time-of-day windows. Those
  windows can be full-day, half-open or cross midnight. The clock comes from
  `getNowDateTime`: the wall clock (a parameter) in auto mode, otherwise the manual month
  and hour after `clampInt`. `daysInMonth`, the month-length helper of the manual-date
  controls, is modelled alongside it.
- **Filter and sort pipeline.** `applyFilters` keeps items that pass every filter, in
  order. The filters are: exclude all-year items, caught status, fish shadow size, name
  query and place query. After that, the block in `renderList` forces dependent switches
  off, optionally keeps only catchable items, and stable-sorts by catchability and item
  number.
- **Stored marks.** The migration normalises every stored catch mark to
  `{ caught: <boolean> }`.
- **Text helpers.** `dispTimes`, `rememberedLocLabel` (both built on JavaScript `trim`)
  and `escapeHtml`.

Modules, one per file:

| file | module | contents |
|---|---|---|
| `js_values.dfy` | `JsValues` | `Option`; the result of `Number(...)`; JSON values and their truthiness |
| `seqs.dfy` | `Seqs` | order-preserving `Filter` (JavaScript `Array.prototype.filter`) and its laws |
| `month_ranges.dfy` | `MonthRanges` | deduplicated sorted month list; maximal runs (functional reference and the loop of `monthsToRangeObjs`); uniqueness of the run decomposition |
| `month_display.dfy` | `MonthDisplay` | year-wrap merge; rendering of labels; a parser for the display text proved to invert rendering |
| `clock.dfy` | `Clock` | `Math.trunc`, `clampInt`, `daysInMonth`, the date-time record |
| `catalog.dfy` | `Catalog` | items, time windows, categories |
| `app_state.dfy` | `AppState` | settings, filters, marks |
| `availability.dfy` | `Availability` | `getNowDateTime`, window matching, `isCatchable` |
| `filtering.dfy` | `Filtering` | `applyFilters` as one conjunction of predicates |
| `listing.dfy` | `Listing` | forced-off switches, "only catchable", stable sort, list view |
| `marks.dfy` | `Marks` | marks normalisation |
| `text.dfy` | `Text` | `trim`, `dispTimes`, `rememberedLocLabel`, `escapeHtml` and its inverse |

Inputs that the source reads from the environment become parameters:

- The wall clock is a `DateTime` parameter `wall`.
- `normalizeText` is a parameter `norm: string -> string`.
- The fish-shadow table is a parameter `shadows: map<int, string>`.

Where the source reads the global `state`, the model passes the settings, filter and
marks explicitly.

Behaviour of the code that the model keeps as it is:

- `isCatchable` reads `settings.hemisphere` as stored. `applyFilters` reads the same setting
  but uses `"north"` when it is empty (`FilterHemisphere`). So with an empty hemisphere,
  the all-year filter looks at the northern months while availability finds no months at
  all.
- Name and place matching only lower-cases (`normalizeText`), so the model leaves the
  normalisation abstract.
- Any `nowMode` other than `"auto"` reads the manual clock; only `"manual"` enables the
  any-time override (`OtherMode`).

## Model

| member | source | states |
|---|---|---|
| MonthRanges.SortedMonths | app.js:22 | the months of the list that lie in 1..12, each once, strictly ascending; twelve of them exactly when every month of the year is present (the same deduplication opens `formatMonthsDisplayFromArray`, app.js line 40) |
| MonthRanges.Runs | app.js:22-32 | runs are non-empty, ascending and separated by at least one missing month; together they cover exactly the listed months; the first run starts at the smallest month and the last ends at the largest |
| MonthRanges.ScanRuns | app.js:22-32 | on a strictly ascending month list, the loop that extends the open run or closes it computes exactly the reference decomposition into maximal runs |
| MonthRanges.MonthsToRangeObjs | app.js:20-33 | the scanning loop of `monthsToRangeObjs` returns exactly the maximal-run decomposition of the in-range months, and the empty list for an empty input |
| MonthRanges.RunDecompositionUnique | app.js:19-32 | a month set has exactly one decomposition into separated maximal runs |
| MonthRanges.RunsCharacterized | app.js:19-33 | a run list decomposes the month set of a list if and only if it is what `monthsToRangeObjs` computes |
| MonthDisplay.DisplayRunsShape | app.js:48-56 | after the year-wrap merge only the first display run can wrap past December, and it wraps exactly when there were two or more runs starting in January and ending in December; the merged run goes from the last run's start to the first run's end, followed by the untouched middle runs; without the merge the runs are shown unchanged |
| MonthDisplay.MergedCover | app.js:50-56 | when the merge fires (`DisplayRuns`), a month is shown by the merged display exactly when it lies in one of the runs |
| MonthDisplay.DisplayRunsCover | app.js:48-56 | read on the circular calendar, the display runs cover exactly the months the runs covered |
| MonthDisplay.MergesIffJanuaryAndDecember | app.js:50 | for a list not covering the whole year, the merge rule fires exactly when both January and December are active |
| MonthDisplay.RenderInjective | app.js:58-61 | `Render` (labels `s月` or `s月～e月` joined by `、`) displays different run lists differently |
| MonthDisplay.ParseRender | app.js:58-68 | reading a rendered display (`s月` or `s月～e月` joined by `、`) back yields the rendered runs |
| MonthDisplay.RenderIsNotALabel | app.js:40-68 | a non-empty run list never renders as the empty string or as the whole-year label, so the three outcomes cannot be confused |
| MonthDisplay.FormatMonthsDisplayIsDisplay | app.js:46-68 | for a list with some but not all months, the display is the rendering of a run list exactly when that list shows the months in display form: read circularly it covers exactly the active months; only a first run may wrap past December; cut at the new year the runs are ascending and separated; and with no wrap, a January run and a December run never appear together |
| MonthDisplay.FormatMonthsDisplayLabels | app.js:40-44 | the display is empty exactly when no value is a month, and is "1年中" exactly when all twelve months are active |
| MonthDisplay.FormatMonthsDisplayReadsBack | app.js:39-69 | for a partial year, the display reads back as runs that denote exactly the active months on the circular calendar; the first wraps exactly when January and December are both active; the rest ascend without wrapping |
| MonthDisplay.ExampleRuns | app.js:38 | months 1-4, 7-9 and 11-12 decompose into the runs 1-4, 7-9, 11-12 |
| MonthDisplay.FormatExample | app.js:37-38 | the commented example: months 1-4, 7-9 and 11-12 display as "11月～4月、7月～9月" |
| Clock.Trunc | app.js:142 | `Math.trunc` rounds toward zero: the result is the integer between zero and the number within distance one of it |
| Clock.ClampInt | app.js:139-143 | a non-finite number gives the default; otherwise the result is the truncated number when it lies in lo..hi, lo below, hi above |
| Clock.ClampIntIdempotent | app.js:139-143 | clamping a clamped value again changes nothing, whatever the default |
| Clock.DaysInMonth | app.js:144-147 | 31 days exactly for months 1, 3, 5, 7, 8, 10, 12; 30 exactly for 4, 6, 9, 11; 28 exactly for February, after clamping the month with January as default |
| Availability.GetNowDateTime | app.js:238-249 | auto mode gives the wall clock; otherwise day 1, minute 0, the manual month and hour when they lie in range, the nearest bound (1 or 12, 0 or 23) when they lie outside it, the wall clock's month or hour when they are not numbers, and always a valid date-time when the wall clock is valid |
| Availability.AnyWindowMatches | app.js:266-277 | the window loop returns true exactly when some window matches the fractional hour |
| Availability.IsCatchable | app.js:251-278 | never catchable out of season; in season, catchable under the manual any-time override or without windows; otherwise catchable exactly when some window matches |
| Availability.WindowStartIncluded | app.js:267-275 | `WindowMatches`: a window's start hour is matched exactly when start and end differ; a window whose start equals its end matches no hour |
| Availability.WindowEndExcluded | app.js:265-275 | a window's end hour is not matched unless the window is the full day 0-24 |
| Availability.CrossingWindowIsComplement | app.js:271-275 | within a day, a window crossing midnight matches exactly the hours its reversed window does not |
| Availability.SeasonAndWindowExample | app.js:251-278 | an item active March to May from 9 to 17 is catchable in April at 10:00, not at 20:00, and not in June at any hour |
| Availability.MidnightWindowExample | app.js:271-272 | a 21-4 window matches at 23:00 and 2:00 but not at 10:00 |
| Filtering.AllYearMeansEveryMonth | app.js:329-333 | the all-year test (`size >= 12` of the in-range month set) holds exactly when all twelve months are active in the hemisphere |
| Filtering.EmptyFilterKeepsAll | app.js:326-348 | `Keep` with no status, shadow, name or place filter and all-year items included passes every item, so the list is unchanged |
| Filtering.ShadowFilterExact | app.js:340-343 | with `ShadowLabel` modelling `getFishShadowLabelByNo` (app.js lines 102-105): the fish shadow filter keeps exactly the items whose number the shadow table maps to the chosen label, in order; unlisted numbers read as "" and never match |
| Filtering.ApplyFilters | app.js:319-350 | the result is a subsequence of the items, and an item is in it exactly when it passes every filter predicate |
| Filtering.ExcludeAllYearExact | app.js:329-333 | turning on "exclude all-year" removes exactly the items active in every month and keeps the rest in order |
| Filtering.CaughtOnlyExact | app.js:336 | "caught" keeps exactly the marked items of the unfiltered-status result, in order |
| Filtering.UncaughtOnlyExact | app.js:337 | "uncaught" keeps exactly the unmarked items of the unfiltered-status result, in order |
| Filtering.QueriesOnlyRemove | app.js:339-346 | the shadow, name and place filters only remove items: the result is a subsequence of the result without them |
| Listing.EffectiveSettings | app.js:426-430 | with the availability display off, "only catchable" and "catchable first" are forced off; no other setting changes |
| Listing.Shown | app.js:424-432 | an item is listed exactly when it passes the filters and, with "only catchable" in effect, is catchable now |
| Listing.ShownIsOneFilter | app.js:424-432 | the unsorted list is a single order-preserving selection from the items |
| Listing.SortBy | app.js:434-444 | the sort returns a permutation of its input, ordered by the comparator key |
| Listing.SortKeepsTies | app.js:434-444 | the sort is stable: elements with equal keys keep their relative order |
| Listing.ListView | app.js:424-444 | the drawn list is a permutation of the shown items; with "catchable first" every catchable item precedes every other; items of equal rank ascend by number |
| Listing.ListViewKeepsTies | app.js:434-444 | items with the same rank and number appear in the order the filter left them |
| Marks.StoredCaught | app.js:176-180 | a boolean mark reads as itself; an object as the truthiness of its `caught` property (absent means false); any other value as not caught |
| Marks.NormalizeMarks | app.js:176-180 | normalisation keeps the keys and turns every value into a `{ caught: <boolean> }` record |
| Marks.NormalizeKeepsCaught | app.js:176-180 | normalising a mark does not change whether it reads as caught |
| Marks.NormalizeIdempotent | app.js:176-180 | normalising twice is normalising once |
| Marks.NormalizeFixedPoints | app.js:176-180 | normalisation leaves a table unchanged exactly when all its values are already `{ caught: <boolean> }` records |
| Marks.MarksTable | app.js:176-180 | the normalised table read through `state.marks[id] \|\| {caught: false}` gives each stored mark's caught status |
| Text.Trim | app.js:10 | the result has no white space at either end and is empty exactly when the input is all white space |
| Text.TrimUnique | app.js:10 | trimming any white-space padding around a core without edge white space yields that core |
| Text.TrimIdempotent | app.js:10 | trimming twice is trimming once |
| Text.DispTimes | app.js:9-14 | the trimmed text, except that "24時間" becomes "1日中"; the result is never "24時間" |
| Text.DispTimesIdempotent | app.js:9-14 | applying the display substitution twice is applying it once |
| Text.RememberedLocLabel | app.js:15-18 | the trimmed text, except that "(指定なし)" becomes "指定なし"; the result is never "(指定なし)" |
| Text.RememberedLocLabelIdempotent | app.js:15-18 | relabelling twice is relabelling once |
| Text.ReplaceAllChar | app.js:284-288 | after replacing a character with text not containing it, the character no longer occurs; nothing new appears except from the replacement |
| Text.EscapeHtml | app.js:282-289 | the escaped text contains no `<`, `>`, `"` or `'` |
| Text.EscapeHtmlIsPerChar | app.js:282-289 | the five chained replacements, ampersand first, equal escaping each character independently |
| Text.UnescapeEscape | app.js:282-289 | decoding the five entities recovers the original text |
| Text.EscapeHtmlInjective | app.js:282-289 | distinct texts never escape to the same HTML |

## Left out

- I/O and the browser are not modelled: the DOM, event handlers, timers, `localStorage`, dataset loading and the service worker. The wall clock is a parameter.
- Availability.GetNowDateTime: the source reads `new Date()` on every call to `isCatchable`. The model passes one clock reading to the whole list, so a render that crosses a minute boundary is not modelled.
- Availability.GetNowDateTime: the hour is taken as `Number(...)` of the part of `manualTime` before the first colon, already converted. The string split is not modelled.
- `normalizeText` (lower-casing) is an abstract parameter, because Unicode case mapping is outside Dafny's string model.
- The shadow table `FISH_SHADOW_BY_NO` is a parameter, not its 80 literal entries.
- Month lists are sequences of integers. Stored values that `Number(...)` maps to fractions or non-numbers are not modelled. The same goes for `includes` on months stored as strings.
- Item numbers are integers, so the sort's `(a.no || 0)` fallback for a missing number is not modelled.
- The rest of the migration is not modelled: merging stored state over the defaults, splitting the old `manualDate`, clamping the manual month and day, defaulting `showNowUI`, merging the per-category filters, and the reset on a version bump. Only the marks loop is modelled.
- Marks.NormalizeMarks: a stored `marks` value that is not an object at all is not modelled; the marks table is a map from the start.
- The rest of `renderList` is not modelled: styles, the settings controls, badges and HTML assembly. The list it draws is `Listing.ListView`.
- The source mutates `state.settings` when it forces the switches off. The model returns the effective settings instead and uses them for the rest of the render.
- `dispMonths`, `ensureInitialMarks`, `buildOptions` and `getAllFishShadowOptions` (with their locale-aware option sorting) are not modelled, because they are presentation helpers.
- `formatMonthsDisplayFromArray` hands its deduplicated list to `monthsToRangeObjs`, which deduplicates again. The model computes the runs from the original list once, which gives the same runs.
