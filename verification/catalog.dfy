/** The collectible items (fish, bugs, sea creatures) as loaded from the data files. */
module Catalog {
  import opened JsValues

  /** The three categories, each with its own data file, filter and tab. */
  datatype Kind = Fish | Bugs | Sea

  /** A time-of-day window `[start, end)` in hours, as `Number(...)` reads its two bounds;
      `end < start` means the window crosses midnight. */
  datatype Window = Window(start: JsNumber, end: JsNumber)

  /** An item: its identifier, display number, name and place (the empty string when absent),
      the active months per hemisphere tag, and its time windows (empty: all day). */
  datatype Item = Item(
    id: string,
    no: int,
    name: string,
    place: string,
    months: map<string, seq<int>>,
    windows: seq<Window>)

  /** `(item.months && item.months[hemi]) || []`. */
  function MonthsFor(item: Item, hemisphere: string): seq<int> {
    if hemisphere in item.months then item.months[hemisphere] else []
  }
}
