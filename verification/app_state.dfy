/** The persisted user state the core reads: settings, per-category filters and marks. */
module AppState {
  import opened JsValues

  /** `nowMode`: "auto", "manual", or any other stored string. Only "auto" reads the wall clock;
      only "manual" enables the any-time override. */
  datatype NowMode = Auto | Manual | OtherMode

  /** The settings record. `manualMonth` and `manualHour` are the stored month and the hour
      field of `manualTime` as `Number(...)` reads them. */
  datatype Settings = Settings(
    hemisphere: string,
    nowMode: NowMode,
    manualMonth: JsNumber,
    manualHour: JsNumber,
    manualAnytime: bool,
    showNowUI: bool,
    showNowOnly: bool,
    sortNowFirst: bool)

  /** The caught-status filter: "all", "caught" or "uncaught" (any other string acts as "all"). */
  datatype CaughtFilter = AllItems | CaughtOnly | UncaughtOnly

  /** One category's filter; fields a category does not have are the empty string. */
  datatype CategoryFilter = CategoryFilter(
    caught: CaughtFilter,
    place: string,
    shadow: string,
    name: string,
    excludeAllYear: bool)

  /** A normalised check mark. */
  datatype Mark = Mark(caught: bool)

  /** `state.marks[id] || {caught: false}`. */
  function MarkOf(marks: map<string, Mark>, id: string): Mark {
    if id in marks then marks[id] else Mark(false)
  }
}
