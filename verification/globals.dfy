/**
  The configuration the Go program keeps in package-level variables, passed
  here as explicit values.
 */
module Globals {

  /** What the extra command-line strings mean. */
  datatype FilterType = FilterNone | FilterFiles | FilterTags | FilterAnything

  /** `FilterAction`, `FilterStrings`, `FlatParse`, `ChildKeyMaxSize` and `HistorySize`. */
  datatype Config = Config(
    filterAction: FilterType,
    filterStrings: seq<string>,
    flatParse: bool,
    childKeyMaxSize: int,
    historySize: int)

  /** The values the package-level variables start with. */
  const DefaultChildKeyMaxSize: int := 8
  const DefaultHistorySize: int := 10

  /** The group that holds the history list; the flat walk skips it. */
  const HistoryGroup: string := "history"

  function DefaultConfig(): Config {
    Config(FilterNone, [], false, DefaultChildKeyMaxSize, DefaultHistorySize)
  }

  /** The user settings record; the chooser changes `height` in place. */
  class Settings {
    var height: int
    var historySize: int
    var footerKeyMaxSize: int

    constructor (height: int, historySize: int, footerKeyMaxSize: int)
      ensures this.height == height && this.historySize == historySize
      ensures this.footerKeyMaxSize == footerKeyMaxSize
    {
      this.height := height;
      this.historySize := historySize;
      this.footerKeyMaxSize := footerKeyMaxSize;
    }
  }
}
