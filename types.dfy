/** The records the application passes around (src/types/index.ts). Optional
    TypeScript properties are `Option`s. */
module Types {
  import opened Wrappers

  /** Where a configuration takes its data from. */
  datatype Source = LocalStorage | Cookie | All | Custom {

    /** The string literal the source is at run time. */
    function Name(): string {
      match this
      case LocalStorage => "localStorage"
      case Cookie => "cookie"
      case All => "all"
      case Custom => "custom"
    }
  }

  /** `PresetConfig`: one entry of the configuration list. */
  datatype Config = Config(
    id: string,
    displayName: string,
    source: Source,
    key: Option<string>,
    value: Option<string>,
    icon: Option<string>,
    description: Option<string>,
    isCustom: Option<bool>,
    createdAt: Option<string>)

  /** `HistoryRecord`: one generation attempt. */
  datatype HistoryRecord = HistoryRecord(
    id: string,
    config: Config,
    configId: string,
    generatedCode: string,
    timestamp: string,
    success: Option<bool>,
    errorMessage: Option<string>,
    name: Option<string>,
    icon: Option<string>)

  datatype ErrorKind = Warning | Error | Info | Success

  /** `AppError`: one toast. */
  datatype AppError = AppError(
    id: string,
    kind: ErrorKind,
    message: string,
    details: Option<string>,
    timestamp: string)

  /** What a template literal `${x}` makes of an optional string: the string
      itself, or the text "undefined". */
  function Interpolated(x: Option<string>): (r: string)
    ensures x.Some? ==> r == x.value
    ensures x.None? ==> r == "undefined"
  {
    x.GetOr("undefined")
  }

  /** `x || ''`: the string, or the empty string when it is absent. */
  function OrEmpty(x: Option<string>): (r: string)
    ensures x.Some? ==> r == x.value
    ensures x.None? ==> r == ""
  {
    x.GetOr("")
  }
}
