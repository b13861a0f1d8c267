/** The two plugin shapes the handler accepts (src/Contracts): a formatter
    with a name, an applicability guard and a formatting function, and a
    context with a name, a field mapping and an applicability guard. Plugin
    code is not visible to the handler, so its behaviour is a function
    value; a formatting call or extraction closure that throws an
    `\Exception` yields `Threw`. */
module Contracts {
  import opened Values
  import opened PhpArray

  /** `FormatterInterface`: `getName`, `canFormat`, `format`. */
  datatype FormatterPlugin = FormatterPlugin(
    name: string,
    canFormat: Value -> bool,
    format: (Value, seq<Value>) -> Outcome<string>)

  /** One entry of a context mapping: a (dot-)path string, an array with an
      optional `property` and an optional `formatter`, or a closure that
      receives the source object. */
  datatype Rule =
    | PathRule(path: string)
    | ConfigRule(property: Option<string>, formatter: Option<string>)
    | ClosureRule(extract: Value -> Outcome<Value>)

  /** `ContextInterface`: `getName`, `getMapping`, `canProcess`,
      `getSupportedTypes` (informational only). */
  datatype ContextPlugin = ContextPlugin(
    name: string,
    mapping: PArray<Rule>,
    canProcess: Value -> bool,
    supportedTypes: seq<string>)
}
