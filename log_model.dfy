/**
 * The values the console wrappers capture, the entries they build from them, and
 * `parseLogMessage`, which turns one captured value into text.
 *
 * JavaScript values are classified the way the code tests them: a string (`typeof` is
 * 'string'), an Error (`instanceof Error`), or anything else. What the host itself computes
 * for a value -- `JSON.stringify` with and without indentation, and `String(v)` -- depends
 * on property enumeration and number printing and is carried as data (`HostText`) rather
 * than recomputed.
 */
module LogModel {
  import opened Wrappers

  /** The four wrapped console methods. */
  datatype LogType = Log | Warn | Error | Info

  /** What `JSON.stringify` gives: a text, `undefined` (for `undefined`, a function, a symbol), or it throws (a circular value, a BigInt). */
  datatype Json = JsonText(text: string) | JsonUndefined | JsonThrows

  /**
   * The host's renderings of a value: `pretty` is `JSON.stringify(v, null, 2)`, `compact` is
   * `JSON.stringify(v)`, `coerced` is `String(v)`, which is also what a template `${v}` gives.
   */
  datatype HostText = HostText(pretty: Json, compact: Json, coerced: string)

  datatype Value =
    | Str(s: string)
    | Err(name: string, message: string, stack: Option<string>, host: HostText)
    | Other(isObject: bool, host: HostText)  // isObject: `typeof v === 'object'` (null included)

  /** `{type, message: args, timestamp}`; the timestamp is `new Date().toISOString()`. */
  datatype LogEntry = LogEntry(kind: LogType, message: seq<Value>, timestamp: string)

  /** The glyph and label each formatter puts in front of an entry of that type. */
  function Prefix(kind: LogType): string
  {
    match kind
    case Log => "\U{2B1C} LOG"
    case Info => "\U{1F7E6} INFO"
    case Warn => "\U{1F7E8} WARN"
    case Error => "\U{1F7E5} ERROR"
  }

  /** `${error.stack}`: a missing stack prints as "undefined". */
  function StackText(stack: Option<string>): string
  {
    stack.GetOr("undefined")
  }

  /** How `Array.prototype.join` renders an element: `undefined` becomes the empty string. */
  function JoinText(x: Option<string>): string
  {
    x.GetOr("")
  }

  /**
   * `parseLogMessage`: None stands for the `undefined` the function returns when
   * `JSON.stringify` itself returns `undefined`. The throw of `JSON.stringify` is caught;
   * a throw of the `String(v)` fallback is not modelled (`coerced` is always a text).
   */
  function ParseLogMessage(v: Value): (r: Option<string>)
    ensures v.Str? ==> r == Some(v.s)
    ensures v.Err? ==> r == Some(StackText(v.stack))
    ensures v.Other? && v.host.pretty.JsonText? ==> r == Some(v.host.pretty.text)
    ensures v.Other? && v.host.pretty.JsonThrows? ==> r == Some(v.host.coerced)
    ensures r.None? <==> v.Other? && v.host.pretty.JsonUndefined?
  {
    match v
    case Err(_, _, stack, _) => Some(StackText(stack))
    case Str(s) => Some(s)
    case Other(_, host) =>
      match host.pretty
      case JsonText(text) => Some(text)
      case JsonUndefined => None
      case JsonThrows => Some(host.coerced)
  }
}
