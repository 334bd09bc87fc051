/**
 * Value types shared by every context node: cancellation reasons, the
 * three states of a lazily created done signal, JavaScript keys and values
 * as far as the context tree looks at them, and the error conditions the
 * library raises.
 */
module Types {

  datatype Option<+T> = None | Some(value: T)

  /** The two terminal causes a context can record (the singleton
      CanceledError and DeadlineExceededError instances). */
  datatype Reason = Canceled | DeadlineExceeded

  /** The `_done` field of a cancelable node: no promise yet, a pending
      promise with its resolver, or a resolved promise. */
  datatype DoneState = NotCreated | Pending | Resolved

  /** The JavaScript values used as keys and values of value nodes.
      Keys are compared with `===`, which on these values is equality. */
  datatype JsValue =
    | Undefined
    | Null
    | Bool(b: bool)
    | Num(n: int)
    | Str(s: string)
    | Sym(description: string)

  /** `null` and `undefined`, the keys that withValue refuses. */
  predicate IsNullish(v: JsValue) {
    v.Undefined? || v.Null?
  }

  /** The conditions the library throws. */
  datatype Error =
    | InvalidKey      // withValue with a null or undefined key
    | InternalError   // cancel called without a reason
    | TypeError       // a property read on `undefined`

  datatype Result<+T> = Ok(value: T) | Fail(error: Error)

  datatype Outcome = Pass | Raised(error: Error)

  function DigitChar(d: nat): char
    requires d < 10
  {
    "0123456789"[d]
  }

  function NatToString(n: nat): (s: string)
    ensures |s| >= 1
    decreases n
  {
    if n < 10 then [DigitChar(n)] else NatToString(n / 10) + [DigitChar(n % 10)]
  }

  function IntToString(i: int): string {
    if i < 0 then "-" + NatToString(-i) else NatToString(i)
  }

  /** How a key or value is rendered inside a template literal. */
  function Show(v: JsValue): string {
    match v
    case Undefined => "undefined"
    case Null => "null"
    case Bool(b) => if b then "true" else "false"
    case Num(n) => IntToString(n)
    case Str(s) => s
    case Sym(d) => "Symbol(" + d + ")"
  }

  /** How a deadline (milliseconds since the epoch) is rendered. */
  function ShowTime(ms: int): string {
    IntToString(ms)
  }
}
