/**
 * PHP runtime values as seen by the low-level layer, PHP's truthiness rule
 * (the one the `?:` operator applies), the single error datatype that stands
 * for the library's one-class-per-condition throwables, and the result types
 * used by every wrapper.
 */
module Php {

  /** A PHP value, as far as the wrappers inspect it. Array keys are not
      modelled: truthiness and strict identity of the values used here only
      depend on the elements. */
  datatype Value =
    | Null
    | Bool(b: bool)
    | Int(i: int)
    | Float(f: real)
    | Str(s: string)
    | Arr(items: seq<Value>)
    | Object(id: nat)

  /** PHP's conversion to bool: `null`, `false`, `0`, `0.0`, `""`, `"0"` and
      `[]` are falsy, everything else (every object included) is truthy. */
  predicate Truthy(v: Value)
    ensures !Truthy(v) <==> v in {Null, Bool(false), Int(0), Float(0.0), Str(""), Str("0"), Arr([])}
  {
    match v
    case Null => false
    case Bool(b) => b
    case Int(i) => i != 0
    case Float(f) => f != 0.0
    case Str(s) => s != "" && s != "0"
    case Arr(items) => items != []
    case Object(_) => true
  }

  /** Truthiness of a string value: the two falsy strings are "" and "0". */
  predicate TruthyString(s: string)
    ensures TruthyString(s) <==> |s| > 1 || (|s| == 1 && s[0] != '0')
  {
    Truthy(Str(s))
  }

  /** Every failure condition the modelled code raises; each constructor stands
      for one exception or error class of the library. */
  datatype Error =
    // autoload
    | InvalidNamespace
    | InvalidFolder
    | InvalidAutoloadHandle
    // value objects
    | InvalidValueObject(message: string)
    // file system
    | ParentLevelTooSmall
    | PathDoesntExist
    | PutContentFailed
    | ReadFileFailed
    | CannotList
    | RenameFailed
    | CopyPathFailed
    | CreateFolderFailed
    | SetPermissionsFailed
    // system runtime
    | InvalidConfigurationQuantity
    | SleepTimeInvalid
    | InvalidConfigurationOption
    | InvalidExtension
    | AccessLevelValueError(access: int)
    // json
    | EncodeFailed
    | DecodeFailed
    // data
    | TypeUnknown
    | ArrayToStringConversion
    | SetAsResource
    | FailedToSetType
    | UnserializeFailed
    // constants
    | AlreadyExist
    | FailedToDefine
    | NotDefined

  /** The value of a call that either returns or throws. */
  datatype Result<+T> = Success(value: T) | Failure(error: Error)

  /** A call that returns nothing (`void`) or throws. */
  datatype Outcome = Pass | Fail(error: Error)

  datatype Option<+T> = None | Some(value: T)

  /** `native ?: throw new E`: the native result is returned when truthy,
      otherwise the error is raised. */
  function OrThrow(v: Value, e: Error): (r: Result<Value>)
    ensures r.Failure? <==> !Truthy(v)
    ensures r.Failure? ==> r.error == e
    ensures r.Success? ==> r.value == v
  {
    if Truthy(v) then Success(v) else Failure(e)
  }

  /** `$s ?: $fallback` on strings. */
  function StringOr(s: string, fallback: string): (r: string)
    ensures TruthyString(s) ==> r == s
    ensures !TruthyString(s) ==> r == fallback
  {
    if TruthyString(s) then s else fallback
  }

  /** The exact set of falsy values among strings and ints. */
  lemma FalsyScalars(s: string, i: int)
    ensures !TruthyString(s) <==> s == "" || s == "0"
    ensures !Truthy(Int(i)) <==> i == 0
  {
  }
}
