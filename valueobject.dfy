/**
 * Value objects: the shared base (src/shared/firehub.ValueObject.php) with
 * its strict-identity `equals` and its `guard`, and the two value objects
 * of the core, an error `Code` (src/throwable/valueobject/firehub.Code.php)
 * and an autoload `Handle` (src/domain/autoload/firehub.Handle.php).
 * Readonly objects are values here; a constructor that may throw is a
 * function returning a `Result`.
 */
module ValueObject {

  import opened Php

  /** `guard($condition, $message)`: only a condition that returns exactly
      `true` raises InvalidValueObjectError; any other result, truthy or
      not, lets construction go on. */
  function Guard(condition: Value, message: string): (r: Outcome)
    ensures r == Fail(InvalidValueObject(message)) <==> condition == Bool(true)
    ensures r != Pass ==> r == Fail(InvalidValueObject(message))
  {
    if condition == Bool(true) then Fail(InvalidValueObject(message)) else Pass
  }

  /** Truthy results other than `true` do not trip the guard. */
  lemma GuardIsStrict(message: string)
    ensures Guard(Int(1), message) == Pass && Guard(Str("yes"), message) == Pass
    ensures Guard(Bool(false), message) == Pass && Guard(Bool(true), message) != Pass
  {
  }

  /** `equals`: the two objects' `value()` results are identical (`===`). */
  predicate Equals(a: Value, b: Value) {
    a == b
  }

  /** `Code`: a non-negative error code. */
  datatype Code = Code(code: int)
  {
    /** `value()`: the int given to the constructor. */
    function Value(): Value {
      Int(code)
    }
  }

  const CodeMessage: string := "Error code int must be non-negative."

  /** `new Code($code)`: negative codes are refused by the guard. */
  function NewCode(code: int): (r: Result<Code>)
    ensures r.Failure? <==> code < 0
    ensures r.Failure? ==> r.error == InvalidValueObject(CodeMessage)
    ensures r.Success? ==> r.value.Value() == Int(code)
  {
    match Guard(Bool(code < 0), CodeMessage)
    case Fail(e) => Failure(e)
    case Pass => Success(Code(code))
  }

  /** Two codes are equal exactly when their ints are, and `equals` on
      codes is reflexive and symmetric. */
  lemma CodeEquals(a: int, b: int)
    requires a >= 0 && b >= 0
    ensures Equals(NewCode(a).value.Value(), NewCode(b).value.Value()) <==> a == b
    ensures Equals(NewCode(a).value.Value(), NewCode(a).value.Value())
    ensures Equals(NewCode(a).value.Value(), NewCode(b).value.Value())
            <==> Equals(NewCode(b).value.Value(), NewCode(a).value.Value())
  {
  }

  /** `Handle`: the non-empty name of an autoload handler. */
  datatype Handle = Handle(name: string)
  {
    /** `value()`: the name given to the constructor. */
    function Value(): Value {
      Str(name)
    }
  }

  /** `new Handle($name)`: only the empty string is refused. */
  function NewHandle(name: string): (r: Result<Handle>)
    ensures r.Failure? <==> name == ""
    ensures r.Failure? ==> r.error == InvalidAutoloadHandle
    ensures r.Success? ==> r.value.Value() == Str(name)
  {
    if name == "" then Failure(InvalidAutoloadHandle) else Success(Handle(name))
  }

  /** The handle check is strict, unlike the falsy rule of the resolver:
      "0" and blank names are accepted although "0" is falsy. */
  lemma HandleAcceptsFalsyNames(blank: string)
    requires blank != "" && forall i :: 0 <= i < |blank| ==> blank[i] == ' '
    ensures NewHandle("0").Success? && !TruthyString("0")
    ensures NewHandle(blank).Success?
  {
  }

  /** Two handles are equal exactly when their names are identical, and
      `equals` on handles is reflexive and symmetric. */
  lemma HandleEquals(a: string, b: string)
    requires a != "" && b != ""
    ensures Equals(NewHandle(a).value.Value(), NewHandle(b).value.Value()) <==> a == b
    ensures Equals(NewHandle(a).value.Value(), NewHandle(b).value.Value())
            <==> Equals(NewHandle(b).value.Value(), NewHandle(a).value.Value())
  {
  }

  /** A code never equals a handle: an int is never identical to a string. */
  lemma CodeNeverEqualsHandle(c: Code, h: Handle)
    ensures !Equals(c.Value(), h.Value())
  {
  }
}
