/**
 * The type logic of the data wrapper (src/support/lowlevel/firehub.Data.php):
 * `getType` maps the name `gettype` reports to a `Type`, `setType` guards
 * the conversion and picks the name handed to `settype`, and `unserialize`
 * refuses the two payloads whose result cannot be told apart from failure.
 *
 * `gettype` is `GetTypeName` on the modelled values; `settype` and
 * `unserialize` are parameters.
 */
module Data {

  import opened Php
  import opened Enums

  /** The nine names `gettype` can report, each with the type it stands for. */
  function TypeName(t: Type): (name: string)
    ensures |name| >= 4
  {
    match t
    case TBool => "boolean"
    case TInt => "integer"
    case TFloat => "double"
    case TString => "string"
    case TArray => "array"
    case TObject => "object"
    case TNull => "NULL"
    case TResource => "resource"
    case TClosedResource => "resource (closed)"
  }

  /** `gettype` on the values of this model (resources are not among them). */
  function GetTypeName(v: Value): string {
    match v
    case Null => "NULL"
    case Bool(_) => "boolean"
    case Int(_) => "integer"
    case Float(_) => "double"
    case Str(_) => "string"
    case Arr(_) => "array"
    case Object(_) => "object"
  }

  /** `getType`: the type whose name `gettype` reported; any other name
      ("unknown type") is TypeUnknownError. */
  function GetType(name: string): (r: Result<Type>)
    ensures r.Failure? ==> forall t :: TypeName(t) != name
    ensures r.Success? ==> TypeName(r.value) == name
    ensures r.Failure? ==> r.error == TypeUnknown
  {
    if name == "boolean" then Success(TBool)
    else if name == "integer" then Success(TInt)
    else if name == "double" then Success(TFloat)
    else if name == "string" then Success(TString)
    else if name == "array" then Success(TArray)
    else if name == "object" then Success(TObject)
    else if name == "NULL" then Success(TNull)
    else if name == "resource" then Success(TResource)
    else if name == "resource (closed)" then Success(TClosedResource)
    else
      NoTypeNamed(name);
      Failure(TypeUnknown)
  }

  /** A name outside the nine is the name of no type. */
  lemma NoTypeNamed(name: string)
    requires name !in {"boolean", "integer", "double", "string", "array", "object", "NULL", "resource",
                       "resource (closed)"}
    ensures forall t :: TypeName(t) != name
  {
  }

  /** Every type is reached from its name, so the mapping covers all nine
      cases, and distinct names give distinct types. */
  lemma GetTypeCovers(t: Type, u: Type)
    ensures GetType(TypeName(t)) == Success(t)
    ensures TypeName(t) == TypeName(u) ==> t == u
  {
    var r := GetType(TypeName(t));
    assert TypeName(r.value) == TypeName(t);
    match t
    case TBool =>
    case TInt =>
    case TFloat =>
    case TString =>
    case TArray =>
    case TObject =>
    case TNull =>
    case TResource =>
    case TClosedResource =>
  }

  /** The type of a modelled value is always recognised and agrees with
      the value's shape. */
  lemma GetTypeOfValue(v: Value)
    ensures GetType(GetTypeName(v)).Success?
    ensures GetType(GetTypeName(v)).value == TArray <==> v.Arr?
    ensures GetType(GetTypeName(v)).value.Category() == Scalar <==> (v.Bool? || v.Int? || v.Float? || v.Str?)
  {
  }

  /** The name `setType` hands to `settype`; the resource types have none
      (SetAsResourceError). */
  function SetTypeName(t: Type): (r: Option<string>)
    ensures r.None? <==> t in {TResource, TClosedResource}
  {
    match t
    case TBool => Some("boolean")
    case TInt => Some("integer")
    case TFloat => Some("double")
    case TString => Some("string")
    case TArray => Some("array")
    case TObject => Some("object")
    case TNull => Some("null")
    case TResource => None
    case TClosedResource => None
  }

  /** For the seven settable types the name given to `settype` is the name
      `getType` maps from, except for null, spelt "null" instead of "NULL". */
  lemma SetTypeNameMatches(t: Type)
    requires t !in {TResource, TClosedResource}
    ensures t != TNull ==> SetTypeName(t) == Some(TypeName(t))
    ensures t == TNull ==> SetTypeName(t) == Some("null") && TypeName(t) == "NULL"
  {
  }

  /** `setType`: an array cannot become a string, a resource type cannot be
      set, and a `settype` that reports failure is FailedToSetTypeError;
      otherwise the converted value. `settype` answers its success and the
      converted value. */
  function SetType(value: Value, target: Type, settype: (Value, string) -> (bool, Value)): (r: Result<Value>)
    ensures value.Arr? && target == TString ==> r == Failure(ArrayToStringConversion)
    ensures !(value.Arr? && target == TString) && target in {TResource, TClosedResource} ==>
              r == Failure(SetAsResource)
    ensures !(value.Arr? && target == TString) && target !in {TResource, TClosedResource} ==>
              var (ok, converted) := settype(value, SetTypeName(target).value);
              r == if ok then Success(converted) else Failure(FailedToSetType)
  {
    GetTypeOfValue(value);
    if GetType(GetTypeName(value)) == Success(TArray) && target == TString then Failure(ArrayToStringConversion)
    else
      match SetTypeName(target)
      case None => Failure(SetAsResource)
      case Some(name) =>
        var (ok, converted) := settype(value, name);
        if ok then Success(converted) else Failure(FailedToSetType)
  }

  /** The array-to-string guard fires before `settype` is consulted: the
      outcome does not depend on it. */
  lemma ArrayToStringBeforeConversion(items: seq<Value>, s1: (Value, string) -> (bool, Value),
                                      s2: (Value, string) -> (bool, Value))
    ensures SetType(Arr(items), TString, s1) == SetType(Arr(items), TString, s2) == Failure(ArrayToStringConversion)
  {
  }

  /** The two serialized payloads `unserialize` refuses up front: `false`
      and `null`. */
  predicate Ambiguous(data: string) {
    data == "b:0;" || data == "N;"
  }

  /** `unserialize`: the ambiguous payloads and a native result of `false`
      are UnserializeFailedError. */
  function Unserialize(data: string, unserialize: string -> Value): (r: Result<Value>)
    ensures Ambiguous(data) ==> r == Failure(UnserializeFailed)
    ensures !Ambiguous(data) ==>
              r == if unserialize(data) == Bool(false) then Failure(UnserializeFailed) else Success(unserialize(data))
    ensures r.Success? ==> r.value != Bool(false)
  {
    if Ambiguous(data) then Failure(UnserializeFailed)
    else
      var u := unserialize(data);
      if u != Bool(false) then Success(u) else Failure(UnserializeFailed)
  }

  /** The up-front check does not consult the native call: an ambiguous
      payload fails whatever `unserialize` would have answered. */
  lemma AmbiguousRefusedUpFront(data: string, u1: string -> Value, u2: string -> Value)
    requires Ambiguous(data)
    ensures Unserialize(data, u1) == Unserialize(data, u2) == Failure(UnserializeFailed)
  {
  }
}
