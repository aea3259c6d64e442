/**
 * The runtime constant table behind src/support/lowlevel/firehub.Constant.php:
 * `defined` and `value` look a name up, `define` adds a name once. The
 * engine's table is the `constants` map of a `ConstantTable`; whether the
 * native `define` accepts a new constant is a parameter.
 */
module Constant {

  import opened Php

  /** `value($name)` on a table: the stored value, or NotDefinedError. */
  function ValueIn(table: map<string, Value>, name: string): (r: Result<Value>)
    ensures r.Success? <==> name in table
    ensures r.Success? ==> r.value == table[name]
    ensures r.Failure? ==> r.error == NotDefined
  {
    if name in table then Success(table[name]) else Failure(NotDefined)
  }

  /** `define($name, $value)` on a table: AlreadyExistError for a known
      name, FailedToDefineError when the native call refuses, otherwise the
      table with the new constant. */
  function DefineIn(table: map<string, Value>, name: string, value: Value, accepted: bool)
    : (r: (Outcome, map<string, Value>))
    ensures name in table ==> r == (Fail(AlreadyExist), table)
    ensures name !in table && !accepted ==> r == (Fail(FailedToDefine), table)
    ensures name !in table && accepted ==> r.0 == Pass && r.1.Keys == table.Keys + {name}
    ensures r.0 == Pass ==> r.1[name] == value && forall n :: n in table ==> n in r.1 && r.1[n] == table[n]
  {
    if name in table then (Fail(AlreadyExist), table)
    else if accepted then (Pass, table[name := value])
    else (Fail(FailedToDefine), table)
  }

  /** After a successful definition the name is defined and reads back the
      value it was given. */
  lemma DefineThenValue(table: map<string, Value>, name: string, value: Value)
    requires name !in table
    ensures DefineIn(table, name, value, true).0 == Pass
    ensures ValueIn(DefineIn(table, name, value, true).1, name) == Success(value)
  {
  }

  /** A constant is defined at most once: defining the same name again
      fails and leaves the table as it was, whatever the value. */
  lemma DefineOnce(table: map<string, Value>, name: string, v1: Value, v2: Value, accepted: bool)
    requires name !in table
    ensures var t1 := DefineIn(table, name, v1, true).1;
            DefineIn(t1, name, v2, accepted) == (Fail(AlreadyExist), t1)
            && ValueIn(t1, name) == Success(v1)
  {
  }

  /** Defining one name changes no other name's lookup. */
  lemma DefineKeepsOthers(table: map<string, Value>, name: string, value: Value, accepted: bool, other: string)
    requires other != name
    ensures ValueIn(DefineIn(table, name, value, accepted).1, other) == ValueIn(table, other)
  {
  }

  /** The engine's constant table. */
  class ConstantTable {
    var constants: map<string, Value>

    constructor (initial: map<string, Value>)
      ensures constants == initial
    {
      constants := initial;
    }

    /** `defined($name)`: a lookup that changes nothing. */
    method Defined(name: string) returns (b: bool)
      ensures b <==> name in constants
    {
      b := name in constants;
    }

    /** `value($name)`: the constant's value or NotDefinedError. */
    method Value(name: string) returns (r: Result<Value>)
      ensures r == ValueIn(constants, name)
    {
      var isDefined := Defined(name);
      if isDefined {
        r := Success(constants[name]);
      } else {
        r := Failure(NotDefined);
      }
    }

    /** `define($name, $value)`: checks `defined` first, then asks the
        native call, which `accepted` answers. */
    method Define(name: string, value: Value, accepted: bool) returns (r: Outcome)
      modifies this
      ensures (r, constants) == DefineIn(old(constants), name, value, accepted)
    {
      var isDefined := Defined(name);
      if isDefined {
        return Fail(AlreadyExist);
      }
      if !accepted {
        return Fail(FailedToDefine);
      }
      constants := constants[name := value];
      r := Pass;
    }
  }
}
