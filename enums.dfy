/**
 * The small enums of the shared layer: data types and their categories
 * (src/shared/enums/data), sort order (src/shared/enums/firehub.Order.php),
 * file permissions (src/shared/enums/filesystem/firehub.Permission.php),
 * ini access levels (src/shared/enums/systemruntime/firehub.IniAccessLevel.php)
 * and comparison operators (src/shared/enums/firehub.Comparison.php).
 */
module Enums {

  import opened Php

  /** `Category`: how a data type holds its value. */
  datatype Category = Scalar | Compound | Special

  /** `Type`: the nine PHP data types. */
  datatype Type =
    | TBool | TInt | TFloat | TString
    | TArray | TObject
    | TNull | TResource | TClosedResource
  {
    /** `category()`: the four single-value types are scalar, arrays and
        objects compound, and everything else special. */
    function Category(): (c: Category)
      ensures c == Scalar <==> this in ScalarTypes
      ensures c == Compound <==> this in CompoundTypes
      ensures c == Special <==> this !in ScalarTypes + CompoundTypes
    {
      match this
      case TBool | TInt | TFloat | TString => Scalar
      case TArray | TObject => Compound
      case _ => Special
    }
  }

  const ScalarTypes: set<Type> := {TBool, TInt, TFloat, TString}
  const CompoundTypes: set<Type> := {TArray, TObject}
  const SpecialTypes: set<Type> := {TNull, TResource, TClosedResource}

  /** Every case of `Type`. */
  const AllTypes: set<Type> := ScalarTypes + CompoundTypes + SpecialTypes

  /** The listed cases are all the cases there are. */
  lemma AllTypesComplete(t: Type)
    ensures t in AllTypes
  {
  }

  /** `category()` is total and splits the nine types into 4 scalar,
      2 compound and 3 special ones. */
  lemma CategoryPartition()
    ensures (set t | t in AllTypes && t.Category() == Scalar) == ScalarTypes
    ensures (set t | t in AllTypes && t.Category() == Compound) == CompoundTypes
    ensures (set t | t in AllTypes && t.Category() == Special) == SpecialTypes
    ensures |ScalarTypes| == 4 && |CompoundTypes| == 2 && |SpecialTypes| == 3
    ensures |AllTypes| == 9
  {
    assert |{TBool, TInt, TFloat, TString}| == 4;
    assert |{TArray, TObject}| == 2;
    assert |{TNull, TResource, TClosedResource}| == 3;
    assert ScalarTypes !! CompoundTypes && ScalarTypes !! SpecialTypes && CompoundTypes !! SpecialTypes;
  }

  /** `Order`: ascending or descending. */
  datatype Order = Asc | Desc
  {
    /** The backing string of the case. */
    function Value(): (s: string)
      ensures s == "ASC" || s == "DESC"
    {
      match this
      case Asc => "ASC"
      case Desc => "DESC"
    }

    /** `reverse()`: `ASC` becomes `DESC`; any other case becomes `ASC`. */
    function Reverse(): (r: Order)
      ensures this == Asc ==> r == Desc
      ensures this != Asc ==> r == Asc
    {
      match this
      case Asc => Desc
      case _ => Asc
    }
  }

  /** Reversing twice gives the order back. */
  lemma ReverseInvolution(o: Order)
    ensures o.Reverse().Reverse() == o
  {
  }

  /** No order is its own reverse. */
  lemma ReverseNoFixedPoint(o: Order)
    ensures o.Reverse() != o
  {
  }

  /** `Permission`: one octal digit of a file mode. */
  datatype Permission =
    | Nothing | Execute | Write | WriteExecute
    | Read | ReadExecute | ReadWrite | All
  {
    /** The backing int of the case. */
    function Value(): (v: nat)
      ensures v <= 7
    {
      match this
      case Nothing => 0
      case Execute => 1
      case Write => 2
      case WriteExecute => 3
      case Read => 4
      case ReadExecute => 5
      case ReadWrite => 6
      case All => 7
    }

    /** The value as a three-bit mask. */
    function Bits(): bv3 {
      Value() as bv3
    }
  }

  /** Distinct permissions have distinct values. */
  lemma PermissionValueInjective(p: Permission, q: Permission)
    requires p.Value() == q.Value()
    ensures p == q
  {
  }

  /** Each combined case is the bitwise OR of the cases its name lists, and
      the three single rights are distinct bits. */
  lemma PermissionCombinations()
    ensures Read.Bits() == 4 && Write.Bits() == 2 && Execute.Bits() == 1
    ensures WriteExecute.Bits() == Write.Bits() | Execute.Bits()
    ensures ReadExecute.Bits() == Read.Bits() | Execute.Bits()
    ensures ReadWrite.Bits() == Read.Bits() | Write.Bits()
    ensures All.Bits() == Read.Bits() | Write.Bits() | Execute.Bits()
    ensures Nothing.Bits() == 0
  {
  }

  /** `Permission::from`: every int 0..7 names exactly one case. */
  function PermissionFrom(n: int): (r: Option<Permission>)
    ensures r.Some? <==> 0 <= n <= 7
    ensures r.Some? ==> r.value.Value() == n
  {
    if n == 0 then Some(Nothing)
    else if n == 1 then Some(Execute)
    else if n == 2 then Some(Write)
    else if n == 3 then Some(WriteExecute)
    else if n == 4 then Some(Read)
    else if n == 5 then Some(ReadExecute)
    else if n == 6 then Some(ReadWrite)
    else if n == 7 then Some(All)
    else None
  }

  lemma PermissionFromValue(p: Permission)
    ensures PermissionFrom(p.Value()) == Some(p)
  {
    PermissionValueInjective(PermissionFrom(p.Value()).value, p);
  }

  /** `IniAccessLevel`: where an ini setting may be changed. */
  datatype IniAccessLevel =
    | User | PerDir | UserAndPerDir | System
    | UserAndSystem | PerDirAndSystem | AllLevels
  {
    /** The backing int of the case. */
    function Value(): (v: nat)
      ensures 1 <= v <= 7
    {
      match this
      case User => 1
      case PerDir => 2
      case UserAndPerDir => 3
      case System => 4
      case UserAndSystem => 5
      case PerDirAndSystem => 6
      case AllLevels => 7
    }
  }

  /** `IniAccessLevel::from($access)`: 1..7 name a case, any other int is a
      `ValueError`. */
  function AccessLevelFrom(n: int): (r: Result<IniAccessLevel>)
    ensures r.Success? <==> 1 <= n <= 7
    ensures r.Success? ==> r.value.Value() == n
    ensures r.Failure? ==> r.error == AccessLevelValueError(n)
  {
    if n == 1 then Success(User)
    else if n == 2 then Success(PerDir)
    else if n == 3 then Success(UserAndPerDir)
    else if n == 4 then Success(System)
    else if n == 5 then Success(UserAndSystem)
    else if n == 6 then Success(PerDirAndSystem)
    else if n == 7 then Success(AllLevels)
    else Failure(AccessLevelValueError(n))
  }

  /** Converting a level's value gives the level back. */
  lemma AccessLevelFromValue(a: IniAccessLevel)
    ensures AccessLevelFrom(a.Value()) == Success(a)
  {
    var b := AccessLevelFrom(a.Value()).value;
    assert a.Value() == b.Value();
    match a
    case User =>
    case PerDir =>
    case UserAndPerDir =>
    case System =>
    case UserAndSystem =>
    case PerDirAndSystem =>
    case AllLevels =>
  }

  /** `Comparison`: the comparison operators `version_compare` accepts. */
  datatype Comparison =
    | Equal | Identical | NotEqual | NotIdentical
    | Less | Greater | LessOrEqual | GreaterOrEqual | Spaceship
  {
    /** The backing string of the case. */
    function Value(): (s: string)
      ensures 1 <= |s| <= 3
    {
      match this
      case Equal => "=="
      case Identical => "==="
      case NotEqual => "!="
      case NotIdentical => "!=="
      case Less => "<"
      case Greater => ">"
      case LessOrEqual => "<="
      case GreaterOrEqual => ">="
      case Spaceship => "<=>"
    }
  }
}
