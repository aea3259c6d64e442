/**
 * The JSON wrapper (src/support/lowlevel/firehub.Json.php): the option
 * masks that `encode`, `decode` and `validate` build from their variadic
 * flag arguments, and the falsy-result rule on the native results.
 *
 * The flag enums (src/shared/enums/json/firehub.Flag.php and
 * src/shared/enums/json/flag/) are declared here with their backing ints.
 * `json_encode`, `json_decode` and `json_validate` are parameters.
 */
module Json {

  import opened Php

  /** `Flag`: options shared by encoding and decoding. */
  datatype Flag = ErrorNonBackedEnum | InvalidUtf8Ignore | InvalidUtf8Substitute | ThrowOnError
  {
    function Value(): bv32 {
      match this
      case ErrorNonBackedEnum => 11
      case InvalidUtf8Ignore => 1048576
      case InvalidUtf8Substitute => 2097152
      case ThrowOnError => 4194304
    }
  }

  /** `Encode`: options of encoding only. */
  datatype Encode =
    | HexTag | HexAmp | HexApos | HexQuot | ForceObject | NumericCheck
    | UnescapedSlashes | PrettyPrint | UnescapedUnicode | PartialOutputOnError
    | PreserveZeroFraction | UnescapedLineTerminators
  {
    function Value(): bv32 {
      match this
      case HexTag => 1
      case HexAmp => 2
      case HexApos => 3
      case HexQuot => 8
      case ForceObject => 16
      case NumericCheck => 32
      case UnescapedSlashes => 64
      case PrettyPrint => 128
      case UnescapedUnicode => 256
      case PartialOutputOnError => 512
      case PreserveZeroFraction => 1024
      case UnescapedLineTerminators => 2048
    }
  }

  /** `Decode`: options of decoding only. */
  datatype Decode = ObjectAsArray | BigintAsString
  {
    function Value(): bv32 {
      match this
      case ObjectAsArray => 1
      case BigintAsString => 2
    }
  }

  /** `Validate`: the one option of validation. */
  datatype Validate = ValidateInvalidUtf8Ignore
  {
    function Value(): bv32 {
      1048576
    }
  }

  /** An argument of `encode`: `Flag|Encode`. */
  datatype EncodeArg = EncodeFlag(flag: Flag) | EncodeOption(option: Encode)

  /** An argument of `decode`: `Flag|Decode`. */
  datatype DecodeArg = DecodeFlag(flag: Flag) | DecodeOption(option: Decode)

  // ------------------------------------------------------------ unique

  /** `Arr::unique`: the first occurrence of every element, in order. */
  function Unique<T(==,!new)>(s: seq<T>): (r: seq<T>)
    ensures forall x :: x in r <==> x in s
    ensures forall i, j :: 0 <= i < j < |r| ==> r[i] != r[j]
  {
    if s == [] then []
    else
      var u := Unique(s[..|s| - 1]);
      assert forall x :: x in s <==> x in s[..|s| - 1] || x == s[|s| - 1] by {
        assert s == s[..|s| - 1] + [s[|s| - 1]];
      }
      if s[|s| - 1] in s[..|s| - 1] then u else u + [s[|s| - 1]]
  }

  // ------------------------------------------------------------ folding

  /** `Arr::reduce` with OR from 0, each element contributing `c(x)`. */
  function FoldOr<T>(s: seq<T>, c: T -> bv32): bv32 {
    if s == [] then 0 else FoldOr(s[..|s| - 1], c) | c(s[|s| - 1])
  }

  /** Every element's contribution is within the fold. */
  lemma {:induction false} FoldOrCovers<T>(s: seq<T>, c: T -> bv32, i: nat)
    requires i < |s|
    ensures c(s[i]) | FoldOr(s, c) == FoldOr(s, c)
    decreases |s|
  {
    if i < |s| - 1 {
      FoldOrCovers(s[..|s| - 1], c, i);
      assert s[..|s| - 1][i] == s[i];
    }
  }

  /** The fold is within any mask that holds every contribution. */
  lemma {:induction false} FoldOrLeast<T>(s: seq<T>, c: T -> bv32, u: bv32)
    requires forall i :: 0 <= i < |s| ==> c(s[i]) | u == u
    ensures FoldOr(s, c) | u == u
    decreases |s|
  {
    if s != [] {
      FoldOrLeast(s[..|s| - 1], c, u);
    }
  }

  /** When every contributing element of `a` is in `b`, the fold of `a` is
      within the fold of `b`. */
  lemma FoldOrWithin<T(!new)>(a: seq<T>, b: seq<T>, c: T -> bv32)
    requires forall x :: x in a && c(x) != 0 ==> x in b
    ensures FoldOr(a, c) | FoldOr(b, c) == FoldOr(b, c)
  {
    forall i | 0 <= i < |a| ensures c(a[i]) | FoldOr(b, c) == FoldOr(b, c) {
      FoldOrCoversMember(a[i], b, c);
    }
    FoldOrLeast(a, c, FoldOr(b, c));
  }

  /** The contribution of a member of `b`, or a zero one, is within the fold. */
  lemma FoldOrCoversMember<T(!new)>(x: T, b: seq<T>, c: T -> bv32)
    requires c(x) != 0 ==> x in b
    ensures c(x) | FoldOr(b, c) == FoldOr(b, c)
  {
    if c(x) != 0 {
      var j :| 0 <= j < |b| && b[j] == x;
      FoldOrCovers(b, c, j);
    }
  }

  /** Two masks each within the other are equal. */
  lemma OrAntisymmetric(x: bv32, y: bv32)
    requires x | y == y && y | x == x
    ensures x == y
  {
  }

  /** Two sequences with the same elements, except for elements that
      contribute nothing, fold to the same mask: order and repetition do
      not matter. */
  lemma FoldOrSameElements<T(!new)>(a: seq<T>, b: seq<T>, c: T -> bv32)
    requires forall x :: x in a && c(x) != 0 ==> x in b
    requires forall x :: x in b && c(x) != 0 ==> x in a
    ensures FoldOr(a, c) == FoldOr(b, c)
  {
    FoldOrWithin(a, b, c);
    FoldOrWithin(b, a, c);
    OrAntisymmetric(FoldOr(a, c), FoldOr(b, c));
  }

  // ------------------------------------------------------------ masks

  const THROW_ON_ERROR: bv32 := 4194304

  /** What the reduce closure of `encode` adds for one argument:
      THROW_ON_ERROR is skipped, every other value is OR-ed in. */
  function EncodeContribution(a: EncodeArg): (m: bv32)
    ensures m & THROW_ON_ERROR == 0
  {
    match a
    case EncodeFlag(f) => if f == ThrowOnError then 0 else f.Value()
    case EncodeOption(e) => e.Value()
  }

  /** What the reduce closure of `decode` adds for one argument. */
  function DecodeContribution(a: DecodeArg): (m: bv32)
    ensures m & THROW_ON_ERROR == 0
  {
    match a
    case DecodeFlag(f) => if f == ThrowOnError then 0 else f.Value()
    case DecodeOption(d) => d.Value()
  }

  function ValidateContribution(v: Validate): bv32 {
    v.Value()
  }

  /** The options `encode` passes: the reduce over the unique arguments,
      then THROW_ON_ERROR. */
  function EncodeMask(flags: seq<EncodeArg>): (m: bv32)
    ensures m & THROW_ON_ERROR == THROW_ON_ERROR
  {
    FoldOr(Unique(flags), EncodeContribution) | THROW_ON_ERROR
  }

  /** The options `decode` passes. */
  function DecodeMask(flags: seq<DecodeArg>): (m: bv32)
    ensures m & THROW_ON_ERROR == THROW_ON_ERROR
  {
    FoldOr(Unique(flags), DecodeContribution) | THROW_ON_ERROR
  }

  /** The options `validate` passes: the reduce alone, nothing forced. */
  function ValidateMask(flags: seq<Validate>): bv32 {
    FoldOr(Unique(flags), ValidateContribution)
  }

  /** Removing duplicates changes nothing: the encode mask is the OR of all
      supplied values with THROW_ON_ERROR. */
  lemma EncodeMaskIsOr(flags: seq<EncodeArg>)
    ensures EncodeMask(flags) == FoldOr(flags, EncodeContribution) | THROW_ON_ERROR
  {
    FoldOrSameElements(Unique(flags), flags, EncodeContribution);
  }

  /** The encode mask depends only on which arguments are given, not on
      their order, their repetition or an explicit THROW_ON_ERROR. */
  lemma EncodeMaskSet(a: seq<EncodeArg>, b: seq<EncodeArg>)
    requires forall x :: x != EncodeFlag(ThrowOnError) ==> (x in a <==> x in b)
    ensures EncodeMask(a) == EncodeMask(b)
  {
    FoldOrSameElements(Unique(a), Unique(b), EncodeContribution);
  }

  /** The same for `decode`. */
  lemma DecodeMaskSet(a: seq<DecodeArg>, b: seq<DecodeArg>)
    requires forall x :: x != DecodeFlag(ThrowOnError) ==> (x in a <==> x in b)
    ensures DecodeMask(a) == DecodeMask(b)
  {
    FoldOrSameElements(Unique(a), Unique(b), DecodeContribution);
  }

  /** Passing THROW_ON_ERROR explicitly does not change either mask. */
  lemma ExplicitThrowIgnored(e: seq<EncodeArg>, d: seq<DecodeArg>)
    ensures EncodeMask(e + [EncodeFlag(ThrowOnError)]) == EncodeMask(e)
    ensures DecodeMask(d + [DecodeFlag(ThrowOnError)]) == DecodeMask(d)
  {
    EncodeMaskSet(e + [EncodeFlag(ThrowOnError)], e);
    DecodeMaskSet(d + [DecodeFlag(ThrowOnError)], d);
  }

  /** Without arguments both masks are exactly THROW_ON_ERROR, and the
      validate mask is 0. */
  lemma EmptyMasks()
    ensures EncodeMask([]) == THROW_ON_ERROR
    ensures DecodeMask([]) == THROW_ON_ERROR
    ensures ValidateMask([]) == 0
  {
  }

  /** The validate mask is 0 exactly when no flag is given. */
  lemma ValidateMaskZero(flags: seq<Validate>)
    ensures ValidateMask(flags) == 0 <==> flags == []
  {
    if flags != [] {
      FoldOrCovers(Unique(flags), ValidateContribution, 0) by {
        assert flags[0] in Unique(flags);
      }
    }
  }

  /** HEX_APOS (3) is not a bit of its own: it is HEX_TAG | HEX_AMP. */
  lemma HexAposOverlaps()
    ensures EncodeMask([EncodeOption(HexApos)]) == EncodeMask([EncodeOption(HexTag), EncodeOption(HexAmp)])
  {
    assert Unique([EncodeOption(HexTag), EncodeOption(HexAmp)]) == [EncodeOption(HexTag), EncodeOption(HexAmp)];
  }

  /** ERROR_NON_BACKED_ENUM (11) passed as an option sets the HEX_TAG,
      HEX_AMP and HEX_QUOT bits. */
  lemma ErrorNonBackedEnumBits()
    ensures EncodeMask([EncodeFlag(ErrorNonBackedEnum)])
            == EncodeMask([EncodeOption(HexTag), EncodeOption(HexAmp), EncodeOption(HexQuot)])
  {
    var hs := [EncodeOption(HexTag), EncodeOption(HexAmp), EncodeOption(HexQuot)];
    EncodeMaskIsOr(hs);
    EncodeMaskIsOr([EncodeFlag(ErrorNonBackedEnum)]);
    assert hs[..2] == [EncodeOption(HexTag), EncodeOption(HexAmp)];
    assert hs[..2][..1] == [EncodeOption(HexTag)];
    assert FoldOr(hs, EncodeContribution) == 11;
  }

  // ------------------------------------------------------------ calls

  /** `encode`: `json_encode($value, mask, $depth) ?: throw EncodeError`. */
  function EncodeValue(value: Value, depth: int, flags: seq<EncodeArg>,
                       jsonEncode: (Value, bv32, int) -> Value): (r: Result<Value>)
    ensures r.Success? <==> Truthy(jsonEncode(value, EncodeMask(flags), depth))
    ensures r.Success? ==> r.value == jsonEncode(value, EncodeMask(flags), depth)
    ensures r.Failure? ==> r.error == EncodeFailed
  {
    OrThrow(jsonEncode(value, EncodeMask(flags), depth), EncodeFailed)
  }

  /** `decode`: `json_decode($json, $as_array, $depth, mask) ?: throw
      DecodeError`. */
  function DecodeText(json: string, asArray: bool, depth: int, flags: seq<DecodeArg>,
                      jsonDecode: (string, bool, int, bv32) -> Value): (r: Result<Value>)
    ensures r.Success? <==> Truthy(jsonDecode(json, asArray, depth, DecodeMask(flags)))
    ensures r.Success? ==> r.value == jsonDecode(json, asArray, depth, DecodeMask(flags))
    ensures r.Failure? ==> r.error == DecodeFailed
  {
    OrThrow(jsonDecode(json, asArray, depth, DecodeMask(flags)), DecodeFailed)
  }

  /** Valid JSON that decodes to a falsy value (`0`, `false`, `""`, `"0"`,
      `[]`, `null`) is reported as a decoding error. */
  lemma FalsyDecodedFails(json: string, asArray: bool, depth: int, flags: seq<DecodeArg>,
                          jsonDecode: (string, bool, int, bv32) -> Value)
    requires jsonDecode(json, asArray, depth, DecodeMask(flags))
             in {Int(0), Bool(false), Str(""), Str("0"), Arr([]), Null}
    ensures DecodeText(json, asArray, depth, flags, jsonDecode) == Failure(DecodeFailed)
  {
  }

  /** An encoded text of "" or "0" is reported as an encoding error. */
  lemma FalsyEncodedFails(value: Value, depth: int, flags: seq<EncodeArg>,
                          jsonEncode: (Value, bv32, int) -> Value)
    requires jsonEncode(value, EncodeMask(flags), depth) in {Str(""), Str("0")}
    ensures EncodeValue(value, depth, flags, jsonEncode) == Failure(EncodeFailed)
  {
  }

  /** `validate`: `json_validate($json, $depth, mask)`. */
  function ValidateText(json: string, depth: int, flags: seq<Validate>,
                        jsonValidate: (string, int, bv32) -> bool): (r: bool)
    ensures flags == [] ==> (r <==> jsonValidate(json, depth, 0))
    ensures flags != [] ==> (r <==> jsonValidate(json, depth, 1048576))
  {
    ValidateMaskZero(flags);
    ValidateMaskValue(flags);
    jsonValidate(json, depth, ValidateMask(flags))
  }

  /** With any flag the validate mask is INVALID_UTF8_IGNORE. */
  lemma ValidateMaskValue(flags: seq<Validate>)
    ensures flags != [] ==> ValidateMask(flags) == 1048576
  {
    if flags != [] {
      var u := Unique(flags);
      assert flags[0] in u;
      assert |u| == 1 by {
        assert u[0] == u[|u| - 1];
      }
      assert u[0] == ValidateInvalidUtf8Ignore;
      assert u[..0] == [];
      assert FoldOr(u, ValidateContribution) == FoldOr(u[..0], ValidateContribution) | ValidateContribution(u[0]);
    }
  }
}
