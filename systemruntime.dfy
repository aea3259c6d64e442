/**
 * The checks the runtime wrapper (src/support/lowlevel/firehub.SystemRuntime.php)
 * adds around PHP's configuration and process natives: the shorthand
 * validator of `parseConfigurationQuantity`, the guards of `sleep` and
 * `microsleep`, the falsy-result rule of `getConfigurationOption`, the
 * operator passed by `compareVersion`, and the access-level conversion
 * loop of `getConfigurationOptions`.
 *
 * The natives (`ini_get`, `ini_get_all`, `ini_parse_quantity`, `sleep`,
 * `version_compare`, `extension_loaded`) are parameters.
 */
module SystemRuntime {

  import opened Php
  import opened StrSB
  import opened Enums

  // ------------------------------------------------ configuration quantities

  const DecDigits: set<char> := {'0', '1', '2', '3', '4', '5', '6', '7', '8', '9'}
  const OctDigits: set<char> := {'0', '1', '2', '3', '4', '5', '6', '7'}
  const BinDigits: set<char> := {'0', '1'}
  const HexDigits: set<char> := DecDigits + {'a', 'b', 'c', 'd', 'e', 'f', 'A', 'B', 'C', 'D', 'E', 'F'}

  /** The multipliers the validator lets through. */
  const Multipliers: set<char> := {'K', 'M', 'G'}

  /** A non-empty run of characters from `cs`. */
  predicate Run(s: string, cs: set<char>) {
    |s| > 0 && forall i :: 0 <= i < |s| ==> s[i] in cs
  }

  /** `p` followed by a non-empty run of characters from `cs`. */
  predicate Prefixed(s: string, p: string, cs: set<char>) {
    |s| > |p| && s[..|p|] == p && Run(s[|p|..], cs)
  }

  /** The number part of the validator's pattern:
      `0x[0-9a-fA-F]+ | 0b[01]+ | 0o[0-7]+ | \d+`. */
  predicate Number(s: string) {
    Prefixed(s, "0x", HexDigits) || Prefixed(s, "0b", BinDigits)
    || Prefixed(s, "0o", OctDigits) || Run(s, DecDigits)
  }

  /** The whole pattern, anchored at both ends: a number and at most one
      `K`, `M` or `G`. */
  predicate QuantityForm(t: string) {
    Number(t) || (|t| > 0 && t[|t| - 1] in Multipliers && Number(t[..|t| - 1]))
  }

  /** `parseConfigurationQuantity`: the trimmed shorthand must match the
      pattern, otherwise InvalidConfigurationQuantityError; the untrimmed
      shorthand then goes to `ini_parse_quantity`. */
  function ParseConfigurationQuantity(shorthand: string, iniParseQuantity: string -> nat): (r: Result<nat>)
    ensures r.Failure? <==> !QuantityForm(Trim(shorthand, Whitespace))
    ensures r.Failure? ==> r.error == InvalidConfigurationQuantity
    ensures r.Success? ==> r.value == iniParseQuantity(shorthand)
  {
    if QuantityForm(Trim(shorthand, Whitespace)) then Success(iniParseQuantity(shorthand))
    else Failure(InvalidConfigurationQuantity)
  }

  /** The characters a number can begin, continue and end with. */
  lemma NumberEnds(n: string)
    requires Number(n)
    ensures n[0] in DecDigits
    ensures |n| >= 2 ==> n[1] in DecDigits + {'x', 'b', 'o'}
    ensures n[|n| - 1] in HexDigits
    ensures n[|n| - 1] !in {'k', 'm', 'g'}
    ensures |n| >= 2 ==> n[1] !in {'X', 'B', 'O'}
  {
    if Prefixed(n, "0x", HexDigits) || Prefixed(n, "0b", BinDigits) || Prefixed(n, "0o", OctDigits) {
      assert n[0] == n[..2][0] && n[1] == n[..2][1];
      assert n[|n| - 1] == n[2..][|n| - 3];
    }
  }

  /** Every accepted string begins with a decimal digit and holds no
      lowercase multiplier at its end and no uppercase base prefix. */
  lemma AcceptedShape(t: string)
    requires QuantityForm(t)
    ensures t[0] in DecDigits
    ensures t[|t| - 1] !in {'k', 'm', 'g'}
    ensures |t| >= 2 ==> t[1] !in {'X', 'B', 'O'}
  {
    if Number(t) {
      NumberEnds(t);
    } else {
      var n := t[..|t| - 1];
      NumberEnds(n);
      assert t[0] == n[0];
      if |n| >= 2 { assert t[1] == n[1]; }
    }
  }

  /** The documented lowercase multiplier is refused: `d + "k"` is never
      accepted, whatever the digits `d`. */
  lemma LowercaseMultiplierRejected(d: string, m: char)
    requires m in {'k', 'm', 'g'}
    ensures !QuantityForm(d + [m])
  {
    var t := d + [m];
    assert t[|t| - 1] == m;
    if QuantityForm(t) {
      AcceptedShape(t);
    }
  }

  /** The documented uppercase base prefixes are refused. */
  lemma UppercasePrefixRejected(p: char, rest: string)
    requires p in {'X', 'B', 'O'}
    ensures !QuantityForm(['0', p] + rest)
  {
    var t := ['0', p] + rest;
    assert t[1] == p;
    if QuantityForm(t) {
      AcceptedShape(t);
    }
  }

  /** Decimal digits with or without one uppercase multiplier are accepted,
      and so are the three lowercase prefixes followed by their digits. */
  lemma AcceptedForms(d: string, m: char, prefix: char, digits: string)
    requires Run(d, DecDigits) && m in Multipliers
    requires (prefix == 'x' && Run(digits, HexDigits)) || (prefix == 'b' && Run(digits, BinDigits))
             || (prefix == 'o' && Run(digits, OctDigits))
    ensures QuantityForm(d) && QuantityForm(d + [m])
    ensures QuantityForm(['0', prefix] + digits)
  {
    assert (d + [m])[..|d + [m]| - 1] == d;
    var t := ['0', prefix] + digits;
    assert t[..2] == ['0', prefix] && t[2..] == digits;
  }

  /** Surrounding whitespace is ignored by the validator, and the native
      parser still sees it. */
  lemma ValidatorTrims(a: string, t: string, b: string, iniParseQuantity: string -> nat)
    requires forall k :: 0 <= k < |a| ==> a[k] in Whitespace
    requires forall k :: 0 <= k < |b| ==> b[k] in Whitespace
    requires QuantityForm(t)
    ensures ParseConfigurationQuantity(a + t + b, iniParseQuantity) == Success(iniParseQuantity(a + t + b))
  {
    AcceptedShape(t);
    assert t[0] !in Whitespace;
    assert t[|t| - 1] !in Whitespace by {
      if Number(t) {
        assert t[|t| - 1] in HexDigits;
      }
    }
    TrimSurrounded(a, t, b, Whitespace);
  }

  // ------------------------------------------------------------- sleeping

  /** `sleep`: a negative time is SleepTimeInvalidError; otherwise the
      result says whether the native sleep returned 0. */
  function Sleep(seconds: int, nativeSleep: nat -> int): (r: Result<bool>)
    ensures r.Failure? <==> seconds < 0
    ensures r.Failure? ==> r.error == SleepTimeInvalid
    ensures r.Success? ==> (r.value <==> nativeSleep(seconds) == 0)
  {
    if seconds < 0 then Failure(SleepTimeInvalid) else Success(nativeSleep(seconds) == 0)
  }

  /** `microsleep`: only 0..999999 microseconds are allowed. */
  function Microsleep(microseconds: int): (r: Outcome)
    ensures r == Pass <==> 0 <= microseconds < 1000000
    ensures r != Pass ==> r == Fail(SleepTimeInvalid)
  {
    if microseconds < 0 || microseconds > 999_999 then Fail(SleepTimeInvalid) else Pass
  }

  // ------------------------------------------------------ configuration

  /** `getConfigurationOption`: `ini_get($option) ?: throw
      InvalidConfigurationOptionError`. */
  function GetConfigurationOption(option: string, iniGet: string -> Value): (r: Result<Value>)
    ensures r.Success? <==> Truthy(iniGet(option))
    ensures r.Success? ==> r.value == iniGet(option)
    ensures r.Failure? ==> r.error == InvalidConfigurationOption
  {
    OrThrow(iniGet(option), InvalidConfigurationOption)
  }

  /** An option whose value is empty, "0" (a boolean `off`) or unknown
      (`false`) is reported as invalid: the empty string the documentation
      promises for null values is never returned. */
  lemma ConfigurationOptionNeverEmpty(option: string, iniGet: string -> Value)
    ensures GetConfigurationOption(option, iniGet) != Success(Str(""))
    ensures iniGet(option) in {Str(""), Str("0"), Bool(false)} ==>
              GetConfigurationOption(option, iniGet) == Failure(InvalidConfigurationOption)
  {
  }

  /** The operator `compareVersion` passes: none for a missing comparison
      or the spaceship, the enum's string otherwise. */
  function OperatorArgument(comparison: Option<Comparison>): (r: Option<string>)
    ensures r.None? <==> comparison == None || comparison == Some(Spaceship)
    ensures r.Some? ==> r.value == comparison.value.Value()
  {
    match comparison
    case None => None
    case Some(Spaceship) => None
    case Some(c) => Some(c.Value())
  }

  /** Different comparisons other than the spaceship pass different
      operators. */
  lemma OperatorArgumentInjective(c: Comparison, d: Comparison)
    requires OperatorArgument(Some(c)) == OperatorArgument(Some(d)) != None
    ensures c == d
  {
  }

  /** `compareVersion`: `version_compare($first, $second, operator)`. */
  function CompareVersion(first: string, second: string, comparison: Option<Comparison>,
                          versionCompare: (string, string, Option<string>) -> Value): (r: Value)
    ensures comparison == None || comparison == Some(Spaceship) ==> r == versionCompare(first, second, None)
    ensures comparison.Some? && comparison != Some(Spaceship) ==>
              r == versionCompare(first, second, Some(comparison.value.Value()))
  {
    versionCompare(first, second, OperatorArgument(comparison))
  }

  /** One row of `ini_get_all`, with the access level as PHP's int. */
  datatype RawOption = RawOption(name: string, globalValue: Value, localValue: Value, access: int)

  /** One row after the conversion of its access level. */
  datatype IniOption = IniOption(name: string, globalValue: Value, localValue: Value, access: IniAccessLevel)

  /** Converts the access level of every row, failing at the first row
      whose level is not 1..7 (the `ValueError` of `IniAccessLevel::from`). */
  function ConvertAll(raw: seq<RawOption>): (r: Result<seq<IniOption>>)
    ensures r.Success? <==> forall i :: 0 <= i < |raw| ==> 1 <= raw[i].access <= 7
    ensures r.Success? ==> |r.value| == |raw|
    ensures r.Success? ==> forall i :: 0 <= i < |raw| ==>
              r.value[i].name == raw[i].name && r.value[i].globalValue == raw[i].globalValue
              && r.value[i].localValue == raw[i].localValue && r.value[i].access.Value() == raw[i].access
    ensures r.Failure? ==> exists j :: 0 <= j < |raw| && r.error == AccessLevelValueError(raw[j].access)
                                       && !(1 <= raw[j].access <= 7)
                                       && forall i :: 0 <= i < j ==> 1 <= raw[i].access <= 7
    decreases |raw|
  {
    if raw == [] then Success([])
    else
      var init := raw[..|raw| - 1];
      var last := raw[|raw| - 1];
      assert forall i :: 0 <= i < |init| ==> init[i] == raw[i];
      match ConvertAll(init)
      case Failure(e) => Failure(e)
      case Success(rows) =>
        match AccessLevelFrom(last.access)
        case Failure(e) =>
          assert !(1 <= raw[|raw| - 1].access <= 7);
          Failure(e)
        case Success(a) => Success(rows + [IniOption(last.name, last.globalValue, last.localValue, a)])
  }

  /** `getConfigurationOptions`: an extension that is given but not loaded
      is InvalidExtensionError; otherwise every row of `ini_get_all` has its
      access level converted in place. */
  method GetConfigurationOptions(extension: Option<string>, loadedExtensions: set<string>,
                                 iniGetAll: Option<string> -> seq<RawOption>)
    returns (r: Result<seq<IniOption>>)
    ensures extension.Some? && extension.value !in loadedExtensions ==> r == Failure(InvalidExtension)
    ensures extension.None? || extension.value in loadedExtensions ==> r == ConvertAll(iniGetAll(extension))
  {
    if extension.Some? && extension.value !in loadedExtensions {
      return Failure(InvalidExtension);
    }
    var options := iniGetAll(extension);
    var converted: seq<IniOption> := [];
    for i := 0 to |options|
      invariant ConvertAll(options[..i]) == Success(converted)
    {
      assert options[..i + 1][..i] == options[..i];
      var level := AccessLevelFrom(options[i].access);
      if level.Failure? {
        r := Failure(level.error);
        ConvertAllFailurePropagates(options, i + 1);
        assert options[..|options|] == options;
        return;
      }
      converted := converted + [IniOption(options[i].name, options[i].globalValue, options[i].localValue, level.value)];
    }
    assert options[..|options|] == options;
    r := Success(converted);
  }

  /** Once a prefix of the rows fails, the whole conversion fails with the
      same error. */
  lemma {:induction false} ConvertAllFailurePropagates(raw: seq<RawOption>, n: nat)
    requires n <= |raw| && ConvertAll(raw[..n]).Failure?
    ensures ConvertAll(raw) == ConvertAll(raw[..n])
    decreases |raw| - n
  {
    if n < |raw| {
      assert raw[..n + 1][..n] == raw[..n];
      ConvertAllFailurePropagates(raw, n + 1);
    } else {
      assert raw[..n] == raw;
    }
  }
}
