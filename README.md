# FireHub core: autoload resolver and low-level decision logic, in Dafny

This project models the core of the FireHub PHP library and proves properties of the model.

The main part is the namespace-prefix autoload **resolver** (`Resolver`). It is a class whose field
`namespaces` is an ordered table. The table maps each namespace prefix to an ordered, duplicate-free
list of base folders.
- `AddNamespace` normalises and validates its two strings, then registers the pair in place.
- `Invoke` is a loop over the table. For every prefix the class name lies under, it builds the
  relative path of the class and probes that prefix's folders in order. It loads the first
  candidate that is a regular file.
- The file system is a set of existing regular files.
- `require` is recorded as the sequence of paths loaded by the call.

Around the resolver sits the decision logic of the low-level layer. This is the code the library
writes itself around native PHP calls:
- the PHP "falsy result means failure" rule (`?: throw`), defined once in `Php` as `Truthy`/`OrThrow`;
- file-mode arithmetic and write-flag selection (`FileSystem`);
- the configuration-quantity validator, the sleep guards and the access-level conversion (`SystemRuntime`);
- the JSON flag masks (`Json`);
- the runtime type names (`Data`);
- the define-once constant table (`Constant`, a class over a map);
- byte `chr`/`ord` (`CharSB`);
- the shared enums (`Enums`);
- the value-object guards (`ValueObject`);
- the throwable constructor defaults, with each class's late-bound default message (`Throwable`).

Every native call the library wraps is a function-typed parameter: `mkdir`, `chmod`, `rename`,
`copy`, `scandir`, `readfile`, `file_put_contents`, `json_encode`, `json_decode`, `json_validate`,
`ini_get`, `ini_get_all`, `ini_parse_quantity`, `sleep`, `version_compare`, `settype` and
`unserialize`. The model fixes what the library passes to each call and what it makes of the
answer, whatever that answer is.

Modules:
- `Php` (values, truthiness, errors, `Result`/`Outcome`/`Option`);
- `StrSB` (the string helpers the resolver and file system use);
- `Enums`, `Resolver`, `FileSystem`, `SystemRuntime`, `Json`, `Data`, `Constant`, `CharSB`,
  `ValueObject` and `Throwable`.

## Model

| member | source | states |
|---|---|---|
| Php.OrThrow | src/support/lowlevel/firehub.FileSystem.php:1188-1189 | `$x ?: throw`: fails with the given error iff the value is PHP-falsy; otherwise passes the value through unchanged |
| Php.StringOr | src/support/autoload/loader/firehub.Resolver.php:153 | `$s ?: ''`: a truthy string is kept; `""` and `"0"` give the fallback |
| Php.FalsyScalars | src/support/autoload/loader/firehub.Resolver.php:85-93 | the only falsy strings are `""` and `"0"`; the only falsy int is 0 |
| Php.Truthy | src/support/lowlevel/firehub.FileSystem.php:1188-1189 | the conversion to bool that `?:` applies: a value is falsy exactly when it is null, false, 0, 0.0, `""`, `"0"` or the empty array |
| Php.TruthyString | src/support/autoload/loader/firehub.Resolver.php:85-93 | a string is truthy iff it is longer than one character, or is one character other than `0` |
| StrSB.Trim | src/support/autoload/loader/firehub.Resolver.php:85-93 | trim: the result is the slice of the input left after cutting a leading and a trailing run of characters from the set; it starts and ends outside the set and is empty iff every character was in the set |
| StrSB.TrimKeep | src/support/autoload/loader/firehub.Resolver.php:85-93 | a string that neither starts nor ends in the set is unchanged |
| StrSB.TrimFront | src/support/autoload/loader/firehub.Resolver.php:85-93 | one leading character of the set is removed |
| StrSB.TrimBoth | src/support/autoload/loader/firehub.Resolver.php:85-93 | one character of the set on each side is removed |
| StrSB.TrimSingleLeading | src/support/autoload/loader/firehub.Resolver.php:155 | trimming `\` off `\Leaf` gives `Leaf` when the leaf has no `\` |
| StrSB.ToLower | src/support/autoload/loader/firehub.Resolver.php:153 | same length; each character is lower-cased (ASCII) |
| StrSB.ToLowerConcat | src/support/autoload/loader/firehub.Resolver.php:153 | lower-casing distributes over concatenation |
| StrSB.ReplaceChar | src/support/autoload/loader/firehub.Resolver.php:157 | same length; every `from` becomes `to` and every other character is kept, so no `from` remains when `to` differs |
| StrSB.ReplaceCharConcat | src/support/autoload/loader/firehub.Resolver.php:157 | replacement distributes over concatenation |
| StrSB.ReplaceCharAbsent | src/support/autoload/loader/firehub.Resolver.php:157 | a string without `from` is unchanged |
| StrSB.LastIndexOf | src/support/lowlevel/firehub.FileSystem.php:466-470 | none iff the character is absent; otherwise an index holding it with no later occurrence |
| StrSB.LastCharacterFrom | src/support/autoload/loader/firehub.Resolver.php:153-155 | `strrchr`: none iff the needle is absent; otherwise the prefix of the haystack before the last needle, or the suffix from it, which holds no later needle |
| StrSB.Part | src/support/lowlevel/firehub.StrSB.php:58-61 | `substr($s, $start)`: the input is the first `start` characters followed by the result; empty past the end |
| StrSB.StartsWith | src/support/autoload/loader/firehub.Resolver.php:114 | `startsWith`: the haystack is at least as long as the needle and agrees with it position by position |
| StrSB.TrimSurrounded | src/support/lowlevel/firehub.SystemRuntime.php:340 | any runs of set characters on either side of a core whose two ends lie outside the set are removed, leaving the core |
| Resolver.Normalise | src/support/autoload/loader/firehub.Resolver.php:85-93 | the normalised prefix or folder is a slice of the input whose cut-off ends hold only whitespace and separators; it neither starts nor ends with `\` or `/` |
| Resolver.NormalisedStorable | src/support/autoload/loader/firehub.Resolver.php:85-97 | a normalised string that passes the truthiness test meets the table invariant |
| Resolver.Prefixes | src/support/autoload/loader/firehub.Resolver.php:112 | the table's keys in table order |
| Resolver.Find | src/support/autoload/loader/firehub.Resolver.php:95 | key lookup: none iff the prefix is not a key; otherwise a position holding it |
| Resolver.Register | src/support/autoload/loader/firehub.Resolver.php:95-97 | `??= []` plus the guarded append: the table grows by at most one entry, and afterwards some entry for the prefix holds the folder |
| Resolver.FindAt | src/support/autoload/loader/firehub.Resolver.php:95 | with distinct keys, a prefix is found at its own position |
| Resolver.RegisterValid | src/support/autoload/loader/firehub.Resolver.php:95-97 | registration keeps the invariant: distinct keys, truthy separator-free prefixes and folders, no duplicate folder |
| Resolver.RegisterIdempotent | src/support/autoload/loader/firehub.Resolver.php:95-97 | registering the same pair again leaves the table unchanged |
| Resolver.RegisterFolders | src/support/autoload/loader/firehub.Resolver.php:95-97 | other prefixes' folder lists are untouched; the registered prefix's list gains the folder at the end iff it was absent |
| Resolver.RegisterPrefixes | src/support/autoload/loader/firehub.Resolver.php:95 | a new prefix goes last; the key order is otherwise kept (first-registration order) |
| Resolver.MatchesSub | src/support/autoload/loader/firehub.Resolver.php:114 | every class `P\rest` is under prefix `P` |
| Resolver.Matches | src/support/autoload/loader/firehub.Resolver.php:114 | a class is in namespace `p` iff its name starts with `p` followed by `\` |
| Resolver.PrefixNeedsSeparator | src/support/autoload/loader/firehub.Resolver.php:114 | `App` does not match `Application\X` but does match `App\X` |
| Resolver.ClassFileOf | src/support/autoload/loader/firehub.Resolver.php:155 | the class-file part is the last segment, whatever precedes it |
| Resolver.NamespaceDir | src/support/autoload/loader/firehub.Resolver.php:153 | the namespace part ends with `\` and is at most one character longer than the class remainder |
| Resolver.ClassFile | src/support/autoload/loader/firehub.Resolver.php:155 | the class-file part holds no `\`, and is empty when the remainder has no `\` |
| Resolver.GetPath | src/support/autoload/loader/firehub.Resolver.php:149-158 | the relative path ends in `.php` and holds no `\` once DS is not `\` |
| Resolver.NamespaceDirFlat | src/support/autoload/loader/firehub.Resolver.php:153 | directly under the prefix, the namespace part is a lone `\` |
| Resolver.NamespaceDirNested | src/support/autoload/loader/firehub.Resolver.php:153 | in a sub-namespace, the namespace part is `\` + the lower-cased inner namespace + `\` |
| Resolver.GetPathFlat | src/support/autoload/loader/firehub.Resolver.php:149-159 | `P\Leaf` maps to DS + class prefix + `Leaf` (case kept) + `.php` |
| Resolver.GetPathNested | src/support/autoload/loader/firehub.Resolver.php:149-159 | `P\inner\Leaf` maps to DS + lower-cased inner (separators as DS) + DS + class prefix + `Leaf` + `.php` |
| Resolver.FirstHit | src/support/autoload/loader/firehub.Resolver.php:118-120 | the first folder whose candidate is a regular file: none iff none is; no earlier folder's candidate is one |
| Resolver.EntryLoads | src/support/autoload/loader/firehub.Resolver.php:114-120 | one entry loads at most one file, a regular one; it loads iff the class is in the entry's namespace and some folder of the entry holds the candidate |
| Resolver.Loads | src/support/autoload/loader/firehub.Resolver.php:110-126 | the reference for `__invoke`: the entries' loads concatenated in table order; its properties are LoadsBound, LoadsAreFiles, NoMatchNoLoads and NoFilesNoLoads |
| Resolver.LoadsBound | src/support/autoload/loader/firehub.Resolver.php:112-124 | a call loads at most one file per matching prefix |
| Resolver.LoadsAreFiles | src/support/autoload/loader/firehub.Resolver.php:173-181 | only regular files are loaded |
| Resolver.NoMatchNoLoads | src/support/autoload/loader/firehub.Resolver.php:110-126 | a class under no registered prefix loads nothing |
| Resolver.NoFilesNoLoads | src/support/autoload/loader/firehub.Resolver.php:110-126 | for any file set holding no candidate of a matching prefix, nothing is loaded |
| Resolver.NormaliseKeep | src/support/autoload/loader/firehub.Resolver.php:85-93 | a string with no whitespace or separator at either end is stored as given |
| Resolver.NormaliseWrapped | src/support/autoload/loader/firehub.Resolver.php:85-93 | one separator on each side is stripped |
| Resolver.NormaliseLeading | src/support/autoload/loader/firehub.Resolver.php:85-93 | a leading separator is stripped |
| Resolver.NormaliseSpaced | src/support/autoload/loader/firehub.Resolver.php:85-93 | surrounding whitespace is removed before the separators |
| Resolver.NormalisePrefixExample | src/support/autoload/loader/firehub.Resolver.php:85-88 | `\App\` and `App` give the same key |
| Resolver.NormaliseFolderExample | src/support/autoload/loader/firehub.Resolver.php:90-93 | `/src/` and `src` give the same folder |
| Resolver.NormaliseAbsoluteExample | src/support/autoload/loader/firehub.Resolver.php:90-93 | `/var/acme/src` is stored as `var/acme/src` |
| Resolver.NormaliseEmptyExamples | src/support/autoload/loader/firehub.Resolver.php:85-93 | a lone `\`, a lone `/` and `""` normalise to `""`, which is rejected |
| Resolver.SingleFolderLoads | src/support/autoload/loader/firehub.Resolver.php:110-126 | one prefix with one folder holding the candidate loads exactly that file |
| Resolver.EntryLoadsHit | src/support/autoload/loader/firehub.Resolver.php:114-120 | an entry whose folder holds the candidate loads it |
| Resolver.LoadsOne | src/support/autoload/loader/firehub.Resolver.php:112-124 | a one-entry table loads what its entry loads |
| Resolver.FirstFolderWins | src/support/autoload/loader/firehub.Resolver.php:118-120 | when the first folder holds the file, the second is not probed |
| Resolver.MissingFolderSkipped | src/support/autoload/loader/firehub.Resolver.php:118-120 | a folder without the file is skipped silently and the next one is loaded |
| Resolver.BothPrefixesLoad | src/support/autoload/loader/firehub.Resolver.php:112-124 | a class under two prefixes is loaded under both, in table order |
| Resolver.LoadsPair | src/support/autoload/loader/firehub.Resolver.php:112-124 | a two-entry table loads its first entry's file, then its second's |
| Resolver.Resolver.constructor | src/support/autoload/loader/firehub.Resolver.php:60-62 | a new resolver has an empty table and keeps its class prefix and separator |
| Resolver.Resolver.AddNamespace | src/support/autoload/loader/firehub.Resolver.php:83-99 | the call succeeds iff both normalised strings are truthy; a falsy normalised prefix is InvalidNamespace, checked first; a falsy normalised folder is InvalidFolder; on failure the table is unchanged; on success it is the registered table, and the invariant holds |
| Resolver.Resolver.Store | src/support/autoload/loader/firehub.Resolver.php:95-97 | `??= []`, then append the folder unless listed: the new table is the registered one and keeps the invariant |
| Resolver.Resolver.Invoke | src/support/autoload/loader/firehub.Resolver.php:110-126 | the paths loaded are the entries' loads in table order, and the table is only read |
| Resolver.Resolver.Probe | src/support/autoload/loader/firehub.Resolver.php:118-120 | loads the first folder's candidate that is a regular file, or nothing |
| Enums.Type.Category | src/shared/enums/data/firehub.Type.php:94-102 | bool, int, float and string are scalar; array and object are compound; everything else is special |
| Enums.AllTypesComplete | src/shared/enums/data/firehub.Type.php:34-82 | the nine listed cases are all the types |
| Enums.CategoryPartition | src/shared/enums/data/firehub.Type.php:96-100 | category is total: 4 scalar, 2 compound and 3 special types, 9 in all |
| Enums.Order.Reverse | src/shared/enums/firehub.Order.php:54-61 | ASC becomes DESC, and anything else becomes ASC |
| Enums.ReverseInvolution | src/shared/enums/firehub.Order.php:56-59 | reversing twice gives the order back |
| Enums.ReverseNoFixedPoint | src/shared/enums/firehub.Order.php:56-59 | no order is its own reverse |
| Enums.PermissionValueInjective | src/shared/enums/filesystem/firehub.Permission.php:32-74 | distinct permissions have distinct values |
| Enums.PermissionCombinations | src/shared/enums/filesystem/firehub.Permission.php:32-74 | READ=4, WRITE=2, EXECUTE=1, NOTHING=0; each combined case is the OR of the rights it names |
| Enums.PermissionFrom | src/shared/enums/filesystem/firehub.Permission.php:32-74 | a case exists iff the int is 0..7, and it has that value |
| Enums.PermissionFromValue | src/shared/enums/filesystem/firehub.Permission.php:32-74 | converting a permission's value gives it back |
| Enums.AccessLevelFrom | src/shared/enums/systemruntime/firehub.IniAccessLevel.php:33-69 | `from`: a level exists iff the int is 1..7, with that value; any other int is a ValueError carrying it |
| Enums.AccessLevelFromValue | src/shared/enums/systemruntime/firehub.IniAccessLevel.php:33-69 | converting a level's value gives it back |
| FileSystem.ModeArithmetic | src/support/lowlevel/firehub.FileSystem.php:369 | `octdec('0'.o.g.x)` equals 64·o + 8·g + x and is at most 511 |
| FileSystem.Mode | src/support/lowlevel/firehub.FileSystem.php:369 | `octdec('0'.owner.group.global)`, the mode handed to `mkdir` and `chmod`; its value is stated by ModeArithmetic |
| FileSystem.OctDec | src/support/lowlevel/firehub.FileSystem.php:369 | `octdec` of a string of k characters is below 8^k (each character adds at most one octal place) |
| FileSystem.ModeInjective | src/support/lowlevel/firehub.FileSystem.php:369 | distinct permission triples give distinct modes |
| FileSystem.Create | src/support/lowlevel/firehub.FileSystem.php:367-370 | passes iff `mkdir` accepts mode 64·o + 8·g + x; otherwise CreateFolderError |
| FileSystem.SetPermissions | src/support/lowlevel/firehub.FileSystem.php:840-843 | passes iff `chmod` accepts mode 64·o + 8·g + x; otherwise SetPermissionsError |
| FileSystem.Dirname | src/support/lowlevel/firehub.FileSystem.php:567 | the empty path stays empty; `.` for a non-empty path without a separator; otherwise the prefix before the last separator (which is followed by no other), or the root separator when the only separator leads the path |
| FileSystem.Basename | src/support/lowlevel/firehub.FileSystem.php:466-470 | the suffix of the path after its last separator, which holds no separator |
| FileSystem.Parent | src/support/lowlevel/firehub.FileSystem.php:565-571 | ParentLevelTooSmallError iff levels < 1; one level is the dirname |
| FileSystem.RenameStaysInFolder | src/support/lowlevel/firehub.FileSystem.php:300 | the rename target lies in the source's folder and is named `new_name`; the empty path, whose dirname is empty, renames into the root |
| FileSystem.CopyKeepsName | src/support/lowlevel/firehub.FileSystem.php:331 | the copy target lies in `to` and keeps the source's base name |
| FileSystem.Rename | src/support/lowlevel/firehub.FileSystem.php:298-301 | passes iff `rename` to parent + DS + new name succeeds; otherwise RenameError |
| FileSystem.Copy | src/support/lowlevel/firehub.FileSystem.php:329-332 | passes iff `copy` to `to` + DS + basename succeeds; otherwise CopyPathError |
| FileSystem.SortFlag | src/support/lowlevel/firehub.FileSystem.php:619-623 | ASC iff ascending, DESC iff descending, null iff unsorted |
| FileSystem.List | src/support/lowlevel/firehub.FileSystem.php:617-624 | `scandir` with the sort flag; a falsy listing is CannotListError |
| FileSystem.Read | src/support/lowlevel/firehub.FileSystem.php:1186-1189 | the byte count iff truthy; otherwise ReadFileError |
| FileSystem.ReadEmptyFails | src/support/lowlevel/firehub.FileSystem.php:1188-1189 | reading a 0-byte file is ReadFileError |
| FileSystem.WriteFlags | src/support/lowlevel/firehub.FileSystem.php:1337-1342 | FILE_APPEND is set iff appending, LOCK_EX iff locking, and no other bit is set |
| FileSystem.WriteFlagsCases | src/support/lowlevel/firehub.FileSystem.php:1337-1342 | both gives FILE_APPEND\|LOCK_EX (10), append only FILE_APPEND, lock only LOCK_EX, neither 0 |
| FileSystem.PutContent | src/support/lowlevel/firehub.FileSystem.php:1333-1342 | PathDoesntExistError when not creating and the path is not a regular file; otherwise the write's byte count, or PutContentError when that is falsy |
| FileSystem.PutContentNoWriteWhenMissing | src/support/lowlevel/firehub.FileSystem.php:1335 | a missing path fails whatever the write would do, so no write happens |
| FileSystem.PutContentZeroBytesFails | src/support/lowlevel/firehub.FileSystem.php:1337-1342 | a write of 0 bytes is PutContentError |
| SystemRuntime.ParseConfigurationQuantity | src/support/lowlevel/firehub.SystemRuntime.php:337-344 | InvalidConfigurationQuantityError iff the trimmed input is not `0x`hex, `0b`bin, `0o`oct or decimal, followed by an optional K, M or G; otherwise the native result |
| SystemRuntime.AcceptedShape | src/support/lowlevel/firehub.SystemRuntime.php:340 | an accepted quantity starts with a digit, never ends in k/m/g, and never has X/B/O as its second character |
| SystemRuntime.LowercaseMultiplierRejected | src/support/lowlevel/firehub.SystemRuntime.php:327-340 | `k`, `m` or `g` is rejected, although the doc comment lists them |
| SystemRuntime.UppercasePrefixRejected | src/support/lowlevel/firehub.SystemRuntime.php:328-340 | `0X`, `0B` and `0O` are rejected, although the doc comment lists them |
| SystemRuntime.AcceptedForms | src/support/lowlevel/firehub.SystemRuntime.php:340 | decimal digits with or without K/M/G, and `0x`/`0b`/`0o` with their digits, are accepted |
| SystemRuntime.ValidatorTrims | src/support/lowlevel/firehub.SystemRuntime.php:340 | any whitespace before and after a valid quantity is accepted, and the native parser receives the untrimmed input |
| SystemRuntime.Sleep | src/support/lowlevel/firehub.SystemRuntime.php:540-546 | SleepTimeInvalidError iff seconds < 0; otherwise true iff the native sleep returns 0 |
| SystemRuntime.Microsleep | src/support/lowlevel/firehub.SystemRuntime.php:561-567 | passes iff 0 ≤ microseconds ≤ 999999; otherwise SleepTimeInvalidError |
| SystemRuntime.GetConfigurationOption | src/support/lowlevel/firehub.SystemRuntime.php:212-217 | the option's value iff truthy; otherwise InvalidConfigurationOptionError |
| SystemRuntime.ConfigurationOptionNeverEmpty | src/support/lowlevel/firehub.SystemRuntime.php:204-215 | never returns `""`, although the doc comment promises it for null; `""`, `"0"` and false are errors |
| SystemRuntime.OperatorArgument | src/support/lowlevel/firehub.SystemRuntime.php:461 | no operator iff the comparison is null or SPACESHIP; otherwise the enum's string |
| SystemRuntime.OperatorArgumentInjective | src/support/lowlevel/firehub.SystemRuntime.php:461 | distinct comparisons pass distinct operators |
| SystemRuntime.CompareVersion | src/support/lowlevel/firehub.SystemRuntime.php:446-467 | `version_compare` is called with no operator for null/SPACESHIP, and with the enum's value otherwise |
| SystemRuntime.ConvertAll | src/support/lowlevel/firehub.SystemRuntime.php:250-251 | succeeds iff every access is 1..7; each option keeps its name and values and gets the level with its access value; a failure is the ValueError of some option's access |
| SystemRuntime.ConvertAllFailurePropagates | src/support/lowlevel/firehub.SystemRuntime.php:250-251 | once a prefix of the options fails, the whole conversion fails with that error |
| SystemRuntime.GetConfigurationOptions | src/support/lowlevel/firehub.SystemRuntime.php:238-256 | InvalidExtensionError when a given extension is not loaded; otherwise the loop's result is the conversion of all options |
| Json.Unique | src/support/lowlevel/firehub.Json.php:81 | `Arr::unique`: the same members, with no duplicates |
| Json.FoldOr | src/support/lowlevel/firehub.Json.php:80-85 | `Arr::reduce` with OR from 0, each element contributing through the closure; its properties are FoldOrSameElements and EncodeMaskIsOr |
| Json.EncodeContribution | src/support/lowlevel/firehub.Json.php:82-84 | what the encode closure ORs in never has the THROW_ON_ERROR bit: an explicit THROW_ON_ERROR adds nothing and no other flag or option carries that bit |
| Json.DecodeContribution | src/support/lowlevel/firehub.Json.php:129-131 | what the decode closure ORs in never has the THROW_ON_ERROR bit |
| Json.FoldOrSameElements | src/support/lowlevel/firehub.Json.php:80-86 | the OR-reduce depends only on which nonzero-contributing flags occur, not on order or repetition |
| Json.EncodeMask | src/support/lowlevel/firehub.Json.php:80-86 | the encode mask always has THROW_ON_ERROR set |
| Json.DecodeMask | src/support/lowlevel/firehub.Json.php:127-133 | the decode mask always has THROW_ON_ERROR set |
| Json.EncodeMaskIsOr | src/support/lowlevel/firehub.Json.php:80-86 | the mask is the OR of the given flags' values with THROW_ON_ERROR |
| Json.EncodeMaskSet | src/support/lowlevel/firehub.Json.php:80-86 | two flag lists with the same members, THROW_ON_ERROR aside, give the same mask |
| Json.DecodeMaskSet | src/support/lowlevel/firehub.Json.php:127-133 | two flag lists with the same members, THROW_ON_ERROR aside, give the same mask |
| Json.ExplicitThrowIgnored | src/support/lowlevel/firehub.Json.php:82-84 | passing THROW_ON_ERROR explicitly does not change the mask |
| Json.EmptyMasks | src/support/lowlevel/firehub.Json.php:80-170 | with no flags: encode and decode masks are THROW_ON_ERROR, the validate mask is 0 |
| Json.ValidateMaskZero | src/support/lowlevel/firehub.Json.php:166-170 | the validate mask is 0 iff no flag is given |
| Json.ValidateMask | src/support/lowlevel/firehub.Json.php:166-170 | the reduce over the unique validate flags, with nothing forced; its value is stated by ValidateMaskZero and ValidateMaskValue |
| Json.ValidateMaskValue | src/support/lowlevel/firehub.Json.php:166-170 | with any flags the validate mask is 1048576 (INVALID_UTF8_IGNORE) |
| Json.HexAposOverlaps | src/shared/enums/json/flag/firehub.Encode.php:30-42 | HEX_APOS (3) gives the same mask as HEX_TAG with HEX_AMP |
| Json.ErrorNonBackedEnumBits | src/shared/enums/json/firehub.Flag.php:30 | ERROR_NON_BACKED_ENUM (11) sets the HEX_TAG, HEX_AMP and HEX_QUOT bits |
| Json.EncodeValue | src/support/lowlevel/firehub.Json.php:78-89 | `json_encode` with the encode mask; a falsy text is EncodeError |
| Json.DecodeText | src/support/lowlevel/firehub.Json.php:125-136 | `json_decode` with the decode mask; a falsy result is DecodeError |
| Json.FalsyDecodedFails | src/support/lowlevel/firehub.Json.php:134 | valid JSON that decodes to `0`, `false`, `""`, `"0"`, `[]` or null is DecodeError |
| Json.FalsyEncodedFails | src/support/lowlevel/firehub.Json.php:87 | an encoded text of `""` or `"0"` is EncodeError |
| Json.ValidateText | src/support/lowlevel/firehub.Json.php:164-172 | `json_validate` gets flag 0 without flags and 1048576 with any |
| Data.TypeName | src/support/lowlevel/firehub.Data.php:97-106 | every type has a `gettype` name of at least four characters |
| Data.GetTypeName | src/support/lowlevel/firehub.Data.php:97 | `gettype`'s name for each modelled value; GetTypeOfValue states that every one is recognised |
| Data.GetType | src/support/lowlevel/firehub.Data.php:95-108 | a name maps to the type that has it; a name no type has is TypeUnknownError |
| Data.NoTypeNamed | src/support/lowlevel/firehub.Data.php:106 | a name outside the nine is the name of no type |
| Data.GetTypeCovers | src/support/lowlevel/firehub.Data.php:97-108 | every type is reached from its name, and distinct names give distinct types |
| Data.GetTypeOfValue | src/support/lowlevel/firehub.Data.php:95-108 | every modelled value's type is recognised and agrees with the value's shape |
| Data.SetTypeName | src/support/lowlevel/firehub.Data.php:165-172 | a resource type has no `settype` name; every other type has one |
| Data.SetTypeNameMatches | src/support/lowlevel/firehub.Data.php:98-171 | the settable types use the `getType` names, except null, spelt `null` rather than `NULL` |
| Data.SetType | src/support/lowlevel/firehub.Data.php:160-176 | array-to-string is ArrayToStringConversionError first; resource targets are SetAsResourceError; otherwise `settype`'s value, or FailedToSetTypeError |
| Data.ArrayToStringBeforeConversion | src/support/lowlevel/firehub.Data.php:162-163 | the array-to-string guard fires whatever `settype` would do |
| Data.Unserialize | src/support/lowlevel/firehub.Data.php:236-246 | `b:0;` and `N;` are refused up front; a native `false` is UnserializeFailedError; a success is never false |
| Data.AmbiguousRefusedUpFront | src/support/lowlevel/firehub.Data.php:238 | the two ambiguous payloads fail whatever the native call would answer |
| Constant.ValueIn | src/support/lowlevel/firehub.Constant.php:111-117 | the constant's value iff defined; otherwise NotDefinedError |
| Constant.DefineIn | src/support/lowlevel/firehub.Constant.php:81-89 | AlreadyExistError iff already defined; a refused define is FailedToDefineError; on either the table is unchanged; otherwise the name is added with its value and others are kept |
| Constant.DefineThenValue | src/support/lowlevel/firehub.Constant.php:54-117 | after a successful define, the value is the one defined |
| Constant.DefineOnce | src/support/lowlevel/firehub.Constant.php:83-84 | a second define of the same name is AlreadyExistError and keeps the first value |
| Constant.DefineKeepsOthers | src/support/lowlevel/firehub.Constant.php:81-89 | defining one name does not change any other name's lookup |
| Constant.ConstantTable.constructor | src/support/lowlevel/firehub.Constant.php:54-58 | the table starts as the given constants |
| Constant.ConstantTable.Defined | src/support/lowlevel/firehub.Constant.php:54-58 | true iff the name is defined; the table is not changed |
| Constant.ConstantTable.Value | src/support/lowlevel/firehub.Constant.php:111-117 | the lookup result; the table is not changed |
| Constant.ConstantTable.Define | src/support/lowlevel/firehub.Constant.php:81-89 | the outcome and new table are those of the define-once rule |
| CharSB.Clamp | src/support/lowlevel/firehub.CharSB.php:54 | max(0, min(255, n)) |
| CharSB.Chr | src/support/lowlevel/firehub.CharSB.php:52-56 | `chr` gives a one-byte string |
| CharSB.Ord | src/support/lowlevel/firehub.CharSB.php:77-81 | `ord` is in 0..255 and is 0 for the empty string |
| CharSB.OrdFirstByte | src/support/lowlevel/firehub.CharSB.php:79 | `ord` depends only on the first byte |
| CharSB.OrdChr | src/support/lowlevel/firehub.CharSB.php:54-79 | `ord(chr(n))` is n clamped to 0..255 |
| CharSB.ChrOrd | src/support/lowlevel/firehub.CharSB.php:54-79 | `chr(ord(s))` is the first byte of a non-empty s |
| CharSB.ChrOrdEmpty | src/support/lowlevel/firehub.CharSB.php:54-79 | `chr(ord(""))` is the NUL byte |
| ValueObject.Guard | src/shared/firehub.ValueObject.php:71-75 | InvalidValueObjectError with the message iff the condition is exactly true; otherwise no effect |
| ValueObject.GuardIsStrict | src/shared/firehub.ValueObject.php:73 | truthy non-true conditions (1, `"yes"`) do not throw |
| ValueObject.NewCode | src/throwable/valueobject/firehub.Code.php:44-61 | InvalidValueObjectError iff the code is negative; otherwise the value is the given int |
| ValueObject.CodeEquals | src/throwable/valueobject/firehub.Code.php:57-61 | two codes are equal iff their ints are; equality is reflexive and symmetric |
| ValueObject.NewHandle | src/domain/autoload/firehub.Handle.php:50-67 | InvalidAutoloadHandleException iff the name is `""`; otherwise the value is the name |
| ValueObject.HandleAcceptsFalsyNames | src/domain/autoload/firehub.Handle.php:54 | `"0"` and blank names are accepted, unlike the resolver's falsy rule |
| ValueObject.HandleEquals | src/domain/autoload/firehub.Handle.php:63-67 | two handles are equal iff their names are identical; equality is symmetric |
| ValueObject.CodeNeverEqualsHandle | src/shared/firehub.ValueObject.php:52 | strict equality never equates an int code with a string handle |
| Throwable.Class.DefaultMessage | src/throwable/firehub.Throwable.php:65 | `static::DEFAULT_MESSAGE`: the nearest declaration up the class chain (`General exception.` in Exception.php:41, `General error.` in Error.php:41, or a subclass's own); non-empty when every declaration on the chain is |
| Throwable.OwnDefaultWins | src/throwable/firehub.Throwable.php:65 | an empty message on a subclass that redeclares DEFAULT_MESSAGE gives that subclass's message, not the base's |
| Throwable.InheritedDefault | src/throwable/firehub.Throwable.php:65 | a subclass that declares no default is constructed exactly as its parent |
| Throwable.LibraryMessagesNeverEmpty | src/throwable/exception/domain/autoload/firehub.InvalidFolderException.php:31 | each of the library's throwable classes (the two bases and their seven subclasses with their own defaults) stores a non-empty message for any argument |
| Throwable.Construct | src/throwable/firehub.Throwable.php:58-70 | an empty message becomes the class's late-bound default; no code gives DEFAULT_CODE 0; a Code gives its value; previous is passed through |
| Throwable.MessageNeverEmpty | src/throwable/firehub.Throwable.php:65 | the stored message is never empty when no class on the chain declares an empty default |
| Throwable.StoredCodeNonNegative | src/throwable/firehub.Throwable.php:35-66 | the stored code is never negative |

## Left out

- Native behaviour is not modelled. Every native call is a parameter whose answer is arbitrary: the file system, `require`, JSON encoding and decoding, `settype`, `unserialize`, `ini_*`, `version_compare` and the sleeps.
- The value computation of `ini_parse_quantity` is left out. This covers the bases and the K/M/G multipliers the doc comment describes. Only the validator in front of it is modelled.
- Native exceptions raised inside the wrapped calls are not modelled. Under THROW_ON_ERROR, `json_encode`/`json_decode` raise them themselves.
- Resources are not among the modelled values, so `GetTypeName` never reports a resource type. The `Type` enum and `getType` still cover them.
- FileSystem.Dirname: trailing separators are not stripped before the last segment is cut, and a run of separators before the last segment is not collapsed (`a//b` gives `a/` where PHP gives `a`, so a rename of `a//b` targets `a//c` rather than `a/c`), and levels above one are repeated dirnames. The Windows drive rules of `dirname` are left out.
- FileSystem.Basename: the `suffix` argument is left out, as are trailing separators. `rename` and `copy` never pass either.
- Resolver.Resolver.Invoke: a class loaded by `require` that re-enters the resolver is not modelled.
- Integer-like namespace prefixes are not modelled. PHP stores a prefix such as `123` as an int array key.
- The other StrSB helpers (`trim`, `startsWith`, `length`, `toLower`, `lastCharacterFrom`, `replace`) are specified by the PHP functions they are named after. Their source is not part of this model.
  - `toLower` is ASCII-only.
  - `startsWith` takes the needle first.
  - `lastCharacterFrom` behaves like `strrchr` with a before-needle flag.
- `Arr::unique` and `Arr::reduce` are specified directly by `Json.Unique` and `Json.FoldOr`. `Arr::inArray` is sequence membership.
- The directory separator DS is a parameter.
- Whitespace for `trim` is PHP's default set: space, tab, newline, carriage return, NUL and vertical tab.
- The other low-level wrappers are left out because their only logic is forwarding to a native call:
  - serialize, the setters and the other configuration getters;
  - time, regex, multibyte string, class and object, function and iterator helpers.
- Date and time, floating-point and locale behaviour are left out.
- The exception classes are one `Error` datatype. Their messages are not modelled, except the value-object guard messages.
- Throwable.Construct: `previous` is an opaque identifier. The chain of throwables is not modelled. `static::DEFAULT_CODE` is read as the trait's 0, since no class in the library redeclares it.
