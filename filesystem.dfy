/**
 * The decision logic of the file-system wrapper
 * (src/support/lowlevel/firehub.FileSystem.php): the mode arithmetic of
 * `create` and `setPermissions`, the guards of `parent` and `putContent`,
 * the flag choices of `list` and `putContent`, the falsy-result rule of
 * `read`, `list` and `putContent`, and the target paths of `rename` and
 * `copy`.
 *
 * Every native call (mkdir, chmod, scandir, readfile, file_put_contents,
 * rename, copy) is a function-typed parameter: an oracle whose answer the
 * wrapper inspects. The separator DS is a parameter.
 */
module FileSystem {

  import opened Php
  import opened StrSB
  import opened Enums

  // PHP's flag constants used by the wrapper.
  const FILE_APPEND: bv32 := 8
  const LOCK_EX: bv32 := 2
  const SCANDIR_SORT_ASCENDING: int := 0
  const SCANDIR_SORT_DESCENDING: int := 1
  const SCANDIR_SORT_NONE: int := 2

  // ---------------------------------------------------------------- modes

  /** The decimal digit character of a permission value. */
  function DigitChar(p: Permission): (c: char)
    ensures '0' <= c <= '7'
    ensures c as int - '0' as int == p.Value()
  {
    ('0' as int + p.Value()) as char
  }

  /** `'0'.$owner->value.$owner_group->value.$global->value`. */
  function ModeString(owner: Permission, group: Permission, global: Permission): string {
    ['0', DigitChar(owner), DigitChar(group), DigitChar(global)]
  }

  predicate IsOctalDigit(c: char) {
    '0' <= c <= '7'
  }

  /** 8 to the power `k`. */
  function Pow8(k: nat): (p: nat)
    ensures p >= 1
  {
    if k == 0 then 1 else 8 * Pow8(k - 1)
  }

  /** PHP's `octdec`: the octal digits of the string read in base 8;
      any other character is ignored. A string of `k` characters has at
      most `k` octal places, so its value is below 8^k. */
  function OctDec(s: string): (n: nat)
    ensures n < Pow8(|s|)
  {
    if s == [] then 0
    else if IsOctalDigit(s[|s| - 1]) then OctDec(s[..|s| - 1]) * 8 + (s[|s| - 1] as int - '0' as int)
    else OctDec(s[..|s| - 1])
  }

  /** Appending an octal digit shifts the value by one octal place. */
  lemma OctDecSnoc(s: string, c: char)
    requires IsOctalDigit(c)
    ensures OctDec(s + [c]) == OctDec(s) * 8 + (c as int - '0' as int)
  {
    assert (s + [c])[..|s|] == s;
  }

  /** The mode `create` and `setPermissions` pass to the native call. */
  function Mode(owner: Permission, group: Permission, global: Permission): nat {
    OctDec(ModeString(owner, group, global))
  }

  /** The mode is the three permission values read as octal digits:
      64 * owner + 8 * group + global, always within 0..511. */
  lemma ModeArithmetic(owner: Permission, group: Permission, global: Permission)
    ensures Mode(owner, group, global) == 64 * owner.Value() + 8 * group.Value() + global.Value()
    ensures Mode(owner, group, global) <= 511
  {
    var o, g, x := DigitChar(owner), DigitChar(group), DigitChar(global);
    var a, b, c := owner.Value(), group.Value(), global.Value();
    assert Mode(owner, group, global) == OctDec(['0', o, g, x]);
    OctDecDigits(o, g, x);
    assert OctDec(['0', o, g, x]) == 64 * a + 8 * b + c;
  }

  /** `octdec` of "0" followed by three octal digits. */
  lemma OctDecDigits(o: char, g: char, x: char)
    requires IsOctalDigit(o) && IsOctalDigit(g) && IsOctalDigit(x)
    ensures OctDec(['0', o, g, x]) == 64 * (o as int - '0' as int) + 8 * (g as int - '0' as int) + (x as int - '0' as int)
  {
    OctDecSnoc([], '0');
    OctDecSnoc(['0'], o);
    OctDecSnoc(['0', o], g);
    OctDecSnoc(['0', o, g], x);
    assert [] + ['0'] == ['0'];
    assert ['0'] + [o] == ['0', o];
    assert ['0', o] + [g] == ['0', o, g];
    assert ['0', o, g] + [x] == ['0', o, g, x];
  }

  /** Different permission triples give different modes. */
  lemma ModeInjective(o1: Permission, g1: Permission, x1: Permission, o2: Permission, g2: Permission, x2: Permission)
    requires Mode(o1, g1, x1) == Mode(o2, g2, x2)
    ensures o1 == o2 && g1 == g2 && x1 == x2
  {
    ModeArithmetic(o1, g1, x1);
    ModeArithmetic(o2, g2, x2);
    OctalDigitsUnique(o1.Value(), g1.Value(), x1.Value(), o2.Value(), g2.Value(), x2.Value());
    PermissionValueInjective(o1, o2);
    PermissionValueInjective(g1, g2);
    PermissionValueInjective(x1, x2);
  }

  /** Three octal digits are determined by their value. */
  lemma OctalDigitsUnique(a: int, b: int, c: int, d: int, e: int, f: int)
    requires 0 <= a <= 7 && 0 <= b <= 7 && 0 <= c <= 7 && 0 <= d <= 7 && 0 <= e <= 7 && 0 <= f <= 7
    requires 64 * a + 8 * b + c == 64 * d + 8 * e + f
    ensures a == d && b == e && c == f
  {
    assert a == d by {
      assert -63 <= 8 * (b - e) + (c - f) <= 63;
    }
    assert b == e;
  }

  /** `create`: `mkdir($path, mode, $recursive) ?: throw CreateFolderError`. */
  function Create(path: string, owner: Permission, group: Permission, global: Permission, recursive: bool,
                  mkdir: (string, nat, bool) -> bool): (r: Outcome)
    ensures r == Pass <==> mkdir(path, 64 * owner.Value() + 8 * group.Value() + global.Value(), recursive)
    ensures r != Pass ==> r == Fail(CreateFolderFailed)
  {
    ModeArithmetic(owner, group, global);
    if mkdir(path, Mode(owner, group, global), recursive) then Pass else Fail(CreateFolderFailed)
  }

  /** `setPermissions`: `chmod($path, mode) ?: throw SetPermissionsError`. */
  function SetPermissions(path: string, owner: Permission, group: Permission, global: Permission,
                          chmod: (string, nat) -> bool): (r: Outcome)
    ensures r == Pass <==> chmod(path, 64 * owner.Value() + 8 * group.Value() + global.Value())
    ensures r != Pass ==> r == Fail(SetPermissionsFailed)
  {
    ModeArithmetic(owner, group, global);
    if chmod(path, Mode(owner, group, global)) then Pass else Fail(SetPermissionsFailed)
  }

  // ---------------------------------------------------------------- paths

  /** A simplified `dirname` for one level: the part before the last
      separator, the separator itself for a top-level entry, and "." when
      a non-empty path has no separator; the empty path stays empty. */
  function Dirname(path: string, ds: char): (r: string)
    ensures path == "" ==> r == ""
    ensures ds !in path && path != "" ==> r == "."
    ensures ds in path ==> (|r| < |path| && path[..|r|] == r) || r == [ds]
    ensures ds in path && r != [ds] ==> path[|r|] == ds && ds !in path[|r| + 1..]
    ensures ds in path && r == [ds] ==> path[0] == ds && forall j :: 1 < j < |path| ==> path[j] != ds
  {
    match LastIndexOf(path, ds)
    case None => if path == "" then "" else "."
    case Some(k) => if k == 0 then [ds] else path[..k]
  }

  /** A simplified `basename`: the part after the last separator. */
  function Basename(path: string, ds: char): (r: string)
    ensures ds !in r
    ensures |r| <= |path| && path[|path| - |r|..] == r
    ensures |r| < |path| ==> path[|path| - |r| - 1] == ds
  {
    match LastIndexOf(path, ds)
    case None => path
    case Some(k) =>
      assert forall j :: k < j < |path| ==> path[j] != ds;
      path[k + 1..]
  }

  /** `dirname($path, $levels)`: one level at a time. */
  function DirnameLevels(path: string, levels: nat, ds: char): string
    decreases levels
  {
    if levels == 0 then path else DirnameLevels(Dirname(path, ds), levels - 1, ds)
  }

  /** `parent`: the path `levels` folders up; fewer than one level is an
      error. */
  function Parent(path: string, levels: int, ds: char): (r: Result<string>)
    ensures r.Failure? <==> levels < 1
    ensures r.Failure? ==> r.error == ParentLevelTooSmall
    ensures levels == 1 ==> r == Success(Dirname(path, ds))
  {
    if levels >= 1 then Success(DirnameLevels(path, levels, ds)) else Failure(ParentLevelTooSmall)
  }

  /** The path `rename` moves to: `parent($path).DS.$new_name`. */
  function RenameTarget(path: string, newName: string, ds: char): string {
    Dirname(path, ds) + [ds] + newName
  }

  /** The path `copy` copies to: `$to.DS.basename($path)`. */
  function CopyTarget(path: string, to: string, ds: char): string {
    to + [ds] + Basename(path, ds)
  }

  /** The separator is last in `prefix + [ds] + name` when `name` has none. */
  lemma LastSeparator(prefix: string, name: string, ds: char)
    requires ds !in name
    ensures LastIndexOf(prefix + [ds] + name, ds) == Some(|prefix|)
  {
    var s := prefix + [ds] + name;
    assert s[|prefix|] == ds;
    assert s[|prefix| + 1..] == name;
    forall j | |prefix| < j < |s| ensures s[j] != ds {
      assert s[j] in s[|prefix| + 1..];
    }
    LastIndexOfIs(s, ds, |prefix|);
  }

  /** `rename` keeps the file in its folder and gives it the new name; the
      empty path, whose dirname is empty, sends the file to the root. */
  lemma RenameStaysInFolder(path: string, newName: string, ds: char)
    requires ds !in newName
    ensures path != "" ==> Dirname(RenameTarget(path, newName, ds), ds) == Dirname(path, ds)
    ensures path == "" ==> RenameTarget(path, newName, ds) == [ds] + newName
                           && Dirname(RenameTarget(path, newName, ds), ds) == [ds]
    ensures Basename(RenameTarget(path, newName, ds), ds) == newName
  {
    var d := Dirname(path, ds);
    var t := d + [ds] + newName;
    LastSeparator(d, newName, ds);
    assert t[..|d|] == d;
    assert t[|d| + 1..] == newName;
    if d == "" {
    } else if d == "." {
    } else if d == [ds] {
    } else {
      assert d[0] == t[0];
    }
  }

  /** `copy` puts the file into the target folder under its own name. */
  lemma CopyKeepsName(path: string, to: string, ds: char)
    requires to != []
    ensures Basename(CopyTarget(path, to, ds), ds) == Basename(path, ds)
    ensures Dirname(CopyTarget(path, to, ds), ds) == to
  {
    var b := Basename(path, ds);
    var t := to + [ds] + b;
    LastSeparator(to, b, ds);
    assert t[..|to|] == to;
    assert t[|to| + 1..] == b;
  }

  /** `rename`: `rename($path, target) ?: throw RenameError`. */
  function Rename(path: string, newName: string, ds: char, rename: (string, string) -> bool): (r: Outcome)
    ensures r == Pass <==> rename(path, RenameTarget(path, newName, ds))
    ensures r != Pass ==> r == Fail(RenameFailed)
  {
    if rename(path, RenameTarget(path, newName, ds)) then Pass else Fail(RenameFailed)
  }

  /** `copy`: `copy($path, target) ?: throw CopyPathError`. */
  function Copy(path: string, to: string, ds: char, copy: (string, string) -> bool): (r: Outcome)
    ensures r == Pass <==> copy(path, CopyTarget(path, to, ds))
    ensures r != Pass ==> r == Fail(CopyPathFailed)
  {
    if copy(path, CopyTarget(path, to, ds)) then Pass else Fail(CopyPathFailed)
  }

  // ---------------------------------------------------------------- listing

  /** The scandir sorting flag chosen for `list`. */
  function SortFlag(order: Option<Order>): (flag: int)
    ensures order == Some(Asc) <==> flag == SCANDIR_SORT_ASCENDING
    ensures order == Some(Desc) <==> flag == SCANDIR_SORT_DESCENDING
    ensures order == None <==> flag == SCANDIR_SORT_NONE
  {
    match order
    case Some(Asc) => SCANDIR_SORT_ASCENDING
    case Some(Desc) => SCANDIR_SORT_DESCENDING
    case None => SCANDIR_SORT_NONE
  }

  /** `list`: `scandir($folder, flag) ?: throw CannotListError`; `false` and
      an empty listing both fail. */
  function List(folder: string, order: Option<Order>, scandir: (string, int) -> Value): (r: Result<Value>)
    ensures r.Success? <==> Truthy(scandir(folder, SortFlag(order)))
    ensures r.Success? ==> r.value == scandir(folder, SortFlag(order))
    ensures r.Failure? ==> r.error == CannotList
  {
    OrThrow(scandir(folder, SortFlag(order)), CannotList)
  }

  // ---------------------------------------------------------------- reading

  /** `read`: `readfile($path) ?: throw ReadFileError`. */
  function Read(path: string, readfile: string -> Value): (r: Result<Value>)
    ensures r.Success? <==> Truthy(readfile(path))
    ensures r.Success? ==> r.value == readfile(path)
    ensures r.Failure? ==> r.error == ReadFileFailed
  {
    OrThrow(readfile(path), ReadFileFailed)
  }

  /** Reading a file of zero bytes is reported as a failure. */
  lemma ReadEmptyFails(path: string, readfile: string -> Value)
    requires readfile(path) == Int(0)
    ensures Read(path, readfile) == Failure(ReadFileFailed)
  {
  }

  // ---------------------------------------------------------------- writing

  /** The `file_put_contents` flags for the append and lock options. */
  function WriteFlags(append: bool, lock: bool): (flags: bv32)
    ensures flags & FILE_APPEND != 0 <==> append
    ensures flags & LOCK_EX != 0 <==> lock
    ensures flags & !(FILE_APPEND | LOCK_EX) == 0
  {
    if append && lock then FILE_APPEND | LOCK_EX
    else if append then FILE_APPEND
    else if lock then LOCK_EX
    else 0
  }

  /** `putContent`: without `create_file` the path must already be a regular
      file; then `file_put_contents($path, $data, flags) ?: throw
      PutContentError`. The native write is `write`, applied to the flags. */
  function PutContent(path: string, data: Value, append: bool, lock: bool, createFile: bool,
                      regularFiles: set<string>, write: (string, Value, bv32) -> Value): (r: Result<Value>)
    ensures !createFile && path !in regularFiles ==> r == Failure(PathDoesntExist)
    ensures createFile || path in regularFiles ==>
              r == OrThrow(write(path, data, WriteFlags(append, lock)), PutContentFailed)
  {
    if !createFile && path !in regularFiles then Failure(PathDoesntExist)
    else OrThrow(write(path, data, WriteFlags(append, lock)), PutContentFailed)
  }

  /** When the guard rejects the path the native write is never consulted:
      the outcome is the same whatever the write would have done. */
  lemma PutContentNoWriteWhenMissing(path: string, data: Value, append: bool, lock: bool,
                                     regularFiles: set<string>, w1: (string, Value, bv32) -> Value,
                                     w2: (string, Value, bv32) -> Value)
    requires path !in regularFiles
    ensures PutContent(path, data, append, lock, false, regularFiles, w1)
            == PutContent(path, data, append, lock, false, regularFiles, w2)
            == Failure(PathDoesntExist)
  {
  }

  /** Writing zero bytes is reported as a failure. */
  lemma PutContentZeroBytesFails(path: string, data: Value, append: bool, lock: bool, createFile: bool,
                                 regularFiles: set<string>, write: (string, Value, bv32) -> Value)
    requires createFile || path in regularFiles
    requires write(path, data, WriteFlags(append, lock)) == Int(0)
    ensures PutContent(path, data, append, lock, createFile, regularFiles, write) == Failure(PutContentFailed)
  {
  }

  /** The four flag combinations. */
  lemma WriteFlagsCases()
    ensures WriteFlags(true, true) == FILE_APPEND | LOCK_EX == 10
    ensures WriteFlags(true, false) == FILE_APPEND
    ensures WriteFlags(false, true) == LOCK_EX
    ensures WriteFlags(false, false) == 0
  {
  }
}
