/**
 * The namespace-prefix autoload resolver
 * (src/support/autoload/loader/firehub.Resolver.php).
 *
 * The resolver keeps an ordered table from namespace prefix to an ordered,
 * duplicate-free list of base folders. Loading a class visits every prefix
 * `P` for which the class name starts with `P\`, builds one relative path
 * for it, probes that prefix's folders in order and requires the first
 * candidate that is a regular file.
 *
 * The file system is an oracle: `files` is the set of paths that are
 * regular files. `require` is recorded as the sequence of paths loaded.
 * The directory separator constant DS is a constructor parameter.
 */
module Resolver {

  import opened Php
  import opened StrSB

  /** The characters stripped from both ends of prefixes and folders. */
  const Separators: set<char> := {'\\', '/'}

  /** PHP's namespace separator. */
  const NsSep: char := '\\'

  /** `StrSB::trim(StrSB::trim($s), characters: '\\/')`: whitespace first,
      then separators. */
  function Normalise(s: string): (r: string)
    ensures |r| <= |s|
    ensures r != [] ==> r[0] !in Separators && r[|r| - 1] !in Separators
    ensures exists i, j :: 0 <= i <= j <= |s| && r == s[i..j]
                           && (forall k :: 0 <= k < i ==> s[k] in Whitespace + Separators)
                           && (forall k :: j <= k < |s| ==> s[k] in Whitespace + Separators)
  {
    NormaliseCuts(s);
    Trim(Trim(s, Whitespace), Separators)
  }

  /** The two trims together cut off runs of whitespace and separators. */
  lemma NormaliseCuts(s: string)
    ensures exists i, j :: 0 <= i <= j <= |s| && Trim(Trim(s, Whitespace), Separators) == s[i..j]
                           && (forall k :: 0 <= k < i ==> s[k] in Whitespace + Separators)
                           && (forall k :: j <= k < |s| ==> s[k] in Whitespace + Separators)
  {
    var i1, j1 := TrimCuts(s, Whitespace);
    var i2, j2 := TrimCuts(s[i1..j1], Separators);
    SliceOfSlice(s, i1, j1, i2, j2, Whitespace, Separators);
    assert Trim(Trim(s, Whitespace), Separators) == s[i1 + i2..i1 + j2];
  }

  /** A slice of a slice is a slice, and what is cut off around it is what
      the two cuts removed. */
  lemma SliceOfSlice(s: string, i1: nat, j1: nat, i2: nat, j2: nat, a: set<char>, b: set<char>)
    requires i1 <= j1 <= |s| && i2 <= j2 <= j1 - i1
    requires forall k :: 0 <= k < i1 ==> s[k] in a
    requires forall k :: j1 <= k < |s| ==> s[k] in a
    requires forall k :: 0 <= k < i2 ==> s[i1..j1][k] in b
    requires forall k :: j2 <= k < j1 - i1 ==> s[i1..j1][k] in b
    ensures s[i1..j1][i2..j2] == s[i1 + i2..i1 + j2]
    ensures forall k :: 0 <= k < i1 + i2 ==> s[k] in a + b
    ensures forall k :: i1 + j2 <= k < |s| ==> s[k] in a + b
  {
    var t := s[i1..j1];
    assert |t[i2..j2]| == j2 - i2;
    forall k | 0 <= k < j2 - i2 ensures t[i2..j2][k] == s[i1 + i2..i1 + j2][k] {
      assert t[i2..j2][k] == t[i2 + k] == s[i1 + i2 + k];
    }
    forall k | 0 <= k < i1 + i2 ensures s[k] in a + b {
      if k >= i1 { assert s[k] == s[i1..j1][k - i1]; }
    }
    forall k | i1 + j2 <= k < |s| ensures s[k] in a + b {
      if k < j1 { assert s[k] == s[i1..j1][k - i1]; }
    }
  }

  /** What the table may hold: a truthy string (so neither "" nor "0") that
      neither starts nor ends with a separator. */
  predicate Storable(s: string) {
    TruthyString(s) && s[0] !in Separators && s[|s| - 1] !in Separators
  }

  /** Normalised strings that pass the truthiness test may be stored. */
  lemma NormalisedStorable(s: string)
    ensures TruthyString(Normalise(s)) ==> Storable(Normalise(s))
  {
  }

  /** A table entry: `$namespaces[$prefix] = $folders`. */
  datatype Entry = Entry(prefix: string, folders: seq<string>)

  predicate Distinct(xs: seq<string>) {
    forall i, j :: 0 <= i < j < |xs| ==> xs[i] != xs[j]
  }

  /** One entry is well formed: a storable prefix and a duplicate-free list
      of storable folders. */
  predicate EntryValid(e: Entry) {
    && Storable(e.prefix)
    && Distinct(e.folders)
    && (forall j :: 0 <= j < |e.folders| ==> Storable(e.folders[j]))
  }

  /** No prefix is listed twice (array keys are unique). */
  predicate KeysDistinct(t: seq<Entry>) {
    forall i, j :: 0 <= i < j < |t| ==> t[i].prefix != t[j].prefix
  }

  /** The table invariant: distinct prefixes and well-formed entries. */
  predicate TableValid(t: seq<Entry>) {
    && KeysDistinct(t)
    && (forall i :: 0 <= i < |t| ==> EntryValid(t[i]))
  }

  /** The prefixes of the table, in table order. */
  function Prefixes(t: seq<Entry>): (r: seq<string>)
    ensures |r| == |t|
    ensures forall i :: 0 <= i < |t| ==> r[i] == t[i].prefix
  {
    if t == [] then [] else Prefixes(t[..|t| - 1]) + [t[|t| - 1].prefix]
  }

  /** Key lookup in the table. */
  function Find(t: seq<Entry>, p: string): (r: Option<nat>)
    ensures r.Some? ==> r.value < |t| && t[r.value].prefix == p
    ensures r.None? <==> p !in Prefixes(t)
  {
    if t == [] then None
    else if t[|t| - 1].prefix == p then Some(|t| - 1)
    else
      var r := Find(t[..|t| - 1], p);
      assert Prefixes(t) == Prefixes(t[..|t| - 1]) + [t[|t| - 1].prefix];
      r
  }

  /** In a table with distinct prefixes a key is found at its only position. */
  lemma FindAt(t: seq<Entry>, i: nat)
    requires KeysDistinct(t) && i < |t|
    ensures Find(t, t[i].prefix) == Some(i)
  {
    assert Prefixes(t)[i] == t[i].prefix;
    var k := Find(t, t[i].prefix).value;
    assert t[k].prefix == t[i].prefix;
    SamePrefixSamePosition(t, k, i);
  }

  /** With distinct keys, two positions holding the same prefix are one. */
  lemma SamePrefixSamePosition(t: seq<Entry>, a: nat, b: nat)
    requires KeysDistinct(t) && a < |t| && b < |t| && t[a].prefix == t[b].prefix
    ensures a == b
  {
  }

  /** The folders registered for `p`; none when `p` is not a key. */
  function Folders(t: seq<Entry>, p: string): seq<string> {
    match Find(t, p)
    case None => []
    case Some(i) => t[i].folders
  }

  /** The table after registering the (already normalised) pair: a new prefix
      is appended at the end with `[f]`; a known prefix gets `f` appended to
      its list unless it is already there. */
  function Register(t: seq<Entry>, p: string, f: string): (r: seq<Entry>)
    ensures |t| <= |r| <= |t| + 1
    ensures exists i :: 0 <= i < |r| && r[i].prefix == p && f in r[i].folders
  {
    match Find(t, p)
    case None =>
      var r := t + [Entry(p, [f])];
      assert r[|t|].prefix == p && f in r[|t|].folders;
      r
    case Some(i) =>
      if f in t[i].folders then t
      else
        var r := t[i := Entry(p, t[i].folders + [f])];
        assert f == (t[i].folders + [f])[|t[i].folders|];
        assert r[i].prefix == p && f in r[i].folders;
        r
  }

  /** Registration keeps the table invariant. */
  lemma RegisterValid(t: seq<Entry>, p: string, f: string)
    requires TableValid(t) && Storable(p) && Storable(f)
    ensures TableValid(Register(t, p, f))
  {
    match Find(t, p)
    case None =>
      var t' := t + [Entry(p, [f])];
      forall i, j | 0 <= i < j < |t'| ensures t'[i].prefix != t'[j].prefix {
        if j == |t| {
          assert t'[i].prefix == Prefixes(t)[i];
        }
      }
      forall i | 0 <= i < |t'| ensures EntryValid(t'[i]) {
        if i < |t| { assert t'[i] == t[i]; }
      }
    case Some(k) =>
      if f !in t[k].folders {
        var fs := t[k].folders + [f];
        var t' := t[k := Entry(p, fs)];
        assert EntryValid(t[k]);
        assert Distinct(fs) by {
          forall i, j | 0 <= i < j < |fs| ensures fs[i] != fs[j] {
            if j == |fs| - 1 { assert fs[i] in t[k].folders; }
          }
        }
        assert EntryValid(t'[k]);
      }
  }

  /** Registering a pair a second time changes nothing. */
  lemma RegisterIdempotent(t: seq<Entry>, p: string, f: string)
    requires TableValid(t) && Storable(p) && Storable(f)
    ensures Register(Register(t, p, f), p, f) == Register(t, p, f)
  {
    var t' := Register(t, p, f);
    RegisterValid(t, p, f);
    match Find(t, p)
    case None =>
      assert t'[|t|].prefix == p;
      FindAt(t', |t|);
    case Some(k) =>
      FindAt(t', k);
  }

  /** Registering `(p, f)` appends `f` to `p`'s list when absent and touches
      no other prefix's list. */
  lemma RegisterFolders(t: seq<Entry>, p: string, f: string, q: string)
    requires TableValid(t) && Storable(p) && Storable(f)
    ensures q != p ==> Folders(Register(t, p, f), q) == Folders(t, q)
    ensures q == p ==> Folders(Register(t, p, f), q)
                       == if f in Folders(t, p) then Folders(t, p) else Folders(t, p) + [f]
  {
    RegisterValid(t, p, f);
    RegisterPrefixes(t, p, f);
    if q == p {
      RegisterFoldersSame(t, p, f);
    } else {
      RegisterFoldersOther(t, p, f, q);
    }
  }

  /** The registered prefix's own list. */
  lemma RegisterFoldersSame(t: seq<Entry>, p: string, f: string)
    requires TableValid(t) && TableValid(Register(t, p, f))
    ensures Folders(Register(t, p, f), p) == if f in Folders(t, p) then Folders(t, p) else Folders(t, p) + [f]
  {
    var t' := Register(t, p, f);
    match Find(t, p)
    case Some(k) =>
      FindAt(t', k);
    case None =>
      FindAt(t', |t|);
  }

  /** Any other prefix's list. */
  lemma RegisterFoldersOther(t: seq<Entry>, p: string, f: string, q: string)
    requires q != p && KeysDistinct(t) && KeysDistinct(Register(t, p, f))
    requires Prefixes(Register(t, p, f)) == if p in Prefixes(t) then Prefixes(t) else Prefixes(t) + [p]
    ensures Folders(Register(t, p, f), q) == Folders(t, q)
  {
    var t' := Register(t, p, f);
    match Find(t, q)
    case Some(k) =>
      assert t'[k] == t[k] by {
        match Find(t, p)
        case None =>
        case Some(j) => assert j != k;
      }
      FindAt(t', k);
    case None =>
      assert q !in Prefixes(t');
  }

  /** Prefixes stay in first-registration order: a new prefix goes last,
      a known one keeps its place. */
  lemma RegisterPrefixes(t: seq<Entry>, p: string, f: string)
    ensures Prefixes(Register(t, p, f)) == if p in Prefixes(t) then Prefixes(t) else Prefixes(t) + [p]
  {
  }

  /** Class `c` is in namespace `p`: `StrSB::startsWith($p.'\\', $c)`. */
  predicate Matches(p: string, c: string)
    ensures Matches(p, c) <==> |p| < |c| && c[..|p|] == p && c[|p|] == NsSep
  {
    assert |p| < |c| ==> c[..|p| + 1] == c[..|p|] + [c[|p|]];
    StartsWith(p + [NsSep], c)
  }

  /** `$namespace`: the part of the remainder before its last `\` (falling
      back to "" when absent or falsy), lower-cased, with a `\` appended. */
  function NamespaceDir(rest: string): (r: string)
    ensures r != [] && r[|r| - 1] == NsSep
    ensures |r| <= |rest| + 1
  {
    ToLower(match LastCharacterFrom(NsSep, rest, true)
            case Some(s) => StringOr(s, "")
            case None => "") + [NsSep]
  }

  /** `$classname`: the part of the remainder from its last `\` (falling
      back to ""), with `\` trimmed from both ends. */
  function ClassFile(rest: string): (r: string)
    ensures NsSep !in r
    ensures NsSep !in rest ==> r == ""
  {
    Trim(match LastCharacterFrom(NsSep, rest, false)
         case Some(s) =>
           assert s == [NsSep] + s[1..];
           TrimSingleLeading(NsSep, s[1..]);
           StringOr(s, "")
         case None => "", {NsSep})
  }

  /** Every name of the form `P\rest` is in namespace `P`. */
  lemma MatchesSub(p: string, rest: string)
    ensures Matches(p, p + [NsSep] + rest)
  {
    assert (p + [NsSep] + rest)[..|p| + 1] == p + [NsSep];
  }

  /** The relative path for class `c` under prefix `p` (`getPath`): the inner
      namespace segments lower-cased, the filename prefix, the last segment in
      its own case and `.php`, with `\` turned into DS. */
  function GetPath(c: string, p: string, classPrefix: string, ds: char): (r: string)
    ensures |r| >= 4 && r[|r| - 4..] == ".php"
    ensures ds != NsSep ==> NsSep !in r
  {
    var rest := Part(c, |p|);
    var path := ReplaceChar(NamespaceDir(rest) + classPrefix + ClassFile(rest), NsSep, ds);
    PhpFile(path);
    path + ".php"
  }

  /** Appending `.php` adds no namespace separator. */
  lemma PhpFile(path: string)
    ensures |path + ".php"| == |path| + 4 && (path + ".php")[|path|..] == ".php"
    ensures NsSep !in path ==> NsSep !in path + ".php"
  {
    assert NsSep !in ".php";
  }

  /** The class name is the last segment, whatever comes before it. */
  lemma ClassFileOf(before: string, leaf: string)
    requires NsSep !in leaf
    ensures ClassFile(before + [NsSep] + leaf) == leaf
  {
    var rest := before + [NsSep] + leaf;
    var k := |before|;
    assert rest[k] == NsSep;
    assert forall j :: k < j < |rest| ==> rest[j] == leaf[j - k - 1];
    LastIndexOfIs(rest, NsSep, k);
    assert rest[k..] == [NsSep] + leaf;
    assert TruthyString([NsSep] + leaf);
    TrimSingleLeading(NsSep, leaf);
  }

  /** Directly under the prefix the namespace part is a lone separator. */
  lemma NamespaceDirFlat(leaf: string)
    requires NsSep !in leaf
    ensures NamespaceDir([NsSep] + leaf) == [NsSep]
  {
    var rest := [NsSep] + leaf;
    assert forall j :: 0 < j < |rest| ==> rest[j] == leaf[j - 1];
    LastIndexOfIs(rest, NsSep, 0);
    assert LastCharacterFrom(NsSep, rest, true) == Some("");
    assert ToLower("") == "";
  }

  /** In a sub-namespace the namespace part is the inner namespace,
      lower-cased, between separators. */
  lemma NamespaceDirNested(inner: string, leaf: string)
    requires NsSep !in leaf
    ensures NamespaceDir([NsSep] + inner + [NsSep] + leaf) == [NsSep] + ToLower(inner) + [NsSep]
  {
    var rest := [NsSep] + inner + [NsSep] + leaf;
    var k := |inner| + 1;
    assert rest[k] == NsSep;
    assert forall j :: k < j < |rest| ==> rest[j] == leaf[j - k - 1];
    LastIndexOfIs(rest, NsSep, k);
    var before := [NsSep] + inner;
    assert rest[..k] == before;
    assert before[0] == NsSep;
    assert TruthyString(before);
    assert LastCharacterFrom(NsSep, rest, true) == Some(before);
    ToLowerConcat([NsSep], inner);
    assert ToLower([NsSep]) == [NsSep];
  }

  /** A class directly under its prefix maps to DS, the filename prefix, the
      class name and `.php`. */
  lemma GetPathFlat(p: string, leaf: string, classPrefix: string, ds: char)
    requires NsSep !in leaf
    ensures GetPath(p + [NsSep] + leaf, p, classPrefix, ds)
            == [ds] + ReplaceChar(classPrefix, NsSep, ds) + leaf + ".php"
  {
    var rest := Part(p + [NsSep] + leaf, |p|);
    assert rest == [NsSep] + leaf;
    NamespaceDirFlat(leaf);
    ClassFileOf([], leaf);
    assert [] + [NsSep] + leaf == rest;
    ReplaceCharConcat([NsSep] + classPrefix, leaf, NsSep, ds);
    ReplaceCharConcat([NsSep], classPrefix, NsSep, ds);
    ReplaceCharAbsent(leaf, NsSep, ds);
  }

  /** Separator replacement over the pieces of a nested path. */
  lemma ReplaceNested(lowered: string, classPrefix: string, leaf: string, ds: char)
    requires NsSep !in leaf
    ensures ReplaceChar([NsSep] + lowered + [NsSep] + classPrefix + leaf, NsSep, ds)
            == [ds] + ReplaceChar(lowered, NsSep, ds) + [ds] + ReplaceChar(classPrefix, NsSep, ds) + leaf
  {
    var a := [NsSep] + lowered + [NsSep];
    assert ReplaceChar(a, NsSep, ds) == [ds] + ReplaceChar(lowered, NsSep, ds) + [ds] by {
      ReplaceCharConcat([NsSep] + lowered, [NsSep], NsSep, ds);
      ReplaceCharConcat([NsSep], lowered, NsSep, ds);
    }
    ReplaceCharConcat(a + classPrefix, leaf, NsSep, ds);
    ReplaceCharConcat(a, classPrefix, NsSep, ds);
    ReplaceCharAbsent(leaf, NsSep, ds);
  }

  /** A class in a sub-namespace maps to DS, the lower-cased inner namespace
      (its separators turned into DS), DS, the filename prefix, the class name
      in its own case and `.php`. */
  lemma GetPathNested(p: string, inner: string, leaf: string, classPrefix: string, ds: char)
    requires NsSep !in leaf
    ensures GetPath(p + [NsSep] + inner + [NsSep] + leaf, p, classPrefix, ds)
            == [ds] + ReplaceChar(ToLower(inner), NsSep, ds) + [ds]
               + ReplaceChar(classPrefix, NsSep, ds) + leaf + ".php"
  {
    var rest := Part(p + [NsSep] + inner + [NsSep] + leaf, |p|);
    assert rest == [NsSep] + inner + [NsSep] + leaf;
    NamespaceDirNested(inner, leaf);
    ClassFileOf([NsSep] + inner, leaf);
    ReplaceNested(ToLower(inner), classPrefix, leaf, ds);
  }

  /** Index of the first folder whose candidate `folder + rel` is a regular
      file: probing stops at the first hit. */
  function FirstHit(folders: seq<string>, rel: string, files: set<string>): (r: Option<nat>)
    ensures r.None? <==> forall k :: 0 <= k < |folders| ==> folders[k] + rel !in files
    ensures r.Some? ==> r.value < |folders| && folders[r.value] + rel in files
    ensures r.Some? ==> forall k :: 0 <= k < r.value ==> folders[k] + rel !in files
  {
    if folders == [] then None
    else if folders[0] + rel in files then Some(0)
    else match FirstHit(folders[1..], rel, files)
      case None => None
      case Some(k) => Some(k + 1)
  }

  /** Some folder holds the candidate file `rel`. */
  predicate HasCandidate(folders: seq<string>, rel: string, files: set<string>) {
    exists j :: 0 <= j < |folders| && folders[j] + rel in files
  }

  /** The load made for one table entry: nothing unless the class is in the
      entry's namespace and some folder holds the file. */
  function EntryLoads(e: Entry, c: string, classPrefix: string, ds: char, files: set<string>): (r: seq<string>)
    ensures |r| <= 1
    ensures r != [] ==> r[0] in files
    ensures r != [] <==> Matches(e.prefix, c) && HasCandidate(e.folders, GetPath(c, e.prefix, classPrefix, ds), files)
  {
    if Matches(e.prefix, c) then
      var rel := GetPath(c, e.prefix, classPrefix, ds);
      match FirstHit(e.folders, rel, files)
      case None => []
      case Some(k) =>
        assert e.folders[k] + rel in files;
        [e.folders[k] + rel]
    else []
  }

  /** Everything one call loads, in order: the entries' loads in table order. */
  function Loads(t: seq<Entry>, c: string, classPrefix: string, ds: char, files: set<string>): seq<string> {
    if t == [] then []
    else Loads(t[..|t| - 1], c, classPrefix, ds, files) + EntryLoads(t[|t| - 1], c, classPrefix, ds, files)
  }

  /** Extending the visited part of the table by one entry adds that entry's
      load. */
  lemma LoadsSnoc(t: seq<Entry>, i: nat, c: string, classPrefix: string, ds: char, files: set<string>)
    requires i < |t|
    ensures Loads(t[..i + 1], c, classPrefix, ds, files)
            == Loads(t[..i], c, classPrefix, ds, files) + EntryLoads(t[i], c, classPrefix, ds, files)
  {
    assert t[..i + 1][..i] == t[..i];
  }

  /** The prefixes the class is in, in table order. */
  function MatchingPrefixes(t: seq<Entry>, c: string): seq<string> {
    if t == [] then []
    else MatchingPrefixes(t[..|t| - 1], c) + (if Matches(t[|t| - 1].prefix, c) then [t[|t| - 1].prefix] else [])
  }

  /** At most one load per matching prefix. */
  lemma {:induction false} LoadsBound(t: seq<Entry>, c: string, classPrefix: string, ds: char, files: set<string>)
    ensures |Loads(t, c, classPrefix, ds, files)| <= |MatchingPrefixes(t, c)|
  {
    if t != [] {
      LoadsBound(t[..|t| - 1], c, classPrefix, ds, files);
    }
  }

  /** Only regular files are loaded. */
  lemma {:induction false} LoadsAreFiles(t: seq<Entry>, c: string, classPrefix: string, ds: char, files: set<string>)
    ensures forall x :: x in Loads(t, c, classPrefix, ds, files) ==> x in files
  {
    if t != [] {
      LoadsAreFiles(t[..|t| - 1], c, classPrefix, ds, files);
    }
  }

  /** A class in no registered namespace loads nothing. */
  lemma {:induction false} NoMatchNoLoads(t: seq<Entry>, c: string, classPrefix: string, ds: char, files: set<string>)
    requires MatchingPrefixes(t, c) == []
    ensures Loads(t, c, classPrefix, ds, files) == []
  {
    if t != [] {
      NoMatchNoLoads(t[..|t| - 1], c, classPrefix, ds, files);
    }
  }

  /** When none of the probed candidates exists, nothing is loaded. */
  lemma {:induction false} NoFilesNoLoads(t: seq<Entry>, c: string, classPrefix: string, ds: char, files: set<string>)
    requires forall i, j :: 0 <= i < |t| && Matches(t[i].prefix, c) && 0 <= j < |t[i].folders| ==>
               t[i].folders[j] + GetPath(c, t[i].prefix, classPrefix, ds) !in files
    ensures Loads(t, c, classPrefix, ds, files) == []
  {
    if t != [] {
      var init := t[..|t| - 1];
      assert forall i :: 0 <= i < |init| ==> init[i] == t[i];
      NoFilesNoLoads(init, c, classPrefix, ds, files);
      var e := t[|t| - 1];
      if Matches(e.prefix, c) {
        var rel := GetPath(c, e.prefix, classPrefix, ds);
        assert forall k :: 0 <= k < |e.folders| ==> e.folders[k] + rel !in files;
      }
    }
  }

  /** `App` is not a namespace of `Application\X`: the separator after the
      prefix is part of the test. */
  lemma PrefixNeedsSeparator()
    ensures !Matches("App", "Application\\X")
    ensures Matches("App", "App\\X")
  {
    assert ("Application\\X")[..4] != "App\\" by { assert ("Application\\X")[3] == 'l'; }
  }

  /** A string with no whitespace or separator at either end is stored as it
      is. */
  lemma NormaliseKeep(s: string)
    requires s != [] && s[0] !in Whitespace + Separators && s[|s| - 1] !in Whitespace + Separators
    ensures Normalise(s) == s
  {
    TrimKeep(s, Whitespace);
    TrimKeep(s, Separators);
  }

  /** One separator on each side is stripped. */
  lemma NormaliseWrapped(a: char, mid: string, b: char)
    requires a in Separators && b in Separators
    requires mid != [] && mid[0] !in Whitespace + Separators && mid[|mid| - 1] !in Whitespace + Separators
    ensures Normalise([a] + mid + [b]) == mid
  {
    var s := [a] + mid + [b];
    assert s[0] == a && s[|s| - 1] == b;
    TrimKeep(s, Whitespace);
    TrimBoth(a, mid, b, Separators);
  }

  /** A leading separator is stripped: an absolute folder is stored
      relative. */
  lemma NormaliseLeading(a: char, mid: string)
    requires a in Separators
    requires mid != [] && mid[0] !in Whitespace + Separators && mid[|mid| - 1] !in Whitespace + Separators
    ensures Normalise([a] + mid) == mid
  {
    var s := [a] + mid;
    assert s[0] == a && s[|s| - 1] == mid[|mid| - 1];
    TrimKeep(s, Whitespace);
    TrimFront(a, mid, Separators);
  }

  /** Surrounding whitespace is stripped before the separators. */
  lemma NormaliseSpaced(a: char, mid: string, b: char)
    requires a in Whitespace && b in Whitespace
    requires mid != [] && mid[0] !in Whitespace && mid[|mid| - 1] !in Whitespace
    ensures Normalise([a] + mid + [b]) == Normalise(mid)
  {
    TrimBoth(a, mid, b, Whitespace);
    TrimKeep(mid, Whitespace);
  }

  /** `\App\` and `App` give the same key. */
  lemma NormalisePrefixExample()
    ensures Normalise(['\\'] + "App" + ['\\']) == "App"
    ensures Normalise("App") == "App"
  {
    NormaliseKeep("App");
    NormaliseWrapped('\\', "App", '\\');
  }

  /** `/src/` and `src` give the same folder. */
  lemma NormaliseFolderExample()
    ensures Normalise(['/'] + "src" + ['/']) == "src"
    ensures Normalise("src") == "src"
  {
    NormaliseKeep("src");
    NormaliseWrapped('/', "src", '/');
  }

  /** `/var/acme/src` is stored as `var/acme/src`. */
  lemma NormaliseAbsoluteExample()
    ensures Normalise(['/'] + "var/acme/src") == "var/acme/src"
  {
    NormaliseLeading('/', "var/acme/src");
  }

  /** A lone separator, or nothing at all, normalises to the empty string,
      which `addNamespace` rejects. */
  lemma NormaliseEmptyExamples()
    ensures Normalise("\\") == "" && Normalise("/") == "" && Normalise("") == ""
  {
  }

  /** With one prefix and one folder, a class of that namespace whose
      candidate exists is loaded from that candidate alone. */
  lemma SingleFolderLoads(p: string, f: string, c: string, classPrefix: string, ds: char, files: set<string>)
    requires Matches(p, c)
    requires f + GetPath(c, p, classPrefix, ds) in files
    ensures Loads([Entry(p, [f])], c, classPrefix, ds, files) == [f + GetPath(c, p, classPrefix, ds)]
  {
    EntryLoadsHit(p, f, c, classPrefix, ds, files);
    LoadsOne(Entry(p, [f]), c, classPrefix, ds, files);
  }

  /** An entry with one folder loads that folder's candidate when the class
      is in the entry's namespace and the candidate exists. */
  lemma EntryLoadsHit(p: string, f: string, c: string, classPrefix: string, ds: char, files: set<string>)
    requires Matches(p, c)
    requires f + GetPath(c, p, classPrefix, ds) in files
    ensures EntryLoads(Entry(p, [f]), c, classPrefix, ds, files) == [f + GetPath(c, p, classPrefix, ds)]
  {
    assert FirstHit([f], GetPath(c, p, classPrefix, ds), files) == Some(0);
  }

  /** A one-entry table loads what its entry loads. */
  lemma LoadsOne(e: Entry, c: string, classPrefix: string, ds: char, files: set<string>)
    ensures Loads([e], c, classPrefix, ds, files) == EntryLoads(e, c, classPrefix, ds, files)
  {
    assert [e][..0] == [];
  }

  /** Folders are probed in list order: when the first folder holds the
      file, the second is never used. */
  lemma FirstFolderWins(p: string, f1: string, f2: string, c: string, classPrefix: string, ds: char, files: set<string>)
    requires Matches(p, c)
    requires f1 + GetPath(c, p, classPrefix, ds) in files
    ensures EntryLoads(Entry(p, [f1, f2]), c, classPrefix, ds, files) == [f1 + GetPath(c, p, classPrefix, ds)]
  {
    assert FirstHit([f1, f2], GetPath(c, p, classPrefix, ds), files) == Some(0);
  }

  /** A folder without the file is skipped silently and probing goes on with
      the next one. */
  lemma MissingFolderSkipped(p: string, f1: string, f2: string, c: string, classPrefix: string, ds: char, files: set<string>)
    requires Matches(p, c)
    requires f1 + GetPath(c, p, classPrefix, ds) !in files
    requires f2 + GetPath(c, p, classPrefix, ds) in files
    ensures EntryLoads(Entry(p, [f1, f2]), c, classPrefix, ds, files) == [f2 + GetPath(c, p, classPrefix, ds)]
  {
    var fs := [f1, f2];
    assert fs[1..] == [f2];
    assert FirstHit(fs[1..], GetPath(c, p, classPrefix, ds), files) == Some(0);
  }

  /** A class in two registered namespaces is looked up under both: a load
      under the first prefix does not stop the second. */
  lemma BothPrefixesLoad(p: string, q: string, f: string, g: string, c: string, classPrefix: string, ds: char, files: set<string>)
    requires Matches(p, c) && Matches(q, c)
    requires f + GetPath(c, p, classPrefix, ds) in files
    requires g + GetPath(c, q, classPrefix, ds) in files
    ensures Loads([Entry(p, [f]), Entry(q, [g])], c, classPrefix, ds, files)
            == [f + GetPath(c, p, classPrefix, ds), g + GetPath(c, q, classPrefix, ds)]
  {
    LoadsPair(Entry(p, [f]), Entry(q, [g]), c, classPrefix, ds, files);
    EntryLoadsHit(p, f, c, classPrefix, ds, files);
    EntryLoadsHit(q, g, c, classPrefix, ds, files);
  }

  /** A two-entry table loads what its first entry loads, then what its
      second entry loads. */
  lemma LoadsPair(e1: Entry, e2: Entry, c: string, classPrefix: string, ds: char, files: set<string>)
    ensures Loads([e1, e2], c, classPrefix, ds, files)
            == EntryLoads(e1, c, classPrefix, ds, files) + EntryLoads(e2, c, classPrefix, ds, files)
  {
    var t := [e1, e2];
    assert t[..1] == [e1];
    LoadsOne(e1, c, classPrefix, ds, files);
  }

  class Resolver {

    /** The filename prefix put in front of the class name. */
    const classPrefix: string
    /** The directory separator DS. */
    const ds: char

    /** `$namespaces`: prefix => folders, in registration order. */
    var namespaces: seq<Entry>

    ghost predicate Valid()
      reads this
    {
      TableValid(namespaces)
    }

    constructor (classPrefix: string, ds: char)
      ensures Valid()
      ensures this.classPrefix == classPrefix && this.ds == ds
      ensures namespaces == []
    {
      this.classPrefix := classPrefix;
      this.ds := ds;
      namespaces := [];
    }

    /** `addNamespace`: normalise both strings, reject a falsy prefix (first)
        or folder, then register the pair. A failed call changes nothing. */
    method AddNamespace(namespacePrefix: string, folder: string) returns (r: Outcome)
      requires Valid()
      modifies this
      ensures Valid()
      ensures !TruthyString(Normalise(namespacePrefix)) ==> r == Fail(InvalidNamespace)
      ensures TruthyString(Normalise(namespacePrefix)) && !TruthyString(Normalise(folder))
              ==> r == Fail(InvalidFolder)
      ensures r.Pass? <==> TruthyString(Normalise(namespacePrefix)) && TruthyString(Normalise(folder))
      ensures r.Fail? ==> namespaces == old(namespaces)
      ensures r.Pass? ==> namespaces == Register(old(namespaces), Normalise(namespacePrefix), Normalise(folder))
    {
      var p := Normalise(namespacePrefix);
      if !TruthyString(p) {
        return Fail(InvalidNamespace);
      }
      var f := Normalise(folder);
      if !TruthyString(f) {
        return Fail(InvalidFolder);
      }
      NormalisedStorable(namespacePrefix);
      NormalisedStorable(folder);
      Store(p, f);
      r := Pass;
    }

    /** The two table updates of `addNamespace`: `??= []` for the prefix, then
        the folder appended unless already listed. */
    method Store(p: string, f: string)
      requires Valid() && Storable(p) && Storable(f)
      modifies this
      ensures Valid()
      ensures namespaces == Register(old(namespaces), p, f)
    {
      ghost var before := namespaces;
      RegisterValid(before, p, f);
      var i := Find(namespaces, p);
      if i.None? {
        namespaces := namespaces + [Entry(p, [])];
        i := Some(|namespaces| - 1);
      }
      var k := i.value;
      if f !in namespaces[k].folders {
        namespaces := namespaces[k := namespaces[k].(folders := namespaces[k].folders + [f])];
        if k == |before| {
          assert namespaces[k] == Entry(p, [f]);
          assert namespaces == before + [Entry(p, [f])];
        }
      }
    }

    /** `__invoke`: for every matching prefix, in table order, probe its
        folders in order and load the first candidate that is a regular file.
        Misses are silent; the table is only read. */
    method Invoke(className: string, files: set<string>) returns (loads: seq<string>)
      ensures loads == Loads(namespaces, className, classPrefix, ds, files)
    {
      loads := [];
      for i := 0 to |namespaces|
        invariant loads == Loads(namespaces[..i], className, classPrefix, ds, files)
      {
        var e := namespaces[i];
        var loaded: seq<string> := [];
        if Matches(e.prefix, className) {
          var path := GetPath(className, e.prefix, classPrefix, ds);
          loaded := Probe(e.folders, path, files);
        }
        loads := loads + loaded;
        LoadsSnoc(namespaces, i, className, classPrefix, ds, files);
      }
      assert namespaces[..|namespaces|] == namespaces;
    }

    /** The inner loop of `__invoke`: `foreach ($folders as $folder) if
        ($this->requireFile($folder.$path)) break;`. */
    static method Probe(folders: seq<string>, path: string, files: set<string>) returns (loaded: seq<string>)
      ensures loaded == match FirstHit(folders, path, files)
                        case None => []
                        case Some(k) => [folders[k] + path]
    {
      loaded := [];
      for j := 0 to |folders|
        invariant forall k :: 0 <= k < j ==> folders[k] + path !in files
      {
        if folders[j] + path in files {
          loaded := [folders[j] + path];
          assert FirstHit(folders, path, files) == Some(j);
          return;
        }
      }
    }
  }
}
