/**
 Containment of a path in a base directory, tested on strings, and the storage
 directories built with it. Paths are lexical: no symbolic links.
 */
module SafePaths {
  import opened Text
  import opened Paths
  import ModuleSources
  import VersionText

  datatype SafePath = Within(path: string) | OutsideBase

  // ---------- real paths ----------

  /** The directory an absolute path names; a relative path is taken from `cwd`. */
  function Locate(cwd: Directory, path: string): Directory {
    Follow(if StartsWith(path, "/") then [] else cwd, path)
  }

  /** The text of a directory: its names, each after a slash. */
  function ShowDirectory(dir: Directory): string {
    "/" + Join(dir, '/')
  }

  function RealPath(cwd: Directory, path: string): string {
    ShowDirectory(Locate(cwd, path))
  }

  lemma {:induction false} WalkKeepsRealNames(dir: Directory, parts: seq<string>)
    requires RealNames(dir) && Separable(parts, '/')
    ensures RealNames(Walk(dir, parts))
    decreases |parts|
  {
    if parts != [] {
      assert forall i :: 0 <= i < |parts[1..]| ==> parts[1..][i] == parts[i + 1];
      WalkKeepsRealNames(StepInto(dir, parts[0]), parts[1..]);
    }
  }

  lemma LocateIsReal(cwd: Directory, path: string)
    requires RealNames(cwd)
    ensures RealNames(Locate(cwd, path))
  {
    SplitSeparable(path, '/');
    WalkKeepsRealNames(if StartsWith(path, "/") then [] else cwd, Split(path, '/'));
  }

  lemma ShowDirectoryInjective(a: Directory, b: Directory)
    requires RealNames(a) && RealNames(b) && ShowDirectory(a) == ShowDirectory(b)
    ensures a == b
  {
    assert Join(a, '/') == ShowDirectory(a)[1..] == ShowDirectory(b)[1..] == Join(b, '/');
    if a != [] {
      SplitOfJoin(a, '/');
    }
    if b != [] {
      SplitOfJoin(b, '/');
    }
    assert Split("", '/') == [""];
    assert a != [] ==> a[0] != "";
    assert b != [] ==> b[0] != "";
  }

  // ---------- the containment test ----------

  /** Compares the texts of the two real paths, the base extended by a slash. */
  function CheckSubdirectory(cwd: Directory, baseDir: string, subDir: string, allowSame: bool): SafePath {
    var realBase := RealPath(cwd, baseDir);
    var realSub := RealPath(cwd, subDir);
    var baseSlash := if realBase != "/" then realBase + "/" else realBase;
    if ((!allowSame || realSub != realBase) && !StartsWith(realSub, baseSlash)) || (!allowSame && realSub == realBase)
    then OutsideBase
    else Within(realSub)
  }

  /** A real path text starts with the slash-extended base text exactly when its names extend the base's names. */
  lemma PrefixIffExtends(base: Directory, sub: Directory)
    requires RealNames(base) && RealNames(sub)
    ensures StartsWith(ShowDirectory(sub), ShowDirectory(base) + "/") <==> base != [] && base < sub
  {
    if base == [] {
      NothingStartsWithTwoSlashes(sub);
      assert ShowDirectory(base) + "/" == "//";
    } else if base < sub {
      ExtensionHasPrefix(base, sub);
    } else if StartsWith(ShowDirectory(sub), ShowDirectory(base) + "/") {
      PrefixIsExtension(base, sub);
      assert false;
    }
  }

  lemma NothingStartsWithTwoSlashes(sub: Directory)
    requires RealNames(sub)
    ensures !StartsWith(ShowDirectory(sub), "//")
  {
    if StartsWith(ShowDirectory(sub), "//") {
      assert ShowDirectory(sub)[1] == '/';
      RealTextHasNoDoubleSlash(sub);
      assert false;
    }
  }

  lemma ExtensionHasPrefix(base: Directory, sub: Directory)
    requires base != [] && base < sub
    ensures StartsWith(ShowDirectory(sub), ShowDirectory(base) + "/")
  {
    JoinAppend(base, sub[|base|..], '/');
    assert sub == base + sub[|base|..];
  }

  lemma PrefixIsExtension(base: Directory, sub: Directory)
    requires RealNames(base) && RealNames(sub) && base != []
    requires StartsWith(ShowDirectory(sub), ShowDirectory(base) + "/")
    ensures base < sub
  {
    var b, s := ShowDirectory(base), ShowDirectory(sub);
    var rest := s[|b| + 1..];
    assert s == b + "/" + rest;
    assert s == "/" + (Join(base, '/') + ['/'] + rest);
    assert s[1..] == Join(sub, '/');
    SplitAtSeparator(Join(base, '/'), rest, '/');
    SplitOfJoin(base, '/');
    assert sub != [];
    SplitOfJoin(sub, '/');
    assert sub == base + Split(rest, '/');
  }

  lemma RealTextHasNoDoubleSlash(dir: Directory)
    requires RealNames(dir)
    ensures |ShowDirectory(dir)| > 1 ==> ShowDirectory(dir)[1] != '/'
  {
    ModuleSources.JoinedNamesHaveNoDoubleSlash(dir);
    if dir != [] {
      assert ShowDirectory(dir)[1] == Join(dir, '/')[0];
    }
  }

  /**
   The string test accepts exactly the paths whose names properly extend the
   base's names, or equal them when that is allowed, and returns the real path.
   */
  lemma ContainmentIsExtension(cwd: Directory, baseDir: string, subDir: string, allowSame: bool)
    requires RealNames(cwd)
    ensures var base := Follow(if StartsWith(baseDir, "/") then [] else cwd, baseDir);
            var sub := Follow(if StartsWith(subDir, "/") then [] else cwd, subDir);
            CheckSubdirectory(cwd, baseDir, subDir, allowSame)
            == if base < sub || (allowSame && base == sub) then Within(ShowDirectory(sub)) else OutsideBase
  {
    var base, sub := Locate(cwd, baseDir), Locate(cwd, subDir);
    LocateIsReal(cwd, baseDir);
    LocateIsReal(cwd, subDir);
    PrefixIffExtends(base, sub);
    if ShowDirectory(base) == ShowDirectory(sub) {
      ShowDirectoryInjective(base, sub);
    }
    if ShowDirectory(base) == "/" {
      assert ShowDirectory([]) == "/";
      ShowDirectoryInjective(base, []);
    }
  }

  // ---------- joining ----------

  /** Joins all paths in turn, as the operating system does. */
  function JoinAll(first: string, rest: seq<string>): string {
    if rest == [] then first else ModuleSources.JoinPath(JoinAll(first, rest[..|rest| - 1]), rest[|rest| - 1])
  }

  /** A sub-path that starts with a slash is made relative. */
  function Relative(subPath: string): string {
    if StartsWith(subPath, "/") then "." + subPath else subPath
  }

  function AllRelative(subPaths: seq<string>): (rs: seq<string>)
    ensures |rs| == |subPaths|
  {
    if subPaths == [] then [] else AllRelative(subPaths[..|subPaths| - 1]) + [Relative(subPaths[|subPaths| - 1])]
  }

  lemma {:induction false} AllRelativeAt(subPaths: seq<string>, i: nat)
    requires i < |subPaths|
    ensures AllRelative(subPaths)[i] == Relative(subPaths[i])
    decreases |subPaths|
  {
    if i < |subPaths| - 1 {
      AllRelativeAt(subPaths[..|subPaths| - 1], i);
    }
  }

  function SafeJoin(cwd: Directory, baseDir: string, subPaths: seq<string>, allowSame: bool): SafePath {
    CheckSubdirectory(cwd, baseDir, JoinAll(baseDir, AllRelative(subPaths)), allowSame)
  }

  /** Rewrites the sub-paths in place, joins them, and checks the result. */
  method SafeJoinPaths(cwd: Directory, baseDir: string, subPaths: seq<string>, allowSame: bool) returns (r: SafePath)
    ensures r == SafeJoin(cwd, baseDir, subPaths, allowSame)
  {
    var paths := new string[|subPaths|](i requires 0 <= i < |subPaths| => subPaths[i]);
    for itx := 0 to paths.Length
      invariant forall k :: 0 <= k < itx ==> paths[k] == Relative(subPaths[k])
      invariant forall k :: itx <= k < paths.Length ==> paths[k] == subPaths[k]
    {
      if StartsWith(paths[itx], "/") {
        paths[itx] := "." + paths[itx];
      }
    }
    forall k | 0 <= k < |subPaths|
      ensures AllRelative(subPaths)[k] == Relative(subPaths[k])
    {
      AllRelativeAt(subPaths, k);
    }
    assert paths[..] == AllRelative(subPaths);
    r := CheckSubdirectory(cwd, baseDir, JoinAll(baseDir, paths[..]), allowSame);
  }

  /** No sub-path, absolute or not, is followed from anywhere but the base. */
  lemma {:induction false} LocateJoined(cwd: Directory, baseDir: string, subPaths: seq<string>)
    requires baseDir != ""
    ensures Locate(cwd, JoinAll(baseDir, AllRelative(subPaths)))
            == ModuleSources.FollowAll(Locate(cwd, baseDir), subPaths)
    ensures var joined := JoinAll(baseDir, AllRelative(subPaths));
            joined != "" && (StartsWith(joined, "/") <==> StartsWith(baseDir, "/"))
  {
    if subPaths != [] {
      var init, last := subPaths[..|subPaths| - 1], subPaths[|subPaths| - 1];
      var joined := JoinAll(baseDir, AllRelative(init));
      LocateJoined(cwd, baseDir, init);
      assert AllRelative(subPaths)[..|subPaths| - 1] == AllRelative(init);
      assert AllRelative(subPaths)[|subPaths| - 1] == Relative(last);
      var start := if StartsWith(baseDir, "/") then [] else cwd;
      ModuleSources.FollowJoinPath(start, joined, Relative(last));
      assert joined[0] == ModuleSources.JoinPath(joined, Relative(last))[0];
    }
  }

  lemma FollowBelowSlash(dir: Directory, subPath: string, rest: string)
    requires subPath == "/" + rest
    ensures Follow(dir, "." + subPath) == Follow(dir, subPath)
  {
    assert "." + subPath == "./" + rest;
    ModuleSources.FollowLeadingSlash(dir, rest);
  }

  /**
   A safe join succeeds exactly when following the sub-paths one after the other
   from the base ends strictly below it (or at it, when that is allowed).
   */
  lemma SafeJoinFollowsSubPaths(cwd: Directory, baseDir: string, subPaths: seq<string>, allowSame: bool)
    requires RealNames(cwd) && baseDir != ""
    ensures var base := Follow(if StartsWith(baseDir, "/") then [] else cwd, baseDir);
            var sub := ModuleSources.FollowAll(base, subPaths);
            SafeJoin(cwd, baseDir, subPaths, allowSame)
            == if base < sub || (allowSame && base == sub) then Within(ShowDirectory(sub)) else OutsideBase
  {
    LocateJoined(cwd, baseDir, subPaths);
    ContainmentIsExtension(cwd, baseDir, JoinAll(baseDir, AllRelative(subPaths)), allowSame);
  }

  // ---------- storage directories ----------

  predicate IsAlphanumeric(c: char) {
    'a' <= c <= 'z' || 'A' <= c <= 'Z' || '0' <= c <= '9'
  }

  predicate HasSequentialUnderscores(s: string) {
    exists i :: 0 <= i < |s| - 1 && s[i] == s[i + 1] == '_'
  }

  /** Module names: alphanumeric at both ends; the pattern's end also allows one final line feed. */
  predicate ValidModuleName(name: string) {
    var n := VersionText.BeforeFinalNewline(name);
    && |n| >= 2 && IsAlphanumeric(n[0]) && IsAlphanumeric(n[|n| - 1])
    && forall i :: 0 <= i < |n| ==> IsAlphanumeric(n[i]) || n[i] == '-' || n[i] == '_'
  }

  predicate ValidNamespaceName(name: string) {
    ValidModuleName(name) && !HasSequentialUnderscores(name)
  }

  predicate ValidProviderName(name: string) {
    var n := VersionText.BeforeFinalNewline(name);
    n != "" && forall i :: 0 <= i < |n| ==> 'a' <= n[i] <= 'z' || '0' <= n[i] <= '9'
  }

  /** What the end of a name's pattern ignores. */
  predicate IsEnd(end: string) {
    end == "" || end == "\n"
  }

  /** Letters of both cases, digits, and where allowed hyphens and underscores. */
  ghost predicate IsWritten(s: string, marks: bool) {
    forall i :: 0 <= i < |s| ==>
      || 'a' <= s[i] <= 'z' || 'A' <= s[i] <= 'Z' || '0' <= s[i] <= '9'
      || (marks && (s[i] == '-' || s[i] == '_'))
  }

  /** An alphanumeric character at both ends, and hyphens and underscores too between them. */
  ghost predicate IsModuleText(name: string, first: string, middle: string, last: string, end: string) {
    && |first| == |last| == 1 && IsWritten(first, false) && IsWritten(last, false)
    && IsWritten(middle, true) && IsEnd(end) && name == first + middle + last + end
  }

  lemma ModuleNameIsText(name: string) returns (n: string)
    requires ValidModuleName(name)
    ensures |n| >= 2 && n <= name && IsModuleText(name, n[..1], n[1..|n| - 1], n[|n| - 1..], name[|n|..])
  {
    n := VersionText.BeforeFinalNewline(name);
    assert name == n + name[|n|..] && n == n[..1] + n[1..|n| - 1] + n[|n| - 1..];
  }

  lemma TextIsModuleName(name: string, first: string, middle: string, last: string, end: string)
    requires IsModuleText(name, first, middle, last, end)
    ensures ValidModuleName(name)
  {
    var n := first + middle + last;
    BeforeEnd(n, end);
    forall i | 0 <= i < |n|
      ensures n[i] == if i == 0 then first[0] else if i < |n| - 1 then middle[i - 1] else last[0]
    {
    }
  }

  /** Module names are exactly those texts. */
  lemma ModuleNameIff(name: string)
    ensures ValidModuleName(name) <==>
            exists first, middle, last, end :: IsModuleText(name, first, middle, last, end)
  {
    if ValidModuleName(name) {
      var n := ModuleNameIsText(name);
    }
    if first, middle, last, end :| IsModuleText(name, first, middle, last, end) {
      TextIsModuleName(name, first, middle, last, end);
    }
  }

  lemma BeforeEnd(n: string, end: string)
    requires n != "" && n[|n| - 1] != '\n' && IsEnd(end)
    ensures VersionText.BeforeFinalNewline(n + end) == n
  {
  }

  /** Namespace names are module names without two successive underscores. */
  lemma NamespaceNameIff(name: string)
    ensures ValidNamespaceName(name) <==>
            ValidModuleName(name) && !exists a, b :: name == a + "__" + b
  {
    if i :| 0 <= i < |name| - 1 && name[i] == name[i + 1] == '_' {
      assert name == name[..i] + "__" + name[i + 2..];
    }
    if a, b :| name == a + "__" + b {
      assert name[|a|] == name[|a| + 1] == '_';
    }
  }

  /** Provider names are lower-case letters and digits. */
  lemma ProviderNameIff(name: string)
    ensures ValidProviderName(name) <==>
            exists word, end :: name == word + end && VersionText.IsWord(word) && IsEnd(end)
  {
    if ValidProviderName(name) {
      var n := VersionText.BeforeFinalNewline(name);
      assert name == n + name[|n|..] && VersionText.IsWord(n);
    }
    if word, end :| name == word + end && VersionText.IsWord(word) && IsEnd(end) {
      BeforeEnd(word, end);
    }
  }

  /** The names that tell a module version apart from all others. */
  datatype Identity = Identity(ns: string, moduleName: string, provider: string, version: string)

  predicate ValidIdentity(id: Identity) {
    && ValidNamespaceName(id.ns) && ValidModuleName(id.moduleName)
    && ValidProviderName(id.provider) && VersionText.IsValid(id.version)
  }

  /** Joins below a directory that a previous join produced; a failed join stays failed. */
  function Below(cwd: Directory, parent: SafePath, name: string): SafePath {
    match parent
    case Within(path) => SafeJoin(cwd, path, [name], false)
    case OutsideBase => OutsideBase
  }

  /** Each name is joined below the directory of the names before it. */
  function BelowAll(cwd: Directory, storage: string, names: seq<string>): SafePath {
    if names == [] then Within(storage)
    else Below(cwd, BelowAll(cwd, storage, names[..|names| - 1]), names[|names| - 1])
  }

  function NamesOf(id: Identity): Directory {
    [id.ns, id.moduleName, id.provider, id.version]
  }

  /** The directory of a module version, nested in those of its namespace, module and provider. */
  function BaseDirectory(cwd: Directory, id: Identity): SafePath {
    BelowAll(cwd, "/modules", NamesOf(id))
  }

  lemma NameIsReal(name: string)
    requires ValidModuleName(name) || ValidProviderName(name) || VersionText.IsValid(name)
    ensures IsRealName(name)
  {
    if VersionText.IsValid(name) {
      VersionText.ValidVersionIsName(name);
    }
  }

  lemma FollowName(dir: Directory, name: string)
    requires IsRealName(name)
    ensures Follow(dir, name) == dir + [name]
  {
    SplitUnbroken(name, '/');
    assert Walk(dir + [name], [name][1..]) == dir + [name];
  }

  /** A name is joined below a directory exactly if it leads properly below it. */
  lemma BelowIffProperlyBelow(cwd: Directory, dir: Directory, name: string)
    requires RealNames(cwd) && RealNames(dir)
    ensures Below(cwd, Within(ShowDirectory(dir)), name)
            == if dir < Follow(dir, name) then Within(ShowDirectory(Follow(dir, name))) else OutsideBase
  {
    SafeJoinFollowsSubPaths(cwd, ShowDirectory(dir), [name], false);
    LocateShown(cwd, dir);
    assert [name][..0] == [] && ModuleSources.FollowAll(dir, []) == dir;
    assert ModuleSources.FollowAll(dir, [name]) == Follow(dir, name);
  }

  lemma BelowAddsName(cwd: Directory, dir: Directory, name: string)
    requires RealNames(cwd) && RealNames(dir)
    requires IsRealName(name)
    ensures Below(cwd, Within(ShowDirectory(dir)), name) == Within(ShowDirectory(dir + [name]))
  {
    BelowIffProperlyBelow(cwd, dir, name);
    FollowName(dir, name);
  }

  lemma LocateShown(cwd: Directory, dir: Directory)
    requires RealNames(dir)
    ensures Locate(cwd, ShowDirectory(dir)) == dir
  {
    ModuleSources.FollowLeadingSlash([], Join(dir, '/'));
    if dir == [] {
      ModuleSources.FollowNowhere([]);
    } else {
      SplitOfJoin(dir, '/');
      WalkNames([], dir);
    }
  }

  lemma {:induction false} WalkNames(start: Directory, names: seq<string>)
    requires RealNames(names)
    ensures Walk(start, names) == start + names
    decreases |names|
  {
    if names != [] {
      assert forall i :: 0 <= i < |names[1..]| ==> names[1..][i] == names[i + 1];
      WalkNames(start + [names[0]], names[1..]);
    }
  }

  lemma IdentityNamesAreReal(id: Identity)
    requires ValidIdentity(id)
    ensures RealNames(NamesOf(id))
  {
    var names := NamesOf(id);
    forall i | 0 <= i < |names|
      ensures IsRealName(names[i])
    {
      assert names[i] == id.ns || names[i] == id.moduleName || names[i] == id.provider || names[i] == id.version;
      NameIsReal(names[i]);
    }
  }

  lemma {:induction false} BelowAllAppends(cwd: Directory, root: Directory, names: Directory)
    requires RealNames(cwd) && RealNames(root) && RealNames(names)
    ensures BelowAll(cwd, ShowDirectory(root), names) == Within(ShowDirectory(root + names))
    decreases |names|
  {
    if names == [] {
      assert root + names == root;
    } else {
      var init, last := names[..|names| - 1], names[|names| - 1];
      BelowAllAppends(cwd, root, init);
      RealNamesAppend(root, init);
      BelowAddsName(cwd, root + init, last);
      AppendLast(root, names);
    }
  }

  lemma RealNamesAppend(a: Directory, b: Directory)
    requires RealNames(a) && RealNames(b)
    ensures RealNames(a + b)
  {
  }

  lemma AppendLast(a: Directory, b: Directory)
    requires b != []
    ensures a + b == a + b[..|b| - 1] + [b[|b| - 1]]
  {
  }

  lemma ShowExtended(dir: Directory, name: string)
    requires dir != []
    ensures ShowDirectory(dir + [name]) == ShowDirectory(dir) + "/" + name
  {
    JoinAppend(dir, [name], '/');
  }

  lemma ShowNames(root: Directory, id: Identity)
    requires root != []
    ensures ShowDirectory(root + NamesOf(id))
            == ShowDirectory(root) + "/" + id.ns + "/" + id.moduleName + "/" + id.provider + "/" + id.version
  {
    ShowExtended(root, id.ns);
    ShowExtended(root + [id.ns], id.moduleName);
    ShowExtended(root + [id.ns] + [id.moduleName], id.provider);
    ShowExtended(root + [id.ns] + [id.moduleName] + [id.provider], id.version);
    assert root + [id.ns] + [id.moduleName] + [id.provider] + [id.version] == root + NamesOf(id);
  }

  lemma ModulesDirectory()
    ensures RealNames(["modules"]) && ShowDirectory(["modules"]) == "/modules"
  {
  }

  /** The directory of a validated identity is `/modules` followed by its four names. */
  lemma BaseDirectoryIsNested(cwd: Directory, id: Identity)
    requires RealNames(cwd) && ValidIdentity(id)
    ensures BaseDirectory(cwd, id)
            == Within("/modules" + "/" + id.ns + "/" + id.moduleName + "/" + id.provider + "/" + id.version)
  {
    ModulesDirectory();
    IdentityNamesAreReal(id);
    BelowAllAppends(cwd, ["modules"], NamesOf(id));
    ShowNames(["modules"], id);
  }

  /** Validated identities have the same directory exactly when they are the same. */
  lemma DirectoriesAreDistinct(cwd: Directory, a: Identity, b: Identity)
    requires RealNames(cwd)
    ensures ValidIdentity(a) && ValidIdentity(b) ==> (BaseDirectory(cwd, a) == BaseDirectory(cwd, b) <==> a == b)
  {
    if ValidIdentity(a) && ValidIdentity(b) && BaseDirectory(cwd, a) == BaseDirectory(cwd, b) {
      ModulesDirectory();
      IdentityNamesAreReal(a);
      IdentityNamesAreReal(b);
      var root: Directory := ["modules"];
      BelowAllAppends(cwd, root, NamesOf(a));
      BelowAllAppends(cwd, root, NamesOf(b));
      RealNamesAppend(root, NamesOf(a));
      RealNamesAppend(root, NamesOf(b));
      ShowDirectoryInjective(root + NamesOf(a), root + NamesOf(b));
      SameNames(a, b);
    }
  }

  lemma SameNames(a: Identity, b: Identity)
    requires ["modules"] + NamesOf(a) == ["modules"] + NamesOf(b)
    ensures a == b
  {
    var x, y := ["modules"] + NamesOf(a), ["modules"] + NamesOf(b);
    assert x[1] == y[1] && x[2] == y[2] && x[3] == y[3] && x[4] == y[4];
  }
}
