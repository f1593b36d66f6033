/**
 Recursive module calls: every nested call's source is composed with the
 sources of the calls it is nested in, parents before children.
 */
module ModuleSources {
  import opened Text
  import opened Paths

  datatype ModuleCall = ModuleCall(name: string, source: string, version: Option<string>, description: Option<string>)

  /** An entry of Terraform's own module list; the root module has the empty key. */
  datatype TerraformModule = TerraformModule(key: string, source: string)

  // ---------- composing two sources ----------

  /** Joins paths as the operating system does: an absolute second path replaces the first. */
  function JoinPath(a: string, b: string): string {
    if StartsWith(b, "/") then b
    else if a == "" || EndsWith(a, '/') then a + b
    else a + "/" + b
  }

  predicate IsLocal(source: string) {
    StartsWith(source, "./") || StartsWith(source, "../")
  }

  /** The pieces of `s` between occurrences of a double slash. */
  function SplitDouble(s: string): (parts: seq<string>)
    ensures |parts| >= 1
  {
    if |s| < 2 then [s]
    else if s[0] == '/' && s[1] == '/' then [""] + SplitDouble(s[2..])
    else
      var rest := SplitDouble(s[1..]);
      [[s[0]] + rest[0]] + rest[1..]
  }

  /** The sub-directory of a remote source, as an absolute path; the root if there is none. */
  function RemoteSubPath(address: string): string {
    var pieces := SplitDouble(address);
    var sub := if |pieces| == 2 then pieces[1] else "./";
    if StartsWith(sub, "/") then sub else "/" + sub
  }

  /** The source of a call nested in a call with source `parent`. */
  function ChildSource(parent: string, child: string): string {
    if IsLocal(parent) then
      "./" + Normalise(JoinPath(parent, child))
    else
      var query := Split(parent, '?');
      var path := Normalise(JoinPath(RemoteSubPath(query[0]), child));
      var source := SplitDouble(query[0])[0] + "//" + path;
      if |query| == 2 then source + "?" + query[1] else source
  }

  function NestedCall(key: string, source: string, parent: Option<ModuleCall>): ModuleCall {
    match parent
    case Some(p) => ModuleCall(key, ChildSource(p.source, source), p.version, p.description)
    case None => ModuleCall(key, source, None, None)
  }

  // ---------- keys ----------

  predicate IsNested(key: string) {
    '.' in key
  }

  function ParentKey(key: string): string {
    var parts := Split(key, '.');
    Join(parts[..|parts| - 1], '.')
  }

  /** The parent of a nested key is what precedes its last dot, hence comes first in sorted order. */
  lemma ParentComesFirst(key: string)
    requires IsNested(key)
    ensures exists last: string :: '.' !in last && key == ParentKey(key) + "." + last
    ensures ParentKey(key) < key && LexLess(ParentKey(key), key)
  {
    var parts := Split(key, '.');
    JoinOfSplit(key, '.');
    SplitSeparable(key, '.');
    assert |parts| > 1;
    JoinAppend(parts[..|parts| - 1], parts[|parts| - 1..], '.');
    assert parts == parts[..|parts| - 1] + parts[|parts| - 1..];
    assert key == ParentKey(key) + "." + parts[|parts| - 1];
    LexPrefix(ParentKey(key), key);
  }

  // ---------- what every key resolves to ----------

  function ByName(roots: seq<ModuleCall>): map<string, ModuleCall> {
    if roots == [] then map[] else ByName(roots[..|roots| - 1])[roots[|roots| - 1].name := roots[|roots| - 1]]
  }

  /** The listed modules that are not root module calls: key to source. */
  function NestedSources(roots: map<string, ModuleCall>, listed: seq<TerraformModule>): map<string, string> {
    if listed == [] then map[]
    else
      var rest := NestedSources(roots, listed[..|listed| - 1]);
      var last := listed[|listed| - 1];
      if last.key != "" && last.key !in roots then rest[last.key := last.source] else rest
  }

  /** Of several root calls with one name the last one is known. */
  lemma {:induction false} LastRootIsKnown(roots: seq<ModuleCall>, name: string)
    ensures name in ByName(roots) <==> exists i :: 0 <= i < |roots| && roots[i].name == name
    ensures
      forall i | 0 <= i < |roots| && roots[i].name == name && forall j :: i < j < |roots| ==> roots[j].name != name ::
        ByName(roots)[name] == roots[i]
    decreases |roots|
  {
    if roots != [] {
      var init := roots[..|roots| - 1];
      LastRootIsKnown(init, name);
      assert forall i :: 0 <= i < |init| ==> init[i] == roots[i];
    }
  }

  /** The listed modules with a key that no root call has: the last one of each key counts. */
  lemma {:induction false} LastListedCounts(roots: map<string, ModuleCall>, listed: seq<TerraformModule>, key: string)
    ensures key in NestedSources(roots, listed) <==>
            key != "" && key !in roots && exists i :: 0 <= i < |listed| && listed[i].key == key
    ensures key != "" && key !in roots ==>
      forall i | 0 <= i < |listed| && listed[i].key == key && forall j :: i < j < |listed| ==> listed[j].key != key ::
        NestedSources(roots, listed)[key] == listed[i].source
    decreases |listed|
  {
    if listed != [] {
      var init := listed[..|listed| - 1];
      LastListedCounts(roots, init, key);
      assert forall i :: 0 <= i < |init| ==> init[i] == listed[i];
    }
  }

  /** The call known under a key, defined by recursion on the key and not on any processing order. */
  function Resolved(roots: map<string, ModuleCall>, nested: map<string, string>, key: string): Option<ModuleCall>
    decreases |key|
  {
    if key in roots then Some(roots[key])
    else if key in nested && IsNested(key) then
      ParentComesFirst(key);
      Some(NestedCall(key, nested[key], Resolved(roots, nested, ParentKey(key))))
    else None
  }

  /** The call known under a key. */
  function CallOf(roots: map<string, ModuleCall>, nested: map<string, string>, key: string): Option<ModuleCall> {
    Resolved(roots, nested, key)
  }

  /** A parent is missing exactly when it is neither a root module call nor a listed nested key. */
  lemma ParentMissingIff(roots: map<string, ModuleCall>, nested: map<string, string>, key: string)
    requires IsNested(key)
    ensures Resolved(roots, nested, ParentKey(key)).None? <==>
            ParentKey(key) !in roots && (ParentKey(key) !in nested || !IsNested(ParentKey(key)))
  {
    ParentComesFirst(key);
  }

  /** A listed top-level key that is no root module call is dropped, and its children keep their own source. */
  lemma UnlistedParentIsMissing()
    ensures var nested := map["a" := "./x", "a.b" := "./y"];
            && Resolved(map[], nested, "a") == None
            && Resolved(map[], nested, "a.b") == Some(ModuleCall("a.b", "./y", None, None))
  {
    assert "a.b"[0] == 'a' && "a.b"[1] == '.' && "a.b"[2] == 'b';
    SplitAtSeparator("a", "b", '.');
    SplitUnbroken("a", '.');
    SplitUnbroken("b", '.');
    assert "a.b" == "a" + ['.'] + "b";
    assert Split("a.b", '.') == ["a", "b"];
    assert ["a", "b"][..1] == ["a"];
    assert ParentKey("a.b") == "a";
  }

  // ---------- the loop ----------

  ghost predicate Sorted(keys: seq<string>) {
    forall i, j :: 0 <= i < j < |keys| ==> LexLess(keys[i], keys[j])
  }

  /** The keys that end up with a call: the root calls, and all listed nested keys. */
  function ResolvedKeys(roots: map<string, ModuleCall>, nested: map<string, string>): set<string> {
    roots.Keys + set key | key in nested && IsNested(key)
  }

  /** All calls but those of the remaining nested keys are there, each the one its key resolves to. */
  ghost predicate Settled(roots: map<string, ModuleCall>, nested: map<string, string>, remaining: set<string>,
                          modules: map<string, ModuleCall>) {
    forall k :: (k in modules <==> k in ResolvedKeys(roots, nested) && !(k in remaining && IsNested(k)))
                && (k in modules ==> CallOf(roots, nested, k) == Some(modules[k]))
  }

  /** The processed keys come before all remaining ones, and the added ones are the nested among them, in order. */
  ghost predicate InOrder(nested: map<string, string>, remaining: set<string>, added: seq<string>) {
    && remaining <= nested.Keys
    && (forall done, key :: done in nested.Keys - remaining && key in remaining ==> LexLess(done, key))
    && (forall k :: k in added <==> k in nested.Keys - remaining && IsNested(k))
    && Sorted(added)
  }

  /** Adds the call of the least remaining key, whose parent, if there is one, is in place. */
  method AddChildModule(ghost roots: map<string, ModuleCall>, nested: map<string, string>, ghost remaining: set<string>,
                        modules: map<string, ModuleCall>, key: string)
    returns (modules': map<string, ModuleCall>)
    requires key in remaining && forall k :: k in remaining && k != key ==> LexLess(key, k)
    requires key in nested && key !in roots && IsNested(key)
    requires Settled(roots, nested, remaining, modules)
    ensures Settled(roots, nested, remaining - {key}, modules')
  {
    var parentKey := ParentKey(key);
    ParentIsSettled(roots, nested, remaining, key);
    var parent := if parentKey in modules then Some(modules[parentKey]) else None;
    assert parent == CallOf(roots, nested, parentKey);
    modules' := modules[key := NestedCall(key, nested[key], parent)];
  }

  lemma NextInOrder(nested: map<string, string>, remaining: set<string>, added: seq<string>, key: string)
    requires InOrder(nested, remaining, added)
    requires key in remaining && forall k :: k in remaining && k != key ==> LexLess(key, k)
    ensures InOrder(nested, remaining - {key}, if IsNested(key) then added + [key] else added)
  {
    assert forall k :: k in added ==> LexLess(k, key);
  }

  /**
   Adds the nested calls to the root calls. The processed keys come out in
   sorted order, and every call is the one its key resolves to.
   */
  method GetTerraformModules(rootModules: seq<ModuleCall>, listed: seq<TerraformModule>)
    returns (modules: map<string, ModuleCall>, added: seq<string>)
    ensures var roots := ByName(rootModules);
            var nested := NestedSources(roots, listed);
            && modules.Keys == ResolvedKeys(roots, nested)
            && (forall key :: key in modules ==> CallOf(roots, nested, key) == Some(modules[key]))
            && (forall key :: key in added <==> key in nested && IsNested(key))
    ensures Sorted(added)
  {
    var roots := ByName(rootModules);
    var nested := NestedSources(roots, listed);
    NestedAreNotRoots(roots, listed);
    modules := roots;
    added := [];
    var remaining := nested.Keys;
    while remaining != {}
      invariant Settled(roots, nested, remaining, modules) && InOrder(nested, remaining, added)
      decreases |remaining|
    {
      ghost var first := LeastExists(remaining);
      var key :| key in remaining && forall k :: k in remaining && k != key ==> LexLess(key, k);
      NextInOrder(nested, remaining, added, key);
      if IsNested(key) {
        modules := AddChildModule(roots, nested, remaining, modules, key);
        added := added + [key];
      } else {
      }
      remaining := remaining - {key};
    }
  }

  lemma {:induction false} NestedAreNotRoots(roots: map<string, ModuleCall>, listed: seq<TerraformModule>)
    ensures NestedSources(roots, listed).Keys !! roots.Keys
  {
    if listed != [] {
      NestedAreNotRoots(roots, listed[..|listed| - 1]);
    }
  }

  /** When the least remaining key is processed, its parent is not among the remaining keys. */
  lemma ParentIsSettled(roots: map<string, ModuleCall>, nested: map<string, string>, remaining: set<string>,
                        key: string)
    requires key in remaining && forall k :: k in remaining && k != key ==> LexLess(key, k)
    requires IsNested(key)
    ensures ParentKey(key) !in remaining
    ensures Resolved(roots, nested, ParentKey(key)).Some? <==> ParentKey(key) in ResolvedKeys(roots, nested)
  {
    ParentComesFirst(key);
    if ParentKey(key) in remaining {
      LexTransitive(key, ParentKey(key), key);
      LexIrreflexive(key);
    }
  }

  // ---------- chains of nested calls ----------

  /** Every ancestor of the key is known, up to a root module call. */
  predicate Rooted(roots: map<string, ModuleCall>, nested: map<string, string>, key: string)
    decreases |key|
  {
    key in roots ||
    (key in nested && IsNested(key) && (ParentComesFirst(key); Rooted(roots, nested, ParentKey(key))))
  }

  /** The root call a key is nested in. */
  function TopCall(roots: map<string, ModuleCall>, nested: map<string, string>, key: string): ModuleCall
    requires Rooted(roots, nested, key)
    decreases |key|
  {
    if key in roots then roots[key] else
      ParentComesFirst(key);
      TopCall(roots, nested, ParentKey(key))
  }

  /** The nested sources between the root call and the key, outermost first. */
  function NestedChain(roots: map<string, ModuleCall>, nested: map<string, string>, key: string): seq<string>
    requires Rooted(roots, nested, key)
    decreases |key|
  {
    if key in roots then [] else
      ParentComesFirst(key);
      NestedChain(roots, nested, ParentKey(key)) + [nested[key]]
  }

  function FollowAll(dir: Directory, paths: seq<string>): Directory {
    if paths == [] then dir else Follow(FollowAll(dir, paths[..|paths| - 1]), paths[|paths| - 1])
  }

  ghost predicate AllRelative(paths: seq<string>) {
    forall i :: 0 <= i < |paths| ==> !StartsWith(paths[i], "/")
  }

  lemma FollowNowhere(dir: Directory)
    ensures Follow(dir, "") == dir && Follow(dir, ".") == dir
  {
    SplitUnbroken(".", '/');
    assert Walk(StepInto(dir, ""), []) == dir && Walk(StepInto(dir, "."), []) == dir;
    assert [""][1..] == [] && ["."][1..] == [];
  }

  lemma FollowTrailingSlash(dir: Directory, a: string, b: string)
    requires EndsWith(a, '/')
    ensures Follow(dir, a + b) == Follow(Follow(dir, a), b)
  {
    var stem := a[..|a| - 1];
    assert a == stem + "/" + "" && a + b == stem + "/" + b;
    FollowJoined(dir, stem, b);
    FollowJoined(dir, stem, "");
    FollowNowhere(Follow(dir, stem));
  }

  /** Joining a relative path means following one path after the other. */
  lemma FollowJoinPath(dir: Directory, a: string, b: string)
    requires !StartsWith(b, "/")
    ensures Follow(dir, JoinPath(a, b)) == Follow(Follow(dir, a), b)
  {
    if a == "" {
      FollowNowhere(dir);
      assert a + b == b;
    } else if EndsWith(a, '/') {
      FollowTrailingSlash(dir, a, b);
    } else {
      FollowJoined(dir, a, b);
    }
  }

  lemma FollowLeadingSlash(dir: Directory, a: string)
    ensures Follow(dir, "/" + a) == Follow(dir, a)
    ensures Follow(dir, "./" + a) == Follow(dir, a)
  {
    assert "/" + a == "" + "/" + a && "./" + a == "." + "/" + a;
    FollowJoined(dir, "", a);
    FollowJoined(dir, ".", a);
    FollowNowhere(dir);
  }

  /** An absolute child replaces the path of its parent: below a local source it is taken from the root module. */
  lemma AbsoluteChildReplaces(dir: Directory, parent: string, child: string)
    requires StartsWith(child, "/")
    ensures StartsWith(parent, "./") || StartsWith(parent, "../") ==>
              Follow(dir, ChildSource(parent, child)) == Follow(dir, child)
    ensures ChildSub(parent, child) == Normalise(child)
  {
    FollowLeadingSlash(dir, Normalise(child));
    NormalisePreservesMeaning(dir, child);
  }

  lemma LocalChildFollows(dir: Directory, parent: string, child: string)
    requires (StartsWith(parent, "./") || StartsWith(parent, "../")) && !StartsWith(child, "/")
    ensures StartsWith(ChildSource(parent, child), "./")
    ensures Follow(dir, ChildSource(parent, child)) == Follow(Follow(dir, parent), child)
  {
    var joined := JoinPath(parent, child);
    FollowLeadingSlash(dir, Normalise(joined));
    NormalisePreservesMeaning(dir, joined);
    FollowJoinPath(dir, parent, child);
  }

  /** Rightly, a local child is found from its parent's directory, and any other child is what it says. */
  ghost predicate ResolvedRightly(parent: string, child: string) {
    if IsLocal(child) then
      forall dir: Directory :: Follow(dir, ChildSource(parent, child)) == Follow(Follow(dir, parent), child)
    else ChildSource(parent, child) == child
  }

  /**
   Below a local parent every child becomes a local path, so that exactly the
   local children are resolved rightly: a registry or git address is lost.
   */
  lemma RightIffChildIsLocal(parent: string, child: string)
    requires StartsWith(parent, "./") || StartsWith(parent, "../")
    ensures StartsWith(ChildSource(parent, child), "./")
    ensures ResolvedRightly(parent, child) <==> IsLocal(child)
  {
    if IsLocal(child) {
      assert child[0] == '.';
      forall dir: Directory
        ensures Follow(dir, ChildSource(parent, child)) == Follow(Follow(dir, parent), child)
      {
        LocalChildFollows(dir, parent, child);
      }
    }
  }

  lemma SplitLast(all: seq<string>, init: seq<string>, last: string)
    requires all == init + [last]
    ensures all[..|all| - 1] == init && all[|all| - 1] == last
    ensures AllRelative(all) ==> AllRelative(init) && !StartsWith(last, "/")
    ensures (forall s :: s in all ==> '?' !in s) ==> (forall s :: s in init ==> '?' !in s) && '?' !in last
  {
    assert last in all && forall s :: s in init ==> s in all;
    assert forall i :: 0 <= i < |init| ==> init[i] == all[i];
  }

  /**
   Under a local root call, the source computed for a key leads, from every
   directory, where following all sources along the chain leads.
   */
  lemma {:induction false} LocalChainComposes(roots: map<string, ModuleCall>, nested: map<string, string>, key: string,
                                             dir: Directory)
    requires Rooted(roots, nested, key)
    requires var top := TopCall(roots, nested, key).source; StartsWith(top, "./") || StartsWith(top, "../")
    requires AllRelative(NestedChain(roots, nested, key))
    ensures var call := Resolved(roots, nested, key);
            && call.Some? && IsLocal(call.value.source)
            && Follow(dir, call.value.source)
               == FollowAll(Follow(dir, TopCall(roots, nested, key).source), NestedChain(roots, nested, key))
    decreases |key|
  {
    if key !in roots {
      ParentComesFirst(key);
      var parent := ParentKey(key);
      var chain := NestedChain(roots, nested, key);
      assert chain == NestedChain(roots, nested, parent) + [nested[key]];
      SplitLast(chain, NestedChain(roots, nested, parent), nested[key]);
      LocalChainComposes(roots, nested, parent, dir);
      LocalChildFollows(dir, Resolved(roots, nested, parent).value.source, nested[key]);
    }
  }

  /** A nested call is named by its key and has the version and the description of its root call. */
  lemma {:induction false} RootCallIsInherited(roots: map<string, ModuleCall>, nested: map<string, string>, key: string)
    requires Rooted(roots, nested, key)
    ensures var call, top := Resolved(roots, nested, key), TopCall(roots, nested, key);
            && call.Some? && call.value.version == top.version && call.value.description == top.description
            && (key !in roots ==> call.value.name == key)
    decreases |key|
  {
    if key !in roots {
      ParentComesFirst(key);
      RootCallIsInherited(roots, nested, ParentKey(key));
    }
  }

  // ---------- remote ancestors ----------

  ghost predicate DoubleSlashAt(s: string, i: int) {
    0 <= i && i + 1 < |s| && s[i] == '/' && s[i + 1] == '/'
  }

  ghost predicate NoDoubleSlash(s: string) {
    forall i :: !DoubleSlashAt(s, i)
  }

  lemma NoDoubleSlashInTail(s: string)
    requires s != ""
    ensures NoDoubleSlash(s) <==> !DoubleSlashAt(s, 0) && NoDoubleSlash(s[1..])
  {
    forall i | DoubleSlashAt(s[1..], i)
      ensures DoubleSlashAt(s, i + 1)
    {
    }
    forall i | i != 0 && DoubleSlashAt(s, i)
      ensures DoubleSlashAt(s[1..], i - 1)
    {
    }
  }

  function Query(query: Option<string>): string {
    match query
    case Some(q) => "?" + q
    case None => ""
  }

  /** A remote source with a sub-directory. */
  function RemoteSource(base: string, sub: string, query: Option<string>): string {
    base + "//" + sub + Query(query)
  }

  /** The double slash before the sub-directory is the first one. */
  ghost predicate PlainBase(base: string) {
    NoDoubleSlash(base) && !EndsWith(base, '/')
  }

  ghost predicate RemoteBase(base: string) {
    '?' !in base && !StartsWith(base + "//", "./") && !StartsWith(base + "//", "../")
  }

  lemma {:induction false} SplitDoubleUnbroken(s: string)
    requires NoDoubleSlash(s)
    ensures SplitDouble(s) == [s]
  {
    if |s| >= 2 {
      NoDoubleSlashInTail(s);
      SplitDoubleUnbroken(s[1..]);
      assert [s[0]] + s[1..] == s;
    }
  }

  lemma {:induction false} SplitDoubleAfter(base: string, rest: string)
    requires PlainBase(base)
    ensures SplitDouble(base + "//" + rest) == [base] + SplitDouble(rest)
  {
    var s := base + "//" + rest;
    if base == "" {
      assert s[2..] == rest;
    } else {
      assert s[1..] == base[1..] + "//" + rest;
      NoDoubleSlashInTail(base);
      assert !(s[0] == '/' && s[1] == '/') by {
        if |base| > 1 {
          assert s[1] == base[1];
        }
      }
      SplitDoubleAfter(base[1..], rest);
      assert [base[0]] + base[1..] == base;
    }
  }

  lemma SplitQuery(address: string, query: Option<string>)
    requires '?' !in address && (query.Some? ==> '?' !in query.value)
    ensures Split(address + Query(query), '?') == if query.Some? then [address, query.value] else [address]
  {
    SplitUnbroken(address, '?');
    if query.Some? {
      SplitUnbroken(query.value, '?');
      SplitAtSeparator(address, query.value, '?');
      assert address + Query(query) == address + ['?'] + query.value;
    } else {
      assert address + "" == address;
    }
  }

  lemma {:induction false} JoinedNamesHaveNoDoubleSlash(parts: seq<string>)
    requires Separable(parts, '/') && forall i :: 0 <= i < |parts| ==> parts[i] != ""
    ensures NoDoubleSlash(Join(parts, '/')) && !StartsWith(Join(parts, '/'), "/")
    ensures parts != [] ==> Join(parts, '/') != ""
  {
    if |parts| > 1 {
      JoinedNamesHaveNoDoubleSlash(parts[1..]);
      var head, rest := parts[0], Join(parts[1..], '/');
      var s := Join(parts, '/');
      assert s == head + ['/'] + rest;
      forall i
        ensures !DoubleSlashAt(s, i)
      {
        if 0 <= i < |head| {
          assert s[i] == head[i];
        } else if i == |head| {
          assert s[i + 1] == rest[0];
        } else if |head| < i < |s| - 1 {
          var k := i - |head| - 1;
          assert s[i] == rest[k] && s[i + 1] == rest[k + 1];
          assert !DoubleSlashAt(rest, k);
        }
      }
      assert s[0] == head[0];
    } else if |parts| == 1 {
      var s := parts[0];
      assert Join(parts, '/') == s && s[0] != '/';
      assert forall i :: 0 <= i < |s| ==> s[i] != '/';
    }
  }

  lemma NormalisedHasNoDoubleSlash(path: string)
    ensures NoDoubleSlash(Normalise(path)) && !StartsWith(Normalise(path), "/")
  {
    NormaliseParts(path);
    JoinedNamesHaveNoDoubleSlash(Parts(EffectOf(Split(path, '/'))));
  }

  lemma {:induction false} EffectAvoids(parts: seq<string>, c: char)
    requires Separable(parts, c)
    ensures Separable(EffectOf(parts).names, c)
  {
    if parts != [] {
      var init := parts[..|parts| - 1];
      assert Separable(init, c) by {
        assert forall i :: 0 <= i < |init| ==> init[i] == parts[i];
      }
      EffectAvoids(init, c);
    }
  }

  /** Normalising introduces no character other than dots and slashes. */
  lemma NormaliseAvoids(path: string, c: char)
    requires c !in path && c != '/' && c != '.'
    ensures c !in Normalise(path)
  {
    SplitAvoids(path, '/', c);
    EffectAvoids(Split(path, '/'), c);
    assert c !in "..";
    JoinAvoids(Parts(EffectOf(Split(path, '/'))), '/', c);
  }

  /** What the composition reads off a remote source: its base, its sub-directory and its query. */
  lemma ReadRemote(base: string, sub: string, query: Option<string>)
    requires RemoteBase(base) && PlainBase(base)
    requires NoDoubleSlash(sub) && '?' !in sub && (query.Some? ==> '?' !in query.value)
    ensures !IsLocal(RemoteSource(base, sub, query))
    ensures Split(RemoteSource(base, sub, query), '?')
            == if query.Some? then [base + "//" + sub, query.value] else [base + "//" + sub]
    ensures SplitDouble(base + "//" + sub) == [base, sub]
    ensures RemoteSubPath(base + "//" + sub) == if StartsWith(sub, "/") then sub else "/" + sub
  {
    SplitQuery(base + "//" + sub, query);
    SplitDoubleAfter(base, sub);
    SplitDoubleUnbroken(sub);
    assert base + "//" <= RemoteSource(base, sub, query);
  }

  lemma AppendQuery(source: string, query: Option<string>)
    ensures source + Query(query) == if query.Some? then source + "?" + query.value else source
  {
    match query
    case Some(q) => assert source + "?" + q == source + ("?" + q);
    case None => assert source + "" == source;
  }

  /** What the composition makes of a remote source once it is split at its query. */
  lemma RemoteParent(parent: string, address: string, query: Option<string>, child: string)
    requires !IsLocal(parent) && Split(parent, '?') == if query.Some? then [address, query.value] else [address]
    ensures ChildSource(parent, child)
            == SplitDouble(address)[0] + "//" + Normalise(JoinPath(RemoteSubPath(address), child)) + Query(query)
  {
    AppendQuery(SplitDouble(address)[0] + "//" + Normalise(JoinPath(RemoteSubPath(address), child)), query);
  }

  /** The sub-directory of a child of a remote source. */
  function ChildSub(sub: string, child: string): string {
    Normalise(JoinPath(if StartsWith(sub, "/") then sub else "/" + sub, child))
  }

  lemma ChildOfRemote(base: string, sub: string, query: Option<string>, child: string)
    requires RemoteBase(base) && PlainBase(base)
    requires NoDoubleSlash(sub) && '?' !in sub && (query.Some? ==> '?' !in query.value)
    ensures ChildSource(RemoteSource(base, sub, query), child) == RemoteSource(base, ChildSub(sub, child), query)
  {
    ReadRemote(base, sub, query);
    RemoteParent(RemoteSource(base, sub, query), base + "//" + sub, query, child);
  }

  lemma ChildSubFollows(sub: string, child: string)
    requires '?' !in sub && '?' !in child && !StartsWith(child, "/")
    ensures NoDoubleSlash(ChildSub(sub, child)) && '?' !in ChildSub(sub, child)
    ensures Follow([], ChildSub(sub, child)) == Follow(Follow([], sub), child)
  {
    var start := if StartsWith(sub, "/") then sub else "/" + sub;
    var joined := JoinPath(start, child);
    NormalisedHasNoDoubleSlash(joined);
    NormaliseAvoids(joined, '?');
    NormalisePreservesMeaning([], joined);
    FollowJoinPath([], start, child);
    FollowLeadingSlash([], sub);
  }

  /** One level below a remote source: same base and query, and the sub-directory moved by the child's path. */
  lemma RemoteChild(base: string, sub: string, query: Option<string>, child: string) returns (childSub: string)
    requires RemoteBase(base) && PlainBase(base)
    requires NoDoubleSlash(sub) && '?' !in sub && '?' !in child && (query.Some? ==> '?' !in query.value)
    requires !StartsWith(child, "/")
    ensures ChildSource(RemoteSource(base, sub, query), child) == RemoteSource(base, childSub, query)
    ensures NoDoubleSlash(childSub) && '?' !in childSub
    ensures Follow([], childSub) == Follow(Follow([], sub), child)
  {
    childSub := ChildSub(sub, child);
    ChildOfRemote(base, sub, query, child);
    ChildSubFollows(sub, child);
  }

  /**
   Under a remote root call `base//sub?query`, every descendant keeps base and
   query, and its sub-directory is reached by following the whole chain.
   */
  lemma {:induction false} RemoteChainKeepsBase(roots: map<string, ModuleCall>, nested: map<string, string>,
                                               key: string, base: string, sub: string, query: Option<string>)
    returns (keySub: string)
    requires Rooted(roots, nested, key)
    requires TopCall(roots, nested, key).source == RemoteSource(base, sub, query)
    requires RemoteBase(base) && PlainBase(base)
    requires NoDoubleSlash(sub) && '?' !in sub && (query.Some? ==> '?' !in query.value)
    requires var chain := NestedChain(roots, nested, key);
             AllRelative(chain) && forall s :: s in chain ==> '?' !in s
    ensures var call := Resolved(roots, nested, key);
            call.Some? && call.value.source == RemoteSource(base, keySub, query)
    ensures Follow([], keySub) == FollowAll(Follow([], sub), NestedChain(roots, nested, key))
    ensures NoDoubleSlash(keySub) && '?' !in keySub
    decreases |key|
  {
    if key in roots {
      keySub := sub;
    } else {
      ParentComesFirst(key);
      var parent := ParentKey(key);
      var chain := NestedChain(roots, nested, key);
      assert chain == NestedChain(roots, nested, parent) + [nested[key]];
      SplitLast(chain, NestedChain(roots, nested, parent), nested[key]);
      var parentSub := RemoteChainKeepsBase(roots, nested, parent, base, sub, query);
      keySub := RemoteChild(base, parentSub, query, nested[key]);
    }
  }

  lemma {:induction false} SplitDoubleAvoids(s: string, c: char)
    requires c !in s
    ensures Separable(SplitDouble(s), c)
    decreases |s|
  {
    if |s| >= 2 {
      if s[0] == '/' && s[1] == '/' {
        SplitDoubleAvoids(s[2..], c);
      } else {
        SplitDoubleAvoids(s[1..], c);
      }
    }
  }

  /** Whatever the sub-directory and the child, a child of a remote source keeps base and query. */
  lemma RemoteChildKeepsBase(base: string, sub: string, query: Option<string>, child: string) returns (childSub: string)
    requires RemoteBase(base) && PlainBase(base) && '?' !in sub && (query.Some? ==> '?' !in query.value)
    ensures ChildSource(RemoteSource(base, sub, query), child) == RemoteSource(base, childSub, query)
    ensures '?' !in child ==> '?' !in childSub
  {
    var address := base + "//" + sub;
    var joined := JoinPath(RemoteSubPath(address), child);
    childSub := Normalise(joined);
    ChildKeepsFirstPiece(base, sub, query, child);
    SplitDoubleAfter(base, sub);
    SplitDoubleAvoids(address, '?');
    if '?' !in child {
      NormaliseAvoids(joined, '?');
    }
  }

  /** Under a remote root call `base//sub?query`, every descendant keeps base and query. */
  lemma {:induction false} RemoteChainStaysInBase(roots: map<string, ModuleCall>, nested: map<string, string>,
                                                 key: string, base: string, sub: string, query: Option<string>)
    returns (keySub: string)
    requires Rooted(roots, nested, key)
    requires TopCall(roots, nested, key).source == RemoteSource(base, sub, query)
    requires RemoteBase(base) && PlainBase(base) && '?' !in sub && (query.Some? ==> '?' !in query.value)
    requires forall s :: s in NestedChain(roots, nested, key) ==> '?' !in s
    ensures var call := Resolved(roots, nested, key);
            call.Some? && call.value.source == RemoteSource(base, keySub, query)
    ensures '?' !in keySub
    decreases |key|
  {
    if key in roots {
      keySub := sub;
    } else {
      ParentComesFirst(key);
      var parent := ParentKey(key);
      var chain := NestedChain(roots, nested, key);
      assert chain == NestedChain(roots, nested, parent) + [nested[key]];
      SplitLast(chain, NestedChain(roots, nested, parent), nested[key]);
      var parentSub := RemoteChainStaysInBase(roots, nested, parent, base, sub, query);
      keySub := RemoteChildKeepsBase(base, parentSub, query, nested[key]);
    }
  }

  /** A query that contains a question mark is lost to all children. */
  lemma SecondQueryIsLost(base: string, sub: string, query: string, child: string) returns (childSub: string)
    requires RemoteBase(base) && PlainBase(base) && '?' !in sub && '?' in query
    ensures ChildSource(RemoteSource(base, sub, Some(query)), child) == RemoteSource(base, childSub, None)
  {
    var address, parent := base + "//" + sub, RemoteSource(base, sub, Some(query));
    childSub := Normalise(JoinPath(RemoteSubPath(address), child));
    assert parent == address + ['?'] + query;
    SeveralQueries(address, query);
    assert base + "//" <= parent;
    SplitDoubleAfter(base, sub);
    NoSingleQuery(parent, address, child);
    assert RemoteSource(base, childSub, None) == base + "//" + childSub;
  }

  lemma SeveralQueries(address: string, query: string)
    requires '?' !in address && '?' in query
    ensures var pieces := Split(address + ['?'] + query, '?'); |pieces| > 2 && pieces[0] == address
  {
    SplitUnbroken(address, '?');
    SplitAtSeparator(address, query, '?');
    MoreThanOnePiece(query, '?');
  }

  lemma NoSingleQuery(parent: string, address: string, child: string)
    requires !IsLocal(parent) && |Split(parent, '?')| > 2 && Split(parent, '?')[0] == address
    ensures ChildSource(parent, child)
            == SplitDouble(address)[0] + "//" + Normalise(JoinPath(RemoteSubPath(address), child))
  {
  }

  lemma MoreThanOnePiece(s: string, sep: char)
    requires sep in s
    ensures |Split(s, sep)| > 1
  {
    JoinOfSplit(s, sep);
    SplitSeparable(s, sep);
  }

  /** A child of a remote source that does not itself start with the same base, such as another address, is lost. */
  lemma OtherAddressIsLost(base: string, sub: string, query: Option<string>, child: string)
    requires RemoteBase(base) && PlainBase(base) && '?' !in sub && (query.Some? ==> '?' !in query.value)
    requires !StartsWith(child, base + "//")
    ensures ChildSource(RemoteSource(base, sub, query), child) != child
  {
    var childSub := RemoteChildKeepsBase(base, sub, query, child);
    assert StartsWith(RemoteSource(base, childSub, query), base + "//");
  }

  /** A child of a remote source without a sub-directory gets one, below the same base and before the same query. */
  lemma BareChild(base: string, query: Option<string>, child: string) returns (childSub: string)
    requires RemoteBase(base) && PlainBase(base) && (query.Some? ==> '?' !in query.value)
    requires '?' !in child && !StartsWith(child, "/")
    ensures ChildSource(base + Query(query), child) == RemoteSource(base, childSub, query)
    ensures NoDoubleSlash(childSub) && '?' !in childSub
    ensures Follow([], childSub) == Follow([], child)
  {
    childSub := ChildSub("./", child);
    BareSourceRead(base, query);
    RemoteParent(base + Query(query), base, query, child);
    StartAtTheRoot(child);
  }

  lemma StartAtTheRoot(child: string)
    requires '?' !in child && !StartsWith(child, "/")
    ensures ChildSub("./", child) == Normalise(JoinPath("/./", child))
    ensures NoDoubleSlash(ChildSub("./", child)) && '?' !in ChildSub("./", child)
    ensures Follow([], ChildSub("./", child)) == Follow([], child)
  {
    var here := "./";
    assert "/" + here == "/./" && here == "./" + "";
    ChildSubFollows(here, child);
    FollowLeadingSlash([], "");
    FollowNowhere([]);
  }

  lemma BareSourceRead(base: string, query: Option<string>)
    requires RemoteBase(base) && PlainBase(base) && (query.Some? ==> '?' !in query.value)
    ensures !IsLocal(base + Query(query))
    ensures Split(base + Query(query), '?') == if query.Some? then [base, query.value] else [base]
    ensures SplitDouble(base) == [base] && RemoteSubPath(base) == "/./"
  {
    SplitQuery(base, query);
    SplitDoubleUnbroken(base);
    if IsLocal(base + Query(query)) {
      assert false;
    }
  }

  /**
   Under a remote root call `base?query` without a sub-directory, such as a
   registry address, every descendant gets one below that base, reached by
   following the whole chain from the root of the remote module.
   */
  lemma {:induction false} BareChainKeepsBase(roots: map<string, ModuleCall>, nested: map<string, string>, key: string,
                                             base: string, query: Option<string>)
    returns (keySub: string)
    requires Rooted(roots, nested, key) && key !in roots
    requires TopCall(roots, nested, key).source == base + Query(query)
    requires RemoteBase(base) && PlainBase(base) && (query.Some? ==> '?' !in query.value)
    requires var chain := NestedChain(roots, nested, key);
             AllRelative(chain) && forall s :: s in chain ==> '?' !in s
    ensures var call := Resolved(roots, nested, key);
            call.Some? && call.value.source == RemoteSource(base, keySub, query)
    ensures Follow([], keySub) == FollowAll([], NestedChain(roots, nested, key))
    ensures NoDoubleSlash(keySub) && '?' !in keySub
    decreases |key|
  {
    ParentComesFirst(key);
    var parent := ParentKey(key);
    var chain := NestedChain(roots, nested, key);
    assert chain == NestedChain(roots, nested, parent) + [nested[key]];
    SplitLast(chain, NestedChain(roots, nested, parent), nested[key]);
    if parent in roots {
      keySub := BareChild(base, query, nested[key]);
      assert FollowAll([], []) == [];
    } else {
      var parentSub := BareChainKeepsBase(roots, nested, parent, base, query);
      keySub := RemoteChild(base, parentSub, query, nested[key]);
    }
  }

  // ---------- when the base is kept ----------

  /** Where the first double slash of a string is, and the piece before it. */
  lemma {:induction false} FirstDoubleSlash(s: string) returns (at: nat)
    requires !NoDoubleSlash(s)
    ensures DoubleSlashAt(s, at) && (forall i :: i < at ==> !DoubleSlashAt(s, i))
    ensures SplitDouble(s)[0] == s[..at]
  {
    if DoubleSlashAt(s, 0) {
      at := 0;
    } else {
      assert s != "";
      NoDoubleSlashInTail(s);
      var rest := FirstDoubleSlash(s[1..]);
      at := rest + 1;
      forall i | i < at
        ensures !DoubleSlashAt(s, i)
      {
        assert i > 0 ==> (DoubleSlashAt(s, i) <==> DoubleSlashAt(s[1..], i - 1));
      }
      assert s[..at] == [s[0]] + s[1..][..rest];
    }
  }

  /**
   A child of `base//sub?query` starts with the same `base//` exactly when that
   double slash is the first one; a base with a scheme such as `https://` is cut
   at the scheme.
   */
  lemma BaseKeptIffPlain(base: string, sub: string, query: Option<string>, child: string)
    requires RemoteBase(base) && '?' !in sub && (query.Some? ==> '?' !in query.value)
    ensures StartsWith(ChildSource(RemoteSource(base, sub, query), child), base + "//") <==> PlainBase(base)
  {
    var address := base + "//" + sub;
    var path := Normalise(JoinPath(RemoteSubPath(address), child));
    var kept := SplitDouble(address)[0];
    ChildKeepsFirstPiece(base, sub, query, child);
    if PlainBase(base) {
      SplitDoubleAfter(base, sub);
      assert base + "//" <= base + "//" + path + Query(query);
    } else {
      var at := FirstDoubleSlashInBase(base, sub);
      NormalisedHasNoDoubleSlash(JoinPath(RemoteSubPath(address), child));
      CutBaseIsLost(base, at, path, query);
    }
  }

  /** A child keeps what precedes the first double slash, and the query. */
  lemma ChildKeepsFirstPiece(base: string, sub: string, query: Option<string>, child: string)
    requires RemoteBase(base) && '?' !in sub && (query.Some? ==> '?' !in query.value)
    ensures var address := base + "//" + sub;
            ChildSource(RemoteSource(base, sub, query), child)
            == SplitDouble(address)[0] + "//" + Normalise(JoinPath(RemoteSubPath(address), child)) + Query(query)
  {
    SplitQuery(base + "//" + sub, query);
    assert base + "//" <= RemoteSource(base, sub, query);
    RemoteParent(RemoteSource(base, sub, query), base + "//" + sub, query, child);
  }

  lemma FirstDoubleSlashInBase(base: string, sub: string) returns (at: nat)
    requires !PlainBase(base)
    ensures at < |base| && SplitDouble(base + "//" + sub)[0] == base[..at]
    ensures DoubleSlashAt(base + "//", at)
  {
    var s := base + "//" + sub;
    var some: int;
    if EndsWith(base, '/') {
      some := |base| - 1;
    } else {
      some :| DoubleSlashAt(base, some);
    }
    assert DoubleSlashAt(s, some);
    at := FirstDoubleSlash(s);
    assert at <= some;
    assert s[..at] == base[..at];
    assert s[..|base| + 2] == base + "//";
  }

  lemma CutBaseIsLost(base: string, at: nat, path: string, query: Option<string>)
    requires at < |base| && '?' !in base && DoubleSlashAt(base + "//", at)
    requires NoDoubleSlash(path) && !StartsWith(path, "/")
    ensures !StartsWith(base[..at] + "//" + path + Query(query), base + "//")
  {
    var full := base + "//";
    var after := path + Query(query);
    var result := base[..at] + "//" + path + Query(query);
    assert result == full[..at] + "//" + after;
    var needed := |full| - (at + 2);
    if |path| < needed {
      assert full[at + 2 + |path|] != '?';
      assert |result| > at + 2 + |path| ==> result[at + 2 + |path|] == '?';
    } else if needed == 1 {
      assert result[at + 2] == path[0] != '/' == full[at + 2];
    } else {
      var i := needed - 2;
      assert full[at + 2 + i] == '/' && full[at + 2 + i + 1] == '/';
      assert result[at + 2 + i] == path[i] && result[at + 2 + i + 1] == path[i + 1];
      assert !DoubleSlashAt(path, i);
    }
  }

  lemma NormaliseName(name: string)
    requires IsRealName(name)
    ensures Normalise(name) == name
  {
    SplitUnbroken(name, '/');
    assert [name][..0] == [] && Parents(0) + [name] == [name];
    assert EffectOf([name]) == Then(EffectOf([]), name);
  }

  /** With a second double slash, as after a scheme, a child loses all that follows the first one. */
  lemma SecondPieceIsLost(scheme: string, repository: string, sub: string, query: string, name: string,
                          rest: string, address: string)
    requires PlainBase(scheme) && PlainBase(repository) && NoDoubleSlash(sub) && IsRealName(name)
    requires RemoteBase(scheme) && '?' !in repository && '?' !in sub && '?' !in query
    requires rest == repository + "//" + sub && address == scheme + "//" + rest
    ensures ChildSource(address + Query(Some(query)), "./" + name) == scheme + "//" + name + Query(Some(query))
  {
    var parent := address + Query(Some(query));
    SplitQuery(address, Some(query));
    ThreePieces(scheme, repository, sub, rest, address);
    assert scheme + "//" <= parent;
    RemoteParent(parent, address, Some(query), "./" + name);
    ChildOfTheRoot(name);
  }

  /** A child of a module in `https://host/repo` ends up in the host's place, at `https://child`. */
  lemma SchemeIsCut()
    ensures ChildSource("https:" + "//" + ("host/repo" + "//" + "modules") + Query(Some("ref=v1")), "./" + "child")
            == "https:" + "//" + "child" + Query(Some("ref=v1"))
  {
    var scheme, repository, sub := "https:", "host/repo", "modules";
    assert forall i :: 0 <= i < |scheme| ==> scheme[i] != '/';
    assert forall i :: 0 <= i < |sub| ==> sub[i] != '/';
    assert forall i :: 0 <= i < |repository| && repository[i] == '/' ==> i == 4;
    assert (scheme + "//")[0] == 'h';
    var rest := repository + "//" + sub;
    SecondPieceIsLost(scheme, repository, sub, "ref=v1", "child", rest, scheme + "//" + rest);
  }

  lemma ThreePieces(a: string, b: string, c: string, rest: string, address: string)
    requires PlainBase(a) && PlainBase(b) && NoDoubleSlash(c) && rest == b + "//" + c && address == a + "//" + rest
    ensures SplitDouble(address)[0] == a && RemoteSubPath(address) == "/./"
  {
    SplitDoubleAfter(a, rest);
    SplitDoubleAfter(b, c);
    SplitDoubleUnbroken(c);
    NoSubPath(address);
  }

  lemma NoSubPath(address: string)
    requires |SplitDouble(address)| != 2
    ensures RemoteSubPath(address) == "/./"
  {
    var here := "./";
    assert here[0] == '.' && "/" + here == "/./";
  }

  lemma ChildOfTheRoot(name: string)
    requires IsRealName(name)
    ensures Normalise(JoinPath("/./", "./" + name)) == name
  {
    var path, child := JoinPath("/./", "./" + name), "./" + name;
    assert child[0] == '.' && "/./" == "/" + "./";
    assert path == "/./" + child == "/" + ("./" + ("./" + name));
    forall dir: Directory | RealNames(dir)
      ensures Follow(dir, path) == Follow(dir, name)
    {
      FollowLeadingSlash(dir, name);
      FollowLeadingSlash(dir, "./" + name);
      FollowLeadingSlash(dir, "./" + ("./" + name));
    }
    NormaliseIsCanonical(path, name);
    NormaliseName(name);
  }
}
