/**
 Slash-separated paths: what they mean as moves between directories, and the
 stack-based normaliser that removes superfluous moves.
 */
module Paths {
  import opened Text

  /** A directory, given by the names on the way to it from the root. */
  type Directory = seq<string>

  predicate IsName(part: string) {
    part != "" && part != "." && part != ".."
  }

  predicate IsRealName(part: string) {
    IsName(part) && '/' !in part
  }

  ghost predicate RealNames(names: seq<string>) {
    forall i :: 0 <= i < |names| ==> IsRealName(names[i])
  }

  // ---------- meaning ----------

  /** One move; a parent move at the root stays at the root. */
  function StepInto(dir: Directory, part: string): Directory {
    if part == "" || part == "." then dir
    else if part == ".." then (if dir == [] then [] else dir[..|dir| - 1])
    else dir + [part]
  }

  function Walk(dir: Directory, parts: seq<string>): Directory
    decreases |parts|
  {
    if parts == [] then dir else Walk(StepInto(dir, parts[0]), parts[1..])
  }

  /** The directory reached from `dir` by the relative path `path`. */
  function Follow(dir: Directory, path: string): Directory {
    Walk(dir, Split(path, '/'))
  }

  lemma {:induction false} WalkConcat(dir: Directory, xs: seq<string>, ys: seq<string>)
    ensures Walk(dir, xs + ys) == Walk(Walk(dir, xs), ys)
    decreases |xs|
  {
    if xs == [] {
      assert xs + ys == ys;
    } else {
      assert (xs + ys)[1..] == xs[1..] + ys;
      WalkConcat(StepInto(dir, xs[0]), xs[1..], ys);
    }
  }

  lemma WalkSnoc(dir: Directory, parts: seq<string>)
    requires parts != []
    ensures Walk(dir, parts) == StepInto(Walk(dir, parts[..|parts| - 1]), parts[|parts| - 1])
  {
    WalkConcat(dir, parts[..|parts| - 1], parts[|parts| - 1..]);
    assert parts == parts[..|parts| - 1] + parts[|parts| - 1..];
  }

  lemma FollowJoined(dir: Directory, a: string, b: string)
    ensures Follow(dir, a + "/" + b) == Follow(Follow(dir, a), b)
  {
    SplitAtSeparator(a, b, '/');
    WalkConcat(dir, Split(a, '/'), Split(b, '/'));
  }

  // ---------- net effect ----------

  /** Some parent moves followed by some named descents. */
  datatype Effect = Effect(ups: nat, names: seq<string>)

  function Then(e: Effect, part: string): Effect {
    if part == "" || part == "." then e
    else if part == ".." then
      if e.names != [] then Effect(e.ups, e.names[..|e.names| - 1]) else Effect(e.ups + 1, [])
    else Effect(e.ups, e.names + [part])
  }

  /** The net effect of a list of moves. */
  function EffectOf(parts: seq<string>): Effect {
    if parts == [] then Effect(0, []) else Then(EffectOf(parts[..|parts| - 1]), parts[|parts| - 1])
  }

  function Land(dir: Directory, e: Effect): Directory {
    dir[..if e.ups <= |dir| then |dir| - e.ups else 0] + e.names
  }

  /** From every directory, a path leads where its net effect leads. */
  lemma {:induction false} WalkIsLand(dir: Directory, parts: seq<string>)
    ensures Walk(dir, parts) == Land(dir, EffectOf(parts))
  {
    if parts != [] {
      WalkSnoc(dir, parts);
      WalkIsLand(dir, parts[..|parts| - 1]);
      LandThen(dir, EffectOf(parts[..|parts| - 1]), parts[|parts| - 1]);
    }
  }

  lemma LandThen(dir: Directory, e: Effect, part: string)
    ensures StepInto(Land(dir, e), part) == Land(dir, Then(e, part))
  {
  }

  lemma {:induction false} EffectNamesAreReal(parts: seq<string>)
    requires Separable(parts, '/')
    ensures RealNames(EffectOf(parts).names)
  {
    if parts != [] {
      EffectNamesAreReal(parts[..|parts| - 1]);
    }
  }

  // ---------- the normaliser ----------

  function Parents(n: nat): (parts: seq<string>)
    ensures |parts| == n && forall i :: 0 <= i < n ==> parts[i] == ".."
  {
    seq(n, _ => "..")
  }

  function Parts(e: Effect): seq<string> {
    Parents(e.ups) + e.names
  }

  /** The shortest path with the same net effect as `path`. */
  function Normalise(path: string): string {
    Join(Parts(EffectOf(Split(path, '/'))), '/')
  }

  /** What one more part does to the kept parts. */
  lemma NextKeptParts(seen: Effect, part: string)
    ensures var parts, next := Parts(seen), Then(seen, part);
            if part == "" || part == "." then next == seen
            else if part == ".." && seen.names != [] then
              |next.names| == |seen.names| - 1 && Parts(next) == parts[..|parts| - 1]
              && parts[|parts| - 1] == seen.names[|seen.names| - 1]
            else
              |next.names| == |seen.names| + (if part == ".." then 0 else 1) && Parts(next) == parts + [part]
  {
  }

  /** Converts a path by a single pass that keeps a stack of parts. */
  method RemoveSuperfluousDirectoryChanges(path: string) returns (result: string)
    ensures result == Normalise(path)
  {
    var dirNamesFound := 0;
    var keepParts: seq<string> := [];
    var parts := Split(path, '/');
    SplitSeparable(path, '/');
    ghost var seen := EffectOf([]);
    for i := 0 to |parts|
      invariant seen == EffectOf(parts[..i]) && RealNames(seen.names)
      invariant keepParts == Parts(seen)
      invariant dirNamesFound == |seen.names|
    {
      var part := parts[i];
      ghost var before := seen;
      EffectOfNext(parts, i);
      NextKeptParts(before, part);
      seen := Then(before, part);
      assert RealNames(seen.names);
      if part == "" || part == "." {
        continue;
      } else if part == ".." {
        if dirNamesFound > 0 {
          assert IsRealName(keepParts[|keepParts| - 1]);
          keepParts := keepParts[..|keepParts| - 1];
          dirNamesFound := dirNamesFound - 1;
          continue;
        }
      } else {
        dirNamesFound := dirNamesFound + 1;
      }
      keepParts := keepParts + [part];
    }
    assert parts[..|parts|] == parts;
    result := Join(keepParts, '/');
  }

  lemma EffectOfNext(parts: seq<string>, i: nat)
    requires i < |parts|
    ensures EffectOf(parts[..i + 1]) == Then(EffectOf(parts[..i]), parts[i])
  {
    assert parts[..i + 1][..i] == parts[..i];
  }

  /** Parent moves followed by real names only. */
  ghost predicate NormalForm(parts: seq<string>) {
    exists ups: nat, names: seq<string> :: RealNames(names) && parts == Parts(Effect(ups, names))
  }

  lemma NormaliseParts(path: string)
    ensures var e := EffectOf(Split(path, '/'));
            RealNames(e.names) && Separable(Parts(e), '/')
    ensures var e := EffectOf(Split(path, '/'));
            Split(Normalise(path), '/') == if Parts(e) == [] then [""] else Parts(e)
  {
    var e := EffectOf(Split(path, '/'));
    SplitSeparable(path, '/');
    EffectNamesAreReal(Split(path, '/'));
    if Parts(e) != [] {
      SplitOfJoin(Parts(e), '/');
    }
  }

  lemma EffectOfSnoc(parts: seq<string>, part: string)
    ensures EffectOf(parts + [part]) == Then(EffectOf(parts), part)
  {
    assert (parts + [part])[..|parts|] == parts;
  }

  lemma PartsSnoc(ups: nat, names: seq<string>)
    ensures Parts(Effect(ups + 1, [])) == Parts(Effect(ups, [])) + [".."]
    ensures names != [] ==>
              Parts(Effect(ups, names)) == Parts(Effect(ups, names[..|names| - 1])) + [names[|names| - 1]]
  {
  }

  lemma {:induction false} EffectOfParts(e: Effect)
    requires RealNames(e.names)
    ensures EffectOf(Parts(e)) == e
    decreases e.ups + |e.names|
  {
    if e.names != [] {
      var shorter := Effect(e.ups, e.names[..|e.names| - 1]);
      EffectOfParts(shorter);
      PartsSnoc(e.ups, e.names);
      EffectOfSnoc(Parts(shorter), e.names[|e.names| - 1]);
    } else if e.ups > 0 {
      var shorter := Effect(e.ups - 1, []);
      EffectOfParts(shorter);
      PartsSnoc(e.ups - 1, []);
      EffectOfSnoc(Parts(shorter), "..");
    }
  }

  /** The normalised path has the same net effect as the original. */
  lemma NormaliseKeepsEffect(path: string)
    ensures EffectOf(Split(Normalise(path), '/')) == EffectOf(Split(path, '/'))
  {
    NormaliseParts(path);
    var e := EffectOf(Split(path, '/'));
    EffectOfParts(e);
    if Parts(e) == [] {
      assert EffectOf([""]) == Then(EffectOf([""][..0]), "");
    }
  }

  /** The normalised path reaches the same directory as the original, from every directory. */
  lemma NormalisePreservesMeaning(dir: Directory, path: string)
    ensures Follow(dir, Normalise(path)) == Follow(dir, path)
  {
    NormaliseKeepsEffect(path);
    WalkIsLand(dir, Split(path, '/'));
    WalkIsLand(dir, Split(Normalise(path), '/'));
  }

  /** The normalised path is empty, or parent moves followed by real names only. */
  lemma NormaliseGivesNormalForm(path: string)
    ensures Normalise(path) == "" || NormalForm(Split(Normalise(path), '/'))
  {
    NormaliseParts(path);
  }

  /** Normalising twice is normalising once. */
  lemma NormaliseIdempotent(path: string)
    ensures Normalise(Normalise(path)) == Normalise(path)
  {
    NormaliseKeepsEffect(path);
  }

  // ---------- canonicity ----------

  function Longest(names: seq<string>): (n: nat)
    ensures forall i :: 0 <= i < |names| ==> |names[i]| <= n
  {
    if names == [] then 0
    else
      var rest := Longest(names[1..]);
      if |names[0]| > rest then |names[0]| else rest
  }

  /** A directory name that differs from all the given ones. */
  function Fresh(names: seq<string>): (name: string)
    ensures IsRealName(name) && name !in names
  {
    seq(Longest(names) + 3, _ => 'a')
  }

  /** Two different net effects are told apart by some directory. */
  lemma DistinguishingDirectory(e1: Effect, e2: Effect) returns (dir: Directory)
    requires e1 != e2 && RealNames(e1.names) && RealNames(e2.names)
    ensures RealNames(dir) && Land(dir, e1) != Land(dir, e2)
  {
    var unused := Fresh(e1.names + e2.names);
    var depth := e1.ups + e2.ups;
    dir := seq(depth, _ => unused);
    if e1.ups < e2.ups {
      TellApart(dir, unused, e1, e2);
    } else if e2.ups < e1.ups {
      TellApart(dir, unused, e2, e1);
    } else {
      var kept := depth - e1.ups;
      assert Land(dir, e1)[kept..] == e1.names;
      assert Land(dir, e2)[kept..] == e2.names;
    }
  }

  lemma TellApart(dir: Directory, unused: string, fewer: Effect, more: Effect)
    requires fewer.ups < more.ups <= |dir| && unused !in more.names
    requires forall i :: 0 <= i < |dir| ==> dir[i] == unused
    ensures Land(dir, fewer) != Land(dir, more)
  {
    var kept := |dir| - more.ups;
    assert Land(dir, fewer)[kept] == unused;
    if more.names != [] {
      assert Land(dir, more)[kept] == more.names[0];
    }
  }

  /** Two paths normalise to the same string exactly when they mean the same move from every directory. */
  lemma NormaliseIsCanonical(p: string, q: string)
    ensures Normalise(p) == Normalise(q) <==>
            forall dir: Directory | RealNames(dir) :: Follow(dir, p) == Follow(dir, q)
  {
    var e1, e2 := EffectOf(Split(p, '/')), EffectOf(Split(q, '/'));
    NormaliseParts(p);
    NormaliseParts(q);
    if Normalise(p) == Normalise(q) {
      forall dir: Directory | RealNames(dir)
        ensures Follow(dir, p) == Follow(dir, q)
      {
        NormalisePreservesMeaning(dir, p);
        NormalisePreservesMeaning(dir, q);
      }
    } else {
      var dir := DistinguishingDirectory(e1, e2);
      WalkIsLand(dir, Split(p, '/'));
      WalkIsLand(dir, Split(q, '/'));
      assert Follow(dir, p) != Follow(dir, q);
    }
  }
}
