/**
 Counting major, minor and patch releases over all module providers by comparing
 each version with the one before it.
 */
module VersionStatistics {
  import opened VersionText

  // ---------- ordering ----------

  /** Every version is at least as great as the ones after it. */
  ghost predicate Descending(versions: seq<Release>) {
    forall i, j :: 0 <= i <= j < |versions| ==> AtMost(versions[j], versions[i])
  }

  ghost predicate Ascending(versions: seq<Release>) {
    forall i, j :: 0 <= i <= j < |versions| ==> AtMost(versions[i], versions[j])
  }

  /** Puts a version before the first smaller one. */
  function Insert(x: Release, versions: seq<Release>): seq<Release> {
    if versions == [] || !AtMost(x, versions[0]) then [x] + versions else [versions[0]] + Insert(x, versions[1..])
  }

  /** The versions, greatest first. */
  function SortDown(versions: seq<Release>): seq<Release> {
    if versions == [] then [] else Insert(versions[|versions| - 1], SortDown(versions[..|versions| - 1]))
  }

  lemma {:induction false} InsertSorts(x: Release, versions: seq<Release>)
    requires Descending(versions)
    ensures Descending(Insert(x, versions)) && multiset(Insert(x, versions)) == multiset(versions) + multiset{x}
  {
    if versions != [] && AtMost(x, versions[0]) {
      var rest := Insert(x, versions[1..]);
      InsertSorts(x, versions[1..]);
      assert versions == [versions[0]] + versions[1..];
      ElementsAtMost(versions[0], versions[1..], x, rest);
    }
  }

  lemma ElementsAtMost(first: Release, versions: seq<Release>, x: Release, inserted: seq<Release>)
    requires multiset(inserted) == multiset(versions) + multiset{x} && AtMost(x, first)
    requires forall i :: 0 <= i < |versions| ==> AtMost(versions[i], first)
    ensures forall k :: 0 <= k < |inserted| ==> AtMost(inserted[k], first)
  {
    forall k | 0 <= k < |inserted|
      ensures AtMost(inserted[k], first)
    {
      assert inserted[k] in multiset(inserted);
      assert inserted[k] in multiset(versions) || inserted[k] == x;
    }
  }

  lemma {:induction false} SortDownSorts(versions: seq<Release>)
    ensures Descending(SortDown(versions)) && multiset(SortDown(versions)) == multiset(versions)
    decreases |versions|
  {
    if versions != [] {
      var init := versions[..|versions| - 1];
      SortDownSorts(init);
      InsertSorts(versions[|versions| - 1], SortDown(init));
      assert versions == init + [versions[|versions| - 1]];
    }
  }

  function Reversed(versions: seq<Release>): (r: seq<Release>)
    ensures |r| == |versions| && forall i :: 0 <= i < |r| ==> r[i] == versions[|versions| - 1 - i]
  {
    seq(|versions|, i requires 0 <= i < |versions| => versions[|versions| - 1 - i])
  }

  // ---------- what is counted ----------

  function Majors(versions: seq<Release>): set<nat> {
    set v | v in versions :: v.major
  }

  function Minors(versions: seq<Release>): set<(nat, nat)> {
    set v | v in versions :: (v.major, v.minor)
  }

  function Numbers(versions: seq<Release>): set<Release> {
    set v | v in versions
  }

  /** The distinct first numbers, the distinct first two, and the distinct versions, summed over the providers. */
  function TotalMajors(providers: seq<seq<Release>>): nat {
    if providers == [] then 0 else TotalMajors(providers[..|providers| - 1]) + |Majors(providers[|providers| - 1])|
  }

  function TotalMinors(providers: seq<seq<Release>>): nat {
    if providers == [] then 0 else TotalMinors(providers[..|providers| - 1]) + |Minors(providers[|providers| - 1])|
  }

  function TotalNumbers(providers: seq<seq<Release>>): nat {
    if providers == [] then 0 else TotalNumbers(providers[..|providers| - 1]) + |Numbers(providers[|providers| - 1])|
  }

  function TotalVersions(providers: seq<seq<Release>>): nat {
    if providers == [] then 0 else TotalVersions(providers[..|providers| - 1]) + |providers[|providers| - 1]|
  }

  ghost predicate Distinct(versions: seq<Release>) {
    forall i, j :: 0 <= i < j < |versions| ==> versions[i] != versions[j]
  }

  // ---------- the loops ----------

  /** Counts the changes between successive versions of one provider, smallest first. */
  method CountChanges(versions: seq<Release>) returns (majors: nat, minors: nat, patches: nat)
    requires Ascending(versions)
    ensures majors == |Majors(versions)|
    ensures majors + minors == |Minors(versions)|
    ensures majors + minors + patches == |Numbers(versions)|
  {
    majors, minors, patches := 0, 0, 0;
    for k := 0 to |versions|
      invariant majors == |Majors(versions[..k])|
      invariant majors + minors == |Minors(versions[..k])|
      invariant majors + minors + patches == |Numbers(versions[..k])|
    {
      OneMoreVersion(versions, k);
      if k == 0 || versions[k].major > versions[k - 1].major {
        majors := majors + 1;
      } else if versions[k].minor > versions[k - 1].minor {
        minors := minors + 1;
      } else if versions[k].patch > versions[k - 1].patch {
        patches := patches + 1;
      }
    }
    assert versions[..|versions|] == versions;
  }

  /** Counts over all module providers; each one's versions are sorted, greatest first, and then reversed. */
  method GetStatistics(providers: seq<seq<Release>>) returns (majors: nat, minors: nat, patches: nat)
    ensures majors == TotalMajors(providers)
    ensures majors + minors == TotalMinors(providers)
    ensures majors + minors + patches == TotalNumbers(providers)
  {
    majors, minors, patches := 0, 0, 0;
    for k := 0 to |providers|
      invariant majors == TotalMajors(providers[..k])
      invariant majors + minors == TotalMinors(providers[..k])
      invariant majors + minors + patches == TotalNumbers(providers[..k])
    {
      var versions := Reversed(SortDown(providers[k]));
      SortedForCounting(providers[k]);
      var a, b, c := CountChanges(versions);
      majors, minors, patches := majors + a, minors + b, patches + c;
      assert providers[..k + 1][..k] == providers[..k];
    }
    assert providers[..|providers|] == providers;
  }

  /** The next version has a new major number, a new minor number, or a new patch number, as the comparison says. */
  lemma OneMoreVersion(versions: seq<Release>, k: nat)
    requires Ascending(versions) && k < |versions|
    ensures var v, before, after := versions[k], versions[..k], versions[..k + 1];
      var newMajor := k == 0 || v.major > versions[k - 1].major;
      var newMinor := newMajor || v.minor > versions[k - 1].minor;
      var newPatch := newMinor || v.patch > versions[k - 1].patch;
      && |Majors(after)| == |Majors(before)| + (if newMajor then 1 else 0)
      && |Minors(after)| == |Minors(before)| + (if newMinor then 1 else 0)
      && |Numbers(after)| == |Numbers(before)| + (if newPatch then 1 else 0)
  {
    var v, before := versions[k], versions[..k];
    assert versions[..k + 1] == before + [v];
    AddedNumbers(before, v);
    if k > 0 {
      SeenBefore(before, versions[k - 1], v);
    }
  }

  lemma AddedNumbers(before: seq<Release>, v: Release)
    ensures Majors(before + [v]) == Majors(before) + {v.major}
    ensures Minors(before + [v]) == Minors(before) + {(v.major, v.minor)}
    ensures Numbers(before + [v]) == Numbers(before) + {v}
  {
  }

  /** Of the numbers of a version, those that the greatest version before it has too have been seen before. */
  lemma SeenBefore(before: seq<Release>, greatest: Release, v: Release)
    requires greatest in before && AtMost(greatest, v) && forall w :: w in before ==> AtMost(w, greatest)
    ensures v.major in Majors(before) <==> v.major <= greatest.major
    ensures (v.major, v.minor) in Minors(before) <==> v.major <= greatest.major && v.minor <= greatest.minor
    ensures v in Numbers(before) <==>
            v.major <= greatest.major && v.minor <= greatest.minor && v.patch <= greatest.patch
  {
    assert greatest.major in Majors(before) && (greatest.major, greatest.minor) in Minors(before);
  }

  lemma SortedForCounting(versions: seq<Release>)
    ensures var counted := Reversed(SortDown(versions));
      && Ascending(counted) && Majors(counted) == Majors(versions)
      && Minors(counted) == Minors(versions) && Numbers(counted) == Numbers(versions)
  {
    var sorted := SortDown(versions);
    SortDownSorts(versions);
    var counted := Reversed(sorted);
    forall v
      ensures v in counted <==> v in versions
    {
      assert v in versions <==> v in multiset(versions);
      assert v in sorted <==> v in multiset(sorted);
      if v in sorted {
        var i :| 0 <= i < |sorted| && sorted[i] == v;
        assert counted[|sorted| - 1 - i] == v;
      }
    }
  }

  // ---------- what the totals mean ----------

  lemma {:induction false} DistinctIffAllCounted(versions: seq<Release>)
    ensures |Numbers(versions)| <= |versions|
    ensures |Numbers(versions)| == |versions| <==> Distinct(versions)
    decreases |versions|
  {
    if versions != [] {
      var init, last := versions[..|versions| - 1], versions[|versions| - 1];
      DistinctIffAllCounted(init);
      assert versions == init + [last];
      assert Numbers(versions) == Numbers(init) + {last};
      assert forall i :: 0 <= i < |init| ==> versions[i] == init[i];
    }
  }

  /**
   The three counts add up to the number of versions exactly when no provider has
   two versions with the same three numbers; otherwise to fewer.
   */
  lemma {:induction false} AllVersionsCountedIff(providers: seq<seq<Release>>)
    ensures TotalNumbers(providers) <= TotalVersions(providers)
    ensures TotalNumbers(providers) == TotalVersions(providers) <==>
            forall i :: 0 <= i < |providers| ==> Distinct(providers[i])
    decreases |providers|
  {
    if providers != [] {
      var init, last := providers[..|providers| - 1], providers[|providers| - 1];
      AllVersionsCountedIff(init);
      DistinctIffAllCounted(last);
      assert forall i :: 0 <= i < |init| ==> providers[i] == init[i];
    }
  }
}
