/**
 Indexing the releases of providers: every release in a transaction of its own,
 the pointer to the latest version kept by hand. Versions are never replaced.
 */
module ProviderIndex {
  import opened Text
  import opened VersionText
  import opened Rows

  type Id = nat

  /** A version row; only a row that was the latest when it was made has a publishing date. */
  datatype VersionRow = VersionRow(provider: Id, version: Version, beta: bool, dated: bool)

  datatype AuditEvent = VersionIndex(provider: Id, version: Version)

  /** The pointer of every provider to its latest version, the version rows, and the audit trail. */
  datatype Tables = Tables(latest: map<Id, Option<Id>>, versions: map<Id, VersionRow>, audit: seq<AuditEvent>)

  /** What getting hold of a release's signature leads to: none published, no key fits it, or extraction. */
  datatype Signature = NoSignature | NoKey | Signed(extraction: Extraction)

  datatype RepositoryRelease = RepositoryRelease(version: Version, signature: Signature)

  // ---------- what always holds ----------

  predicate IsCandidate(versions: map<Id, VersionRow>, p: Id, v: Id) {
    v in versions && versions[v].provider == p && !versions[v].beta
  }

  /** `latest` is empty when all versions are betas, otherwise it is one that no candidate exceeds. */
  ghost predicate IsLatest(versions: map<Id, VersionRow>, p: Id, latest: Option<Id>) {
    match latest
    case None => forall v :: !IsCandidate(versions, p, v)
    case Some(m) =>
      && IsCandidate(versions, p, m)
      && forall v :: IsCandidate(versions, p, v) ==>
           AtMost(versions[v].version.numbers, versions[m].version.numbers)
  }

  /** A row of the provider that is not marked as a beta. */
  predicate IsRelease(versions: map<Id, VersionRow>, p: Id, v: Id) {
    v in versions && versions[v].provider == p && !versions[v].beta
  }

  /** By the version texts: `latest` is empty if there is no release, otherwise one that is older than no other. */
  ghost predicate IsNewest(versions: map<Id, VersionRow>, p: Id, latest: Option<Id>) {
    && (latest.None? ==> forall v :: !IsRelease(versions, p, v))
    && (latest.Some? ==>
          && IsRelease(versions, p, latest.value)
          && forall v :: IsRelease(versions, p, v) ==>
               !Older(versions[latest.value].version.text, versions[v].version.text))
  }

  /** The pointer to the latest version is right exactly if it is right by the version texts. */
  lemma LatestIffNewest(versions: map<Id, VersionRow>, p: Id, latest: Option<Id>)
    ensures IsLatest(versions, p, latest) <==> IsNewest(versions, p, latest)
  {
    if latest.Some? && latest.value in versions {
      forall v | v in versions
        ensures Older(versions[latest.value].version.text, versions[v].version.text) <==>
                !AtMost(versions[v].version.numbers, versions[latest.value].version.numbers)
      {
        OlderIff(versions[latest.value].version, versions[v].version);
      }
    }
    assert forall v :: IsRelease(versions, p, v) <==> IsCandidate(versions, p, v);
  }

  predicate IsRowOf(versions: map<Id, VersionRow>, p: Id, version: Version, v: Id) {
    v in versions && versions[v].provider == p && versions[v].version == version
  }

  ghost predicate RowsOk(t: Tables) {
    && (forall v :: v in t.versions ==>
          t.versions[v].provider in t.latest && t.versions[v].beta == t.versions[v].version.beta)
    && (forall p, version, v, w :: IsRowOf(t.versions, p, version, v) && IsRowOf(t.versions, p, version, w) ==> v == w)
  }

  ghost predicate LatestOk(t: Tables) {
    forall p :: p in t.latest ==>
      && IsLatest(t.versions, p, t.latest[p])
      && (t.latest[p].Some? ==> t.versions[t.latest[p].value].dated)
  }

  ghost predicate Inv(t: Tables) {
    RowsOk(t) && LatestOk(t)
  }

  /** The versions a provider has rows of. */
  ghost function VersionsOf(t: Tables, p: Id): set<Version> {
    set v | v in t.versions && t.versions[v].provider == p :: t.versions[v].version
  }

  // ---------- what indexing a version does ----------

  /** A new version has got a row; the pointer moved to it exactly when it is dated. */
  ghost predicate AddedAs(t: Tables, t': Tables, p: Id, version: Version, row: Id, dated: bool) {
    && p in t.latest && version !in VersionsOf(t, p) && row !in t.versions
    && t'.versions == t.versions[row := VersionRow(p, version, version.beta, dated)]
    && t'.latest == (if dated then t.latest[p := Some(row)] else t.latest)
    && IsLatest(t'.versions, p, t'.latest[p])
    && t'.audit == t.audit + [VersionIndex(p, version)]
  }

  ghost predicate Added(t: Tables, t': Tables, p: Id, version: Version) {
    exists row, dated :: AddedAs(t, t', p, version, row, dated)
  }

  /** The given versions have been added one after the other. */
  ghost predicate Grown(t: Tables, t': Tables, p: Id, versions: seq<Version>)
    decreases |versions|
  {
    if versions == [] then t' == t
    else
      var init, last := versions[..|versions| - 1], versions[|versions| - 1];
      exists mid :: Grown(t, mid, p, init) && Added(mid, t', p, last)
  }

  // ---------- which releases get indexed ----------

  /** The versions that processing the releases in order adds, given those known before. */
  function NewVersions(known: set<Version>, releases: seq<RepositoryRelease>): (added: seq<Version>)
    decreases |releases|
  {
    if releases == [] then []
    else
      var earlier := NewVersions(known, releases[..|releases| - 1]);
      var release := releases[|releases| - 1];
      if release.signature == Signed(Extracted) && release.version !in known && release.version !in earlier
      then earlier + [release.version] else earlier
  }

  /** Processing release k raises: no key fits its signature, or extracting it fails outside the registry's errors. */
  predicate Raises(known: set<Version>, releases: seq<RepositoryRelease>, k: nat)
    requires k < |releases|
  {
    match releases[k].signature
    case NoSignature => false
    case NoKey => true
    case Signed(extraction) =>
      && extraction.OtherFailure? && releases[k].version !in known
      && releases[k].version !in NewVersions(known, releases[..k])
  }

  /** No limit, and a limit of zero, mean all releases. The limit is looked at after each version added. */
  predicate Reached(limit: Option<int>, added: nat) {
    limit.Some? && limit.value != 0 && added > 0 && added >= limit.value
  }

  /** How a refresh ends: with the versions it added, or with an exception that lost them to the caller. */
  datatype Refresh = Refreshed(versions: seq<Version>) | KeyMissing | Crashed

  /** How indexing a single version ends. */
  datatype Indexing = Indexed | NotFound | AlreadyIndexed | SignatureMissing | ExtractionFailed | Failed

  /** A refresh deals with the first k releases and stops there. */
  ghost predicate StopsAfter(known: set<Version>, releases: seq<RepositoryRelease>, limit: Option<int>, k: nat,
                             raised: bool) {
    && k <= |releases|
    && (forall j :: 0 <= j < k ==>
          !Raises(known, releases, j) && !Reached(limit, |NewVersions(known, releases[..j])|))
    && if raised then k < |releases| && Raises(known, releases, k)
       && !Reached(limit, |NewVersions(known, releases[..k])|)
       else k == |releases| || Reached(limit, |NewVersions(known, releases[..k])|)
  }

  /** What processing one release does: it raises, adds its version, or changes nothing. */
  ghost predicate ReleaseDone(t: Tables, t': Tables, p: Id, release: RepositoryRelease, raised: bool,
                              added: seq<Version>) {
    var isNew := release.version !in VersionsOf(t, p);
    && (raised <==> release.signature.NoKey? || (release.signature == Signed(OtherFailure) && isNew))
    && added == (if release.signature == Signed(Extracted) && isNew then [release.version] else [])
    && if added == [] then t' == t else Added(t, t', p, release.version)
  }

  /** The first k releases have been processed, none raised, and the limit was not reached on the way. */
  ghost predicate Progress(t: Tables, t': Tables, p: Id, releases: seq<RepositoryRelease>, limit: Option<int>, k: int,
                           added: seq<Version>) {
    && 0 <= k <= |releases|
    && forall known :: known == VersionsOf(t, p) ==>
         && added == NewVersions(known, releases[..k]) && Grown(t, t', p, added)
         && forall j :: 0 <= j < k ==>
            !Raises(known, releases, j) && !Reached(limit, |NewVersions(known, releases[..j])|)
  }

  // ---------- the index ----------

  class ProviderIndex {
    var latest: map<Id, Option<Id>>
    var versions: map<Id, VersionRow>
    var audit: seq<AuditEvent>
    /** The tables as they were when the transaction and each savepoint inside it began. */
    var savepoints: seq<Tables>

    function Contents(): Tables
      reads this
    {
      Tables(latest, versions, audit)
    }

    ghost predicate Valid()
      reads this
    {
      Inv(Contents())
    }

    /** Providers start without versions. */
    constructor (ps: set<Id>)
      ensures Valid() && latest.Keys == ps && versions == map[] && savepoints == []
    {
      latest := map p | p in ps :: None;
      versions, audit, savepoints := map[], [], [];
    }

    /** Begins a transaction, or a savepoint inside the one there is. */
    method BeginNewOrNested()
      modifies `savepoints
      ensures savepoints == old(savepoints) + [Contents()]
    {
      savepoints := savepoints + [Contents()];
    }

    method Commit()
      requires savepoints != []
      modifies `savepoints
      ensures savepoints == old(savepoints)[..|old(savepoints)| - 1]
    {
      savepoints := savepoints[..|savepoints| - 1];
    }

    method Rollback()
      requires savepoints != []
      modifies this
      ensures Contents() == old(savepoints)[|old(savepoints)| - 1]
      ensures savepoints == old(savepoints)[..|old(savepoints)| - 1]
    {
      var saved := savepoints[|savepoints| - 1];
      savepoints := savepoints[..|savepoints| - 1];
      latest, versions, audit := saved.latest, saved.versions, saved.audit;
    }

    /** One of the greatest versions that are not betas. */
    method CalculateLatestVersion(p: Id) returns (found: Option<Id>)
      ensures IsLatest(versions, p, found) && IsNewest(versions, p, found)
    {
      var rows := set v | v in versions && IsCandidate(versions, p, v);
      if rows == {} {
        assert forall v :: IsCandidate(versions, p, v) ==> v in rows;
        LatestIffNewest(versions, p, None);
        return None;
      }
      var numbers := map v | v in versions :: versions[v].version.numbers;
      var m := Greatest(numbers, rows);
      assert forall v :: IsCandidate(versions, p, v) ==> v in rows && AtMost(numbers[v], numbers[m]);
      LatestIffNewest(versions, p, Some(m));
      return Some(m);
    }

    method Exists(p: Id, version: Version) returns (exists': bool)
      ensures exists' <==> version in VersionsOf(Contents(), p)
    {
      return version in set v | v in versions && versions[v].provider == p :: versions[v].version;
    }

    /** Inserts the row of a new version; an existing version is an error. */
    method PrepareVersion(p: Id, version: Version) returns (ok: bool, ghost row: Id)
      requires Valid() && p in latest
      modifies `versions, `audit
      ensures ok <==> version !in VersionsOf(old(Contents()), p)
      ensures !ok ==> Contents() == old(Contents())
      ensures ok ==> row !in old(versions)
      ensures ok ==> versions == old(versions)[row := VersionRow(p, version, version.beta, false)]
      ensures ok ==> audit == old(audit) + [VersionIndex(p, version)]
    {
      row := 0;
      var known := Exists(p, version);
      if known {
        return false, 0;
      }
      UnusedIdExists(versions.Keys);
      var id: Id :| id !in versions;
      versions := versions[id := VersionRow(p, version, version.beta, false)];
      audit := audit + [VersionIndex(p, version)];
      return true, id;
    }

    /** Makes the row of a version the latest and dates it, if the version is the greatest. */
    method Publish(p: Id, version: Version, ghost before: Tables, ghost row: Id)
      requires Inv(before) && p in before.latest && version !in VersionsOf(before, p) && row !in before.versions
      requires versions == before.versions[row := VersionRow(p, version, version.beta, false)]
      requires latest == before.latest && audit == before.audit + [VersionIndex(p, version)]
      modifies `latest, `versions
      ensures Added(before, Contents(), p, version)
    {
      var first := CalculateLatestVersion(p);
      var greatest := CalculateLatestVersion(p);
      OnlyNewRow(before, versions, p, version, row);
      if first.Some? && greatest.Some? && versions[greatest.value].version == version {
        var v :| v in versions && IsRowOf(versions, p, version, v);
        latest := latest[p := Some(v)];
        versions := versions[v := versions[v].(dated := true)];
        assert AddedAs(before, Contents(), p, version, row, true);
      } else {
        PointerSurvives(before, versions, p, version, row, greatest);
        assert AddedAs(before, Contents(), p, version, row, false);
      }
    }

    /** Adds a version in a transaction of its own, which is rolled back if anything fails. */
    method CreateVersion(p: Id, version: Version, extraction: Extraction) returns (failure: Option<Extraction>)
      requires Valid() && p in latest
      modifies this
      ensures Valid() && savepoints == old(savepoints) && latest.Keys == old(latest.Keys)
      ensures failure.None? <==> extraction.Extracted? && version !in VersionsOf(old(Contents()), p)
      ensures failure == Some(OtherFailure) <==> extraction.OtherFailure? && version !in VersionsOf(old(Contents()), p)
      ensures if failure.None? then Added(old(Contents()), Contents(), p, version) else Contents() == old(Contents())
    {
      ghost var before := Contents();
      BeginNewOrNested();
      var ok;
      ghost var row;
      ok, row := PrepareVersion(p, version);
      if !ok || !extraction.Extracted? {
        Rollback();
        return Some(if ok then extraction else RegistryFailure);
      }
      Publish(p, version, before, row);
      Commit();
      AddKeepsInv(before, Contents(), p, version);
      return None;
    }

    /** Indexes one version of a provider, given what its repository says about the release. */
    method IndexVersion(p: Id, release: Option<RepositoryRelease>) returns (r: Indexing)
      requires Valid() && p in latest
      modifies this
      ensures Valid() && savepoints == old(savepoints) && latest.Keys == old(latest.Keys)
      ensures r.NotFound? <==> release.None?
      ensures r.AlreadyIndexed? <==> release.Some? && release.value.version in VersionsOf(old(Contents()), p)
      ensures !r.NotFound? && !r.AlreadyIndexed? ==>
        match release.value.signature
        case NoSignature => r == SignatureMissing
        case NoKey => r == Failed
        case Signed(Extracted) => r == Indexed
        case Signed(RegistryFailure) => r == ExtractionFailed
        case Signed(OtherFailure) => r == Failed
      ensures if r.Indexed? then Grown(old(Contents()), Contents(), p, [release.value.version])
              else Contents() == old(Contents())
    {
      if release.None? {
        return NotFound;
      }
      var known := Exists(p, release.value.version);
      if known {
        return AlreadyIndexed;
      }
      match release.value.signature {
        case NoSignature =>
          return SignatureMissing;
        case NoKey =>
          // A missing key shows only when the row is inserted.
          var failure := CreateVersion(p, release.value.version, OtherFailure);
          return Failed;
        case Signed(extraction) =>
          ghost var before := Contents();
          var failure := CreateVersion(p, release.value.version, extraction);
          if failure.None? {
            IndexingIsCall(before, Contents(), p, release.value.version);
          }
          return if failure.None? then Indexed else if failure == Some(OtherFailure) then Failed else ExtractionFailed;
      }
    }

    /** Adds the version of one release, unless it is not signed or fails. */
    method ProcessRelease(p: Id, release: RepositoryRelease) returns (raised: bool, added: seq<Version>)
      requires Valid() && p in latest
      modifies this
      ensures Valid() && savepoints == old(savepoints) && latest.Keys == old(latest.Keys)
      ensures ReleaseDone(old(Contents()), Contents(), p, release, raised, added)
    {
      match release.signature {
        case NoSignature =>
          return false, [];
        case NoKey =>
          return true, [];
        case Signed(extraction) =>
          var failure := CreateVersion(p, release.version, extraction);
          return failure == Some(OtherFailure), if failure.None? then [release.version] else [];
      }
    }

    /**
     Indexes the new releases of a provider until the limit is reached. A release
     that fails with a registry error is skipped; any other exception ends the refresh.
     */
    method RefreshVersions(p: Id, releases: seq<RepositoryRelease>, limit: Option<int>)
      returns (r: Refresh, ghost k: nat)
      requires Valid() && p in latest
      modifies this
      ensures Valid() && savepoints == old(savepoints) && latest.Keys == old(latest.Keys)
      ensures StopsAfter(VersionsOf(old(Contents()), p), releases, limit, k, !r.Refreshed?)
      ensures Grown(old(Contents()), Contents(), p, NewVersions(VersionsOf(old(Contents()), p), releases[..k]))
      ensures r.Refreshed? ==> r.versions == NewVersions(VersionsOf(old(Contents()), p), releases[..k])
      ensures !r.Refreshed? ==> (r.KeyMissing? <==> releases[k].signature.NoKey?)
    {
      ghost var start := Contents();
      var versions: seq<Version> := [];
      k := 0;
      NothingProcessed(start, p, releases, limit, versions);
      for i := 0 to |releases|
        invariant Valid() && p in latest && savepoints == old(savepoints) && latest.Keys == old(latest.Keys)
        invariant k == i && Progress(start, Contents(), p, releases, limit, k, versions) && !Reached(limit, |versions|)
      {
        ghost var earlier := Contents();
        var raised, added := ProcessRelease(p, releases[i]);
        if raised {
          StoppedByRelease(start, earlier, Contents(), p, releases, limit, k, versions, added);
          return if releases[i].signature.NoKey? then KeyMissing else Crashed, k;
        }
        OneMoreRelease(start, earlier, Contents(), p, releases, limit, k, versions, added);
        versions := versions + added;
        k := i + 1;
        if added != [] && Reached(limit, |versions|) {
          break;
        }
      }
      StoppedByLimit(start, Contents(), p, releases, limit, k, versions);
      r := Refreshed(versions);
    }
  }

  lemma NothingProcessed(t: Tables, p: Id, releases: seq<RepositoryRelease>, limit: Option<int>,
                         versions: seq<Version>)
    requires versions == []
    ensures Progress(t, t, p, releases, limit, 0, versions) && !Reached(limit, |versions|)
  {
  }

  lemma OneMoreRelease(t: Tables, mid: Tables, t': Tables, p: Id, releases: seq<RepositoryRelease>, limit: Option<int>,
                       k: nat, versions: seq<Version>, added: seq<Version>)
    requires k < |releases| && Progress(t, mid, p, releases, limit, k, versions) && !Reached(limit, |versions|)
    requires ReleaseDone(mid, t', p, releases[k], false, added)
    ensures Progress(t, t', p, releases, limit, k + 1, versions + added)
  {
    var known := VersionsOf(t, p);
    assert versions == NewVersions(known, releases[..k]) && Grown(t, mid, p, versions);
    GrownByRelease(t, mid, t', p, versions, releases[k], added);
    assert NewVersions(known, releases[..k + 1]) == versions + added && !Raises(known, releases, k) by {
      GrownVersions(t, mid, p, versions);
      OneMoreProcessed(known, releases, k, versions, VersionsOf(mid, p), added);
    }
  }

  lemma GrownByRelease(t: Tables, mid: Tables, t': Tables, p: Id, versions: seq<Version>, release: RepositoryRelease,
                       added: seq<Version>)
    requires Grown(t, mid, p, versions) && ReleaseDone(mid, t', p, release, false, added)
    ensures Grown(t, t', p, versions + added)
  {
    if added == [] {
      assert versions + added == versions;
    } else {
      GrownByOne(t, mid, t', p, versions, release.version);
    }
  }

  lemma OneMoreProcessed(known: set<Version>, releases: seq<RepositoryRelease>, k: nat, versions: seq<Version>,
                         present: set<Version>, added: seq<Version>)
    requires k < |releases| && versions == NewVersions(known, releases[..k]) && present == known + Elements(versions)
    requires !releases[k].signature.NoKey?
    requires releases[k].signature == Signed(OtherFailure) ==> releases[k].version in present
    requires added == if releases[k].signature == Signed(Extracted) && releases[k].version !in present
                      then [releases[k].version] else []
    ensures NewVersions(known, releases[..k + 1]) == versions + added && !Raises(known, releases, k)
  {
    assert releases[..k + 1][..k] == releases[..k];
  }

  lemma StoppedByRelease(t: Tables, mid: Tables, t': Tables, p: Id, releases: seq<RepositoryRelease>,
                         limit: Option<int>, k: nat, versions: seq<Version>, added: seq<Version>)
    requires k < |releases| && Progress(t, mid, p, releases, limit, k, versions) && !Reached(limit, |versions|)
    requires ReleaseDone(mid, t', p, releases[k], true, added)
    ensures StopsAfter(VersionsOf(t, p), releases, limit, k, true)
    ensures Grown(t, t', p, NewVersions(VersionsOf(t, p), releases[..k]))
  {
    var known := VersionsOf(t, p);
    assert versions == NewVersions(known, releases[..k]) && Grown(t, mid, p, versions);
    GrownVersions(t, mid, p, versions);
    assert Raises(known, releases, k);
  }

  lemma StoppedByLimit(t: Tables, t': Tables, p: Id, releases: seq<RepositoryRelease>, limit: Option<int>,
                       k: nat, versions: seq<Version>)
    requires Progress(t, t', p, releases, limit, k, versions) && (k == |releases| || Reached(limit, |versions|))
    ensures StopsAfter(VersionsOf(t, p), releases, limit, k, false)
    ensures versions == NewVersions(VersionsOf(t, p), releases[..k]) && Grown(t, t', p, versions)
  {
    var known := VersionsOf(t, p);
    assert versions == NewVersions(known, releases[..k]);
  }

  lemma OnlyNewRow(t: Tables, versions: map<Id, VersionRow>, p: Id, version: Version, row: Id)
    requires version !in VersionsOf(t, p) && row !in t.versions
    requires versions == t.versions[row := VersionRow(p, version, version.beta, false)]
    ensures forall v: Id :: IsRowOf(versions, p, version, v) <==> v == row
    ensures IsRowOf(versions, p, version, row)
  {
  }

  /** If a new version is not the greatest, the former pointer is still right. */
  lemma PointerSurvives(t: Tables, versions: map<Id, VersionRow>, p: Id, version: Version, row: Id,
                        greatest: Option<Id>)
    requires Inv(t) && p in t.latest && version !in VersionsOf(t, p) && row !in t.versions
    requires versions == t.versions[row := VersionRow(p, version, version.beta, false)]
    requires IsLatest(versions, p, greatest) && (greatest.Some? ==> versions[greatest.value].version != version)
    ensures IsLatest(versions, p, t.latest[p])
  {
    assert IsLatest(t.versions, p, t.latest[p]);
    assert forall v :: v != row ==> (IsCandidate(versions, p, v) <==> IsCandidate(t.versions, p, v));
    if greatest.Some? {
      assert greatest.value != row && IsCandidate(t.versions, p, greatest.value);
    }
  }

  // ---------- what indexing keeps ----------

  lemma AddKeepsInv(t: Tables, t': Tables, p: Id, version: Version)
    requires Inv(t) && Added(t, t', p, version)
    ensures Inv(t') && t'.latest.Keys == t.latest.Keys
  {
    var row, dated :| AddedAs(t, t', p, version, row, dated);
    forall q, other: Version, v, w | IsRowOf(t'.versions, q, other, v) && IsRowOf(t'.versions, q, other, w)
      ensures v == w
    {
      if v != row && w != row {
        assert IsRowOf(t.versions, q, other, v) && IsRowOf(t.versions, q, other, w);
      }
    }
    forall q | q in t.latest && q != p
      ensures IsLatest(t'.versions, q, t'.latest[q])
    {
      assert forall v :: IsCandidate(t'.versions, q, v) <==> IsCandidate(t.versions, q, v);
      assert IsLatest(t.versions, q, t.latest[q]);
    }
  }

  /** Adding a version adds it to the versions of its provider. */
  lemma AddedVersion(t: Tables, t': Tables, p: Id, version: Version)
    requires Added(t, t', p, version)
    ensures version !in VersionsOf(t, p) && VersionsOf(t', p) == VersionsOf(t, p) + {version}
  {
    var row, dated :| AddedAs(t, t', p, version, row, dated);
    assert t'.versions[row].version == version;
    forall other: Version
      ensures other in VersionsOf(t', p) <==> other in VersionsOf(t, p) + {version}
    {
      if other in VersionsOf(t, p) {
        var v :| v in t.versions && t.versions[v].provider == p && t.versions[v].version == other;
        assert t'.versions[v] == t.versions[v];
      }
    }
  }

  /** Adding versions keeps the invariant. */
  lemma {:induction false} GrowthKeepsInv(t: Tables, t': Tables, p: Id, versions: seq<Version>)
    requires Inv(t) && Grown(t, t', p, versions)
    ensures Inv(t') && t'.latest.Keys == t.latest.Keys
    decreases |versions|
  {
    if versions != [] {
      var mid := Before(t, t', p, versions);
      GrowthKeepsInv(t, mid, p, versions[..|versions| - 1]);
      AddKeepsInv(mid, t', p, versions[|versions| - 1]);
    }
  }

  /** The versions of the provider are afterwards those it had and those added, which are new and distinct. */
  lemma {:induction false} GrownVersions(t: Tables, t': Tables, p: Id, versions: seq<Version>)
    requires Grown(t, t', p, versions)
    ensures AllNew(VersionsOf(t, p), versions) && VersionsOf(t', p) == VersionsOf(t, p) + Elements(versions)
    decreases |versions|
  {
    if versions != [] {
      var init, last := versions[..|versions| - 1], versions[|versions| - 1];
      var mid := Before(t, t', p, versions);
      GrownVersions(t, mid, p, init);
      AddedVersion(mid, t', p, last);
      OneMoreNew(VersionsOf(t, p), VersionsOf(mid, p), VersionsOf(t', p), versions);
    }
  }

  /** The tables before the last version was added. */
  lemma Before(t: Tables, t': Tables, p: Id, versions: seq<Version>) returns (mid: Tables)
    requires versions != [] && Grown(t, t', p, versions)
    ensures Grown(t, mid, p, versions[..|versions| - 1]) && Added(mid, t', p, versions[|versions| - 1])
  {
    mid :| Grown(t, mid, p, versions[..|versions| - 1]) && Added(mid, t', p, versions[|versions| - 1]);
  }

  ghost function Elements(versions: seq<Version>): set<Version> {
    set version | version in versions
  }

  /** None of the versions is among the known ones, and no two are the same. */
  ghost predicate AllNew(known: set<Version>, versions: seq<Version>) {
    && (forall i :: 0 <= i < |versions| ==> versions[i] !in known)
    && (forall i, j :: 0 <= i < j < |versions| ==> versions[i] != versions[j])
  }

  lemma OneMoreNew(known: set<Version>, before: set<Version>, after: set<Version>, versions: seq<Version>)
    requires versions != []
    requires var init := versions[..|versions| - 1]; AllNew(known, init) && before == known + Elements(init)
    requires versions[|versions| - 1] !in before && after == before + {versions[|versions| - 1]}
    ensures AllNew(known, versions) && after == known + Elements(versions)
  {
    var init, last := versions[..|versions| - 1], versions[|versions| - 1];
    assert versions == init + [last];
    assert forall i :: 0 <= i < |init| ==> versions[i] == init[i] && init[i] in Elements(init);
  }

  /** Rows that were there stay as they were, and so do the pointers of other providers. */
  lemma {:induction false} GrowthKeepsRows(t: Tables, t': Tables, p: Id, versions: seq<Version>)
    requires Grown(t, t', p, versions)
    ensures forall v :: v in t.versions ==> v in t'.versions && t'.versions[v] == t.versions[v]
    ensures forall v :: v in t'.versions && v !in t.versions ==>
        t'.versions[v].provider == p && t'.versions[v].version in versions
    ensures forall q :: q in t.latest && q != p ==> q in t'.latest && t'.latest[q] == t.latest[q]
    decreases |versions|
  {
    if versions != [] {
      var mid := Before(t, t', p, versions);
      GrowthKeepsRows(t, mid, p, versions[..|versions| - 1]);
      assert forall version :: version in versions[..|versions| - 1] ==> version in versions;
    }
  }

  lemma GrownByOne(t: Tables, mid: Tables, t': Tables, p: Id, versions: seq<Version>, version: Version)
    requires Grown(t, mid, p, versions) && Added(mid, t', p, version)
    ensures Grown(t, t', p, versions + [version])
  {
    var all := versions + [version];
    assert all[..|all| - 1] == versions;
  }

  // ---------- runs ----------

  /** One call: some versions were added to one provider. */
  datatype Call = Call(provider: Id, versions: seq<Version>)

  ghost predicate Run(states: seq<Tables>, calls: seq<Call>) {
    |states| == |calls| + 1 && forall i :: 0 <= i < |calls| ==> CallAt(states, calls, i)
  }

  ghost predicate CallAt(states: seq<Tables>, calls: seq<Call>, i: int)
    requires |states| == |calls| + 1 && 0 <= i < |calls|
  {
    Grown(states[i], states[i + 1], calls[i].provider, calls[i].versions)
  }

  /** Indexing a single version is such a call. */
  lemma IndexingIsCall(t: Tables, t': Tables, p: Id, version: Version)
    requires Added(t, t', p, version)
    ensures Grown(t, t', p, [version])
  {
    GrownByOne(t, t, t', p, [], version);
    assert [] + [version] == [version];
  }

  /** After any sequence of calls: versions are unique and every pointer is right. */
  lemma {:induction false} RunKeepsInv(states: seq<Tables>, calls: seq<Call>, i: nat)
    requires Run(states, calls) && Inv(states[0]) && i < |states|
    ensures Inv(states[i])
  {
    if i > 0 {
      RunKeepsInv(states, calls, i - 1);
      assert CallAt(states, calls, i - 1);
      GrowthKeepsInv(states[i - 1], states[i], calls[i - 1].provider, calls[i - 1].versions);
    }
  }

  /** A version of the provider whose text has no suffix. */
  ghost predicate IsWithoutSuffix(t: Tables, p: Id, v: Id) {
    v in t.versions && t.versions[v].provider == p && !HasSuffix(t.versions[v].version.text)
  }

  /** Version rows hold accepted texts, each at most once for a provider. */
  ghost predicate UniqueTexts(t: Tables) {
    && (forall v :: v in t.versions ==> IsValid(t.versions[v].version.text))
    && forall v, w | v in t.versions && w in t.versions && t.versions[v].provider == t.versions[w].provider ::
         t.versions[v].version.text == t.versions[w].version.text ==> v == w
  }

  /**
   After any sequence of calls: every version text has at most one row, and every
   pointer is empty exactly if all texts have a suffix, and otherwise points at a
   version without one that is older than no other.
   */
  lemma LatestIsMaximumInEveryRun(states: seq<Tables>, calls: seq<Call>, i: nat, p: Id)
    requires Run(states, calls) && Inv(states[0]) && i < |states| && p in states[i].latest
    ensures UniqueTexts(states[i])
    ensures var t, latest := states[i], states[i].latest[p];
            && (latest.None? <==> forall v :: !IsWithoutSuffix(t, p, v))
            && (latest.Some? ==>
                  && IsWithoutSuffix(t, p, latest.value)
                  && forall v :: IsWithoutSuffix(t, p, v) ==>
                       !Older(t.versions[latest.value].version.text, t.versions[v].version.text))
  {
    RunKeepsInv(states, calls, i);
    TextsAreUnique(states[i]);
    LatestIffNewest(states[i].versions, p, states[i].latest[p]);
    forall v | v in states[i].versions
      ensures states[i].versions[v].beta <==> HasSuffix(states[i].versions[v].version.text)
    {
      BetaIffSuffix(states[i].versions[v].version);
    }
    assert forall v :: IsWithoutSuffix(states[i], p, v) <==> IsRelease(states[i].versions, p, v);
  }

  lemma TextsAreUnique(t: Tables)
    requires RowsOk(t)
    ensures UniqueTexts(t)
  {
    forall v | v in t.versions
      ensures IsValid(t.versions[v].version.text)
    {
      AcceptedText(t.versions[v].version);
    }
    forall v, w | v in t.versions && w in t.versions && t.versions[v].provider == t.versions[w].provider
                  && t.versions[v].version.text == t.versions[w].version.text
      ensures v == w
    {
      SameTextSameVersion(t.versions[v].version, t.versions[w].version);
      assert IsRowOf(t.versions, t.versions[v].provider, t.versions[v].version, v);
      assert IsRowOf(t.versions, t.versions[v].provider, t.versions[v].version, w);
    }
  }

  // ---------- limits ----------

  /** The first versions of a list, at most as many as the limit allows. */
  function Capped(limit: Option<int>, versions: seq<Version>): seq<Version> {
    if limit.None? || limit.value == 0 then versions
    else
      var most := if limit.value < 0 then 1 else limit.value;
      if |versions| <= most then versions else versions[..most]
  }

  /** Processing more releases only adds versions at the end. */
  lemma {:induction false} NewVersionsGrow(known: set<Version>, releases: seq<RepositoryRelease>, k: nat)
    requires k <= |releases|
    ensures NewVersions(known, releases[..k]) <= NewVersions(known, releases)
    ensures k < |releases| ==> |NewVersions(known, releases[..k + 1])| <= |NewVersions(known, releases[..k])| + 1
    decreases |releases|
  {
    if k == |releases| {
      assert releases[..k] == releases;
    } else {
      var init := releases[..|releases| - 1];
      NewVersionsGrow(known, init, k);
      assert init[..k] == releases[..k] && releases[..k + 1][..k] == releases[..k];
    }
  }

  /**
   A refresh that no release interrupts returns the first new versions of the
   whole listing, as many as the limit allows: all of them without a limit or with
   a limit of zero, one with a negative limit.
   */
  lemma RefreshReturnsFirst(known: set<Version>, releases: seq<RepositoryRelease>, limit: Option<int>, k: nat)
    requires StopsAfter(known, releases, limit, k, false)
    ensures NewVersions(known, releases[..k]) == Capped(limit, NewVersions(known, releases))
  {
    NewVersionsGrow(known, releases, k);
    if k == |releases| {
      assert releases[..k] == releases;
    }
    if k > 0 {
      NewVersionsGrow(known, releases[..k], k - 1);
      assert releases[..k][..k - 1] == releases[..k - 1] && releases[..k][..k] == releases[..k];
      assert !Reached(limit, |NewVersions(known, releases[..k - 1])|);
    }
  }

  /** A refresh is interrupted exactly when some release raises before the limit is reached. */
  lemma RefreshRaisesIff(known: set<Version>, releases: seq<RepositoryRelease>, limit: Option<int>, k: nat,
                         raised: bool)
    requires StopsAfter(known, releases, limit, k, raised)
    ensures raised <==> exists j :: 0 <= j < |releases| && Raises(known, releases, j)
                                    && !Reached(limit, |NewVersions(known, releases[..j])|)
  {
    if !raised {
      forall j | 0 <= j < |releases| && Raises(known, releases, j)
        ensures Reached(limit, |NewVersions(known, releases[..j])|)
      {
        NewVersionsGrow(known, releases[..j], k);
        assert releases[..j][..k] == releases[..k];
      }
    }
  }

  /** A release that ends in a registry error, or is not signed, has no influence on what a refresh adds. */
  lemma {:induction false} FailedReleasesLeaveNoTrace(known: set<Version>, releases: seq<RepositoryRelease>)
    ensures NewVersions(known, releases) == NewVersions(known, Extractable(releases))
    decreases |releases|
  {
    if releases != [] {
      FailedReleasesLeaveNoTrace(known, releases[..|releases| - 1]);
      var rest := Extractable(releases[..|releases| - 1]);
      if releases[|releases| - 1].signature == Signed(Extracted) {
        var all := Extractable(releases);
        assert all[..|all| - 1] == rest;
      }
    }
  }

  function Extractable(releases: seq<RepositoryRelease>): seq<RepositoryRelease>
    decreases |releases|
  {
    if releases == [] then []
    else
      var rest := Extractable(releases[..|releases| - 1]);
      if releases[|releases| - 1].signature == Signed(Extracted) then rest + [releases[|releases| - 1]] else rest
  }

  /**
   Only a version that is no beta and that no candidate exceeds gets a publishing
   date; one above all candidates always does. Which of equal ones is latest is
   the database's choice.
   */
  lemma DatedIfGreatest(t: Tables, t': Tables, p: Id, version: Version, row: Id, dated: bool)
    requires Inv(t) && AddedAs(t, t', p, version, row, dated)
    ensures dated ==> !version.beta && forall v :: IsCandidate(t.versions, p, v) ==>
                                         AtMost(t.versions[v].version.numbers, version.numbers)
    ensures !version.beta && (forall v :: IsCandidate(t.versions, p, v) ==>
                                !AtMost(version.numbers, t.versions[v].version.numbers))
            ==> dated
  {
    assert t'.versions[row].version == version;
    assert forall v :: v in t.versions ==> (IsCandidate(t'.versions, p, v) <==> IsCandidate(t.versions, p, v));
    if dated {
      assert IsCandidate(t'.versions, p, row);
    } else if !version.beta {
      assert IsLatest(t.versions, p, t.latest[p]);
      assert IsCandidate(t'.versions, p, row);
    }
  }

  /** An older version indexed after a newer one gets no publishing date, and the pointer stays. */
  lemma LateOlderVersionIsUndated(t: Tables, t': Tables, p: Id, version: Version, row: Id, dated: bool)
    requires Inv(t) && AddedAs(t, t', p, version, row, dated)
    requires t.latest[p].Some? && !AtMost(t.versions[t.latest[p].value].version.numbers, version.numbers)
    ensures !t'.versions[row].dated && t'.latest == t.latest
  {
    assert IsLatest(t.versions, p, t.latest[p]);
    assert IsCandidate(t'.versions, p, t.latest[p].value);
  }
}
