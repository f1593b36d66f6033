/**
 Every operation keeps the registry's invariant, and what each operation does
 to downloads and to names.
 */
module RegistryInvariants {
  import opened Text
  import opened RegistryTables
  import opened VersionText
  import opened Rows

  // ---------- parts of the invariant ----------

  /** Moving latest pointers changes no name. */
  lemma NamesStay(t: Tables, t': Tables)
    requires NamesInv(t) && t'.providers.Keys == t.providers.Keys
    requires forall q :: q in t.providers ==> t'.providers[q] == t.providers[q].(latest := t'.providers[q].latest)
    requires t'.redirects == t.redirects && t'.namespaces == t.namespaces
    requires t'.namespaceRedirects == t.namespaceRedirects
    ensures NamesInv(t')
  {
    NamesMean(t);
    NamesMean(t');
    assert forall name, q :: IsLive(t', name, q) <==> IsLive(t, name, q);
    assert forall name, r :: IsRedirect(t', name, r) <==> IsRedirect(t, name, r);
  }

  /** Versions, pointers and downloads do not depend on names. */
  lemma RowsStay(t: Tables, t': Tables)
    requires RowsInv(t) && t'.versions == t.versions && t'.downloads == t.downloads
    requires t'.providers.Keys == t.providers.Keys
    requires forall q :: q in t.providers ==> t'.providers[q].latest == t.providers[q].latest
    ensures RowsInv(t')
  {
    RowsMean(t);
    RowsMean(t');
    forall q | q in t'.providers
      ensures IsLatest(t'.versions, q, t'.providers[q].latest)
    {
      assert IsLatest(t.versions, q, t.providers[q].latest);
    }
  }

  /** If the candidates of all other providers stay, so does the correctness of their pointers. */
  lemma PointersStay(t: Tables, t': Tables, p: Id)
    requires LatestOk(t) && OnlyLatestMoved(t.providers, t'.providers, p)
    requires IsLatest(t'.versions, p, t'.providers[p].latest)
    requires forall q, v :: q != p ==> (IsCandidate(t.versions, q, v) <==> IsCandidate(t'.versions, q, v))
    requires forall q, v :: q != p && IsCandidate(t.versions, q, v) ==>
               v in t'.versions && t'.versions[v].version == t.versions[v].version
    ensures LatestOk(t')
  {
    forall q | q in t'.providers
      ensures IsLatest(t'.versions, q, t'.providers[q].latest)
    {
      if q != p {
        assert t'.providers[q] == t.providers[q];
      }
    }
  }

  // ---------- single consequences ----------

  lemma LatestIsRight(t: Tables, p: Id)
    requires Inv(t) && p in t.providers
    ensures IsLatest(t.versions, p, t.providers[p].latest)
  {
    InvParts(t);
    RowsMean(t);
  }

  lemma OneRow(t: Tables, p: Id, version: Version, v: Id, w: Id)
    requires Inv(t) && IsRowOf(t.versions, p, version, v) && IsRowOf(t.versions, p, version, w)
    ensures v == w
  {
    InvParts(t);
    RowsMean(t);
  }

  /** A provider has at most one row of a version text. */
  lemma OneRowPerText(t: Tables, p: Id, text: string, v: Id, w: Id)
    requires Inv(t) && HasText(t.versions, p, text, v) && HasText(t.versions, p, text, w)
    ensures v == w
  {
    SameTextSameVersion(t.versions[v].version, t.versions[w].version);
    OneRow(t, p, t.versions[v].version, v, w);
  }

  // ---------- importing ----------

  /** After indexing: the rows of all other versions, and exactly one row of the indexed version. */
  lemma IndexKeepsOtherRows(t: Tables, t': Tables, p: Id, version: Version, published: bool, row: Id)
    requires VersionRowsOk(t) && IndexedAs(t, t', p, version, published, row)
    ensures row in t'.versions
    ensures forall v :: v in t'.versions && v != row ==> v in t.versions && t'.versions[v] == t.versions[v]
    ensures forall v :: v in t.versions && !IsRowOf(t.versions, p, version, v) ==>
              v in t'.versions && v != row && t'.versions[v] == t.versions[v]
    ensures forall v :: IsRowOf(t'.versions, p, version, v) <==> v == row
  {
    var prior := FindVersion(t.versions, p, version);
    assert forall v: Id :: IsRowOf(t.versions, p, version, v) <==> prior == Some(v);
    assert IsRowOf(t'.versions, p, version, row);
    forall v | IsRowOf(t'.versions, p, version, v)
      ensures v == row
    {
      assert v != row ==> IsRowOf(t.versions, p, version, v);
    }
  }

  lemma IndexKeepsRows(t: Tables, t': Tables, p: Id, version: Version, published: bool, row: Id)
    requires VersionRowsOk(t) && IndexedAs(t, t', p, version, published, row)
    ensures VersionRowsOk(t')
  {
    IndexKeepsOtherRows(t, t', p, version, published, row);
    forall q, w, u, v | IsRowOf(t'.versions, q, w, u) && IsRowOf(t'.versions, q, w, v)
      ensures u == v
    {
      if u != row && v != row {
        assert IsRowOf(t.versions, q, w, u) && IsRowOf(t.versions, q, w, v);
      } else {
        assert IsRowOf(t'.versions, p, version, row);
        assert q == p && w == version;
      }
    }
  }

  lemma IndexKeepsPointers(t: Tables, t': Tables, p: Id, version: Version, published: bool, row: Id)
    requires VersionRowsOk(t) && LatestOk(t) && IndexedAs(t, t', p, version, published, row)
    ensures LatestOk(t')
  {
    IndexKeepsOtherRows(t, t', p, version, published, row);
    forall q, v | q != p
      ensures IsCandidate(t.versions, q, v) <==> IsCandidate(t'.versions, q, v)
      ensures IsCandidate(t.versions, q, v) ==> t'.versions[v].version == t.versions[v].version
    {
      assert v in t.versions && t.versions[v].provider == q ==> !IsRowOf(t.versions, p, version, v);
    }
    PointersStay(t, t', p);
  }

  lemma IndexKeepsInv(t: Tables, t': Tables, p: Id, version: Version, published: bool, row: Id)
    requires Inv(t) && IndexedAs(t, t', p, version, published, row)
    ensures Inv(t')
  {
    InvParts(t);
    InvParts(t');
    IndexKeepsRowsInv(t, t', p, version, published, row);
    NamesStay(t, t');
  }

  lemma IndexKeepsRowsInv(t: Tables, t': Tables, p: Id, version: Version, published: bool, row: Id)
    requires RowsInv(t) && IndexedAs(t, t', p, version, published, row)
    ensures RowsInv(t')
  {
    RowsMean(t);
    RowsMean(t');
    IndexKeepsRows(t, t', p, version, published, row);
    IndexKeepsPointers(t, t', p, version, published, row);
  }

  /** A whole import keeps the invariant, also when it replaces the latest version. */
  lemma ImportKeepsInv(t: Tables, t': Tables, config: Config, p: Id, version: Version)
    requires Inv(t) && Imported(t, t', config, p, version)
    ensures Inv(t')
  {
    var row :| IndexedAs(t, t', p, version, EndsPublished(t, config, p, version), row);
    IndexKeepsInv(t, t', p, version, EndsPublished(t, config, p, version), row);
  }

  /** Importing a version adds it to the versions of the provider. */
  lemma ImportAddsVersion(t: Tables, t': Tables, config: Config, p: Id, version: Version)
    requires Imported(t, t', config, p, version)
    ensures VersionsOf(t', p) == VersionsOf(t, p) + {version}
  {
    var row :| IndexedAs(t, t', p, version, EndsPublished(t, config, p, version), row);
    var prior := FindVersion(t.versions, p, version);
    assert t'.versions[row].version == version;
    forall other
      ensures other in VersionsOf(t', p) <==> other in VersionsOf(t, p) + {version}
    {
      if other in VersionsOf(t, p) && other != version {
        var v :| v in t.versions && t.versions[v].provider == p && t.versions[v].version == other;
        assert prior != Some(v) && v != row && IsRowOf(t'.versions, p, other, v);
      }
    }
  }

  lemma MayIndexIff(t: Tables, config: Config, p: Id, version: Version)
    ensures MayIndex(t, config, p, version) <==> config.reindexMode != Prohibit || version !in VersionsOf(t, p)
  {
    var found := FindVersion(t.versions, p, version);
    assert found.Some? ==> IsRowOf(t.versions, p, version, found.value);
    if version in VersionsOf(t, p) {
      var v :| v in t.versions && t.versions[v].provider == p && t.versions[v].version == version;
      assert IsRowOf(t.versions, p, version, v);
    }
  }

  /** A version that may be indexed can be imported. */
  lemma ImportIsPossible(t: Tables, config: Config, p: Id, version: Version) returns (t': Tables)
    requires p in t.providers && MayIndex(t, config, p, version)
    ensures Imported(t, t', config, p, version)
  {
    var prior := FindVersion(t.versions, p, version);
    var rest := Without(t.versions, prior);
    UnusedIdExists(rest.Keys);
    var row: Id :| row !in rest;
    var published := EndsPublished(t, config, p, version);
    var versions := rest[row := VersionRow(p, version, published, version.beta)];
    var latest := SomeLatest(versions, p);
    t' := t.(versions := versions, downloads := Repointed(t.downloads, prior, row),
             providers := t.providers[p := t.providers[p].(latest := latest)],
             audit := t.audit + DeleteEvents(prior.Some?, p, version) + [VersionIndex(p, version)]
                      + (if published then [VersionPublish(p, version)] else []));
    assert IndexedAs(t, t', p, version, published, row);
  }

  lemma SomeLatest(versions: map<Id, VersionRow>, p: Id) returns (latest: Option<Id>)
    ensures IsLatest(versions, p, latest)
  {
    var rows := set v | v in versions && IsCandidate(versions, p, v);
    assert forall v :: IsCandidate(versions, p, v) ==> v in rows;
    latest := None;
    if rows != {} {
      var numbers := map v | v in versions :: versions[v].version.numbers;
      var m := MaximumExists(numbers, rows);
      assert forall v :: v in rows ==> AtMost(numbers[v], numbers[m]);
      latest := Some(m);
    }
  }

  // ---------- publishing and deleting versions ----------

  /**
   After a whole import there is exactly one row of the version, published when
   publishing is automatic or the row it replaces was published and is to be
   published again; the rows of all other versions are the same as before.
   */
  lemma ReindexPolicy(t: Tables, t': Tables, config: Config, p: Id, version: Version)
    requires Inv(t) && Imported(t, t', config, p, version)
    ensures config.reindexMode == Prohibit ==> forall v :: !IsRowOf(t.versions, p, version, v)
    ensures exists row :: IsRowOf(t'.versions, p, version, row)
    ensures forall v, w ::
              HasText(t'.versions, p, version.text, v) && HasText(t'.versions, p, version.text, w) ==> v == w
    ensures forall row :: IsRowOf(t'.versions, p, version, row) ==>
              (t'.versions[row].published <==>
               config.autoPublish || (config.reindexMode == AutoPublish
                                      && exists v :: IsRowOf(t.versions, p, version, v) && t.versions[v].published))
    ensures forall q, w, v :: (q != p || w != version) ==>
              (IsRowOf(t'.versions, q, w, v) <==> IsRowOf(t.versions, q, w, v))
              && (IsRowOf(t.versions, q, w, v) ==> t'.versions[v] == t.versions[v])
  {
    InvParts(t);
    RowsMean(t);
    ImportKeepsInv(t, t', config, p, version);
    forall v, w | HasText(t'.versions, p, version.text, v) && HasText(t'.versions, p, version.text, w)
      ensures v == w
    {
      OneRowPerText(t', p, version.text, v, w);
    }
    var published := EndsPublished(t, config, p, version);
    var row :| IndexedAs(t, t', p, version, published, row);
    IndexKeepsOtherRows(t, t', p, version, published, row);
    assert IsRowOf(t'.versions, p, version, row);
    forall q, w, v | q != p || w != version
      ensures IsRowOf(t'.versions, q, w, v) <==> IsRowOf(t.versions, q, w, v)
      ensures IsRowOf(t.versions, q, w, v) ==> t'.versions[v] == t.versions[v]
    {
      assert IsRowOf(t.versions, q, w, v) ==> !IsRowOf(t.versions, p, version, v);
      assert IsRowOf(t'.versions, q, w, v) ==> v != row;
    }
  }

  /** Removing version rows, or changing them otherwise than in provider and version, keeps the rest well formed. */
  lemma FewerRowsOk(t: Tables, t': Tables)
    requires VersionRowsOk(t)
    requires forall v :: v in t'.versions ==>
               && v in t.versions && t'.versions[v].provider == t.versions[v].provider
               && t'.versions[v].version == t.versions[v].version && t'.versions[v].beta == t.versions[v].beta
               && t.versions[v].provider in t'.providers
    ensures VersionRowsOk(t')
  {
    assert forall q, w, u :: IsRowOf(t'.versions, q, w, u) ==> IsRowOf(t.versions, q, w, u);
  }

  lemma PublishKeepsInv(t: Tables, t': Tables, v: Id)
    requires Inv(t) && Published(t, t', v)
    ensures Inv(t')
  {
    InvParts(t);
    InvParts(t');
    PublishKeepsRows(t, t', v);
    NamesStay(t, t');
  }

  lemma PublishKeepsRows(t: Tables, t': Tables, v: Id)
    requires RowsInv(t) && Published(t, t', v)
    ensures RowsInv(t')
  {
    RowsMean(t);
    RowsMean(t');
    PublishKeepsVersions(t, t', v);
    PublishKeepsPointers(t, t', v);
  }

  lemma PublishKeepsVersions(t: Tables, t': Tables, v: Id)
    requires VersionRowsOk(t) && DownloadsOk(t) && Published(t, t', v)
    ensures VersionRowsOk(t') && DownloadsOk(t')
  {
    FewerRowsOk(t, t');
  }

  lemma PublishKeepsPointers(t: Tables, t': Tables, v: Id)
    requires LatestOk(t) && Published(t, t', v)
    ensures LatestOk(t')
  {
    PointersStay(t, t', t.versions[v].provider);
  }

  lemma DeleteVersionKeepsInv(t: Tables, t': Tables, v: Id)
    requires Inv(t) && VersionDeleted(t, t', v)
    ensures Inv(t')
  {
    InvParts(t);
    InvParts(t');
    DeleteVersionKeepsRows(t, t', v);
    NamesStay(t, t');
  }

  lemma DeleteVersionKeepsRows(t: Tables, t': Tables, v: Id)
    requires RowsInv(t) && VersionDeleted(t, t', v)
    ensures RowsInv(t')
  {
    RowsMean(t);
    RowsMean(t');
    FewerRowsOk(t, t');
    PointersStay(t, t', t.versions[v].provider);
  }

  lemma RecordKeepsInv(t: Tables, t': Tables, row: DownloadRow)
    requires Inv(t) && DownloadRecorded(t, t', row)
    ensures Inv(t')
  {
    InvParts(t);
    InvParts(t');
    NamesStay(t, t');
  }

  // ---------- downloads ----------

  /** After indexing, a download belongs to the same version of the same provider as before. */
  lemma IndexKeepsOwner(t: Tables, t': Tables, p: Id, version: Version, published: bool, row: Id, d: Id)
    requires VersionRowsOk(t) && DownloadsOk(t) && IndexedAs(t, t', p, version, published, row) && d in t.downloads
    ensures d in t'.downloads && SameOwner(t, t', d)
    ensures t'.downloads[d] == t.downloads[d].(version := t'.downloads[d].version)
    ensures !IsRowOf(t.versions, p, version, t.downloads[d].version) ==> t'.downloads[d] == t.downloads[d]
  {
    IndexKeepsOtherRows(t, t', p, version, published, row);
    var prior := FindVersion(t.versions, p, version);
    var v := t.downloads[d].version;
    assert v in t.versions;
    if prior == Some(v) {
      assert t'.downloads[d].version == row;
      assert IsRowOf(t'.versions, p, version, row) && IsRowOf(t.versions, p, version, v);
    } else {
      assert !IsRowOf(t.versions, p, version, v);
      assert t'.downloads[d] == t.downloads[d];
    }
  }

  /**
   Importing a version keeps the downloads of every version of every provider,
   whether the new row takes the id just freed or another; a download changes at
   most in the row it points at, and only if it is one of the imported version.
   */
  lemma ImportConservesDownloads(t: Tables, t': Tables, config: Config, p: Id, version: Version)
    requires Inv(t) && Imported(t, t', config, p, version)
    ensures t'.downloads.Keys == t.downloads.Keys
    ensures forall q, w :: DownloadsOf(t', q, w) == DownloadsOf(t, q, w)
    ensures forall d :: d in t.downloads ==> t'.downloads[d] == t.downloads[d].(version := t'.downloads[d].version)
    ensures forall d :: d in t.downloads && d !in DownloadsOf(t, p, version) ==> t'.downloads[d] == t.downloads[d]
  {
    var row :| IndexedAs(t, t', p, version, EndsPublished(t, config, p, version), row);
    IndexConservesDownloads(t, t', p, version, EndsPublished(t, config, p, version), row);
  }

  lemma IndexConservesDownloads(t: Tables, t': Tables, p: Id, version: Version, published: bool, row: Id)
    requires Inv(t) && IndexedAs(t, t', p, version, published, row)
    ensures t'.downloads.Keys == t.downloads.Keys
    ensures forall q, w :: DownloadsOf(t', q, w) == DownloadsOf(t, q, w)
    ensures forall d :: d in t.downloads ==> t'.downloads[d] == t.downloads[d].(version := t'.downloads[d].version)
    ensures forall d :: d in t.downloads && d !in DownloadsOf(t, p, version) ==> t'.downloads[d] == t.downloads[d]
  {
    InvParts(t);
    RowsMean(t);
    forall d | d in t.downloads
      ensures SameOwner(t, t', d)
      ensures t'.downloads[d] == t.downloads[d].(version := t'.downloads[d].version)
      ensures d !in DownloadsOf(t, p, version) ==> t'.downloads[d] == t.downloads[d]
    {
      IndexKeepsOwner(t, t', p, version, published, row, d);
    }
    forall q, w
      ensures DownloadsOf(t', q, w) == DownloadsOf(t, q, w)
    {
      SameOwnersSameDownloads(t, t', q, w);
    }
  }

  /** A download belongs to the same version of the same provider in both. */
  ghost predicate SameOwner(t: Tables, t': Tables, d: Id)
    requires d in t.downloads && d in t'.downloads
  {
    forall q, w :: IsRowOf(t.versions, q, w, t.downloads[d].version) <==>
                   IsRowOf(t'.versions, q, w, t'.downloads[d].version)
  }

  lemma SameOwnersSameDownloads(t: Tables, t': Tables, q: Id, w: Version)
    requires t'.downloads.Keys == t.downloads.Keys && forall d :: d in t.downloads ==> SameOwner(t, t', d)
    ensures DownloadsOf(t', q, w) == DownloadsOf(t, q, w)
  {
    forall d
      ensures d in DownloadsOf(t', q, w) <==> d in DownloadsOf(t, q, w)
    {
      assert d in t.downloads ==> SameOwner(t, t', d);
    }
  }

  /** Deleting a version removes exactly its own downloads. */
  lemma DeleteVersionDropsItsDownloads(t: Tables, t': Tables, v: Id)
    requires Inv(t) && VersionDeleted(t, t', v)
    ensures forall q, w :: DownloadsOf(t', q, w)
              == if IsRowOf(t.versions, q, w, v) then {} else DownloadsOf(t, q, w)
  {
    InvParts(t);
    RowsMean(t);
    forall q, w
      ensures DownloadsOf(t', q, w) == if IsRowOf(t.versions, q, w, v) then {} else DownloadsOf(t, q, w)
    {
      DroppedDownloads(t, t', v, q, w);
    }
  }

  lemma DroppedDownloads(t: Tables, t': Tables, v: Id, q: Id, w: Version)
    requires VersionRowsOk(t) && v in t.versions && t'.versions == t.versions - {v}
    requires t'.downloads == map d | d in t.downloads && t.downloads[d].version != v :: t.downloads[d]
    ensures DownloadsOf(t', q, w) == if IsRowOf(t.versions, q, w, v) then {} else DownloadsOf(t, q, w)
  {
    assert forall u :: u != v ==> (IsRowOf(t'.versions, q, w, u) <==> IsRowOf(t.versions, q, w, u));
  }

  // ---------- names ----------

  lemma CreateProviderKeepsInv(t: Tables, t': Tables, ns: Id, moduleName: string, provider: string)
    requires Inv(t) && ProviderCreated(t, t', ns, moduleName, provider)
    ensures Inv(t')
  {
    InvParts(t);
    InvParts(t');
    var p: Id :| p !in t.providers
         && t' == t.(providers := t.providers[p := ProviderRow(ns, moduleName, provider, None)],
                     audit := t.audit + [ProviderCreate(p)]);
    NewProviderKeepsRows(t, t', p);
    NewProviderKeepsNames(t, t', p);
  }

  lemma NewProviderKeepsRows(t: Tables, t': Tables, p: Id)
    requires RowsInv(t) && p !in t.providers && p in t'.providers && t'.providers[p].latest == None
    requires t'.versions == t.versions && t'.downloads == t.downloads && t'.providers - {p} == t.providers
    ensures RowsInv(t')
  {
    RowsMean(t);
    RowsMean(t');
    assert forall q :: q in t.providers ==> q in t'.providers - {p};
    FewerRowsOk(t, t');
    NewProviderHasNoVersions(t, t', p);
  }

  lemma NewProviderKeepsNames(t: Tables, t': Tables, p: Id)
    requires NamesInv(t) && p !in t.providers && p in t'.providers && t'.providers - {p} == t.providers
    requires t'.providers[p].ns in t.namespaces && Resolve(t, t'.providers[p].Name()).None?
    requires t'.redirects == t.redirects && t'.namespaces == t.namespaces
    requires t'.namespaceRedirects == t.namespaceRedirects
    ensures NamesInv(t')
  {
    NamesMean(t);
    NamesMean(t');
    NewNameIsUnique(t, t', p, t'.providers[p].Name());
    forall q | q in t'.providers && q != p
      ensures t'.providers[q].ns in t.namespaces
    {
      assert q in t'.providers - {p};
    }
    assert forall q :: q in t.providers ==> q in t'.providers - {p};
  }

  lemma NewProviderHasNoVersions(t: Tables, t': Tables, p: Id)
    requires VersionRowsOk(t) && LatestOk(t) && p !in t.providers && p in t'.providers && t'.providers[p].latest == None
    requires t'.versions == t.versions && t'.providers - {p} == t.providers
    ensures LatestOk(t')
  {
    assert forall v :: !IsCandidate(t.versions, p, v);
    forall q | q in t'.providers && q != p
      ensures IsLatest(t'.versions, q, t'.providers[q].latest)
    {
      assert q in t'.providers - {p} && t'.providers[q] == t.providers[q];
    }
  }

  lemma NewNameIsUnique(t: Tables, t': Tables, p: Id, name: Name)
    requires NamesUnique(t) && Resolve(t, name).None? && p !in t.providers
    requires p in t'.providers && t'.providers - {p} == t.providers && t'.providers[p].Name() == name
    requires t'.redirects == t.redirects
    ensures NamesUnique(t')
  {
    forall n, q
      ensures IsLive(t', n, q) <==> IsLive(t, n, q) || (n == name && q == p)
    {
      if q != p && q in t'.providers {
        assert q in t'.providers - {p};
      }
    }
    assert forall n, r :: IsRedirect(t', n, r) <==> IsRedirect(t, n, r);
  }

  /** After a rename: the new name is the provider's, the former name a redirect to it, and no other name changes. */
  lemma RenameMovesName(t: Tables, t': Tables, p: Id, ns: Id, moduleName: string, provider: string)
    returns (added: Option<Id>)
    requires Renamed(t, t', p, ns, moduleName, provider)
    ensures var name := MakeName(ns, moduleName, provider);
            forall n, q :: IsLive(t', n, q) <==> if q == p then n == name else IsLive(t, n, q)
    ensures added.Some? <==> t.providers[p].Name() != MakeName(ns, moduleName, provider)
    ensures forall n, r: Id :: IsRedirect(t', n, r) <==>
              IsRedirect(t, n, r) || (added == Some(r) && n == t.providers[p].Name())
    ensures forall r :: r in t.redirects ==> r in t'.redirects && t'.redirects[r] == t.redirects[r]
    ensures added.Some? ==> added.value !in t.redirects && added.value in t'.redirects
                            && t'.redirects[added.value].target == p
  {
    assert t'.providers[p].Name() == MakeName(ns, moduleName, provider);
    if t.providers[p].Name() == MakeName(ns, moduleName, provider) {
      added := None;
    } else {
      var row := t.providers[p];
      var r: Id :| r !in t.redirects
                && t'.redirects == t.redirects[r := RedirectRow(row.ns, row.moduleName, row.provider, p)];
      assert t'.redirects[r].Name() == row.Name();
      added := Some(r);
    }
  }

  lemma RenameKeepsNames(t: Tables, t': Tables, p: Id, ns: Id, moduleName: string, provider: string)
    requires NamesUnique(t) && Renamed(t, t', p, ns, moduleName, provider)
    ensures NamesUnique(t')
  {
    var added := RenameMovesName(t, t', p, ns, moduleName, provider);
    var name, former := MakeName(ns, moduleName, provider), t.providers[p].Name();
    assert IsLive(t, former, p);
    assert forall q :: q != p ==> !IsLive(t, name, q);
    assert forall r :: !IsRedirect(t, name, r) && !IsRedirect(t, former, r);
  }

  lemma RenameKeepsInv(t: Tables, t': Tables, p: Id, ns: Id, moduleName: string, provider: string)
    requires Inv(t) && Renamed(t, t', p, ns, moduleName, provider)
    ensures Inv(t')
  {
    InvParts(t);
    InvParts(t');
    RowsStay(t, t');
    RenameKeepsNamesInv(t, t', p, ns, moduleName, provider);
  }

  lemma RenameKeepsNamesInv(t: Tables, t': Tables, p: Id, ns: Id, moduleName: string, provider: string)
    requires NamesInv(t) && Renamed(t, t', p, ns, moduleName, provider)
    ensures NamesInv(t')
  {
    NamesMean(t);
    NamesMean(t');
    RenameKeepsNames(t, t', p, ns, moduleName, provider);
    RenameKeepsAnchors(t, t', p, ns, moduleName, provider);
  }

  lemma RenameKeepsAnchors(t: Tables, t': Tables, p: Id, ns: Id, moduleName: string, provider: string)
    requires NamesAnchored(t) && Renamed(t, t', p, ns, moduleName, provider)
    ensures NamesAnchored(t')
  {
  }

  lemma DeleteProviderKeepsInv(t: Tables, t': Tables, p: Id)
    requires Inv(t) && ProviderDeleted(t, t', p)
    ensures Inv(t')
  {
    InvParts(t);
    InvParts(t');
    OtherRowsStay(t, t', p);
    OtherNamesStay(t, t', p);
  }

  lemma OtherRowsStay(t: Tables, t': Tables, p: Id)
    requires RowsInv(t) && t'.providers == t.providers - {p}
    requires t'.versions == map v | v in t.versions && t.versions[v].provider != p :: t.versions[v]
    requires t'.downloads == map d | d in t.downloads && t.downloads[d].version in t'.versions :: t.downloads[d]
    ensures RowsInv(t')
  {
    RowsMean(t);
    RowsMean(t');
    FewerRowsOk(t, t');
    OtherPointersStay(t, t', p);
  }

  lemma OtherNamesStay(t: Tables, t': Tables, p: Id)
    requires NamesInv(t) && t'.providers == t.providers - {p}
    requires t'.redirects == map r | r in t.redirects && t.redirects[r].target != p :: t.redirects[r]
    requires t'.namespaces == t.namespaces && t'.namespaceRedirects == t.namespaceRedirects
    ensures NamesInv(t')
  {
    NamesMean(t);
    NamesMean(t');
    FewerNamesKeepInv(t, t');
  }

  lemma OtherPointersStay(t: Tables, t': Tables, p: Id)
    requires LatestOk(t) && t'.providers == t.providers - {p}
    requires t'.versions == map v | v in t.versions && t.versions[v].provider != p :: t.versions[v]
    ensures LatestOk(t')
  {
    assert forall q, v :: q != p ==> (IsCandidate(t'.versions, q, v) <==> IsCandidate(t.versions, q, v));
  }

  lemma FewerNamesKeepInv(t: Tables, t': Tables)
    requires NamesUnique(t)
    requires forall p :: p in t'.providers ==> p in t.providers && t'.providers[p] == t.providers[p]
    requires forall r :: r in t'.redirects ==> r in t.redirects && t'.redirects[r] == t.redirects[r]
    ensures NamesUnique(t')
  {
    assert forall n, q :: IsLive(t', n, q) ==> IsLive(t, n, q);
    assert forall n, r :: IsRedirect(t', n, r) ==> IsRedirect(t, n, r);
  }

  lemma DeleteRedirectKeepsInv(t: Tables, t': Tables, r: Id)
    requires Inv(t) && RedirectDeleted(t, t', r)
    ensures Inv(t')
  {
    InvParts(t);
    InvParts(t');
    RowsStay(t, t');
    DeleteRedirectKeepsNames(t, t', r);
  }

  lemma DeleteRedirectKeepsNames(t: Tables, t': Tables, r: Id)
    requires NamesInv(t) && RedirectDeleted(t, t', r)
    ensures NamesInv(t')
  {
    NamesMean(t);
    NamesMean(t');
    FewerNamesKeepInv(t, t');
  }

  lemma CreateNamespaceKeepsInv(t: Tables, t': Tables, name: string)
    requires Inv(t) && NamespaceCreated(t, t', name)
    ensures Inv(t')
  {
    InvParts(t);
    InvParts(t');
    RowsStay(t, t');
    CreateNamespaceKeepsNames(t, t', name);
  }

  lemma CreateNamespaceKeepsNames(t: Tables, t': Tables, name: string)
    requires NamesInv(t) && NamespaceCreated(t, t', name)
    ensures NamesInv(t')
  {
    NamesMean(t);
    NamesMean(t');
    FewerNamesKeepInv(t, t');
  }

  lemma RenameNamespaceKeepsInv(t: Tables, t': Tables, ns: Id, name: string)
    requires Inv(t) && NamespaceRenamed(t, t', ns, name)
    ensures Inv(t')
  {
    InvParts(t);
    InvParts(t');
    RowsStay(t, t');
    RenameNamespaceKeepsNames(t, t', ns, name);
  }

  lemma RenameNamespaceKeepsNames(t: Tables, t': Tables, ns: Id, name: string)
    requires NamesInv(t) && NamespaceRenamed(t, t', ns, name)
    ensures NamesInv(t')
  {
    NamesMean(t);
    NamesMean(t');
    FewerNamesKeepInv(t, t');
  }

  lemma DeleteNamespaceKeepsInv(t: Tables, t': Tables, ns: Id)
    requires Inv(t) && NamespaceDeleted(t, t', ns)
    ensures Inv(t')
  {
    InvParts(t);
    InvParts(t');
    RowsStay(t, t');
    DeleteNamespaceKeepsNames(t, t', ns);
  }

  lemma DeleteNamespaceKeepsNames(t: Tables, t': Tables, ns: Id)
    requires NamesInv(t) && NamespaceDeleted(t, t', ns)
    ensures NamesInv(t')
  {
    NamesMean(t);
    NamesMean(t');
    FewerNamesKeepInv(t, t');
    OthersStayAnchored(t, t', ns);
    FewerStayApart(t.namespaces, t'.namespaces);
  }

  lemma OthersStayAnchored(t: Tables, t': Tables, ns: Id)
    requires NamesAnchored(t) && !HasProviders(t, ns) && t'.providers == t.providers
    requires t'.namespaces == t.namespaces - {ns} && t'.redirects == RedirectsElsewhere(t.redirects, ns)
    requires t'.namespaceRedirects == NamesElsewhere(t.namespaceRedirects, ns)
    ensures NamesAnchored(t')
  {
  }

  lemma FewerStayApart(namespaces: map<Id, string>, fewer: map<Id, string>)
    requires NamespacesApart(namespaces) && fewer.Keys <= namespaces.Keys
    requires forall n :: n in fewer ==> fewer[n] == namespaces[n]
    ensures NamespacesApart(fewer)
  {
  }

  lemma ResolvesToNothing(t: Tables, name: Name)
    requires forall p: Id :: !IsLive(t, name, p)
    requires forall r: Id :: !IsRedirect(t, name, r)
    ensures Resolve(t, name).None?
  {
  }

  /** A name resolves to the live provider of that name, or else to the target of the redirect of that name. */
  lemma ResolvesTo(t: Tables, name: Name, p: Id)
    requires Inv(t)
    ensures Resolve(t, name) == Some(p) <==>
            IsLive(t, name, p) || (exists r :: IsRedirect(t, name, r) && t.redirects[r].target == p)
  {
    InvParts(t);
    NamesMean(t);
  }

  /** A provider may be given a name exactly if no other provider and no redirect has it up to case. */
  lemma MayRenameIffUntaken(t: Tables, p: Id, ns: Id, moduleName: string, provider: string)
    requires Inv(t) && p in t.providers
    ensures MayRename(t, p, MakeName(ns, moduleName, provider)) <==> !Taken(t, ns, moduleName, provider, Some(p))
  {
    InvParts(t);
    NamesMean(t);
    NamesOfRows(t, ns, moduleName, provider);
  }

  lemma OneLive(t: Tables, name: Name, p: Id)
    requires Inv(t) && IsLive(t, name, p)
    ensures forall q :: IsLive(t, name, q) ==> q == p
  {
    InvParts(t);
    NamesMean(t);
  }
}
