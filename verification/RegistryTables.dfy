/**
 The registry's tables, what must hold of them at every operation boundary, and
 what each operation does to them. An operation is a relation between the tables
 before and after it: ids of new rows and the choice among equally late versions
 are the database's.
 */
module RegistryTables {
  import opened Text
  import opened VersionText

  type Id = nat

  // ---------- names ----------

  /** Module names are compared without regard to case. */
  function Fold(s: string): string {
    if s == "" then "" else [if 'A' <= s[0] <= 'Z' then s[0] - 'A' + 'a' else s[0]] + Fold(s[1..])
  }

  /** The same character, or the same ASCII letter in two cases. */
  predicate SameLetter(a: char, b: char) {
    || a == b
    || ('A' <= a <= 'Z' && b as int == a as int + 32)
    || ('A' <= b <= 'Z' && a as int == b as int + 32)
  }

  /** Two names that differ at most in the case of ASCII letters. */
  predicate SameUpToCase(a: string, b: string) {
    |a| == |b| && forall i :: 0 <= i < |a| ==> SameLetter(a[i], b[i])
  }

  /** Folding identifies exactly the names that are the same up to case. */
  lemma {:induction false} FoldIdentifiesCase(a: string, b: string)
    ensures Fold(a) == Fold(b) <==> SameUpToCase(a, b)
    decreases |a|
  {
    FoldLength(a);
    FoldLength(b);
    if a != "" && b != "" {
      FoldIdentifiesCase(a[1..], b[1..]);
      assert Fold(a) == Fold(b) <==> Fold(a)[0] == Fold(b)[0] && Fold(a[1..]) == Fold(b[1..]) by {
        assert Fold(a)[1..] == Fold(a[1..]) && Fold(b)[1..] == Fold(b[1..]);
      }
      assert forall i :: 1 <= i < |a| ==> a[i] == a[1..][i - 1];
      assert forall i :: 1 <= i < |b| ==> b[i] == b[1..][i - 1];
      FirstAndRest(a, b);
    }
  }

  lemma {:induction false} FoldLength(s: string)
    ensures |Fold(s)| == |s|
    decreases |s|
  {
    if s != "" {
      FoldLength(s[1..]);
    }
  }

  lemma FirstAndRest(a: string, b: string)
    requires a != "" && b != ""
    ensures SameUpToCase(a, b) <==> SameLetter(a[0], b[0]) && SameUpToCase(a[1..], b[1..])
  {
    if SameUpToCase(a[1..], b[1..]) {
      forall i | 1 <= i < |a|
        ensures |a| == |b| && SameLetter(a[i], b[i])
      {
        assert SameLetter(a[1..][i - 1], b[1..][i - 1]);
      }
    }
  }

  /** What a module provider is looked up by: namespace, folded module name, provider. */
  datatype Name = Name(ns: Id, moduleName: string, provider: string)

  function MakeName(ns: Id, moduleName: string, provider: string): Name {
    Name(ns, Fold(moduleName), provider)
  }

  /** Two module providers have one name exactly if they differ at most in the case of the module name. */
  lemma SameNameIff(ns: Id, moduleName: string, provider: string, ns': Id, moduleName': string, provider': string)
    ensures MakeName(ns, moduleName, provider) == MakeName(ns', moduleName', provider') <==>
            ns == ns' && SameUpToCase(moduleName, moduleName') && provider == provider'
  {
    FoldIdentifiesCase(moduleName, moduleName');
  }

  // ---------- rows ----------

  datatype ProviderRow = ProviderRow(ns: Id, moduleName: string, provider: string, latest: Option<Id>) {
    function Name(): Name {
      MakeName(ns, moduleName, provider)
    }
  }

  datatype RedirectRow = RedirectRow(ns: Id, moduleName: string, provider: string, target: Id) {
    function Name(): Name {
      MakeName(ns, moduleName, provider)
    }
  }

  datatype VersionRow = VersionRow(provider: Id, version: Version, published: bool, beta: bool)

  /** A recorded download: the version row it points at, and the names it was made under. */
  datatype DownloadRow = DownloadRow(version: Id, time: int, token: Option<string>,
                                     nsName: string, moduleName: string, providerName: string)

  datatype NamespaceRedirectRow = NamespaceRedirectRow(name: string, ns: Id)

  datatype AuditEvent =
    | NamespaceCreate(ns: Id) | NamespaceModifyName(ns: Id, oldName: string, newName: string) | NamespaceDelete(ns: Id)
    | ProviderCreate(provider: Id) | ProviderDelete(provider: Id)
    | UpdateNamespace(provider: Id, oldNs: Id, newNs: Id)
    | UpdateModuleName(provider: Id, oldName: string, newName: string)
    | UpdateProviderName(provider: Id, oldName: string, newName: string)
    | RedirectDelete(redirect: Id)
    | VersionIndex(provider: Id, version: Version)
    | VersionPublish(provider: Id, version: Version)
    | VersionDelete(provider: Id, version: Version)

  datatype Tables = Tables(
    namespaces: map<Id, string>, namespaceRedirects: map<Id, NamespaceRedirectRow>,
    providers: map<Id, ProviderRow>, versions: map<Id, VersionRow>, downloads: map<Id, DownloadRow>,
    redirects: map<Id, RedirectRow>, audit: seq<AuditEvent>)

  datatype ReindexMode = Legacy | AutoPublish | Prohibit

  datatype Config = Config(reindexMode: ReindexMode, autoPublish: bool)

  // ---------- latest version ----------

  /** The version rows that may be the latest of a provider: published, not beta. */
  predicate IsCandidate(versions: map<Id, VersionRow>, p: Id, v: Id) {
    v in versions && versions[v].provider == p && versions[v].published && !versions[v].beta
  }

  /** `latest` is empty when there is no candidate, otherwise a candidate that no candidate exceeds. */
  ghost predicate IsLatest(versions: map<Id, VersionRow>, p: Id, latest: Option<Id>) {
    match latest
    case None => forall v :: !IsCandidate(versions, p, v)
    case Some(m) =>
      && IsCandidate(versions, p, m)
      && forall v :: IsCandidate(versions, p, v) ==>
           AtMost(versions[v].version.numbers, versions[m].version.numbers)
  }

  /** A published row of the provider that is not marked as a beta. */
  predicate IsRelease(versions: map<Id, VersionRow>, p: Id, v: Id) {
    v in versions && versions[v].provider == p && versions[v].published && !versions[v].beta
  }

  /** By the version texts: `latest` is empty if there is no release, otherwise one that is older than no other. */
  ghost predicate IsNewest(versions: map<Id, VersionRow>, p: Id, latest: Option<Id>) {
    && (latest.None? ==> forall v :: !IsRelease(versions, p, v))
    && (latest.Some? ==>
          && IsRelease(versions, p, latest.value)
          && forall v :: IsRelease(versions, p, v) ==>
               !Older(versions[latest.value].version.text, versions[v].version.text))
  }

  /** The pointer to the latest version is right exactly if it is right by the version texts. */
  lemma LatestIffNewest(versions: map<Id, VersionRow>, p: Id, latest: Option<Id>)
    ensures IsLatest(versions, p, latest) <==> IsNewest(versions, p, latest)
  {
    if latest.Some? && latest.value in versions {
      forall v | v in versions
        ensures Older(versions[latest.value].version.text, versions[v].version.text) <==>
                !AtMost(versions[v].version.numbers, versions[latest.value].version.numbers)
      {
        OlderIff(versions[latest.value].version, versions[v].version);
      }
    }
    assert forall v :: IsRelease(versions, p, v) <==> IsCandidate(versions, p, v);
  }

  // ---------- what always holds ----------

  predicate IsRowOf(versions: map<Id, VersionRow>, p: Id, version: Version, v: Id) {
    v in versions && versions[v].provider == p && versions[v].version == version
  }

  /** The row has this version text, which is all the database compares. */
  predicate HasText(versions: map<Id, VersionRow>, p: Id, text: string, v: Id) {
    v in versions && versions[v].provider == p && versions[v].version.text == text
  }

  predicate IsLive(t: Tables, name: Name, p: Id) {
    p in t.providers && t.providers[p].Name() == name
  }

  predicate IsRedirect(t: Tables, name: Name, r: Id) {
    r in t.redirects && t.redirects[r].Name() == name
  }

  /** Version rows belong to a provider, which has at most one row of each version. */
  ghost predicate VersionRowsOk(t: Tables) {
    && (forall v :: v in t.versions ==>
          t.versions[v].provider in t.providers && t.versions[v].beta == t.versions[v].version.beta)
    && (forall p, version, v, w :: IsRowOf(t.versions, p, version, v) && IsRowOf(t.versions, p, version, w) ==> v == w)
  }

  ghost predicate LatestOk(t: Tables) {
    forall p :: p in t.providers ==> IsLatest(t.versions, p, t.providers[p].latest)
  }

  ghost predicate DownloadsOk(t: Tables) {
    forall d :: d in t.downloads ==> t.downloads[d].version in t.versions
  }

  /** A name belongs to at most one live provider or one redirect, never to both. */
  ghost predicate NamesUnique(t: Tables) {
    && (forall name, p, q :: IsLive(t, name, p) && IsLive(t, name, q) ==> p == q)
    && (forall name, r, s :: IsRedirect(t, name, r) && IsRedirect(t, name, s) ==> r == s)
    && (forall name, p, r :: IsLive(t, name, p) ==> !IsRedirect(t, name, r))
  }

  ghost predicate NamesAnchored(t: Tables) {
    && (forall p :: p in t.providers ==> t.providers[p].ns in t.namespaces)
    && (forall r :: r in t.redirects ==> t.redirects[r].ns in t.namespaces && t.redirects[r].target in t.providers)
    && (forall n :: n in t.namespaceRedirects ==> t.namespaceRedirects[n].ns in t.namespaces)
  }

  /** No two namespaces have the same name up to case. */
  ghost predicate NamespacesApart(namespaces: map<Id, string>) {
    forall n, m :: n in namespaces && m in namespaces && Fold(namespaces[n]) == Fold(namespaces[m]) ==> n == m
  }

  /** No namespace but the given one has the name up to case. */
  predicate NameUntaken(namespaces: map<Id, string>, ns: Option<Id>, name: string) {
    forall n :: n in namespaces && Some(n) != ns ==> Fold(namespaces[n]) != Fold(name)
  }

  datatype Aspect = VersionRows | LatestPointers | DownloadTargets | UniqueNames | AnchoredNames | NamespaceNames

  ghost predicate AspectOk(t: Tables, a: Aspect) {
    match a
    case VersionRows => VersionRowsOk(t)
    case LatestPointers => LatestOk(t)
    case DownloadTargets => DownloadsOk(t)
    case UniqueNames => NamesUnique(t)
    case AnchoredNames => NamesAnchored(t)
    case NamespaceNames => NamespacesApart(t.namespaces)
  }

  /** The registry's invariant: all its aspects. */
  ghost predicate Inv(t: Tables) {
    forall a :: AspectOk(t, a)
  }

  predicate AboutRows(a: Aspect) {
    a in {VersionRows, LatestPointers, DownloadTargets}
  }

  /** The part of the invariant about versions and downloads. */
  ghost predicate RowsInv(t: Tables) {
    forall a | AboutRows(a) :: AspectOk(t, a)
  }

  /** The part of the invariant about names. */
  ghost predicate NamesInv(t: Tables) {
    forall a | !AboutRows(a) :: AspectOk(t, a)
  }

  lemma InvParts(t: Tables)
    ensures Inv(t) <==> RowsInv(t) && NamesInv(t)
  {
    if RowsInv(t) && NamesInv(t) {
      forall a: Aspect
        ensures AspectOk(t, a)
      {
        assert AboutRows(a) || !AboutRows(a);
      }
    }
  }

  lemma RowsMean(t: Tables)
    ensures RowsInv(t) <==> VersionRowsOk(t) && LatestOk(t) && DownloadsOk(t)
  {
    assert RowsInv(t) ==> AspectOk(t, VersionRows) && AspectOk(t, LatestPointers) && AspectOk(t, DownloadTargets);
  }

  lemma NamesMean(t: Tables)
    ensures NamesInv(t) <==> NamesUnique(t) && NamesAnchored(t) && NamespacesApart(t.namespaces)
  {
    assert NamesInv(t) ==> AspectOk(t, UniqueNames) && AspectOk(t, AnchoredNames) && AspectOk(t, NamespaceNames);
  }

  lemma InvMeans(t: Tables)
    ensures Inv(t) <==> && VersionRowsOk(t) && LatestOk(t) && DownloadsOk(t) && NamesUnique(t) && NamesAnchored(t)
                        && NamespacesApart(t.namespaces)
  {
    InvParts(t);
    RowsMean(t);
    NamesMean(t);
  }

  // ---------- lookups ----------

  /** The row of a version of a provider, if there is one. */
  ghost function FindVersion(versions: map<Id, VersionRow>, p: Id, version: Version): (found: Option<Id>)
    ensures found.Some? ==> IsRowOf(versions, p, version, found.value)
    ensures found.None? ==> forall v :: !IsRowOf(versions, p, version, v)
  {
    if v :| IsRowOf(versions, p, version, v) then Some(v) else None
  }

  /** The provider a name stands for: the live one of that name, otherwise the target of a redirect. */
  ghost function Resolve(t: Tables, name: Name): (found: Option<Id>)
    ensures found.Some? ==>
      IsLive(t, name, found.value) || (exists r :: IsRedirect(t, name, r) && t.redirects[r].target == found.value)
    ensures found.None? ==> (forall p :: !IsLive(t, name, p)) && (forall r :: !IsRedirect(t, name, r))
  {
    if p :| IsLive(t, name, p) then Some(p)
    else if r :| IsRedirect(t, name, r) then Some(t.redirects[r].target)
    else None
  }

  /** The versions a provider has rows of. */
  ghost function VersionsOf(t: Tables, p: Id): set<Version> {
    set v | v in t.versions && t.versions[v].provider == p :: t.versions[v].version
  }

  /** The downloads of one version of one provider. */
  ghost function DownloadsOf(t: Tables, p: Id, version: Version): set<Id> {
    set d | d in t.downloads && IsRowOf(t.versions, p, version, t.downloads[d].version)
  }

  /** A live provider other than the excepted one, or a redirect, has this name up to the case of the module name. */
  ghost predicate Taken(t: Tables, ns: Id, moduleName: string, provider: string, except: Option<Id>) {
    || (exists p :: p in t.providers && Some(p) != except && t.providers[p].ns == ns
                    && SameUpToCase(t.providers[p].moduleName, moduleName) && t.providers[p].provider == provider)
    || (exists r :: r in t.redirects && t.redirects[r].ns == ns
                    && SameUpToCase(t.redirects[r].moduleName, moduleName) && t.redirects[r].provider == provider)
  }

  lemma NamesOfRows(t: Tables, ns: Id, moduleName: string, provider: string)
    ensures forall p :: IsLive(t, MakeName(ns, moduleName, provider), p) <==>
              p in t.providers && t.providers[p].ns == ns
              && SameUpToCase(t.providers[p].moduleName, moduleName) && t.providers[p].provider == provider
    ensures forall r :: IsRedirect(t, MakeName(ns, moduleName, provider), r) <==>
              r in t.redirects && t.redirects[r].ns == ns
              && SameUpToCase(t.redirects[r].moduleName, moduleName) && t.redirects[r].provider == provider
  {
    forall p | p in t.providers
      ensures var row := t.providers[p];
              row.Name() == MakeName(ns, moduleName, provider) <==>
              row.ns == ns && SameUpToCase(row.moduleName, moduleName) && row.provider == provider
    {
      var row := t.providers[p];
      SameNameIff(row.ns, row.moduleName, row.provider, ns, moduleName, provider);
    }
    forall r | r in t.redirects
      ensures var row := t.redirects[r];
              row.Name() == MakeName(ns, moduleName, provider) <==>
              row.ns == ns && SameUpToCase(row.moduleName, moduleName) && row.provider == provider
    {
      var row := t.redirects[r];
      SameNameIff(row.ns, row.moduleName, row.provider, ns, moduleName, provider);
    }
  }

  /** A name stands for nothing exactly if no row has it up to case. */
  lemma UnresolvedIffUntaken(t: Tables, ns: Id, moduleName: string, provider: string)
    ensures Resolve(t, MakeName(ns, moduleName, provider)).None? <==> !Taken(t, ns, moduleName, provider, None)
  {
    NamesOfRows(t, ns, moduleName, provider);
    var name := MakeName(ns, moduleName, provider);
    if p :| IsLive(t, name, p) {
      assert Some(p) != None;
    }
  }

  // ---------- operations on versions ----------

  /** Only the latest pointer of one provider may differ. */
  ghost predicate OnlyLatestMoved(before: map<Id, ProviderRow>, after: map<Id, ProviderRow>, p: Id) {
    p in before && p in after && after == before[p := before[p].(latest := after[p].latest)]
  }

  function Without(versions: map<Id, VersionRow>, v: Option<Id>): map<Id, VersionRow> {
    if v.Some? then versions - {v.value} else versions
  }

  /** Every download of row `from` points at row `to` instead. */
  function Repointed(downloads: map<Id, DownloadRow>, from: Option<Id>, to: Id): map<Id, DownloadRow> {
    map d | d in downloads :: if from == Some(downloads[d].version) then downloads[d].(version := to) else downloads[d]
  }

  /** Indexing replaces the row of the version, if any, by a new one and hands its downloads over. */
  ghost predicate IndexedAs(t: Tables, t': Tables, p: Id, version: Version, published: bool, row: Id) {
    var prior := FindVersion(t.versions, p, version);
    && row !in Without(t.versions, prior)
    && t'.versions == Without(t.versions, prior)[row := VersionRow(p, version, published, version.beta)]
    && t'.downloads == Repointed(t.downloads, prior, row)
    && OnlyLatestMoved(t.providers, t'.providers, p)
    && IsLatest(t'.versions, p, t'.providers[p].latest)
    && t'.redirects == t.redirects && t'.namespaces == t.namespaces && t'.namespaceRedirects == t.namespaceRedirects
  }

  /** Whether an existing version may be indexed again. */
  ghost predicate MayIndex(t: Tables, config: Config, p: Id, version: Version) {
    config.reindexMode != Prohibit || FindVersion(t.versions, p, version).None?
  }

  /** Whether a finished version is published: by configuration, or because it replaces a published one. */
  ghost predicate EndsPublished(t: Tables, config: Config, p: Id, version: Version) {
    var prior := FindVersion(t.versions, p, version);
    config.autoPublish || (config.reindexMode == AutoPublish && prior.Some? && t.versions[prior.value].published)
  }

  function DeleteEvents(existed: bool, p: Id, version: Version): seq<AuditEvent> {
    if existed then [VersionDelete(p, version)] else []
  }

  /** A row has been made for the version, not published yet. */
  ghost predicate Prepared(t: Tables, t': Tables, config: Config, p: Id, version: Version) {
    && MayIndex(t, config, p, version)
    && (exists row :: IndexedAs(t, t', p, version, false, row))
    && t'.audit == t.audit + DeleteEvents(FindVersion(t.versions, p, version).Some?, p, version)
                   + [VersionIndex(p, version)]
  }

  /** A whole successful import of a version. */
  ghost predicate Imported(t: Tables, t': Tables, config: Config, p: Id, version: Version) {
    && MayIndex(t, config, p, version)
    && (exists row :: IndexedAs(t, t', p, version, EndsPublished(t, config, p, version), row))
    && t'.audit == t.audit + DeleteEvents(FindVersion(t.versions, p, version).Some?, p, version)
                   + [VersionIndex(p, version)]
                   + (if EndsPublished(t, config, p, version) then [VersionPublish(p, version)] else [])
  }

  /** Publishing marks one row; the pointer stays or moves to that row. */
  ghost predicate Published(t: Tables, t': Tables, v: Id) {
    && v in t.versions
    && var p := t.versions[v].provider;
    && t'.versions == t.versions[v := t.versions[v].(published := true)]
    && OnlyLatestMoved(t.providers, t'.providers, p)
    && t'.providers[p].latest in {t.providers[p].latest, Some(v)}
    && IsLatest(t'.versions, p, t'.providers[p].latest)
    && t'.downloads == t.downloads && t'.redirects == t.redirects
    && t'.namespaces == t.namespaces && t'.namespaceRedirects == t.namespaceRedirects
    && t'.audit == t.audit + [VersionPublish(p, t.versions[v].version)]
  }

  /** The row of a version goes; its downloads go with it or are left for a successor. */
  ghost predicate RowDropped(t: Tables, t': Tables, v: Id, dropDownloads: bool) {
    && v in t.versions
    && var p := t.versions[v].provider;
    && t'.versions == t.versions - {v}
    && t'.downloads == (if dropDownloads
                        then map d | d in t.downloads && t.downloads[d].version != v :: t.downloads[d]
                        else t.downloads)
    && OnlyLatestMoved(t.providers, t'.providers, p)
    && IsLatest(t'.versions, p, t'.providers[p].latest)
    && t'.redirects == t.redirects
    && t'.namespaces == t.namespaces && t'.namespaceRedirects == t.namespaceRedirects
    && t'.audit == t.audit + [VersionDelete(p, t.versions[v].version)]
  }

  /** Deleting a version removes its row and its downloads. */
  ghost predicate VersionDeleted(t: Tables, t': Tables, v: Id) {
    RowDropped(t, t', v, true)
  }

  /** A download is recorded under an id not in use. */
  ghost predicate DownloadRecorded(t: Tables, t': Tables, row: DownloadRow) {
    && row.version in t.versions
    && exists d: Id :: d !in t.downloads && t' == t.(downloads := t.downloads[d := row])
  }

  // ---------- operations on names ----------

  ghost predicate ProviderCreated(t: Tables, t': Tables, ns: Id, moduleName: string, provider: string) {
    && ns in t.namespaces && Resolve(t, MakeName(ns, moduleName, provider)).None?
    && exists p: Id :: p !in t.providers
         && t' == t.(providers := t.providers[p := ProviderRow(ns, moduleName, provider, None)],
                     audit := t.audit + [ProviderCreate(p)])
  }

  function RenameEvents(p: Id, prior: ProviderRow, ns: Id, moduleName: string, provider: string): seq<AuditEvent> {
    (if prior.ns != ns then [UpdateNamespace(p, prior.ns, ns)] else [])
    + (if prior.moduleName != moduleName then [UpdateModuleName(p, prior.moduleName, moduleName)] else [])
    + (if prior.provider != provider then [UpdateProviderName(p, prior.provider, provider)] else [])
  }

  /** A rename is allowed to a name that resolves to nothing, or that the provider itself has now. */
  ghost predicate MayRename(t: Tables, p: Id, name: Name) {
    p in t.providers && (Resolve(t, name).None? || t.providers[p].Name() == name)
  }

  /** Renaming leaves a redirect under the prior name, unless only the case changed. */
  ghost predicate Renamed(t: Tables, t': Tables, p: Id, ns: Id, moduleName: string, provider: string) {
    var name := MakeName(ns, moduleName, provider);
    && ns in t.namespaces && MayRename(t, p, name)
    && var prior := t.providers[p];
    && t'.providers == t.providers[p := prior.(ns := ns, moduleName := moduleName, provider := provider)]
    && (if prior.Name() == name then t'.redirects == t.redirects
        else exists r: Id :: r !in t.redirects
               && t'.redirects == t.redirects[r := RedirectRow(prior.ns, prior.moduleName, prior.provider, p)])
    && t'.audit == t.audit + RenameEvents(p, prior, ns, moduleName, provider)
    && t'.versions == t.versions && t'.downloads == t.downloads
    && t'.namespaces == t.namespaces && t'.namespaceRedirects == t.namespaceRedirects
  }

  function RowsOfProvider(t: Tables, p: Id): set<Id> {
    set v | v in t.versions && t.versions[v].provider == p
  }

  /** The rows in some order, each once. */
  ghost predicate Lists(order: seq<Id>, rows: set<Id>) {
    && (forall v :: v in order <==> v in rows)
    && forall i, j :: 0 <= i < j < |order| ==> order[i] != order[j]
  }

  /** The deletions of the rows as they appear in the audit trail. */
  ghost function Deletions(t: Tables, p: Id, order: seq<Id>): seq<AuditEvent>
    requires forall v :: v in order ==> v in t.versions
  {
    seq(|order|, i requires 0 <= i < |order| => VersionDelete(p, t.versions[order[i]].version))
  }

  /** Between two states of the audit trail, exactly the deletions of the rows were recorded. */
  ghost predicate DeletionsRecorded(t: Tables, audit: seq<AuditEvent>, p: Id, rows: set<Id>)
    requires forall v :: v in rows ==> v in t.versions
  {
    exists order :: Lists(order, rows) && audit == t.audit + Deletions(t, p, order)
  }

  /** Deleting a provider removes it with its versions, their downloads, and the redirects to it. */
  ghost predicate ProviderDeleted(t: Tables, t': Tables, p: Id) {
    && p in t.providers
    && t'.providers == t.providers - {p}
    && t'.versions == (map v | v in t.versions && t.versions[v].provider != p :: t.versions[v])
    && t'.downloads == (map d | d in t.downloads && t.downloads[d].version in t'.versions :: t.downloads[d])
    && t'.redirects == (map r | r in t.redirects && t.redirects[r].target != p :: t.redirects[r])
    && t'.namespaces == t.namespaces && t'.namespaceRedirects == t.namespaceRedirects
    && |t'.audit| > 0 && t'.audit[|t'.audit| - 1] == ProviderDelete(p)
    && DeletionsRecorded(t, t'.audit[..|t'.audit| - 1], p, RowsOfProvider(t, p))
  }

  ghost predicate RedirectDeleted(t: Tables, t': Tables, r: Id) {
    && r in t.redirects
    && t' == t.(redirects := t.redirects - {r}, audit := t.audit + [RedirectDelete(r)])
  }

  ghost predicate NamespaceCreated(t: Tables, t': Tables, name: string) {
    && NameUntaken(t.namespaces, None, name)
    && exists ns: Id :: ns !in t.namespaces
         && t' == t.(namespaces := t.namespaces[ns := name], audit := t.audit + [NamespaceCreate(ns)])
  }

  ghost predicate NamespaceRenamed(t: Tables, t': Tables, ns: Id, name: string) {
    && ns in t.namespaces && NameUntaken(t.namespaces, Some(ns), name)
    && exists r: Id :: r !in t.namespaceRedirects
         && t' == t.(namespaces := t.namespaces[ns := name],
                     namespaceRedirects := t.namespaceRedirects[r := NamespaceRedirectRow(t.namespaces[ns], ns)],
                     audit := t.audit + [NamespaceModifyName(ns, t.namespaces[ns], name)])
  }

  ghost predicate HasProviders(t: Tables, ns: Id) {
    exists p :: p in t.providers && t.providers[p].ns == ns
  }

  function NamesElsewhere(names: map<Id, NamespaceRedirectRow>, ns: Id): map<Id, NamespaceRedirectRow> {
    map n | n in names && names[n].ns != ns :: names[n]
  }

  function RedirectsElsewhere(redirects: map<Id, RedirectRow>, ns: Id): map<Id, RedirectRow> {
    map r | r in redirects && redirects[r].ns != ns :: redirects[r]
  }

  /** Deleting an empty namespace removes the redirects from it, and the redirects under its names. */
  ghost predicate NamespaceDeleted(t: Tables, t': Tables, ns: Id) {
    && ns in t.namespaces && !HasProviders(t, ns)
    && t'.namespaces == t.namespaces - {ns}
    && t'.namespaceRedirects == NamesElsewhere(t.namespaceRedirects, ns)
    && t'.redirects == RedirectsElsewhere(t.redirects, ns)
    && t'.audit == t.audit + [NamespaceDelete(ns)]
    && t'.providers == t.providers && t'.versions == t.versions && t'.downloads == t.downloads
  }
}
