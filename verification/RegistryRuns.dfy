/**
 Whole runs of the registry: any sequence of operations, in any order, with any
 ids the database chooses.
 */
module RegistryRuns {
  import opened Text
  import opened RegistryTables
  import opened RegistryInvariants
  import opened VersionText

  datatype Event =
    | ImportVersion(config: Config, provider: Id, version: Version)
    | PublishVersion(row: Id)
    | DeleteVersion(row: Id)
    | RecordDownload(download: DownloadRow)
    | CreateProvider(ns: Id, moduleName: string, providerName: string)
    | RenameProvider(provider: Id, ns: Id, moduleName: string, providerName: string)
    | DeleteProvider(provider: Id)
    | DeleteRedirect(redirect: Id)
    | CreateNamespace(name: string)
    | RenameNamespace(ns: Id, name: string)
    | DeleteNamespace(ns: Id)

  ghost predicate Step(t: Tables, e: Event, t': Tables) {
    match e
    case ImportVersion(config, p, version) => Imported(t, t', config, p, version)
    case PublishVersion(v) => Published(t, t', v)
    case DeleteVersion(v) => VersionDeleted(t, t', v)
    case RecordDownload(row) => DownloadRecorded(t, t', row)
    case CreateProvider(ns, m, p) => ProviderCreated(t, t', ns, m, p)
    case RenameProvider(p, ns, m, pr) => Renamed(t, t', p, ns, m, pr)
    case DeleteProvider(p) => ProviderDeleted(t, t', p)
    case DeleteRedirect(r) => RedirectDeleted(t, t', r)
    case CreateNamespace(name) => NamespaceCreated(t, t', name)
    case RenameNamespace(ns, name) => NamespaceRenamed(t, t', ns, name)
    case DeleteNamespace(ns) => NamespaceDeleted(t, t', ns)
  }

  /** The states before, between and after the events. */
  ghost predicate Run(states: seq<Tables>, events: seq<Event>) {
    |states| == |events| + 1 && forall i :: 0 <= i < |events| ==> StepAt(states, events, i)
  }

  ghost predicate StepAt(states: seq<Tables>, events: seq<Event>, i: int)
    requires |states| == |events| + 1 && 0 <= i < |events|
  {
    Step(states[i], events[i], states[i + 1])
  }

  // ---------- safety over runs ----------

  lemma StepKeepsInv(t: Tables, e: Event, t': Tables)
    requires Inv(t) && Step(t, e, t')
    ensures Inv(t')
  {
    match e
    case ImportVersion(config, p, version) => ImportKeepsInv(t, t', config, p, version);
    case PublishVersion(v) => PublishKeepsInv(t, t', v);
    case DeleteVersion(v) => DeleteVersionKeepsInv(t, t', v);
    case RecordDownload(row) => RecordKeepsInv(t, t', row);
    case CreateProvider(ns, m, p) => CreateProviderKeepsInv(t, t', ns, m, p);
    case RenameProvider(p, ns, m, pr) => RenameKeepsInv(t, t', p, ns, m, pr);
    case DeleteProvider(p) => DeleteProviderKeepsInv(t, t', p);
    case DeleteRedirect(r) => DeleteRedirectKeepsInv(t, t', r);
    case CreateNamespace(name) => CreateNamespaceKeepsInv(t, t', name);
    case RenameNamespace(ns, name) => RenameNamespaceKeepsInv(t, t', ns, name);
    case DeleteNamespace(ns) => DeleteNamespaceKeepsInv(t, t', ns);
  }

  lemma {:induction false} RunKeepsInv(states: seq<Tables>, events: seq<Event>, i: nat)
    requires Run(states, events) && Inv(states[0]) && i < |states|
    ensures Inv(states[i])
    decreases i
  {
    if i > 0 {
      RunKeepsInv(states, events, i - 1);
      assert StepAt(states, events, i - 1);
      StepKeepsInv(states[i - 1], events[i - 1], states[i]);
    }
  }

  /** Registries start empty. */
  function EmptyTables(): Tables {
    Tables(map[], map[], map[], map[], map[], map[], [])
  }

  /** A published version of the provider whose text has no suffix. */
  ghost predicate IsPublishedRelease(t: Tables, p: Id, v: Id) {
    v in t.versions && t.versions[v].provider == p && t.versions[v].published && !HasSuffix(t.versions[v].version.text)
  }

  /**
   In every state of every run from the empty registry: version texts of a
   provider are accepted and unique, its latest pointer is empty exactly when it
   has no published version without a suffix, and otherwise points at one of
   these that is older than no other; and every download points at an existing
   version.
   */
  lemma LatestIsMaximumInEveryRun(states: seq<Tables>, events: seq<Event>, i: nat, p: Id)
    requires Run(states, events) && states[0] == EmptyTables() && i < |states| && p in states[i].providers
    ensures var t, latest := states[i], states[i].providers[p].latest;
            && (forall text, v, w :: HasText(t.versions, p, text, v) && HasText(t.versions, p, text, w) ==> v == w)
            && (forall v :: v in t.versions ==> IsValid(t.versions[v].version.text))
            && (latest.None? <==> forall v :: !IsPublishedRelease(t, p, v))
            && (latest.Some? ==>
                  && IsPublishedRelease(t, p, latest.value)
                  && forall v :: IsPublishedRelease(t, p, v) ==>
                       !Older(t.versions[latest.value].version.text, t.versions[v].version.text))
            && (forall d :: d in t.downloads ==> t.downloads[d].version in t.versions)
  {
    InvMeans(EmptyTables());
    RunKeepsInv(states, events, i);
    VersionsByText(states[i], p);
    InvParts(states[i]);
    RowsMean(states[i]);
    LatestIffNewest(states[i].versions, p, states[i].providers[p].latest);
    ReleasesByText(states[i], p);
  }

  lemma ReleasesByText(t: Tables, p: Id)
    requires VersionRowsOk(t)
    ensures forall v :: IsPublishedRelease(t, p, v) <==> IsRelease(t.versions, p, v)
  {
    forall v | v in t.versions
      ensures t.versions[v].beta <==> HasSuffix(t.versions[v].version.text)
    {
      BetaIffSuffix(t.versions[v].version);
    }
  }

  /** Version rows hold accepted texts, each at most once for a provider. */
  lemma VersionsByText(t: Tables, p: Id)
    requires Inv(t)
    ensures forall text, v, w :: HasText(t.versions, p, text, v) && HasText(t.versions, p, text, w) ==> v == w
    ensures forall v :: v in t.versions ==> IsValid(t.versions[v].version.text)
  {
    forall text, v, w | HasText(t.versions, p, text, v) && HasText(t.versions, p, text, w)
      ensures v == w
    {
      OneRowPerText(t, p, text, v, w);
    }
    forall v | v in t.versions
      ensures IsValid(t.versions[v].version.text)
    {
      AcceptedText(t.versions[v].version);
    }
  }

  // ---------- names over runs ----------

  /** The operations that make a name of a provider forgotten. */
  predicate Forgets(t: Tables, e: Event, name: Name, p: Id) {
    match e
    case DeleteProvider(q) => q == p
    case DeleteRedirect(r) => IsRedirect(t, name, r)
    case DeleteNamespace(ns) => ns == name.ns
    case _ => false
  }

  lemma RenameKeepsResolution(t: Tables, t': Tables, q: Id, ns: Id, m: string, pr: string, name: Name, p: Id)
    requires Inv(t) && Renamed(t, t', q, ns, m, pr) && Resolve(t, name) == Some(p)
    ensures Resolve(t', name) == Some(p)
  {
    RenameKeepsInv(t, t', q, ns, m, pr);
    var added := RenameMovesName(t, t', q, ns, m, pr);
    ResolvesTo(t, name, p);
    ResolvesTo(t', name, p);
    if IsLive(t, name, p) {
      if p == q && name != MakeName(ns, m, pr) {
        assert IsRedirect(t', name, added.value);
      }
    } else {
      var r :| IsRedirect(t, name, r) && t.redirects[r].target == p;
      assert IsRedirect(t', name, r) && t'.redirects[r].target == p;
    }
  }

  /** A resolving name keeps its provider through an operation exactly when that does not forget it. */
  lemma ResolutionPersistsIff(t: Tables, e: Event, t': Tables, name: Name, p: Id)
    requires Inv(t) && Step(t, e, t') && Resolve(t, name) == Some(p)
    ensures Resolve(t', name) == Some(p) <==> !Forgets(t, e, name, p)
  {
    StepKeepsInv(t, e, t');
    ResolvesTo(t, name, p);
    ResolvesTo(t', name, p);
    if e.RenameProvider? {
      RenameKeepsResolution(t, t', e.provider, e.ns, e.moduleName, e.providerName, name, p);
    } else if IsLive(t, name, p) {
      InvParts(t);
      NamesMean(t);
      LiveNamePersistsIff(t, e, t', name, p);
    } else {
      InvParts(t);
      NamesMean(t);
      var r :| IsRedirect(t, name, r) && t.redirects[r].target == p;
      RedirectPersistsIff(t, e, t', name, r);
    }
  }

  lemma LiveNamePersistsIff(t: Tables, e: Event, t': Tables, name: Name, p: Id)
    requires NamesUnique(t) && Step(t, e, t') && !e.RenameProvider? && IsLive(t, name, p)
    ensures IsLive(t', name, p) <==> !Forgets(t, e, name, p)
    ensures Forgets(t, e, name, p) ==> forall r :: !IsRedirect(t', name, r)
  {
    assert forall r :: !IsRedirect(t, name, r);
    assert t.providers[p].ns == name.ns;
    if Forgets(t, e, name, p) {
      assert forall r :: IsRedirect(t', name, r) ==> IsRedirect(t, name, r);
    }
  }

  lemma RedirectPersistsIff(t: Tables, e: Event, t': Tables, name: Name, r: Id)
    requires NamesUnique(t) && Step(t, e, t') && !e.RenameProvider? && IsRedirect(t, name, r)
    ensures !Forgets(t, e, name, t.redirects[r].target) ==>
              IsRedirect(t', name, r) && t'.redirects[r].target == t.redirects[r].target
    ensures Forgets(t, e, name, t.redirects[r].target) ==>
              !IsLive(t', name, t.redirects[r].target) && forall s :: !IsRedirect(t', name, s)
  {
    assert t.redirects[r].ns == name.ns;
    if Forgets(t, e, name, t.redirects[r].target) {
      assert forall s: Id :: IsRedirect(t, name, s) ==> s == r;
      assert forall s: Id :: IsRedirect(t', name, s) ==> IsRedirect(t, name, s) && s != r;
      assert forall q :: IsLive(t', name, q) ==> IsLive(t, name, q);
    }
  }

  /** Between two points of a run, no operation makes the provider's name forgotten. */
  ghost predicate NotForgotten(states: seq<Tables>, events: seq<Event>, i: nat, j: nat, name: Name, p: Id)
    requires |states| == |events| + 1 && j <= |events|
  {
    forall k :: i <= k < j ==> !Forgets(states[k], events[k], name, p)
  }

  lemma ResolutionPersistsAt(states: seq<Tables>, events: seq<Event>, k: nat, name: Name, p: Id)
    requires Run(states, events) && k < |events| && Inv(states[k])
    requires Resolve(states[k], name) == Some(p) && !Forgets(states[k], events[k], name, p)
    ensures Resolve(states[k + 1], name) == Some(p)
  {
    assert StepAt(states, events, k);
    ResolutionPersistsIff(states[k], events[k], states[k + 1], name, p);
  }

  /**
   Every name a provider has held in a run resolves to it in one step for as long
   as the provider lives, unless that redirect was deleted or its namespace removed.
   */
  lemma {:induction false} HeldNamesKeepResolving(states: seq<Tables>, events: seq<Event>,
                                                 i: nat, j: nat, name: Name, p: Id)
    requires Run(states, events) && Inv(states[0]) && i <= j < |states|
    requires IsLive(states[i], name, p) && NotForgotten(states, events, i, j, name, p)
    ensures Resolve(states[j], name) == Some(p)
    decreases j
  {
    if i == j {
      RunKeepsInv(states, events, j);
      ResolvesTo(states[j], name, p);
    } else {
      HeldNamesKeepResolving(states, events, i, j - 1, name, p);
      RunKeepsInv(states, events, j - 1);
      ResolutionPersistsAt(states, events, j - 1, name, p);
    }
  }

  /** A name that resolves can neither be given to a new provider nor taken by renaming another one. */
  lemma HeldNameIsNotReused(t: Tables, e: Event, t': Tables, name: Name, p: Id, q: Id)
    requires Inv(t) && Step(t, e, t') && Resolve(t, name) == Some(p) && q != p && !Forgets(t, e, name, p)
    ensures !IsLive(t', name, q)
  {
    ResolutionPersistsIff(t, e, t', name, p);
    StepKeepsInv(t, e, t');
    ResolvesTo(t', name, p);
    ResolvesTo(t', name, q);
  }

  // ---------- downloads over runs ----------

  /** The operations that delete the downloads of a version. */
  predicate DropsDownloads(t: Tables, e: Event, p: Id, version: Version) {
    match e
    case DeleteProvider(q) => q == p
    case DeleteVersion(v) => IsRowOf(t.versions, p, version, v)
    case _ => false
  }

  /** The same download, up to the row it points at. */
  predicate SameDownload(a: DownloadRow, b: DownloadRow) {
    a.(version := b.version) == b
  }

  lemma DownloadPersists(t: Tables, e: Event, t': Tables, p: Id, version: Version, d: Id)
    requires Inv(t) && Step(t, e, t') && d in DownloadsOf(t, p, version) && !DropsDownloads(t, e, p, version)
    ensures d in DownloadsOf(t', p, version) && SameDownload(t.downloads[d], t'.downloads[d])
  {
    if e.ImportVersion? {
      ImportConservesDownloads(t, t', e.config, e.provider, e.version);
      assert DownloadsOf(t', p, version) == DownloadsOf(t, p, version);
    } else {
    }
  }

  lemma DownloadIsDropped(t: Tables, e: Event, t': Tables, p: Id, version: Version, d: Id)
    requires Inv(t) && Step(t, e, t') && d in DownloadsOf(t, p, version) && DropsDownloads(t, e, p, version)
    ensures d !in t'.downloads
  {
    if e.DeleteVersion? {
      OneRow(t, p, version, t.downloads[d].version, e.row);
    }
  }

  /** A download stays recorded for its version through an operation exactly when that does not delete the version. */
  lemma DownloadPersistsIff(t: Tables, e: Event, t': Tables, p: Id, version: Version, d: Id)
    requires Inv(t) && Step(t, e, t') && d in DownloadsOf(t, p, version)
    ensures d in DownloadsOf(t', p, version) <==> !DropsDownloads(t, e, p, version)
    ensures !DropsDownloads(t, e, p, version) ==> SameDownload(t.downloads[d], t'.downloads[d])
  {
    if DropsDownloads(t, e, p, version) {
      DownloadIsDropped(t, e, t', p, version, d);
    } else {
      DownloadPersists(t, e, t', p, version, d);
    }
  }

  /** Between two points of a run, no operation deletes the downloads of the version. */
  ghost predicate NotDropped(states: seq<Tables>, events: seq<Event>, i: nat, j: nat, p: Id, version: Version)
    requires |states| == |events| + 1 && j <= |events|
  {
    forall k :: i <= k < j ==> !DropsDownloads(states[k], events[k], p, version)
  }

  lemma DownloadPersistsAt(states: seq<Tables>, events: seq<Event>, k: nat, p: Id, version: Version, d: Id)
    requires Run(states, events) && k < |events| && Inv(states[k])
    requires d in DownloadsOf(states[k], p, version) && !DropsDownloads(states[k], events[k], p, version)
    ensures d in DownloadsOf(states[k + 1], p, version)
    ensures SameDownload(states[k].downloads[d], states[k + 1].downloads[d])
  {
    assert StepAt(states, events, k);
    DownloadPersistsIff(states[k], events[k], states[k + 1], p, version, d);
  }

  /** A download stays recorded for its version through every run that does not delete that version or its provider. */
  lemma {:induction false} DownloadsSurvive(states: seq<Tables>, events: seq<Event>,
                                           i: nat, j: nat, p: Id, version: Version, d: Id)
    requires Run(states, events) && Inv(states[0]) && i <= j < |states|
    requires d in DownloadsOf(states[i], p, version) && NotDropped(states, events, i, j, p, version)
    ensures d in DownloadsOf(states[j], p, version) && SameDownload(states[i].downloads[d], states[j].downloads[d])
    decreases j
  {
    if i < j {
      DownloadsSurvive(states, events, i, j - 1, p, version, d);
      RunKeepsInv(states, events, j - 1);
      DownloadPersistsAt(states, events, j - 1, p, version, d);
    }
  }
}
