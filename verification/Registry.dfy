/**
 The registry database: tables that operations change step by step, inside a
 transaction with nested savepoints.
 */
module Registry {
  import opened Text
  import opened RegistryTables
  import opened RegistryInvariants
  import opened VersionText
  import opened Rows
  import RedirectUsage
  import SafePaths

  datatype Error =
    | InvalidModuleName | InvalidProviderName | ProviderNotPermitted | DuplicateProvider
    | ReindexProhibited | ExtractionFailed
    | ForceNotAllowed | RedirectInUse
    | InvalidNamespaceName | NamespaceExists | NamespaceNotEmpty

  datatype Result<+T> = Ok(value: T) | Err(error: Error)

  /** How importing a version ends. */
  datatype ImportResult = Finished | Failed(error: Error) | Crashed

  /** What looking up a module provider finds. */
  datatype Lookup = Found(provider: Id) | Created(provider: Id) | Redirected(provider: Id) | Missing

  /** Why a provider name is refused, if it is; an empty allow-list permits all names. */
  function NameError(provider: string, permitted: set<string>): Option<Error> {
    if !SafePaths.ValidProviderName(provider) then Some(InvalidProviderName)
    else if permitted != {} && provider !in permitted then Some(ProviderNotPermitted)
    else None
  }

  /** Looking up a redirected provider checks the name it has now. */
  ghost function Looked(t: Tables, name: Name, permitted: set<string>): Result<Option<Id>> {
    match Resolve(t, name)
    case None => Ok(None)
    case Some(p) =>
      if IsLive(t, name, p) || p !in t.providers then Ok(Some(p))
      else
        match NameError(t.providers[p].provider, permitted)
        case Some(error) => Err(error)
        case None => Ok(Some(p))
  }

  /** Why a name cannot be taken. */
  ghost function TakenError(t: Tables, name: Name, permitted: set<string>): Error {
    match Looked(t, name, permitted)
    case Err(error) => error
    case Ok(_) => DuplicateProvider
  }

  /** Why a provider cannot be given a name: the name itself is refused, or it is taken. */
  ghost function RefusedName(t: Tables, ns: Id, moduleName: string, provider: string, permitted: set<string>): Error {
    match NameError(provider, permitted)
    case Some(error) => error
    case None => TakenError(t, MakeName(ns, moduleName, provider), permitted)
  }

  class Registry {
    var namespaces: map<Id, string>
    var namespaceRedirects: map<Id, NamespaceRedirectRow>
    var providers: map<Id, ProviderRow>
    var versions: map<Id, VersionRow>
    var downloads: map<Id, DownloadRow>
    var redirects: map<Id, RedirectRow>
    var audit: seq<AuditEvent>
    /** The tables as they were when the transaction and each savepoint inside it began. */
    var savepoints: seq<Tables>

    function Contents(): Tables
      reads this
    {
      Tables(namespaces, namespaceRedirects, providers, versions, downloads, redirects, audit)
    }

    ghost predicate Valid()
      reads this
    {
      Inv(Contents())
    }

    constructor ()
      ensures Valid() && Contents() == Tables(map[], map[], map[], map[], map[], map[], []) && savepoints == []
    {
      namespaces, namespaceRedirects, providers, versions := map[], map[], map[], map[];
      downloads, redirects, audit, savepoints := map[], map[], [], [];
    }

    // ---------- transactions ----------

    /** Starts the outer transaction; there can be only one. */
    method StartTransaction() returns (started: bool)
      modifies `savepoints
      ensures started <==> old(savepoints) == []
      ensures savepoints == if started then [Contents()] else old(savepoints)
    {
      if savepoints != [] {
        return false;
      }
      savepoints := [Contents()];
      return true;
    }

    method BeginNested()
      requires savepoints != []
      modifies `savepoints
      ensures savepoints == old(savepoints) + [Contents()]
    {
      savepoints := savepoints + [Contents()];
    }

    /** Ends the innermost transaction or savepoint, keeping what was done in it. */
    method Commit()
      requires savepoints != []
      modifies `savepoints
      ensures savepoints == old(savepoints)[..|old(savepoints)| - 1]
    {
      savepoints := savepoints[..|savepoints| - 1];
    }

    /** Ends the innermost transaction or savepoint, undoing what was done in it. */
    method Rollback()
      requires savepoints != []
      modifies this
      ensures Contents() == old(savepoints)[|old(savepoints)| - 1]
      ensures savepoints == old(savepoints)[..|old(savepoints)| - 1]
    {
      var saved := savepoints[|savepoints| - 1];
      savepoints := savepoints[..|savepoints| - 1];
      namespaces, namespaceRedirects := saved.namespaces, saved.namespaceRedirects;
      providers, versions := saved.providers, saved.versions;
      downloads, redirects, audit := saved.downloads, saved.redirects, saved.audit;
    }

    // ---------- latest version ----------

    /** One of the greatest published versions that are not betas. */
    method CalculateLatestVersion(p: Id) returns (latest: Option<Id>)
      ensures IsLatest(versions, p, latest) && IsNewest(versions, p, latest)
    {
      var rows := set v | v in versions && IsCandidate(versions, p, v);
      if rows == {} {
        assert forall v :: IsCandidate(versions, p, v) ==> v in rows;
        LatestIffNewest(versions, p, None);
        return None;
      }
      var numbers := map v | v in versions :: versions[v].version.numbers;
      var m := Greatest(numbers, rows);
      assert forall v :: IsCandidate(versions, p, v) ==> v in rows && AtMost(numbers[v], numbers[m]);
      LatestIffNewest(versions, p, Some(m));
      return Some(m);
    }

    /** The row id of a version, read from the database. */
    method FindRow(p: Id, version: Version) returns (row: Option<Id>)
      ensures row.Some? ==> IsRowOf(versions, p, version, row.value)
      ensures row.None? ==> forall v :: !IsRowOf(versions, p, version, v)
    {
      if v :| v in versions && IsRowOf(versions, p, version, v) {
        return Some(v);
      }
      return None;
    }

    // ---------- versions ----------

    method Publish(p: Id, version: Version)
      requires Valid() && p in providers && exists v: Id :: IsRowOf(versions, p, version, v)
      modifies `audit, `versions, `providers
      ensures Valid()
      ensures exists v: Id :: IsRowOf(old(versions), p, version, v) && Published(old(Contents()), Contents(), v)
    {
      ghost var before := Contents();
      audit := audit + [VersionPublish(p, version)];
      assert versions == before.versions;
      var found := FindRow(p, version);
      assert found.Some?;
      var v := found.value;
      versions := versions[v := versions[v].(published := true)];

      var first := CalculateLatestVersion(p);
      var latest := CalculateLatestVersion(p);
      if first.Some? && latest.Some? && versions[latest.value].version == version {
        OneRow(before, p, version, v, latest.value);
        providers := providers[p := providers[p].(latest := Some(v))];
      } else {
        PointerSurvivesPublish(before, versions, v, latest);
        assert providers == before.providers[p := before.providers[p].(latest := providers[p].latest)];
      }
      assert Published(before, Contents(), v);
      PublishKeepsInv(before, Contents(), v);
    }

    /** Deletes a version's row and, unless it is about to be replaced, its downloads. */
    method DeleteVersion(p: Id, version: Version, deleteRelatedAnalytics: bool)
      requires Valid() && p in providers && exists v: Id :: IsRowOf(versions, p, version, v)
      modifies `audit, `versions, `downloads, `providers
      ensures exists v: Id :: IsRowOf(old(versions), p, version, v)
                && RowDropped(old(Contents()), Contents(), v, deleteRelatedAnalytics)
      ensures deleteRelatedAnalytics ==> Valid()
    {
      ghost var before := Contents();
      var found := FindRow(p, version);
      assert found.Some?;
      var v := found.value;
      if deleteRelatedAnalytics {
        DeleteAnalytics(v);
      }
      audit := audit + [VersionDelete(p, version)];

      // The row goes, and with it any pointer to it.
      versions := versions - {v};
      providers := PointersCleared(providers, v);

      var latest := CalculateLatestVersion(p);
      providers := providers[p := providers[p].(latest := latest)];

      DroppedRow(before, Contents(), p, v, latest, deleteRelatedAnalytics);
    }

    /** Inserts an unpublished row under an id not in use. */
    method InsertRow(p: Id, version: Version) returns (ghost row: Id)
      modifies `versions
      ensures row !in old(versions) && versions == old(versions)[row := VersionRow(p, version, false, version.beta)]
    {
      UnusedIdExists(versions.Keys);
      var id: Id :| id !in versions;
      versions := versions[id := VersionRow(p, version, false, version.beta)];
      row := id;
    }

    /** Points every download of one row at another. */
    method MigrateAnalytics(fromRow: Id, toRow: Id)
      modifies `downloads
      ensures downloads == Repointed(old(downloads), Some(fromRow), toRow)
    {
      downloads := map d | d in downloads ::
        if downloads[d].version == fromRow then downloads[d].(version := toRow) else downloads[d];
    }

    /** Deletes the downloads of a row. */
    method DeleteAnalytics(row: Id)
      modifies `downloads
      ensures downloads == map d | d in old(downloads) && old(downloads)[d].version != row :: old(downloads)[d]
    {
      downloads := map d | d in downloads && downloads[d].version != row :: downloads[d];
    }

    /** Inserts the row of a version whose former row, if any, is gone, and hands that row's downloads over. */
    method InsertAndMigrate(p: Id, version: Version, oldRow: Option<Id>, ghost before: Tables)
      requires Inv(before) && oldRow == FindVersion(before.versions, p, version)
      requires Emptied(before, Contents(), p, oldRow)
      modifies `versions, `downloads
      ensures exists row :: IndexedAs(before, Contents(), p, version, false, row)
    {
      ghost var emptied := Contents();
      ghost var newRow := InsertRow(p, version);

      // The new row's id is read back from the database.
      OnlyNewRow(before, emptied, Contents(), p, version, newRow);
      var found := FindRow(p, version);
      assert found == Some(newRow);
      if oldRow.Some? {
        MigrateAnalytics(oldRow.value, found.value);
      }
      IndexedAfterInsert(before, emptied, Contents(), p, version, newRow);
    }

    /** Inserts the row of a version, replacing an existing one; tells whether to publish it in the end. */
    method CreateDbRow(config: Config, p: Id, version: Version) returns (r: Result<bool>)
      requires Valid() && p in providers
      modifies `audit, `versions, `downloads, `providers
      ensures r.Ok? <==> MayIndex(old(Contents()), config, p, version)
      ensures r.Err? ==> r.error == ReindexProhibited && Contents() == old(Contents())
      ensures r.Ok? ==>
        && r.value == EndsPublished(old(Contents()), config, p, version)
        && (exists row :: IndexedAs(old(Contents()), Contents(), p, version, false, row))
        && audit == old(audit) + DeleteEvents(FindVersion(old(versions), p, version).Some?, p, version)
    {
      ghost var before := Contents();
      ghost var prior := FindVersion(versions, p, version);
      var oldRow := FindRow(p, version);
      if oldRow.Some? {
        OneRow(before, p, version, oldRow.value, prior.value);
      }
      var previouslyPublished := false;
      if oldRow.Some? {
        if config.reindexMode == Prohibit {
          return Err(ReindexProhibited);
        }
        if config.reindexMode == AutoPublish {
          previouslyPublished := versions[oldRow.value].published;
        }
        DeleteVersion(p, version, false);
        DroppedIsPrior(before, Contents(), p, version);
      } else {
        LatestIsRight(before, p);
        assert OnlyLatestMoved(before.providers, providers, p);
      }
      InsertAndMigrate(p, version, oldRow, before);
      return Ok(previouslyPublished || config.autoPublish);
    }

    /** Prepares a version's row and records the indexing. */
    method PrepareModule(config: Config, p: Id, version: Version) returns (r: Result<bool>)
      requires Valid() && p in providers
      modifies `audit, `versions, `downloads, `providers
      ensures Valid()
      ensures r.Ok? <==> MayIndex(old(Contents()), config, p, version)
      ensures r.Err? ==> r.error == ReindexProhibited && Contents() == old(Contents())
      ensures r.Ok? ==>
        r.value == EndsPublished(old(Contents()), config, p, version)
        && Prepared(old(Contents()), Contents(), config, p, version)
    {
      ghost var before := Contents();
      r := CreateDbRow(config, p, version);
      if r.Ok? {
        ghost var row :| IndexedAs(before, Contents(), p, version, false, row);
        audit := audit + [VersionIndex(p, version)];
        assert IndexedAs(before, Contents(), p, version, false, row);
        IndexKeepsInv(before, Contents(), p, version, false, row);
      }
    }

    /**
     Imports a version: prepares its row, extracts it, and publishes it if it is
     to be published. An exception leaves the prepared row for the caller to roll back.
     */
    method ImportVersion(config: Config, p: Id, version: Version, extraction: Extraction) returns (r: ImportResult)
      requires Valid() && p in providers
      modifies `audit, `versions, `downloads, `providers
      ensures Valid()
      ensures !MayIndex(old(Contents()), config, p, version) ==>
        r == Failed(ReindexProhibited) && Contents() == old(Contents())
      ensures MayIndex(old(Contents()), config, p, version) ==>
        match extraction
        case Extracted => r == Finished && Imported(old(Contents()), Contents(), config, p, version)
        case RegistryFailure =>
          r == Failed(ExtractionFailed) && Prepared(old(Contents()), Contents(), config, p, version)
        case OtherFailure => r == Crashed && Prepared(old(Contents()), Contents(), config, p, version)
    {
      ghost var before := Contents();
      var shouldPublish := PrepareModule(config, p, version);
      match shouldPublish {
        case Err(error) => return Failed(error);
        case Ok(publish) =>
          match extraction {
            case RegistryFailure => return Failed(ExtractionFailed);
            case OtherFailure => return Crashed;
            case Extracted =>
          }
          ghost var prepared := Contents();
          ghost var row :| IndexedAs(before, prepared, p, version, false, row);
          RowJustIndexed(before, prepared, p, version, row);
          if publish {
            Publish(p, version);
          }
          assert IndexedAs(before, Contents(), p, version, publish, row);
          return Finished;
      }
    }

    /** Records a download of an existing version. */
    method RecordDownload(row: DownloadRow)
      requires Valid() && row.version in versions
      modifies `downloads
      ensures Valid() && DownloadRecorded(old(Contents()), Contents(), row)
    {
      ghost var before := Contents();
      UnusedIdExists(downloads.Keys);
      var d: Id :| d !in downloads;
      downloads := downloads[d := row];
      assert Contents() == before.(downloads := before.downloads[d := row]);
      RecordKeepsInv(before, Contents(), row);
    }

    // ---------- names ----------

    method FindLive(name: Name) returns (found: Option<Id>)
      ensures found.Some? ==> IsLive(Contents(), name, found.value)
      ensures found.None? ==> forall p :: !IsLive(Contents(), name, p)
    {
      if p :| p in providers && providers[p].Name() == name {
        return Some(p);
      }
      return None;
    }

    method FindRedirected(name: Name) returns (found: Option<Id>)
      ensures found.Some? ==> exists r :: IsRedirect(Contents(), name, r) && redirects[r].target == found.value
      ensures found.None? ==> forall r :: !IsRedirect(Contents(), name, r)
    {
      if r :| r in redirects && redirects[r].Name() == name {
        return Some(redirects[r].target);
      }
      return None;
    }

    /** Looks up a name: the live provider of that name, else the one redirected to. */
    method Find(name: Name, permitted: set<string>) returns (r: Result<Option<Id>>)
      requires Valid()
      ensures r == Looked(Contents(), name, permitted)
      ensures r == Ok(None) <==> Resolve(Contents(), name) == None
    {
      var live := FindLive(name);
      if live.Some? {
        ResolvesTo(Contents(), name, live.value);
        return Ok(live);
      }
      var redirected := FindRedirected(name);
      if redirected.None? {
        ResolvesToNothing(Contents(), name);
        return Ok(None);
      }
      ResolvesTo(Contents(), name, redirected.value);
      RedirectHasTarget(Contents(), name, redirected.value);
      var error := NameError(providers[redirected.value].provider, permitted);
      return if error.Some? then Err(error.value) else Ok(redirected);
    }

    /** Creates a module provider under a name that nothing resolves to. */
    method CreateProvider(ns: Id, moduleName: string, provider: string, permitted: set<string>) returns (r: Result<Id>)
      requires Valid() && ns in namespaces
      modifies `audit, `providers
      ensures Valid()
      ensures r.Ok? <==> && SafePaths.ValidProviderName(provider) && (permitted == {} || provider in permitted)
                         && !Taken(old(Contents()), ns, moduleName, provider, None)
      ensures r.Err? ==> Contents() == old(Contents())
      ensures r.Err? ==> r.error == RefusedName(old(Contents()), ns, moduleName, provider, permitted)
      ensures r == Err(InvalidProviderName) <== !SafePaths.ValidProviderName(provider)
      ensures r.Ok? ==> ProviderCreated(old(Contents()), Contents(), ns, moduleName, provider)
                        && IsLive(Contents(), MakeName(ns, moduleName, provider), r.value)
    {
      ghost var before := Contents();
      UnresolvedIffUntaken(before, ns, moduleName, provider);
      var refused := NameError(provider, permitted);
      if refused.Some? {
        return Err(refused.value);
      }
      var duplicate := Find(MakeName(ns, moduleName, provider), permitted);
      if duplicate.Err? {
        return Err(duplicate.error);
      }
      if duplicate.value.Some? {
        return Err(DuplicateProvider);
      }
      UnusedIdExists(providers.Keys);
      var p: Id :| p !in providers;
      providers := providers[p := ProviderRow(ns, moduleName, provider, None)];
      audit := audit + [ProviderCreate(p)];
      assert Contents() == before.(providers := before.providers[p := ProviderRow(ns, moduleName, provider, None)],
                                   audit := before.audit + [ProviderCreate(p)]);
      CreateProviderKeepsInv(before, Contents(), ns, moduleName, provider);
      return Ok(p);
    }

    /**
     Gets the provider of a name: a live one, else one just created, else the
     target of a redirect. Creating has to be asked for and to be enabled.
     */
    method Get(ns: Id, moduleName: string, provider: string, permitted: set<string>,
               create: bool, includeRedirect: bool)
      returns (r: Result<Lookup>)
      requires Valid() && ns in namespaces
      modifies `audit, `providers
      ensures Valid()
      ensures !(r.Ok? && r.value.Created?) ==> Contents() == old(Contents())
      ensures NameError(provider, permitted).None? ==>
        forall p | p in old(providers) && old(providers)[p].ns == ns && old(providers)[p].provider == provider
                   && SameUpToCase(old(providers)[p].moduleName, moduleName) :: r == Ok(Found(p))
      ensures NameError(provider, permitted).Some? ==> r == Err(NameError(provider, permitted).value)
      ensures NameError(provider, permitted).None? ==>
        var t, name := old(Contents()), MakeName(ns, moduleName, provider);
        if Resolve(t, name).Some? && IsLive(t, name, Resolve(t, name).value) then r == Ok(Found(Resolve(t, name).value))
        else if create then
          if Resolve(t, name).Some? then r == Err(TakenError(t, name, permitted))
          else r.Ok? && r.value.Created? && ProviderCreated(t, Contents(), ns, moduleName, provider)
               && Resolve(Contents(), name) == Some(r.value.provider)
        else if !includeRedirect || Resolve(t, name).None? then r == Ok(Missing)
        else
          match Looked(t, name, permitted)
          case Err(error) => r == Err(error)
          case Ok(_) => r == Ok(Redirected(Resolve(t, name).value))
    {
      var refused := NameError(provider, permitted);
      if refused.Some? {
        return Err(refused.value);
      }
      var name := MakeName(ns, moduleName, provider);
      NamesOfRows(Contents(), ns, moduleName, provider);
      var live := FindLive(name);
      if live.Some? {
        ResolvesTo(Contents(), name, live.value);
        OneLive(Contents(), name, live.value);
        return Ok(Found(live.value));
      }
      UnresolvedIffUntaken(Contents(), ns, moduleName, provider);
      if create {
        var created := CreateProvider(ns, moduleName, provider, permitted);
        match created {
          case Err(error) => return Err(error);
          case Ok(p) =>
            ResolvesTo(Contents(), name, p);
            return Ok(Created(p));
        }
      }
      if includeRedirect {
        var redirected := Find(name, permitted);
        if redirected.Err? {
          return Err(redirected.error);
        }
        if redirected.value.Some? {
          return Ok(Redirected(redirected.value.value));
        }
      }
      return Ok(Missing);
    }

    /** Whether a provider may take a name, and if so whether that leaves a redirect behind. */
    method CheckRename(p: Id, name: Name, permitted: set<string>) returns (createRedirect: Result<bool>)
      requires Valid() && p in providers
      ensures createRedirect == if MayRename(Contents(), p, name) then Ok(providers[p].Name() != name)
                                else Err(TakenError(Contents(), name, permitted))
    {
      var duplicate := Find(name, permitted);
      if IsLive(Contents(), name, p) {
        ResolvesTo(Contents(), name, p);
      }
      match duplicate {
        case Err(error) => return Err(error);
        case Ok(None) => return Ok(true);
        case Ok(Some(q)) => return if q == p && providers[p].Name() == name then Ok(false) else Err(DuplicateProvider);
      }
    }

    /** Records every part of a name that changes. */
    method RecordRename(p: Id, row: ProviderRow, ns: Id, moduleName: string, provider: string)
      modifies `audit
      ensures audit == old(audit) + RenameEvents(p, row, ns, moduleName, provider)
    {
      if row.ns != ns {
        audit := audit + [UpdateNamespace(p, row.ns, ns)];
      }
      if row.moduleName != moduleName {
        audit := audit + [UpdateModuleName(p, row.moduleName, moduleName)];
      }
      if row.provider != provider {
        audit := audit + [UpdateProviderName(p, row.provider, provider)];
      }
    }

    /** Renames a module provider or moves it to another namespace. */
    method UpdateName(p: Id, ns: Id, moduleName: string, provider: string, permitted: set<string>)
      returns (r: Result<()>)
      requires Valid() && p in providers && ns in namespaces
      modifies `audit, `providers, `redirects
      ensures Valid()
      ensures r.Ok? <==> && SafePaths.ValidModuleName(moduleName) && SafePaths.ValidProviderName(provider)
                         && (permitted == {} || provider in permitted)
                         && !Taken(old(Contents()), ns, moduleName, provider, Some(p))
      ensures r.Err? ==> Contents() == old(Contents())
      ensures r.Err? ==> r.error == if !SafePaths.ValidModuleName(moduleName) then InvalidModuleName
                                    else RefusedName(old(Contents()), ns, moduleName, provider, permitted)
      ensures r.Ok? ==> Renamed(old(Contents()), Contents(), p, ns, moduleName, provider)
                        && Resolve(Contents(), MakeName(ns, moduleName, provider)) == Some(p)
                        && Resolve(Contents(), old(providers)[p].Name()) == Some(p)
    {
      ghost var before := Contents();
      var name := MakeName(ns, moduleName, provider);
      MayRenameIffUntaken(before, p, ns, moduleName, provider);
      if !SafePaths.ValidModuleName(moduleName) {
        return Err(InvalidModuleName);
      }
      var refused := NameError(provider, permitted);
      if refused.Some? {
        return Err(refused.value);
      }
      var createRedirect := CheckRename(p, name, permitted);
      if createRedirect.Err? {
        return Err(createRedirect.error);
      }
      var row := providers[p];
      RecordRename(p, row, ns, moduleName, provider);
      if createRedirect.value {
        UnusedIdExists(redirects.Keys);
        var id: Id :| id !in redirects;
        redirects := redirects[id := RedirectRow(row.ns, row.moduleName, row.provider, p)];
      }
      providers := providers[p := row.(ns := ns, moduleName := moduleName, provider := provider)];
      assert Renamed(before, Contents(), p, ns, moduleName, provider);
      RenamedNamesResolve(before, Contents(), p, ns, moduleName, provider);
      return Ok(());
    }

    /** The downloads that are the last of their token on the target and were made under the redirect's names. */
    method CheckRedirectUsage(r: Id, now: int, lookbackDays: int) returns (used: set<Id>)
      requires r in redirects
      ensures used == RedirectUsage.Usage(Contents(), r, now, lookbackDays)
    {
      var t := Contents();
      var redirect := redirects[r];
      // The greatest download id of every token on the target.
      var latest: map<Option<string>, Id> := map[];
      var remaining := set d | d in downloads && RedirectUsage.OnProvider(t, redirect.target, d);
      ghost var all := remaining;
      while remaining != {}
        invariant remaining <= all
        invariant forall d :: d in all - remaining ==>
          t.downloads[d].token in latest && d <= latest[t.downloads[d].token]
        invariant forall k :: k in latest ==> latest[k] in all && t.downloads[latest[k]].token == k
        decreases |remaining|
      {
        var d :| d in remaining;
        var token := downloads[d].token;
        if token !in latest || latest[token] < d {
          latest := latest[token := d];
        }
        remaining := remaining - {d};
      }
      used := set k | k in latest && RedirectUsage.UnderNames(t, redirect, downloads[latest[k]])
                      && RedirectUsage.InWindow(downloads[latest[k]].time, now, lookbackDays) :: latest[k];
      forall d
        ensures d in used <==> d in RedirectUsage.Usage(t, r, now, lookbackDays)
      {
        if RedirectUsage.OnProvider(t, redirect.target, d) {
          assert d in all;
          var k := t.downloads[d].token;
          assert RedirectUsage.LastForToken(t, redirect.target, d) <==> latest[k] == d by {
            assert RedirectUsage.OnProvider(t, redirect.target, latest[k]);
            if latest[k] == d {
              forall e | RedirectUsage.OnProvider(t, redirect.target, e) && t.downloads[e].token == k
                ensures e <= d
              {
                assert e in all;
              }
            }
          }
        }
      }
    }

    method IsInUse(r: Id, now: int, lookbackDays: int) returns (inUse: bool)
      requires r in redirects
      ensures inUse <==> RedirectUsage.Usage(Contents(), r, now, lookbackDays) != {}
      ensures inUse <==> exists d :: RedirectUsage.KeepsInUse(Contents(), redirects[r], now, lookbackDays, d)
      ensures forall earlier, before ::
                RedirectUsage.TokensMoved(earlier, Contents(), r, before, now, lookbackDays) ==> !inUse
      ensures lookbackDays >= 0 ==> (inUse <==> !RedirectUsage.OnlyUsedBefore(Contents(), r, now, lookbackDays))
    {
      var used := CheckRedirectUsage(r, now, lookbackDays);
      RedirectUsage.UsageMeans(Contents(), r, now, lookbackDays);
      if lookbackDays >= 0 {
        RedirectUsage.UnusedInWindowIff(Contents(), r, now, lookbackDays);
      }
      forall earlier, before | RedirectUsage.TokensMoved(earlier, Contents(), r, before, now, lookbackDays)
        ensures used == {}
      {
        RedirectUsage.MovedTokensFreeRedirect(earlier, Contents(), r, before, now, lookbackDays);
      }
      return used != {};
    }

    /** Deletes a redirect, unless it is in use and deletion is not forced. */
    method DeleteRedirect(r: Id, force: bool, allowForce: bool, now: int, lookbackDays: int) returns (res: Result<()>)
      requires Valid() && r in redirects
      modifies `audit, `redirects
      ensures Valid()
      ensures res.Err? ==> Contents() == old(Contents())
      ensures res.Err? ==> res.error == if force then ForceNotAllowed else RedirectInUse
      ensures res.Ok? <==> if force then allowForce
                           else RedirectUsage.Usage(old(Contents()), r, now, lookbackDays) == {}
      ensures !force ==>
        (res.Ok? <==> forall d :: !RedirectUsage.KeepsInUse(old(Contents()), old(redirects)[r], now, lookbackDays, d))
      ensures res.Ok? ==> RedirectDeleted(old(Contents()), Contents(), r)
      ensures !force && lookbackDays >= 0 ==>
        (res.Ok? <==> RedirectUsage.OnlyUsedBefore(old(Contents()), r, now, lookbackDays))
      ensures !force ==>
        forall earlier, before ::
          RedirectUsage.TokensMoved(earlier, old(Contents()), r, before, now, lookbackDays) ==> res.Ok?
    {
      ghost var before := Contents();
      if force && !allowForce {
        return Err(ForceNotAllowed);
      }
      if !force {
        var used := IsInUse(r, now, lookbackDays);
        if used {
          return Err(RedirectInUse);
        }
      }
      audit := audit + [RedirectDelete(r)];
      redirects := redirects - {r};
      assert RedirectDeleted(before, Contents(), r);
      DeleteRedirectKeepsInv(before, Contents(), r);
      return Ok(());
    }

    /** Deletes the versions of a module provider one after the other. */
    method DeleteAllVersions(p: Id)
      requires Valid() && p in providers
      modifies `audit, `providers, `versions, `downloads
      ensures Valid() && PartlyDeleted(old(Contents()), Contents(), p, {})
      ensures DeletionsRecorded(old(Contents()), audit, p, RowsOfProvider(old(Contents()), p))
    {
      ghost var before := Contents();
      var remaining := RowsOfProvider(Contents(), p);
      NoVersionsDeleted(before, p, remaining);
      NothingRecorded(before, p);
      ghost var all := remaining;
      assert all - remaining == {};
      while remaining != {}
        invariant Valid() && p in providers
        invariant PartlyDeleted(before, Contents(), p, remaining)
        invariant remaining <= all && DeletionsRecorded(before, audit, p, all - remaining)
        decreases remaining
      {
        var v :| v in remaining;
        ghost var earlier := Contents();
        assert IsRowOf(versions, p, versions[v].version, v);
        DeleteVersion(p, versions[v].version, true);
        DeletedOneMore(before, earlier, Contents(), p, remaining, v);
        RecordedOneMore(before, earlier.audit, p, all - remaining, v);
        assert all - remaining + {v} == all - (remaining - {v});
        remaining := remaining - {v};
      }
      assert all - remaining == RowsOfProvider(before, p);
    }

    /** Deletes a module provider: its versions, then the redirects to it, then the provider. */
    method DeleteProvider(p: Id)
      requires Valid() && p in providers
      modifies `audit, `providers, `versions, `downloads, `redirects
      ensures Valid() && ProviderDeleted(old(Contents()), Contents(), p)
    {
      ghost var before := Contents();
      DeleteAllVersions(p);
      ghost var emptied := Contents();
      audit := audit + [ProviderDelete(p)];
      redirects := map r | r in redirects && redirects[r].target != p :: redirects[r];
      providers := providers - {p};
      DeletedAtLast(before, emptied, Contents(), p);
    }

    // ---------- namespaces ----------

    method CreateNamespace(name: string) returns (r: Result<Id>)
      requires Valid()
      modifies `audit, `namespaces
      ensures Valid()
      ensures r.Err? ==> Contents() == old(Contents())
      ensures r.Err? ==> r.error == if SafePaths.ValidNamespaceName(name) then NamespaceExists else InvalidNamespaceName
      ensures r.Ok? <==> && SafePaths.ValidNamespaceName(name)
                         && forall n :: n in old(namespaces) ==> !SameUpToCase(old(namespaces)[n], name)
      ensures r.Ok? ==> NamespaceCreated(old(Contents()), Contents(), name)
    {
      ghost var before := Contents();
      FoldedApart(namespaces, name);
      if !SafePaths.ValidNamespaceName(name) {
        return Err(InvalidNamespaceName);
      }
      if n :| n in namespaces && Fold(namespaces[n]) == Fold(name) {
        return Err(NamespaceExists);
      }
      UnusedIdExists(namespaces.Keys);
      var ns: Id :| ns !in namespaces;
      namespaces := namespaces[ns := name];
      audit := audit + [NamespaceCreate(ns)];
      assert Contents() == before.(namespaces := before.namespaces[ns := name],
                                   audit := before.audit + [NamespaceCreate(ns)]);
      CreateNamespaceKeepsInv(before, Contents(), name);
      return Ok(ns);
    }

    /** Renames a namespace, leaving a redirect under its former name. */
    method RenameNamespace(ns: Id, name: string) returns (r: Result<()>)
      requires Valid() && ns in namespaces
      modifies `audit, `namespaces, `namespaceRedirects
      ensures Valid()
      ensures r.Err? ==> Contents() == old(Contents())
      ensures r.Err? ==> r.error == if SafePaths.ValidNamespaceName(name) then NamespaceExists else InvalidNamespaceName
      ensures r.Ok? <==> (name == old(namespaces)[ns] ||
                          (SafePaths.ValidNamespaceName(name) &&
                           forall n :: n in old(namespaces) && n != ns ==> !SameUpToCase(old(namespaces)[n], name)))
      ensures r.Ok? ==> if name == old(namespaces)[ns] then Contents() == old(Contents())
                        else NamespaceRenamed(old(Contents()), Contents(), ns, name)
    {
      ghost var before := Contents();
      if name == namespaces[ns] {
        return Ok(());
      }
      FoldedApart(namespaces, name);
      if !SafePaths.ValidNamespaceName(name) {
        return Err(InvalidNamespaceName);
      }
      if n :| n in namespaces && n != ns && Fold(namespaces[n]) == Fold(name) {
        return Err(NamespaceExists);
      }
      var former := namespaces[ns];
      UnusedIdExists(namespaceRedirects.Keys);
      var id: Id :| id !in namespaceRedirects;
      namespaceRedirects := namespaceRedirects[id := NamespaceRedirectRow(former, ns)];
      audit := audit + [NamespaceModifyName(ns, former, name)];
      namespaces := namespaces[ns := name];
      assert Contents() == before.(namespaces := before.namespaces[ns := name],
                                   namespaceRedirects :=
                                       before.namespaceRedirects[id := NamespaceRedirectRow(former, ns)],
                                   audit := before.audit + [NamespaceModifyName(ns, former, name)]);
      RenameNamespaceKeepsInv(before, Contents(), ns, name);
      return Ok(());
    }

    method HoldsModuleProviders(ns: Id) returns (inUse: bool)
      ensures inUse <==> HasProviders(Contents(), ns)
    {
      if p :| p in providers && providers[p].ns == ns {
        return true;
      }
      return false;
    }

    /** Removes what refers to a namespace: its former names, and the redirects under its names. */
    method DropNamesOf(ns: Id)
      modifies `namespaceRedirects, `redirects
      ensures namespaceRedirects == NamesElsewhere(old(namespaceRedirects), ns)
      ensures redirects == RedirectsElsewhere(old(redirects), ns)
    {
      namespaceRedirects := map n | n in namespaceRedirects && namespaceRedirects[n].ns != ns :: namespaceRedirects[n];
      redirects := map r | r in redirects && redirects[r].ns != ns :: redirects[r];
    }

    /** Deletes a namespace that holds neither module providers nor providers. */
    method DeleteNamespace(ns: Id, holdsProviders: bool) returns (r: Result<()>)
      requires Valid() && ns in namespaces
      modifies `audit, `namespaces, `namespaceRedirects, `redirects
      ensures Valid()
      ensures r.Err? ==> Contents() == old(Contents()) && r.error == NamespaceNotEmpty
      ensures r.Ok? <==> !HasProviders(old(Contents()), ns) && !holdsProviders
      ensures r.Ok? ==> NamespaceDeleted(old(Contents()), Contents(), ns)
    {
      ghost var before := Contents();
      var inUse := HoldsModuleProviders(ns);
      if inUse || holdsProviders {
        return Err(NamespaceNotEmpty);
      }
      audit := audit + [NamespaceDelete(ns)];
      DropNamesOf(ns);
      namespaces := namespaces - {ns};
      assert NamespaceDeleted(before, Contents(), ns);
      DeleteNamespaceKeepsInv(before, Contents(), ns);
      return Ok(());
    }
  }

  lemma FoldedApart(namespaces: map<Id, string>, name: string)
    ensures forall n :: n in namespaces ==> (Fold(namespaces[n]) == Fold(name) <==> SameUpToCase(namespaces[n], name))
  {
    forall n | n in namespaces
      ensures Fold(namespaces[n]) == Fold(name) <==> SameUpToCase(namespaces[n], name)
    {
      FoldIdentifiesCase(namespaces[n], name);
    }
  }

  /** The former row of a version is gone, its downloads are still there, and the pointer is right without it. */
  ghost predicate Emptied(t: Tables, t': Tables, p: Id, prior: Option<Id>) {
    && t'.versions == Without(t.versions, prior) && t'.downloads == t.downloads
    && OnlyLatestMoved(t.providers, t'.providers, p) && IsLatest(t'.versions, p, t'.providers[p].latest)
    && t'.redirects == t.redirects && t'.namespaces == t.namespaces && t'.namespaceRedirects == t.namespaceRedirects
  }

  lemma DroppedIsPrior(t: Tables, t': Tables, p: Id, version: Version)
    requires Inv(t) && exists v: Id :: IsRowOf(t.versions, p, version, v) && RowDropped(t, t', v, false)
    ensures Emptied(t, t', p, FindVersion(t.versions, p, version))
    ensures t'.audit == t.audit + [VersionDelete(p, version)]
  {
    var v: Id :| IsRowOf(t.versions, p, version, v) && RowDropped(t, t', v, false);
    OneRow(t, p, version, v, FindVersion(t.versions, p, version).value);
  }

  lemma RowJustIndexed(t: Tables, t': Tables, p: Id, version: Version, row: Id)
    requires Inv(t) && IndexedAs(t, t', p, version, false, row)
    ensures forall v: Id :: IsRowOf(t'.versions, p, version, v) <==> v == row
    ensures IsRowOf(t'.versions, p, version, row)
  {
    InvParts(t);
    RowsMean(t);
    IndexKeepsOtherRows(t, t', p, version, false, row);
  }

  lemma OnlyNewRow(t: Tables, emptied: Tables, t': Tables, p: Id, version: Version, row: Id)
    requires Inv(t) && emptied.versions == Without(t.versions, FindVersion(t.versions, p, version))
    requires t'.versions == emptied.versions[row := VersionRow(p, version, false, version.beta)]
    ensures forall v: Id :: IsRowOf(t'.versions, p, version, v) <==> v == row
    ensures IsRowOf(t'.versions, p, version, row)
  {
    InvParts(t);
    RowsMean(t);
    var prior := FindVersion(t.versions, p, version);
    forall v: Id | v in emptied.versions
      ensures !IsRowOf(t.versions, p, version, v)
    {
      assert prior.Some? ==> IsRowOf(t.versions, p, version, prior.value);
    }
    forall v: Id | IsRowOf(t'.versions, p, version, v)
      ensures v == row
    {
      assert v != row ==> v in emptied.versions && IsRowOf(t.versions, p, version, v);
    }
  }

  /** Once the former row is gone, inserting an unpublished row and moving the downloads completes the indexing. */
  lemma IndexedAfterInsert(t: Tables, emptied: Tables, t': Tables, p: Id, version: Version, row: Id)
    requires var prior := FindVersion(t.versions, p, version);
             && Emptied(t, emptied, p, prior)
             && row !in emptied.versions
             && t'.versions == emptied.versions[row := VersionRow(p, version, false, version.beta)]
             && t'.downloads == (if prior.Some? then Repointed(t.downloads, prior, row) else t.downloads)
    requires t'.providers == emptied.providers && t'.redirects == emptied.redirects
    requires t'.namespaces == emptied.namespaces && t'.namespaceRedirects == emptied.namespaceRedirects
    ensures IndexedAs(t, t', p, version, false, row)
  {
    assert forall v :: IsCandidate(t'.versions, p, v) <==> IsCandidate(emptied.versions, p, v);
    assert Repointed(t.downloads, None, row) == t.downloads;
  }

  /** The rule on the pointer's foreign key: pointers to a deleted row become empty. */
  function PointersCleared(providers: map<Id, ProviderRow>, v: Id): map<Id, ProviderRow> {
    map q | q in providers :: if providers[q].latest == Some(v) then providers[q].(latest := None) else providers[q]
  }

  /** Only the provider of a version points at its row. */
  lemma ClearedPointersAreOwn(t: Tables, p: Id, v: Id, latest: Option<Id>)
    requires LatestOk(t) && p in t.providers && v in t.versions && t.versions[v].provider == p
    ensures PointersCleared(t.providers, v)[p := t.providers[p].(latest := latest)]
            == t.providers[p := t.providers[p].(latest := latest)]
    ensures PointersCleared(t.providers, v)[p].(latest := latest) == t.providers[p].(latest := latest)
  {
    forall q | q in t.providers && q != p
      ensures t.providers[q].latest != Some(v)
    {
      assert IsLatest(t.versions, q, t.providers[q].latest);
    }
  }

  lemma DroppedRow(t: Tables, t': Tables, p: Id, v: Id, latest: Option<Id>, dropDownloads: bool)
    requires Inv(t) && p in t.providers && v in t.versions && t.versions[v].provider == p
    requires t'.versions == t.versions - {v} && IsLatest(t'.versions, p, latest)
    requires t'.downloads == if dropDownloads
                             then map d | d in t.downloads && t.downloads[d].version != v :: t.downloads[d]
                             else t.downloads
    requires var cleared := PointersCleared(t.providers, v); t'.providers == cleared[p := cleared[p].(latest := latest)]
    requires t'.redirects == t.redirects && t'.namespaces == t.namespaces
    requires t'.namespaceRedirects == t.namespaceRedirects
    requires t'.audit == t.audit + [VersionDelete(p, t.versions[v].version)]
    ensures RowDropped(t, t', v, dropDownloads)
    ensures dropDownloads ==> Inv(t')
  {
    InvParts(t);
    RowsMean(t);
    ClearedPointersAreOwn(t, p, v, latest);
    assert t'.providers[p].latest == latest;
    if dropDownloads {
      DeleteVersionKeepsInv(t, t', v);
    }
  }

  lemma RedirectHasTarget(t: Tables, name: Name, p: Id)
    requires Inv(t) && exists r :: IsRedirect(t, name, r) && t.redirects[r].target == p
    ensures p in t.providers && !IsLive(t, name, p)
  {
    InvParts(t);
    NamesMean(t);
  }

  lemma RenamedNamesResolve(t: Tables, t': Tables, p: Id, ns: Id, moduleName: string, provider: string)
    requires Inv(t) && Renamed(t, t', p, ns, moduleName, provider)
    ensures Inv(t') && Resolve(t', MakeName(ns, moduleName, provider)) == Some(p)
    ensures Resolve(t', t.providers[p].Name()) == Some(p)
  {
    RenameKeepsInv(t, t', p, ns, moduleName, provider);
    var added := RenameMovesName(t, t', p, ns, moduleName, provider);
    var name, former := MakeName(ns, moduleName, provider), t.providers[p].Name();
    assert IsLive(t', name, p);
    ResolvesTo(t', name, p);
    ResolvesTo(t', former, p);
    if added.Some? {
      assert IsRedirect(t', former, added.value);
    }
  }

  // ---------- deleting a provider's versions one by one ----------

  ghost predicate PartlyDeleted(t: Tables, t': Tables, p: Id, remaining: set<Id>) {
    && OnlyLatestMoved(t.providers, t'.providers, p)
    && (forall v :: v in remaining ==> v in t.versions && t.versions[v].provider == p)
    && t'.versions == (map v | v in t.versions && (t.versions[v].provider != p || v in remaining) :: t.versions[v])
    && t'.downloads == (map d | d in t.downloads && t.downloads[d].version in t'.versions :: t.downloads[d])
    && t'.redirects == t.redirects && t'.namespaces == t.namespaces && t'.namespaceRedirects == t.namespaceRedirects
  }

  lemma RecordedOneMore(t: Tables, audit: seq<AuditEvent>, p: Id, gone: set<Id>, v: Id)
    requires (forall w :: w in gone ==> w in t.versions) && DeletionsRecorded(t, audit, p, gone)
    requires v in t.versions && v !in gone
    ensures DeletionsRecorded(t, audit + [VersionDelete(p, t.versions[v].version)], p, gone + {v})
  {
    var order :| Lists(order, gone) && audit == t.audit + Deletions(t, p, order);
    var longer := order + [v];
    assert Lists(longer, gone + {v});
    assert Deletions(t, p, longer) == Deletions(t, p, order) + [VersionDelete(p, t.versions[v].version)];
  }

  lemma NothingRecorded(t: Tables, p: Id)
    ensures DeletionsRecorded(t, t.audit, p, {})
  {
    assert Lists([], {}) && t.audit == t.audit + Deletions(t, p, []);
  }

  lemma NoVersionsDeleted(t: Tables, p: Id, remaining: set<Id>)
    requires Inv(t) && p in t.providers
    requires remaining == RowsOfProvider(t, p)
    ensures PartlyDeleted(t, t, p, remaining)
  {
    InvParts(t);
    RowsMean(t);
  }

  lemma DeletedOneMore(t: Tables, t1: Tables, t2: Tables, p: Id, remaining: set<Id>, v: Id)
    requires Inv(t1) && PartlyDeleted(t, t1, p, remaining) && v in remaining
    requires exists w: Id :: IsRowOf(t1.versions, p, t1.versions[v].version, w) && RowDropped(t1, t2, w, true)
    ensures PartlyDeleted(t, t2, p, remaining - {v})
  {
    var w: Id :| IsRowOf(t1.versions, p, t1.versions[v].version, w) && RowDropped(t1, t2, w, true);
    assert IsRowOf(t1.versions, p, t1.versions[v].version, v);
    OneRow(t1, p, t1.versions[v].version, v, w);
    assert t1.versions[v] == t.versions[v];
    DroppedRows(t, t1, t2, p, remaining, v);
    assert OnlyLatestMoved(t.providers, t2.providers, p);
  }

  lemma DroppedRows(t: Tables, t1: Tables, t2: Tables, p: Id, remaining: set<Id>, v: Id)
    requires PartlyDeleted(t, t1, p, remaining) && v in remaining
    requires t2.versions == t1.versions - {v}
    requires t2.downloads == map d | d in t1.downloads && t1.downloads[d].version != v :: t1.downloads[d]
    ensures t2.versions ==
                  map u | u in t.versions && (t.versions[u].provider != p || u in remaining - {v}) :: t.versions[u]
    ensures t2.downloads == map d | d in t.downloads && t.downloads[d].version in t2.versions :: t.downloads[d]
  {
  }

  lemma DeletedAtLast(t: Tables, emptied: Tables, t': Tables, p: Id)
    requires Inv(t) && p in t.providers && PartlyDeleted(t, emptied, p, {})
    requires t'.providers == emptied.providers - {p} && t'.versions == emptied.versions
    requires t'.downloads == emptied.downloads
    requires t'.redirects == map r | r in t.redirects && t.redirects[r].target != p :: t.redirects[r]
    requires t'.namespaces == t.namespaces && t'.namespaceRedirects == t.namespaceRedirects
    requires DeletionsRecorded(t, emptied.audit, p, RowsOfProvider(t, p))
    requires t'.audit == emptied.audit + [ProviderDelete(p)]
    ensures ProviderDeleted(t, t', p) && Inv(t')
  {
    assert t'.audit[..|t'.audit| - 1] == emptied.audit;
    assert t'.providers == t.providers - {p};
    assert t'.versions == map v | v in t.versions && t.versions[v].provider != p :: t.versions[v];
    DeleteProviderKeepsInv(t, t', p);
  }

  // ---------- publishing ----------

  /** If publishing a row does not make it the greatest, the former pointer is still right. */
  lemma PointerSurvivesPublish(t: Tables, versions: map<Id, VersionRow>, v: Id, latest: Option<Id>)
    requires Inv(t) && v in t.versions && t.versions[v].provider in t.providers
    requires versions == t.versions[v := t.versions[v].(published := true)]
    requires var p := t.versions[v].provider;
             IsLatest(versions, p, latest) && (latest.Some? ==> versions[latest.value].version != t.versions[v].version)
    ensures var p := t.versions[v].provider; IsLatest(versions, p, t.providers[p].latest)
  {
    var p := t.versions[v].provider;
    LatestIsRight(t, p);
    assert forall w :: w != v ==> (IsCandidate(versions, p, w) <==> IsCandidate(t.versions, p, w));
    if latest.Some? {
      assert latest.value != v && IsCandidate(t.versions, p, latest.value);
    }
  }

}
