# Terrareg: a verified model

Terrareg is a registry of Terraform modules and providers. This project models the parts of it whose
correctness takes an argument, and proves what they promise.

* **The registry's tables** (`RegistryTables`, `RegistryInvariants`, `RegistryRuns`, `RedirectUsage`, `Registry`,
  `BitbucketHook`). `Registry.Registry` is a class with one field per table and one method per operation:
  import, publish, delete, rename, download, redirect deletion, and transactions with savepoints. Each operation is
  specified by a relation between the tables before and after it (`Imported`, `Renamed`, `ProviderDeleted`, ...), in
  which row ids and the choice among equally late versions are the database's. The invariant `Inv` says that a provider
  has at most one row per version, that the hand-kept pointer to the latest version is right, that every download points
  at an existing row although no foreign key says so, that live names and redirects never collide, that redirects
  have a target, and that namespace names differ up to case. It is proved of every state of every run, and with it what
  happens to names and downloads over runs.
* **The provider twin** (`ProviderIndex`, `ReleasePager`, `ReleaseRefresh`). Releases are collected page by page and
  indexed one transaction each, with a limit and with failures; `ReleaseRefresh` composes the two over time.
* **Paths and module sources** (`Paths`, `ModuleSources`, `SafePaths`). The path normaliser is proved to keep the meaning
  of a path and to be canonical; nested module sources are proved to compose along the chain of parents; the string test
  for containment in a directory is proved to be containment.
* **Git tags** (`VersionText`, `GitTags`). A template prints a version as a tag, and the pattern made from the same
  template reads a tag back; both directions are proved, with the exact conditions.
* **Version constraints** (`SemVer`, `VersionConstraint`). Section 11 of Semantic Versioning 2.0.0, and the evaluator of
  comma-separated constraints against a reference meaning, a printer and convexity.
* **Analytics** (`TokenVersions`, `TokenDownloads`, `VersionStatistics`). The version in use per token, and the counts of
  major, minor and patch releases.

`Text`, `Decimal` and `Rows` hold what these share. `dafny verify dfyconfig.toml` checks the whole project.

Where the code departs from what it promises, the model follows the code. A lemma says when the promise holds, and
another one shows an input where it does not:

* A template's pattern also matches a tag with one final line feed, and an accepted version may have superfluous leading
  zeros, which the printer refuses: `GitTags.ReprintReadTag`, with `GitTags.FinalNewlineIsDropped` and
  `GitTags.LeadingZeroIsNotPrinted`. A pushed tag that cannot be printed for cloning aborts the push.
* The unescaped dot of the whole-version pattern admits tags whose version is then rejected, which aborts the push:
  `GitTags.ReadVersionAcceptedIff` and `GitTags.AcceptedIffSecondDot`, with `GitTags.UnescapedDotMatches`.
* A base with a scheme, such as `https://host/repo//sub`, is cut at the scheme: `ModuleSources.BaseKeptIffPlain`, with
  `ModuleSources.SchemeIsCut`.
* Below a local module, a registry or git address becomes a local path, and below a remote one a path in the same base:
  `ModuleSources.RightIffChildIsLocal` and `ModuleSources.OtherAddressIsLost`.
* Below a remote module, a query that contains a question mark is lost: `ModuleSources.SecondQueryIsLost`; an absolute
  child replaces its parent's path: `ModuleSources.AbsoluteChildReplaces`.
* A listed top-level module that is no call of the root module is dropped, so that its children are resolved without
  a parent: `ModuleSources.ParentMissingIff`, with `ModuleSources.UnlistedParentIsMissing`.
* `terrareg/config.py:271` says that a look-back window of zero days lets redirects always be removed; the code still
  counts downloads stamped at the present moment or later: `RedirectUsage.UnusedInWindowIff` and
  `Registry.Registry.DeleteRedirect`, with `RedirectUsage.ZeroDaysRefused`.
* `terrareg/config.py:434` allows a single authentication key without an environment; the token map then fails for all
  rows: `TokenVersions.GetTokenVersions`, with `TokenVersions.SinglePlainKeyFails`. It also fails when a token is first
  seen in an environment that is no longer configured: `TokenVersions.FailsIff`, with
  `TokenVersions.RemovedEnvironmentFails`.
* A tag that fails and is imported later in the same push is reported as a success, while the answer is an error:
  `BitbucketHook.FailureHiddenIff` and `BitbucketHook.DistinctTagsShowFailures`, with
  `BitbucketHook.PushedTwiceHidesFailure`.
* A negative limit indexes one release: `ProviderIndex.RefreshReturnsFirst`.
* A provider version that is not the latest when it is indexed never gets a publishing date:
  `ProviderIndex.DatedIfGreatest`.
* Releases that a refresh did not get to, or skipped, are lost to later refreshes once a newer one is indexed:
  `ReleaseRefresh.UnreachedReleasesAreLost` and `ReleaseRefresh.BehindIndexedIsLost`, with
  `ReleaseRefresh.LimitOfOneLosesTheOlder`.

## Model

| member | source | states |
|---|---|---|
| Registry.Registry.StartTransaction | terrareg/database.py:895-902 | there is at most one outer transaction; starting it remembers the tables |
| Registry.Registry.Commit | terrareg/database.py:952-992 | ends the innermost savepoint and keeps what was done in it |
| Registry.Registry.Rollback | terrareg/database.py:904-922 | restores every table to what it was when the innermost savepoint began |
| Registry.Registry.CalculateLatestVersion | terrareg/models.py:3126-3150 | finds nothing exactly when no published non-beta version exists, otherwise one that is older than no other by the three numbers written in the version texts |
| RegistryTables.LatestIffNewest | terrareg/models.py:3126-3150 | the pointer is right exactly if it is right by the numbers written in the version texts |
| Registry.Registry.Publish | terrareg/models.py:4246-4264 | marks one row, and leaves the latest pointer or moves it to that row so that it is a maximum |
| Registry.Registry.DeleteVersion | terrareg/models.py:4403-4463 | removes one row, its downloads if asked to, and makes the pointer right for what is left |
| Registry.Registry.CreateDbRow | terrareg/models.py:4465-4508 | refuses exactly an existing version under PROHIBIT, changing nothing; otherwise replaces the row, hands its downloads over, and tells whether to publish |
| Registry.Registry.PrepareModule | terrareg/models.py:4362-4377 | the replacement and its audit event, keeping the invariant |
| Registry.Registry.ImportVersion | terrareg/models.py:4350-4377 | the whole import for each way extraction can end; refused imports change nothing |
| Registry.Registry.MigrateAnalytics | terrareg/analytics.py:468-478 | every download of one row points at the other, no other download changes |
| Registry.Registry.DeleteAnalytics | terrareg/analytics.py:458-466 | removes exactly the downloads of a row |
| Registry.Registry.RecordDownload | terrareg/analytics.py:127-167 | adds one row under an unused id, keeping the invariant |
| Registry.Registry.Find | terrareg/models.py:2093-2135 | a live provider wins over a redirect; the redirected provider's own name is checked again |
| Registry.Registry.CreateProvider | terrareg/models.py:2292-2326 | succeeds exactly for a valid and permitted name that no module provider and no redirect has up to the case of the module name; otherwise which error, and nothing changes |
| RegistryTables.FoldIdentifiesCase | terrareg/models.py:2612-2618 | names are looked up alike exactly if they differ at most in the case of ASCII letters |
| RegistryTables.SameNameIff | terrareg/models.py:2612-2618 | two module providers have one name exactly if namespace and provider are the same and the module names are up to case |
| RegistryTables.UnresolvedIffUntaken | terrareg/models.py:2292-2304 | a name stands for nothing exactly if no row has it up to case |
| Registry.Registry.Get | terrareg/models.py:2328-2357 | the outcome for every combination of live provider, redirect, creation and name check; a live provider is found in any case of the module name |
| Registry.Registry.CheckRename | terrareg/models.py:2493-2510 | a name may be taken exactly if it resolves to nothing or is the provider's own up to case, in which case no redirect is made |
| Registry.Registry.UpdateName | terrareg/models.py:2485-2539 | succeeds exactly if no other module provider and no redirect has the name up to case; both the new and the former name then resolve to the provider; refused renames change nothing and say why |
| Registry.Registry.CheckRedirectUsage | terrareg/analytics.py:302-364 | the query returns exactly the downloads that are last for their token, made under the redirect's names and inside the window |
| Registry.Registry.DeleteRedirect | terrareg/models.py:2211-2238 | an unforced deletion succeeds exactly unless the newest download of some token on the target was made inside the window under the names of the redirect, where all names the namespace has had count; hence with a window of zero or more days exactly when all uses are older, and always once all tokens have moved; a forced one exactly when forcing is allowed |
| Registry.Registry.DeleteProvider | terrareg/models.py:2626-2664 | removes the provider, its versions, their downloads and the redirects to it, and nothing else, and records the deletion of every version and then of the provider |
| Registry.Registry.CreateNamespace | terrareg/models.py:871-897 | succeeds exactly for a valid name that equals no name of a namespace up to the case of ASCII letters |
| Registry.Registry.RenameNamespace | terrareg/models.py:1145-1172 | keeps the former name as a redirect; the same name is no change |
| Registry.Registry.DeleteNamespace | terrareg/models.py:1285-1312 | succeeds exactly for an empty namespace, and removes the redirects under its names |
| RegistryInvariants.ImportKeepsInv | terrareg/models.py:4350-4508 | an import keeps the invariant, also when it replaces the latest version or reuses its id |
| RegistryInvariants.ImportIsPossible | terrareg/models.py:4350-4508 | a version that may be indexed can be imported, whatever the tables |
| RegistryInvariants.MayIndexIff | terrareg/models.py:4474-4480 | a version may be indexed exactly unless the mode is PROHIBIT and the provider has it |
| RegistryInvariants.ReindexPolicy | terrareg/models.py:4474-4508 | one row of the version text afterwards, published exactly by configuration or because it replaces a published one under AUTO_PUBLISH; all other rows are the same |
| RegistryInvariants.OneRowPerText | terrareg/models.py:4012-4025 | a provider has at most one row of a version text |
| RegistryInvariants.PublishKeepsInv | terrareg/models.py:4246-4264 | publishing keeps the invariant |
| RegistryInvariants.DeleteVersionKeepsInv | terrareg/models.py:4403-4463 | deleting a version keeps the invariant, also for the latest one |
| RegistryInvariants.ImportConservesDownloads | terrareg/analytics.py:468-478 | an import conserves the downloads of every version of every provider exactly, and changes them in nothing but the row they point at |
| RegistryInvariants.DeleteVersionDropsItsDownloads | terrareg/analytics.py:458-466 | deleting a version removes its own downloads and no others |
| RegistryInvariants.RenameMovesName | terrareg/models.py:2485-2539 | after a rename the new name is live, the former one a redirect unless only its case changed, and no other name changes |
| RegistryInvariants.MayRenameIffUntaken | terrareg/models.py:2493-2510 | a provider may take a name exactly if no other provider and no redirect has it up to case |
| RegistryInvariants.RenameKeepsInv | terrareg/models.py:2485-2539 | renaming keeps names unique and redirects anchored |
| RegistryInvariants.CreateProviderKeepsInv | terrareg/models.py:2292-2326 | creating a provider keeps names unique and apart from redirects |
| RegistryInvariants.DeleteProviderKeepsInv | terrareg/models.py:2626-2664 | deleting a provider keeps the invariant: no version, download or redirect is left that refers to it |
| RegistryInvariants.ResolvesTo | terrareg/models.py:2328-2357 | a name resolves to a provider exactly if it is the live one of that name or the target of the redirect of that name |
| RegistryRuns.RunKeepsInv | terrareg/models.py:4246-4508 | the invariant holds in every state of every run of all operations |
| RegistryRuns.LatestIsMaximumInEveryRun | terrareg/models.py:3126-3150 | in every run from the empty registry a provider has at most one row of each version text, which is an accepted one, the pointer is empty exactly when no published text is without a suffix and otherwise points at one of these that is older than no other, and no download dangles |
| RegistryRuns.ResolutionPersistsIff | terrareg/models.py:2093-2135 | a resolving name keeps its provider through an operation exactly unless that deletes the provider, the redirect or the name's namespace |
| RegistryRuns.HeldNamesKeepResolving | terrareg/models.py:2485-2539 | every name a provider has ever held resolves to it in one step, over any run that does not forget it |
| RegistryRuns.HeldNameIsNotReused | terrareg/models.py:2292-2326 | no other provider gets a name that still resolves |
| RegistryRuns.DownloadPersistsIff | terrareg/analytics.py:458-478 | a download stays recorded for its version through an operation exactly unless that deletes the version or its provider |
| RegistryRuns.DownloadsSurvive | terrareg/analytics.py:458-478 | a download stays recorded for its version over any run that does not delete that version or its provider |
| RedirectUsage.ImportKeepsUsage | terrareg/analytics.py:302-364 | re-indexing any version does not change what uses a redirect |
| RedirectUsage.MovedTokensFreeRedirect | terrareg/analytics.py:302-364 | once every token using a redirect has downloaded the target again, and no newest download of a token is under the redirect's names, nothing uses it any more |
| RedirectUsage.UnusedInWindowIff | terrareg/analytics.py:353-359 | nothing uses a redirect within a window exactly when all downloads that use it at all are older |
| RedirectUsage.UsageMeans | terrareg/analytics.py:302-364 | what uses a redirect, written out over the tables: newest of its token, names up to case, current or former namespace name, window in seconds |
| RedirectUsage.FormerNamespaceRefused | terrareg/analytics.py:306-312 | valid tables with a renamed namespace in which a download under its former name keeps the redirect in use |
| RedirectUsage.ZeroDaysRefused | terrareg/models.py:2211-2238 | valid tables in which the redirect is in use with a window of zero days, so that deleting it is refused |
| BitbucketHook.ImportTag | terrareg/server/api/module_version_create_bitbucket_hook.py:88-109 | a tag is imported in a savepoint; a registry error restores the tables, even after the former row was deleted |
| BitbucketHook.ProcessPush | terrareg/server/api/module_version_create_bitbucket_hook.py:56-109 | which changes are ignored, which abort the request, and what an import does |
| BitbucketHook.ProcessAll | terrareg/server/api/module_version_create_bitbucket_hook.py:53-109 | the changes are processed in order until one aborts |
| BitbucketHook.Post | terrareg/server/api/module_version_create_bitbucket_hook.py:19-121 | the final tables are those of the processed changes, an abort restores the tables from before the request, the answer is an error exactly when some import failed, both the attempts and whether the request aborts follow from the pushes and the versions there were, changes that push no tag have no influence, and a tag that cannot be printed aborts |
| BitbucketHook.PushedIff | terrareg/server/api/module_version_create_bitbucket_hook.py:56-83 | a change is attempted or aborts the request exactly if it is an added or updated tag whose reference the template reads |
| BitbucketHook.OnlyPushedCount | terrareg/server/api/module_version_create_bitbucket_hook.py:56-83 | leaving out all other changes changes neither the attempts, nor whether the request aborts, nor the tables |
| BitbucketHook.UnprintableAborts | terrareg/models.py:3804-3814 | a pushed version that may be indexed but cannot be printed aborts the request, however extracting it would end |
| BitbucketHook.OnlySuccessesCount | terrareg/server/api/module_version_create_bitbucket_hook.py:88-109 | the final tables are those of importing only the successful tags, in order |
| BitbucketHook.RequestIsRun | terrareg/server/api/module_version_create_bitbucket_hook.py:53-109 | a whole request is a run of the registry that imports the successful tags in order |
| BitbucketHook.RequestKeepsNamesAndDownloads | terrareg/server/api/module_version_create_bitbucket_hook.py:53-109 | after a request every live name still resolves to its provider, and every download belongs to the version it belonged to |
| BitbucketHook.InvariantAfterEveryTag | terrareg/server/api/module_version_create_bitbucket_hook.py:53-109 | the registry's invariant holds after every tag |
| BitbucketHook.LogIsOutcomes | terrareg/server/api/module_version_create_bitbucket_hook.py:56-109 | the attempts and their outcomes are decided by the pushes, the re-index mode and the versions there were |
| BitbucketHook.OneAttemptPerTag | terrareg/server/api/module_version_create_bitbucket_hook.py:56-109 | there is one attempt per readable tag, in order |
| BitbucketHook.ReportIsLastOutcome | terrareg/server/api/module_version_create_bitbucket_hook.py:95-109 | the report names every attempted version with the outcome of its last attempt |
| BitbucketHook.FailureHiddenIff | terrareg/server/api/module_version_create_bitbucket_hook.py:95-109 | a failed import is not reported as failed exactly if a later attempt of its version is the last one and succeeds |
| BitbucketHook.FailureShownIff | terrareg/server/api/module_version_create_bitbucket_hook.py:95-109 | the report shows a failure exactly when the last attempt of some version failed |
| BitbucketHook.DistinctTagsShowFailures | terrareg/server/api/module_version_create_bitbucket_hook.py:95-121 | if the pushed versions are distinct, the report shows a failure exactly when the answer is an error |
| BitbucketHook.HiddenFailureHappens | terrareg/server/api/module_version_create_bitbucket_hook.py:95-121 | wherever a version may be indexed, the hook can hide its failure behind a later success |
| BitbucketHook.PushedTwiceReadsAs | terrareg/server/api/module_version_create_bitbucket_hook.py:56-83 | two changes of one readable and printable tag are two attempts of its version |
| BitbucketHook.PushedTwiceHidesFailure | terrareg/server/api/module_version_create_bitbucket_hook.py:56-121 | such a tag that fails at first and is extracted then hides its failure |
| ProviderIndex.ProviderIndex.CalculateLatestVersion | terrareg/provider_model.py:296-322 | finds nothing exactly when all versions are betas, otherwise one that is older than no other by the numbers written in the texts |
| ProviderIndex.ProviderIndex.PrepareVersion | terrareg/provider_version_model.py:332-355 | inserts exactly a version that does not exist yet, otherwise changes nothing |
| ProviderIndex.ProviderIndex.Publish | terrareg/provider_version_model.py:217-226 | the new row becomes the latest and gets its date exactly together, and the pointer is a maximum in either case |
| ProviderIndex.ProviderIndex.CreateVersion | terrareg/provider_model.py:343-354 | a version is added whole, or nothing changes |
| ProviderIndex.ProviderIndex.IndexVersion | terrareg/provider_model.py:324-356 | which way indexing ends, in the order the failures are found; only a new, signed and extractable release changes anything |
| ProviderIndex.ProviderIndex.RefreshVersions | terrareg/provider_model.py:358-411 | where the refresh stops and why, which versions it returns, and that exactly those were added, also when it raises |
| ProviderIndex.GrowthKeepsInv | terrareg/provider_version_model.py:217-226 | adding versions keeps them unique and the pointer right |
| ProviderIndex.GrownVersions | terrareg/provider_model.py:370-411 | the versions afterwards are those before and those returned, which are new and distinct |
| ProviderIndex.GrowthKeepsRows | terrareg/provider_version_model.py:332-355 | no existing row, and no other provider's pointer, changes |
| ProviderIndex.RunKeepsInv | terrareg/provider_model.py:296-411 | after any sequence of calls versions are unique and every pointer is a maximum |
| ProviderIndex.LatestIsMaximumInEveryRun | terrareg/provider_model.py:296-411 | after any sequence of calls every version text is accepted and has at most one row, and every pointer is empty exactly if all texts have a suffix, and otherwise points at one without that is older than no other |
| ProviderIndex.IndexingIsCall | terrareg/provider_model.py:324-356 | indexing a single version is one of the calls of a run |
| ProviderIndex.RefreshReturnsFirst | terrareg/provider_model.py:407-411 | an uninterrupted refresh returns the first new versions of the listing, as many as the limit allows; zero means no limit, a negative limit one |
| ProviderIndex.RefreshRaisesIff | terrareg/provider_model.py:372-405 | a refresh raises exactly if some release raises before the limit is reached |
| ProviderIndex.FailedReleasesLeaveNoTrace | terrareg/provider_model.py:398-402 | releases that are unsigned or fail have no influence on what is added |
| ProviderIndex.LateOlderVersionIsUndated | terrareg/provider_version_model.py:217-226 | an older version indexed later gets no publishing date and leaves the pointer |
| ProviderIndex.DatedIfGreatest | terrareg/provider_version_model.py:217-226 | only a version that is no beta and that no candidate exceeds is dated, and one above all candidates always is |
| ReleasePager.GetNewReleases | terrareg/provider_source/github.py:356-406 | returns the new releases before the first indexed one, or nothing exactly if a page that is needed cannot be fetched |
| ReleasePager.CollectPage | terrareg/provider_source/github.py:386-399 | collects a page up to the first indexed release and tells whether there was one |
| ReleasePager.CollectedIff | terrareg/provider_source/github.py:386-399 | a release is collected exactly when it is new and no release before it is indexed |
| ReleasePager.OlderReleasesAreIgnored | terrareg/provider_source/github.py:394-396 | nothing listed after an indexed release is collected, even if it was never indexed |
| ReleaseRefresh.CollectedIffNoneIndexed | terrareg/provider_source/github.py:386-399 | a listed release is collected exactly if neither it nor any release before it is indexed |
| ReleaseRefresh.BehindIndexedIsLost | terrareg/provider_source/github.py:394-396 | what is listed after an indexed release is lost to every later refresh, however the listing grows |
| ReleaseRefresh.IndexedBeforeUnreached | terrareg/provider_model.py:358-411 | a refresh that added something has indexed a release listed before all those it did not get to |
| ReleaseRefresh.UnreachedReleasesAreLost | terrareg/provider_model.py:358-411 | the releases a refresh left because of its limit or an exception are never collected again once it added something |
| ReleaseRefresh.NothingLeftToFind | terrareg/provider_model.py:358-411 | if the first release seen is indexed, refreshing the same listing finds nothing |
| ReleaseRefresh.LimitOfOneLosesTheOlder | terrareg/provider_model.py:407-411 | with a limit of one, a refresh of two new releases adds the newer one and loses the older one |
| Paths.RemoveSuperfluousDirectoryChanges | terrareg/models.py:3565-3595 | one pass over a stack of parts computes the normal form of the path's net effect; no parent move is ever popped |
| Paths.WalkIsLand | terrareg/models.py:3565-3595 | following a path part by part leads where its net effect leads |
| Paths.NormalisePreservesMeaning | terrareg/models.py:3565-3595 | the normalised path reaches the same directory from every directory |
| Paths.NormaliseGivesNormalForm | terrareg/models.py:3565-3595 | the result is empty, or parent moves followed by real names |
| Paths.NormaliseIdempotent | terrareg/models.py:3565-3595 | normalising twice is normalising once |
| Paths.NormaliseIsCanonical | terrareg/models.py:3565-3595 | two paths normalise alike exactly when they mean the same from every directory |
| ModuleSources.GetTerraformModules | terrareg/models.py:3542-3651 | the result has the root calls and the nested calls, each with the source its chain of parents gives, and the nested keys are processed in sorted order |
| ModuleSources.LastRootIsKnown | terrareg/models.py:3553-3556 | of several root calls with one name the last one is known |
| ModuleSources.LastListedCounts | terrareg/models.py:3557-3563 | the nested sources are those of the last listed module of each key that is not empty and no root call |
| Text.LexLessIff | terrareg/models.py:3641 | the order of the keys: the first difference decides, a proper prefix comes first |
| ModuleSources.AddChildModule | terrareg/models.py:3597-3648 | adding the call of the least remaining key keeps every call the one its key resolves to |
| ModuleSources.ParentComesFirst | terrareg/models.py:3639-3648 | a parent key is what precedes the last dot of its child's, and sorts before it |
| ModuleSources.ParentIsSettled | terrareg/models.py:3639-3648 | when a key is processed its parent is already final |
| ModuleSources.ParentMissingIff | terrareg/models.py:3641-3648 | a parent is missing exactly when it is neither a root call nor a listed nested key |
| ModuleSources.UnlistedParentIsMissing | terrareg/models.py:3641-3648 | a listed top-level key that is no root call is dropped and its children keep their own source |
| ModuleSources.LocalChildFollows | terrareg/models.py:3597-3607 | below a local source, the computed source leads where following parent and child leads |
| ModuleSources.RightIffChildIsLocal | terrareg/models.py:3597-3607 | below a local source every child becomes local, so that exactly the local children are resolved rightly |
| ModuleSources.LocalChainComposes | terrareg/models.py:3597-3648 | under a local root call, a key's source denotes the composition of all sources along its chain |
| ModuleSources.RootCallIsInherited | terrareg/models.py:3632-3637 | a nested call is named by its key and has version and description of its root call |
| ModuleSources.AbsoluteChildReplaces | terrareg/models.py:3602-3607 | an absolute child replaces the path of its parent |
| ModuleSources.RemoteChild | terrareg/models.py:3608-3630 | below a remote source, base and query stay and the sub-directory moves by the child's path |
| ModuleSources.RemoteChainKeepsBase | terrareg/models.py:3613-3648 | under a remote root call every descendant keeps base and query, and its sub-directory is reached by following its chain |
| ModuleSources.RemoteChildKeepsBase | terrareg/models.py:3608-3630 | whatever the sub-directory and the child, base and query stay |
| ModuleSources.RemoteChainStaysInBase | terrareg/models.py:3608-3648 | under a remote root call every descendant keeps base and query, whatever the sub-directory and the paths |
| ModuleSources.OtherAddressIsLost | terrareg/models.py:3608-3630 | below a remote source, a child that does not start with the same base is never kept as it is |
| ModuleSources.SecondQueryIsLost | terrareg/models.py:3611-3630 | a query that contains a question mark is lost to all children |
| ModuleSources.BareChild | terrareg/models.py:3608-3630 | below a remote source without a sub-directory, a child gets one under the same base and query |
| ModuleSources.BareChainKeepsBase | terrareg/models.py:3608-3648 | under a remote root call without a sub-directory, every descendant keeps base and query and its sub-directory is reached by its chain |
| ModuleSources.BaseKeptIffPlain | terrareg/models.py:3608-3630 | the base is kept exactly when the double slash after it is the first one |
| ModuleSources.SecondPieceIsLost | terrareg/models.py:3608-3630 | with a second double slash, a child loses all between the first one and the query |
| ModuleSources.SchemeIsCut | terrareg/models.py:3608-3630 | a child of a module in `https://host/repo` ends up at `https://child` |
| SafePaths.SafeJoinPaths | terrareg/utils.py:26-40 | rewriting the sub-paths in place makes them relative, joins and checks them |
| SafePaths.ContainmentIsExtension | terrareg/utils.py:53-95 | the string test accepts exactly paths whose names properly extend the base's, or equal them when allowed |
| SafePaths.PrefixIffExtends | terrareg/utils.py:53-95 | a text prefix test with a slash is an extension of names, except for the root |
| SafePaths.SafeJoinFollowsSubPaths | terrareg/utils.py:26-40 | a safe join succeeds exactly when following the sub-paths ends below the base |
| SafePaths.BaseDirectoryIsNested | terrareg/models.py:3829-3831 | the directory of a validated identity is `/modules` followed by its four names |
| SafePaths.BelowIffProperlyBelow | terrareg/models.py:1576-1578 | a name is joined below a directory exactly if it leads properly below it |
| SafePaths.ModuleNameIff | terrareg/models.py:1564-1568 | which texts are module names |
| SafePaths.NamespaceNameIff | terrareg/models.py:1056-1068 | namespace names are module names without two successive underscores |
| SafePaths.ProviderNameIff | terrareg/models.py:2243-2247 | which texts are provider names |
| SafePaths.DirectoriesAreDistinct | terrareg/models.py:2582-2584 | validated identities have the same directory exactly when they are the same |
| VersionText.ReadNumeralsSound | terrareg/models.py:3758-3764 | what the version pattern reads are three numerals at the front of the text |
| VersionText.ReadNumeralsComplete | terrareg/models.py:3758-3764 | every text that starts with three numerals is read so |
| VersionText.ReleaseTextIsValid | terrareg/models.py:3758-3764 | three dotted numbers are accepted, as no beta, with these numbers |
| VersionText.SpellingIsAccepted | terrareg/models.py:3758-3764 | every text of three numerals with an optional suffix is accepted, a beta exactly if it has a suffix, and its major, minor and patch number are the first, second and third numeral |
| VersionText.AcceptedIffSpelled | terrareg/models.py:3758-3764 | no other texts are accepted |
| VersionText.BetaIffSuffix | terrareg/models.py:3758-3764 | a version is a beta exactly if its text has a suffix |
| VersionText.OlderIff | terrareg/models.py:3140-3144 | versions are ordered by the first written number that differs |
| VersionText.AcceptedText | terrareg/models.py:3758-3764 | an accepted version has the beta flag and the numbers its text says |
| VersionText.SameTextSameVersion | terrareg/models.py:3758-3764 | accepted versions are the same exactly when their texts are |
| VersionText.ValidVersionIsName | terrareg/models.py:3758-3764 | an accepted version is a plain directory name |
| GitTags.FirstMatchSound | terrareg/models.py:2419-2446 | the first match found is a match |
| GitTags.FirstMatchComplete | terrareg/models.py:2419-2446 | a match is found if there is one |
| GitTags.MatchIsUnique | terrareg/models.py:2419-2446 | with separating literals a text matches in at most one way |
| GitTags.UnambiguousIffSeparated | terrareg/models.py:2419-2446 | every text matches in at most one way exactly if each literal between two numbers contains a non-digit |
| GitTags.ReadPrintedTag | terrareg/models.py:2541-2579 | reading the printed tag of a released version returns it, absent numbers as zero |
| GitTags.AcceptedPatternIsRelease | terrareg/models.py:2440 | of the texts the whole-version pattern matches, the accepted ones are three dotted numbers |
| GitTags.VersionPatternIff | terrareg/models.py:2440 | the whole-version pattern matches three numbers with a dot after the first and any character but a line feed after the second |
| GitTags.RefStandsForTag | terrareg/models.py:2415-2417 | a reference stands for the version of its tag after `refs/tags/`, and any other text for none |
| GitTags.ReprintReadTag | terrareg/models.py:3804-3814 | an accepted version read from a tag prints exactly if it has no superfluous zeros, and then as that tag exactly if the tag has no final line feed |
| GitTags.ClonedTagIsPushedTag | terrareg/module_extractor.py:893 | the tag cloned for a pushed reference is the tag of that reference, up to a final line feed |
| GitTags.UnescapedDotMatches | terrareg/models.py:2440 | the unescaped dot admits a tag whose version is then rejected |
| GitTags.AcceptedIffSecondDot | terrareg/models.py:2440 | what the whole-version pattern matches is accepted exactly when its second separator is a dot |
| GitTags.AcceptedIffRelease | terrareg/models.py:3758-3764 | what the whole-version pattern matches is accepted exactly when it is three dotted numbers |
| GitTags.ReadVersionAcceptedIff | terrareg/models.py:2541-2579 | a template of numbers reads accepted versions only, one of the whole version exactly when it reads three dotted numbers |
| GitTags.PrintableIffTagged | terrareg/models.py:3804-3814 | a released version has a tag exactly when its numbers have no superfluous leading zeros |
| GitTags.LeadingZeroIsNotPrinted | terrareg/models.py:3804-3814 | the tag `v1.02.3` is read and accepted but has no printed form |
| GitTags.FinalNewlineIsDropped | terrareg/models.py:2438 | the tag `v1.2.3` with a final line feed is read, and printed without it |
| SemVer.PrecedenceIsTotalOrder | terrareg/version_constraint.py:58-182 | precedence is a strict total order |
| SemVer.PrecedenceIff | terrareg/version_constraint.py:85-86 | section 11 of Semantic Versioning 2.0.0: the first difference of the numbers decides, then a pre-release is below its release, then the first difference of the identifiers, numbers below texts, a proper prefix below what extends it |
| VersionConstraint.CheckPart | terrareg/version_constraint.py:79-174 | each operator's comparison, and the bounds it records |
| VersionConstraint.HoldsIffFits | terrareg/version_constraint.py:79-174 | what each operator demands of the numbers and the pre-release of the target |
| VersionConstraint.PreReleaseIsBelowBound | terrareg/version_constraint.py:79-122 | `>= a.b.c` rejects every pre-release of a.b.c, and `< a.b.c` accepts every one |
| VersionConstraint.IsCompatible | terrareg/version_constraint.py:58-182 | the loop with its early exits gives the verdict decided by the first bad part, or by the bounds |
| VersionConstraint.VerdictIsUnique | terrareg/version_constraint.py:58-182 | the reference meaning allows one verdict |
| VersionConstraint.AcceptedIffAllHold | terrareg/version_constraint.py:58-182 | a target is accepted exactly when every non-empty part parses and holds |
| VersionConstraint.OrderDoesNotMatter | terrareg/version_constraint.py:73-182 | for parts that all parse, the verdict does not depend on their order |
| VersionConstraint.AcceptedIsConvex | terrareg/version_constraint.py:73-182 | without an exclusion, what lies between two accepted targets is accepted, with the same verdict |
| VersionConstraint.ReadShownConstraint | terrareg/version_constraint.py:33-56 | reading a printed constraint gives its syntax tree back, whatever the spacing |
| VersionConstraint.ReadableIffPrinted | terrareg/version_constraint.py:33-56 | all parts of a constraint can be read exactly if it is the printed form of some syntax tree |
| VersionConstraint.PrintedConstraintMeaning | terrareg/version_constraint.py:58-182 | a printed constraint accepts exactly the targets its tree accepts |
| TokenVersions.ReadKeys | terrareg/analytics.py:405-411 | the priorities are read exactly if every key names an environment |
| TokenVersions.EnvironmentIff | terrareg/analytics.py:405-411 | the environment of a key stands between its first colon and the next one or the end |
| TokenVersions.ScanRows | terrareg/analytics.py:413-456 | one pass with its skips and replacements gives the folded result or stops at the first comparison with an unknown environment |
| TokenVersions.GetTokenVersions | terrareg/analytics.py:366-456 | which of the two failures happens, if any, and otherwise the token map |
| TokenVersions.FailsIff | terrareg/analytics.py:438-450 | comparing fails exactly if a token is first seen in an unknown environment and later in a configured one |
| TokenVersions.RemovedEnvironmentFails | terrareg/analytics.py:438-450 | a token seen first in an environment since removed from the keys makes it fail |
| TokenVersions.SinglePlainKeyFails | terrareg/analytics.py:405-411 | the single key without an environment that the configuration allows makes it fail |
| TokenVersions.NeverFailsWithoutKeys | terrareg/analytics.py:438-450 | without keys comparing never fails |
| TokenVersions.FirstRowStays | terrareg/analytics.py:438-454 | without keys, a token that has environments keeps its first row |
| TokenVersions.HighestEnvironmentWins | terrareg/analytics.py:438-454 | if all environments are configured, every token is reported with the first row of its highest priority |
| TokenVersions.ReportsDownloadInUse | terrareg/analytics.py:366-456 | if all environments are configured, or there are no keys and every download was recorded without them, every token of a usable download is reported, with environment, version and Terraform version of its most recent download in the environment of the highest priority |
| TokenVersions.OrderIsIrrelevant | terrareg/analytics.py:366-456 | the order in which the rows arrive has no influence |
| TokenDownloads.ImportKeepsTokenMap | terrareg/analytics.py:366-456 | re-indexing any version leaves the downloads that the token map is made of as they were |
| TokenDownloads.JoinedWithItsVersion | terrareg/analytics.py:366-395 | a download is joined with the text and the provider of its version |
| TokenVersions.RecordedEnvironmentIsConfigured | terrareg/analytics.py:72-93 | downloads are recorded without an environment or with a configured one |
| TokenVersions.RecordedIsOfLastKey | terrareg/analytics.py:46-93 | a download is recorded with the environment of the last key of its authentication token, with none without such a key, and with the default one if keys name no environments |
| TokenVersions.RecordedUnderTheseKeys | terrareg/analytics.py:46-93 | unless the keys have changed since, downloads fit the keys; without keys this needs every shown token to stand for one recorded token |
| VersionStatistics.CountChanges | terrareg/analytics.py:488-511 | the counters are the numbers of distinct majors, of further minors and of further patches |
| VersionStatistics.GetStatistics | terrareg/analytics.py:480-514 | the totals over all module providers are sums of distinct counts, whatever order the versions are stored in |
| VersionStatistics.SortDownSorts | terrareg/models.py:3178-3182 | the versions of a provider come greatest first, none lost |
| VersionStatistics.AllVersionsCountedIff | terrareg/analytics.py:488-514 | the three counts add up to the number of versions exactly when no provider has two versions with the same numbers |

## Left out

- HTTP handlers, sessions, authentication, presigned URLs, file storage, GPG verification, Markdown rendering and the subprocesses of extraction: extraction is a step that succeeds, fails with a registry error, or fails otherwise, and the pages of a listing and the rows of a query are parameters.
- The webhook's signature check, its payload checks and the lookup of its module provider, which answer before any tag is imported.
- SQL, collation and LIKE wildcards: module and namespace names are compared up to the case of ASCII letters, provider names and versions exactly.
- Submodules, examples, files, details and the unaffected columns of a version row. A version is its accepted text together with the beta flag and the numbers read off it, which the text determines.
- Cached rows of model objects, except that the id of a re-indexed row is read again after the insert.
- The module provider redirects made by a namespace rename through its own redirect table: a namespace is identified by its row, and which of several namespace redirects of one name wins is not modelled.
- Display names, namespace types and permissions.
- The double rollback of a failed nested transaction, which does nothing the second time.
- `{build}`, `{{` and format specifiers in tag templates, templates mixing `{version}` with other placeholders, and Unicode digits and white space; the tag of a beta version.
- Parsing of the target of a constraint, which is a parameter, and build metadata in SemVer.
- Symbolic links: paths are lexical.
- The clock: timestamps are parameters, and the publishing date of a provider version is present or absent.
- Binaries, documentation and repository metadata of provider versions.
- Sorting is by insertion, where the code calls the library's stable sort.
- The three nested loops over namespaces, modules and their providers are one loop over the module providers.
- The namespace, module and provider filters of search and their paging.
- The Go rewrite, migrations, configuration access, Prometheus output and graph styling.
- TokenVersions.ScanRows: for rows in environments that are no longer configured, and without keys for recorded tokens that are empty or read `No token provided`, the result depends on the order of rows; for these only which row wins without keys, and when it fails, is stated.
