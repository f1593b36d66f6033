/**
 The Bitbucket hook: imports every pushed tag in a savepoint of its own, inside
 one transaction for the whole request.
 */
module BitbucketHook {
  import opened Text
  import opened RegistryTables
  import opened RegistryInvariants
  import opened VersionText
  import opened Rows
  import GitTags
  import RegistryRuns
  import Db = Registry

  /** A pushed change: whether it is a tag being added or updated, its reference, and how extracting it will end. */
  datatype Change = Change(isTag: bool, isAddOrUpdate: bool, ref: Option<string>, extraction: Extraction)

  datatype Status = Success | Failed

  /** One attempted import and whether it succeeded. */
  datatype Attempt = Attempt(version: Version, succeeded: bool)

  /** The answer to the request; an exception outside the registry's own errors aborts it. */
  datatype Response = Answer(error: bool, tags: map<string, Status>) | Aborted

  // ---------- what a run of the hook does ----------

  /** What the hook was called for: a module provider, its tag template, and the configuration. */
  datatype Request = Request(provider: Id, template: GitTags.Template, config: Config)

  /** A change once read: not a tag of the template, a tag whose version is rejected, or a version to import. */
  datatype Push = Ignored | Rejected | Tagged(version: Version, extraction: Extraction)

  function ReadChange(template: GitTags.Template, change: Change): Push {
    if !change.isTag || !change.isAddOrUpdate then Ignored
    else
      match GitTags.ReadTag(GitTags.RefTemplate(template), change.ref)
      case None => Ignored
      case Some(text) =>
        match Accept(text)
        case None => Rejected
        case Some(version) =>
          // Cloning needs the version printed as a tag, which fails outside the registry's errors.
          Tagged(version, if GitTags.IsPrintable(text) then change.extraction else OtherFailure)
  }

  function ReadChanges(template: GitTags.Template, changes: seq<Change>): (pushes: seq<Push>)
    ensures |pushes| == |changes|
  {
    if changes == [] then []
    else ReadChanges(template, changes[..|changes| - 1]) + [ReadChange(template, changes[|changes| - 1])]
  }

  lemma {:induction false} ReadChangesAt(template: GitTags.Template, changes: seq<Change>, k: nat)
    requires k < |changes|
    ensures ReadChanges(template, changes)[k] == ReadChange(template, changes[k])
    decreases |changes|
  {
    if k < |changes| - 1 {
      ReadChangesAt(template, changes[..|changes| - 1], k);
    }
  }

  /** The change adds or updates a tag whose reference stands for a version. */
  predicate IsPushed(template: GitTags.Template, change: Change) {
    change.isTag && change.isAddOrUpdate && GitTags.ReadTag(GitTags.RefTemplate(template), change.ref).Some?
  }

  /** All other changes are ignored; the version of a pushed one is read off its reference, and rejected or imported. */
  lemma PushedIffNotIgnored(template: GitTags.Template, change: Change)
    ensures ReadChange(template, change).Ignored? <==> !IsPushed(template, change)
    ensures IsPushed(template, change) ==>
      var text := GitTags.ReadTag(GitTags.RefTemplate(template), change.ref).value;
      && (ReadChange(template, change).Rejected? <==> !IsValid(text))
      && (IsValid(text) ==>
            && ReadChange(template, change).version.text == text
            && (ReadChange(template, change).extraction == change.extraction || !GitTags.IsPrintable(text)))
  {
  }

  /** Exactly the added or updated tags `refs/tags/...` that the template reads are attempted or abort the request. */
  lemma PushedIff(template: GitTags.Template, change: Change)
    requires GitTags.WellFormed(template)
    ensures !ReadChange(template, change).Ignored? <==>
            change.isTag && change.isAddOrUpdate &&
            exists tag :: change.ref == Some("refs/tags/" + tag) && GitTags.ReadTag(template, Some(tag)).Some?
  {
    PushedIffNotIgnored(template, change);
    if change.ref.Some? {
      GitTags.RefReadIffTagRead(template, change.ref.value);
    }
  }

  /** The changes that push a tag. */
  function PushedOnes(template: GitTags.Template, changes: seq<Change>): seq<Change>
    decreases |changes|
  {
    if changes == [] then []
    else
      var earlier, last := PushedOnes(template, changes[..|changes| - 1]), changes[|changes| - 1];
      if IsPushed(template, last) then earlier + [last] else earlier
  }

  /** A rejected version, or an unforeseen exception during extraction, aborts the whole request. */
  ghost predicate Aborts(t: Tables, req: Request, push: Push) {
    match push
    case Ignored => false
    case Rejected => true
    case Tagged(version, extraction) => MayIndex(t, req.config, req.provider, version) && extraction.OtherFailure?
  }

  /** An import succeeds when the version may be indexed and is extracted; a failed one changes nothing. */
  ghost predicate Attempted(t: Tables, t': Tables, req: Request, extraction: Extraction, a: Attempt) {
    && a.succeeded == (MayIndex(t, req.config, req.provider, a.version) && extraction.Extracted?)
    && if a.succeeded then Imported(t, t', req.config, req.provider, a.version) else t' == t
  }

  /** What one push does to the tables, and the attempts it adds to the log. */
  ghost predicate PushProcessed(t: Tables, t': Tables, req: Request, push: Push, added: seq<Attempt>) {
    match push
    case Ignored => t' == t && added == []
    case Rejected => false
    case Tagged(version, extraction) =>
      && !Aborts(t, req, push)
      && |added| == 1 && added[0].version == version && Attempted(t, t', req, extraction, added[0])
  }

  ghost predicate Processed(t: Tables, t': Tables, req: Request, pushes: seq<Push>, log: seq<Attempt>)
    decreases |pushes|
  {
    if pushes == [] then t' == t && log == []
    else
      var init, last := pushes[..|pushes| - 1], pushes[|pushes| - 1];
      exists mid, earlier, added ::
        Processed(t, mid, req, init, earlier) && PushProcessed(mid, t', req, last, added) && log == earlier + added
  }

  /** The report names every attempted version with the outcome of its last attempt. */
  function Report(log: seq<Attempt>): map<string, Status> {
    if log == [] then map[]
    else Report(log[..|log| - 1])[log[|log| - 1].version.text := Outcome(log[|log| - 1])]
  }

  function Outcome(a: Attempt): Status {
    if a.succeeded then Success else Failed
  }

  ghost predicate SomeFailed(log: seq<Attempt>) {
    exists i :: 0 <= i < |log| && !log[i].succeeded
  }

  // ---------- what the pushes alone decide ----------

  /** Whether a version may be indexed, given the versions there were and the attempts so far. */
  predicate Allowed(mode: ReindexMode, known: set<Version>, earlier: seq<Attempt>, version: Version) {
    mode != Prohibit || (version !in known && Attempt(version, true) !in earlier)
  }

  /** The attempts that processing the pushes in order makes. */
  function Outcomes(mode: ReindexMode, known: set<Version>, pushes: seq<Push>): seq<Attempt>
    decreases |pushes|
  {
    if pushes == [] then []
    else
      var earlier := Outcomes(mode, known, pushes[..|pushes| - 1]);
      match pushes[|pushes| - 1]
      case Tagged(version, extraction) =>
        earlier + [Attempt(version, Allowed(mode, known, earlier, version) && extraction.Extracted?)]
      case _ => earlier
  }

  /** Push k aborts the request, if none before it does. */
  predicate RaisesAt(mode: ReindexMode, known: set<Version>, pushes: seq<Push>, k: int)
    requires 0 <= k < |pushes|
  {
    match pushes[k]
    case Ignored => false
    case Rejected => true
    case Tagged(version, extraction) =>
      extraction.OtherFailure? && Allowed(mode, known, Outcomes(mode, known, pushes[..k]), version)
  }

  predicate SomeRaises(mode: ReindexMode, known: set<Version>, pushes: seq<Push>) {
    exists k | 0 <= k < |pushes| :: RaisesAt(mode, known, pushes, k)
  }

  // ---------- the hook ----------

  /** Imports one tag in a savepoint, rolled back on a registry error; any other exception leaves it open. */
  method ImportTag(registry: Db.Registry, config: Config, p: Id, version: Version, extraction: Extraction)
    returns (r: Db.ImportResult)
    requires registry.Valid() && registry.savepoints != [] && p in registry.providers
    modifies registry
    ensures registry.Valid() && p in registry.providers
    ensures registry.savepoints == old(registry.savepoints) + if r.Crashed? then [old(registry.Contents())] else []
    ensures r.Finished? <==> MayIndex(old(registry.Contents()), config, p, version) && extraction.Extracted?
    ensures r.Crashed? <==> MayIndex(old(registry.Contents()), config, p, version) && extraction.OtherFailure?
    ensures r.Finished? ==> Imported(old(registry.Contents()), registry.Contents(), config, p, version)
    ensures r.Failed? ==> registry.Contents() == old(registry.Contents())
  {
    ghost var before := registry.Contents();
    registry.BeginNested();
    r := registry.ImportVersion(config, p, version, extraction);
    match r {
      case Failed(_) =>
        registry.Rollback();
      case Finished =>
        registry.Commit();
      case Crashed =>
    }
  }

  /** Processes one push; an abort leaves the transaction to the caller. */
  method ProcessPush(registry: Db.Registry, req: Request, push: Push) returns (aborted: bool, added: seq<Attempt>)
    requires registry.Valid() && registry.savepoints != [] && req.provider in registry.providers
    modifies registry
    ensures registry.Valid() && req.provider in registry.providers
    ensures old(registry.savepoints) <= registry.savepoints
    ensures aborted <==> Aborts(old(registry.Contents()), req, push)
    ensures !aborted ==>
      && registry.savepoints == old(registry.savepoints)
      && PushProcessed(old(registry.Contents()), registry.Contents(), req, push, added)
  {
    match push {
      case Ignored =>
        return false, [];
      case Rejected =>
        return true, [];
      case Tagged(version, extraction) =>
        var outcome := ImportTag(registry, req.config, req.provider, version, extraction);
        return outcome.Crashed?, [Attempt(version, outcome.Finished?)];
    }
  }

  /** The report and the error flag as they stand after the attempts of a log. */
  ghost predicate Reported(tags: map<string, Status>, error: bool, log: seq<Attempt>) {
    tags == Report(log) && (error <==> SomeFailed(log))
  }

  /** Adds the attempts of one push to the report. */
  method AddToReport(tags: map<string, Status>, error: bool, ghost log: seq<Attempt>, added: seq<Attempt>)
    returns (tags': map<string, Status>, error': bool)
    requires |added| <= 1 && Reported(tags, error, log)
    ensures Reported(tags', error', log + added)
  {
    tags', error' := tags, error;
    if added != [] {
      tags' := tags[added[0].version.text := Outcome(added[0])];
      error' := error || !added[0].succeeded;
    }
    AddedReported(log, added);
  }

  /** The first k pushes have been processed. */
  ghost predicate ProcessedFirst(t: Tables, t': Tables, req: Request, pushes: seq<Push>, k: int, log: seq<Attempt>) {
    0 <= k <= |pushes| && forall first :: first == pushes[..k] ==> Processed(t, t', req, first, log)
  }

  /** Processes the push at position k. */
  method ProcessNext(registry: Db.Registry, req: Request, pushes: seq<Push>, k: nat, ghost start: Tables,
                     ghost log: seq<Attempt>)
    returns (aborted: bool, added: seq<Attempt>)
    requires registry.Valid() && registry.savepoints != [] && req.provider in registry.providers
    requires k < |pushes| && ProcessedFirst(start, registry.Contents(), req, pushes, k, log)
    modifies registry
    ensures old(registry.savepoints) <= registry.savepoints
    ensures aborted ==> AbortedIn(start, req, pushes)
    ensures !aborted ==>
      && registry.Valid() && req.provider in registry.providers && registry.savepoints == old(registry.savepoints)
      && ProcessedFirst(start, registry.Contents(), req, pushes, k + 1, log + added) && |added| <= 1
  {
    ghost var mid := registry.Contents();
    aborted, added := ProcessPush(registry, req, pushes[k]);
    if aborted {
      assert AbortedAt(start, mid, req, pushes, k, log);
    } else {
    }
  }

  /** Processes the pushes in order until one aborts. */
  method ProcessAll(registry: Db.Registry, req: Request, pushes: seq<Push>)
    returns (aborted: bool, importedVersions: map<string, Status>, error: bool, ghost log: seq<Attempt>)
    requires registry.Valid() && registry.savepoints != [] && req.provider in registry.providers
    modifies registry
    ensures old(registry.savepoints) <= registry.savepoints
    ensures !aborted ==>
      && registry.Valid() && registry.savepoints == old(registry.savepoints)
      && ProcessedFirst(old(registry.Contents()), registry.Contents(), req, pushes, |pushes|, log)
      && Reported(importedVersions, error, log)
    ensures aborted ==> AbortedIn(old(registry.Contents()), req, pushes)
  {
    ghost var start := registry.Contents();
    aborted, importedVersions, error, log := false, map[], false, [];
    for k := 0 to |pushes|
      invariant registry.Valid() && req.provider in registry.providers
      invariant !aborted && registry.savepoints == old(registry.savepoints)
      invariant ProcessedFirst(start, registry.Contents(), req, pushes, k, log)
      invariant Reported(importedVersions, error, log)
    {
      var added;
      aborted, added := ProcessNext(registry, req, pushes, k, start, log);
      if aborted {
        return;
      }
      importedVersions, error := AddToReport(importedVersions, error, log, added);
      log := log + added;
    }
  }

  /**
   Processes the pushed changes in order, inside one transaction. An abort rolls
   the whole transaction back.
   */
  method Post(registry: Db.Registry, req: Request, changes: seq<Change>) returns (r: Response, ghost log: seq<Attempt>)
    requires registry.Valid() && registry.savepoints == [] && req.provider in registry.providers
    modifies registry
    ensures registry.Valid() && registry.savepoints == []
    ensures r.Answer? ==>
      && Processed(old(registry.Contents()), registry.Contents(), req, ReadChanges(req.template, changes), log)
      && r.tags == Report(log) && (r.error <==> SomeFailed(log))
      && log == Outcomes(req.config.reindexMode, VersionsOf(old(registry.Contents()), req.provider),
                         ReadChanges(req.template, changes))
    ensures r.Aborted? ==> registry.Contents() == old(registry.Contents())
    ensures r.Aborted? <==> SomeRaises(req.config.reindexMode, VersionsOf(old(registry.Contents()), req.provider),
                                       ReadChanges(req.template, changes))
    ensures var pushed, known := ReadChanges(req.template, PushedOnes(req.template, changes)),
                                 VersionsOf(old(registry.Contents()), req.provider);
            && (r.Aborted? <==> SomeRaises(req.config.reindexMode, known, pushed))
            && (r.Answer? ==> && Processed(old(registry.Contents()), registry.Contents(), req, pushed, log)
                              && log == Outcomes(req.config.reindexMode, known, pushed))
    ensures var known := VersionsOf(old(registry.Contents()), req.provider);
            forall k :: UnprintableAt(req, known, changes, k) ==> r.Aborted?
  {
    ghost var start := registry.Contents();
    OnlyPushedCount(req, VersionsOf(start, req.provider), changes);
    forall k | UnprintableAt(req, VersionsOf(start, req.provider), changes, k)
      ensures SomeRaises(req.config.reindexMode, VersionsOf(start, req.provider), ReadChanges(req.template, changes))
    {
      UnprintableAborts(req, VersionsOf(start, req.provider), changes, k);
    }
    var started := registry.StartTransaction();
    var aborted, importedVersions, error;
    aborted, importedVersions, error, log := ProcessAll(registry, req, ReadChanges(req.template, changes));
    if aborted {
      AbortedRaises(start, req, ReadChanges(req.template, changes));
      UnwindTo(registry, start);
      r := Aborted;
    } else {
      LogIsOutcomes(start, registry.Contents(), req, ReadChanges(req.template, changes), log);
      registry.Commit();
      r := Answer(error, importedVersions);
    }
  }

  ghost predicate AbortedAt(t: Tables, mid: Tables, req: Request, pushes: seq<Push>, k: int, log: seq<Attempt>) {
    0 <= k < |pushes| && Processed(t, mid, req, pushes[..k], log) && Aborts(mid, req, pushes[k])
  }

  /** Some push aborts the request after all pushes before it were processed. */
  ghost predicate AbortedIn(t: Tables, req: Request, pushes: seq<Push>) {
    exists k, mid, log :: AbortedAt(t, mid, req, pushes, k, log)
  }

  /** Leaves every open savepoint and undoes the outer transaction. */
  method UnwindTo(registry: Db.Registry, ghost start: Tables)
    requires registry.savepoints != [] && registry.savepoints[0] == start
    modifies registry
    ensures registry.Contents() == start && registry.savepoints == []
  {
    while |registry.savepoints| > 1
      invariant registry.savepoints != [] && registry.savepoints[0] == start
      decreases |registry.savepoints|
    {
      registry.Rollback();
    }
    registry.Rollback();
  }

  lemma AddedReported(log: seq<Attempt>, added: seq<Attempt>)
    requires |added| <= 1
    ensures Report(log + added) == if added == [] then Report(log)
                                   else Report(log)[added[0].version.text := Outcome(added[0])]
    ensures SomeFailed(log + added) <==> SomeFailed(log) || (added != [] && !added[0].succeeded)
  {
    var all := log + added;
    if added == [] {
      assert all == log;
    } else {
      assert all[..|all| - 1] == log;
      assert forall i :: 0 <= i < |log| ==> all[i] == log[i];
      assert all[|log|] == added[0];
    }
  }

  // ---------- the attempts follow from the pushes ----------

  /** The versions of the provider are those it had and those imported so far. */
  ghost predicate KnownSoFar(known: set<Version>, present: set<Version>, log: seq<Attempt>) {
    forall version :: version in present <==> version in known || Attempt(version, true) in log
  }

  /** The attempts and their outcomes are those the pushes decide, and none of them aborts. */
  lemma {:induction false} LogIsOutcomes(t: Tables, t': Tables, req: Request, pushes: seq<Push>, log: seq<Attempt>)
    requires Processed(t, t', req, pushes, log)
    ensures log == Outcomes(req.config.reindexMode, VersionsOf(t, req.provider), pushes)
    ensures KnownSoFar(VersionsOf(t, req.provider), VersionsOf(t', req.provider), log)
    ensures !SomeRaises(req.config.reindexMode, VersionsOf(t, req.provider), pushes)
    decreases |pushes|
  {
    if pushes != [] {
      var known, init := VersionsOf(t, req.provider), pushes[..|pushes| - 1];
      var mid, earlier, added := BeforeLast(t, t', req, pushes, log);
      LogIsOutcomes(t, mid, req, init, earlier);
      OneMoreOutcome(known, mid, t', req, pushes[|pushes| - 1], earlier, added);
      forall k | 0 <= k < |pushes|
        ensures !RaisesAt(req.config.reindexMode, known, pushes, k)
      {
        if k < |init| {
          assert init[..k] == pushes[..k] && !RaisesAt(req.config.reindexMode, known, init, k);
        }
      }
    }
  }

  lemma BeforeLast(t: Tables, t': Tables, req: Request, pushes: seq<Push>, log: seq<Attempt>)
    returns (mid: Tables, earlier: seq<Attempt>, added: seq<Attempt>)
    requires pushes != [] && Processed(t, t', req, pushes, log)
    ensures Processed(t, mid, req, pushes[..|pushes| - 1], earlier)
    ensures PushProcessed(mid, t', req, pushes[|pushes| - 1], added) && log == earlier + added
  {
    var init, last := pushes[..|pushes| - 1], pushes[|pushes| - 1];
    mid, earlier, added :|
      Processed(t, mid, req, init, earlier) && PushProcessed(mid, t', req, last, added) && log == earlier + added;
  }

  lemma OneMoreOutcome(known: set<Version>, mid: Tables, t': Tables, req: Request, push: Push,
                       earlier: seq<Attempt>, added: seq<Attempt>)
    requires KnownSoFar(known, VersionsOf(mid, req.provider), earlier) && PushProcessed(mid, t', req, push, added)
    ensures KnownSoFar(known, VersionsOf(t', req.provider), earlier + added)
    ensures !push.Rejected?
    ensures push.Ignored? ==> added == []
    ensures push.Tagged? ==>
      var allowed := Allowed(req.config.reindexMode, known, earlier, push.version);
      added == [Attempt(push.version, allowed && push.extraction.Extracted?)]
      && !(allowed && push.extraction.OtherFailure?)
  {
    if push.Tagged? {
      MayIndexIff(mid, req.config, req.provider, push.version);
      assert added == [added[0]];
      if added[0].succeeded {
        ImportAddsVersion(mid, t', req.config, req.provider, push.version);
      }
    }
  }

  lemma AbortedRaises(t: Tables, req: Request, pushes: seq<Push>)
    requires AbortedIn(t, req, pushes)
    ensures SomeRaises(req.config.reindexMode, VersionsOf(t, req.provider), pushes)
  {
    var k, mid, log :| AbortedAt(t, mid, req, pushes, k, log);
    LogIsOutcomes(t, mid, req, pushes[..k], log);
    if pushes[k].Tagged? {
      MayIndexIff(mid, req.config, req.provider, pushes[k].version);
    }
    assert RaisesAt(req.config.reindexMode, VersionsOf(t, req.provider), pushes, k);
  }

  /** The versions of the tags among the pushes. */
  function TaggedVersions(pushes: seq<Push>): seq<Version>
    decreases |pushes|
  {
    if pushes == [] then []
    else if pushes[|pushes| - 1].Tagged? then TaggedVersions(pushes[..|pushes| - 1]) + [pushes[|pushes| - 1].version]
    else TaggedVersions(pushes[..|pushes| - 1])
  }

  /** There is one attempt per tag, in order. */
  lemma {:induction false} OneAttemptPerTag(mode: ReindexMode, known: set<Version>, pushes: seq<Push>)
    ensures var log, tags := Outcomes(mode, known, pushes), TaggedVersions(pushes);
            |log| == |tags| && forall i :: 0 <= i < |log| ==> log[i].version == tags[i]
    decreases |pushes|
  {
    if pushes != [] {
      OneAttemptPerTag(mode, known, pushes[..|pushes| - 1]);
    }
  }

  // ---------- only the pushed tags count ----------

  /** The pushes that are not ignored. */
  function Taken(pushes: seq<Push>): seq<Push>
    decreases |pushes|
  {
    if pushes == [] then []
    else if pushes[|pushes| - 1].Ignored? then Taken(pushes[..|pushes| - 1])
    else Taken(pushes[..|pushes| - 1]) + [pushes[|pushes| - 1]]
  }

  lemma {:induction false} PushedAreTaken(template: GitTags.Template, changes: seq<Change>)
    ensures ReadChanges(template, PushedOnes(template, changes)) == Taken(ReadChanges(template, changes))
    decreases |changes|
  {
    if changes != [] {
      var init, last := changes[..|changes| - 1], changes[|changes| - 1];
      PushedAreTaken(template, init);
      PushedIffNotIgnored(template, last);
      assert ReadChanges(template, changes)[..|changes| - 1] == ReadChanges(template, init);
      if IsPushed(template, last) {
        var all := PushedOnes(template, changes);
        assert all[..|all| - 1] == PushedOnes(template, init);
      }
    }
  }

  /** The last push raises, given the attempts before it. */
  predicate RaisesAfter(mode: ReindexMode, known: set<Version>, earlier: seq<Attempt>, push: Push) {
    match push
    case Ignored => false
    case Rejected => true
    case Tagged(version, extraction) => extraction.OtherFailure? && Allowed(mode, known, earlier, version)
  }

  lemma RaisesOneMore(mode: ReindexMode, known: set<Version>, pushes: seq<Push>, push: Push)
    ensures SomeRaises(mode, known, pushes + [push]) <==>
            SomeRaises(mode, known, pushes) || RaisesAfter(mode, known, Outcomes(mode, known, pushes), push)
  {
    var all := pushes + [push];
    assert all[..|pushes|] == pushes;
    assert RaisesAt(mode, known, all, |pushes|) <==>
           RaisesAfter(mode, known, Outcomes(mode, known, pushes), push);
    forall k | 0 <= k < |pushes|
      ensures RaisesAt(mode, known, all, k) <==> RaisesAt(mode, known, pushes, k)
    {
      assert all[..k] == pushes[..k];
    }
  }

  lemma OutcomesOneMore(mode: ReindexMode, known: set<Version>, pushes: seq<Push>, push: Push)
    ensures var earlier := Outcomes(mode, known, pushes);
            Outcomes(mode, known, pushes + [push])
            == if push.Tagged? then
                 earlier + [Attempt(push.version,
                                    Allowed(mode, known, earlier, push.version) && push.extraction.Extracted?)]
               else earlier
  {
    assert (pushes + [push])[..|pushes|] == pushes;
  }

  /** Ignored pushes influence neither the attempts nor whether the request aborts. */
  lemma {:induction false} IgnoredDoNotCount(mode: ReindexMode, known: set<Version>, pushes: seq<Push>)
    ensures Outcomes(mode, known, Taken(pushes)) == Outcomes(mode, known, pushes)
    ensures SomeRaises(mode, known, Taken(pushes)) <==> SomeRaises(mode, known, pushes)
    decreases |pushes|
  {
    if pushes != [] {
      var init, last := pushes[..|pushes| - 1], pushes[|pushes| - 1];
      IgnoredDoNotCount(mode, known, init);
      assert pushes == init + [last];
      RaisesOneMore(mode, known, init, last);
      OutcomesOneMore(mode, known, init, last);
      if !last.Ignored? {
        RaisesOneMore(mode, known, Taken(init), last);
        OutcomesOneMore(mode, known, Taken(init), last);
      }
    }
  }

  /** Ignored pushes do not influence the tables either. */
  lemma {:induction false} IgnoredChangeNothing(t: Tables, t': Tables, req: Request, pushes: seq<Push>,
                                                log: seq<Attempt>)
    requires Processed(t, t', req, pushes, log)
    ensures Processed(t, t', req, Taken(pushes), log)
    decreases |pushes|
  {
    if pushes != [] {
      var init, last := pushes[..|pushes| - 1], pushes[|pushes| - 1];
      var mid, earlier, added := BeforeLast(t, t', req, pushes, log);
      IgnoredChangeNothing(t, mid, req, init, earlier);
      if last.Ignored? {
        assert earlier + [] == earlier;
      } else {
        ProcessedSnoc(t, mid, t', req, Taken(init), last, earlier, added);
      }
    }
  }

  /** The request without all changes that push no tag. */
  lemma OnlyPushedCount(req: Request, known: set<Version>, changes: seq<Change>)
    ensures var mode := req.config.reindexMode;
            var all, pushed := ReadChanges(req.template, changes),
                               ReadChanges(req.template, PushedOnes(req.template, changes));
            && Outcomes(mode, known, pushed) == Outcomes(mode, known, all)
            && (SomeRaises(mode, known, pushed) <==> SomeRaises(mode, known, all))
            && forall t, t', log :: Processed(t, t', req, all, log) ==> Processed(t, t', req, pushed, log)
  {
    var all := ReadChanges(req.template, changes);
    PushedAreTaken(req.template, changes);
    IgnoredDoNotCount(req.config.reindexMode, known, all);
    forall t, t', log | Processed(t, t', req, all, log)
      ensures Processed(t, t', req, Taken(all), log)
    {
      IgnoredChangeNothing(t, t', req, all, log);
    }
  }

  /** Change k pushes an accepted version that may be indexed by then, but that cannot be printed for cloning. */
  ghost predicate UnprintableAt(req: Request, known: set<Version>, changes: seq<Change>, k: int) {
    && 0 <= k < |changes| && IsPushed(req.template, changes[k])
    && var text := GitTags.ReadTag(GitTags.RefTemplate(req.template), changes[k].ref).value;
    && IsValid(text) && !GitTags.IsPrintable(text)
    && Allowed(req.config.reindexMode, known,
               Outcomes(req.config.reindexMode, known, ReadChanges(req.template, changes[..k])), Accept(text).value)
  }

  lemma {:induction false} ReadChangesPrefix(template: GitTags.Template, changes: seq<Change>, k: nat)
    requires k <= |changes|
    ensures ReadChanges(template, changes)[..k] == ReadChanges(template, changes[..k])
    decreases |changes|
  {
    if k == |changes| {
      assert changes[..k] == changes;
    } else {
      ReadChangesPrefix(template, changes[..|changes| - 1], k);
      assert changes[..|changes| - 1][..k] == changes[..k];
    }
  }

  /** Such a tag aborts the whole request, however extracting it would have ended. */
  lemma UnprintableAborts(req: Request, known: set<Version>, changes: seq<Change>, k: nat)
    requires UnprintableAt(req, known, changes, k)
    ensures SomeRaises(req.config.reindexMode, known, ReadChanges(req.template, changes))
  {
    ReadChangesAt(req.template, changes, k);
    ReadChangesPrefix(req.template, changes, k);
    assert RaisesAt(req.config.reindexMode, known, ReadChanges(req.template, changes), k);
  }

  // ---------- only the successes count ----------

  /** The versions imported successfully, in order. */
  function Successes(log: seq<Attempt>): seq<Version> {
    if log == [] then []
    else if log[|log| - 1].succeeded then Successes(log[..|log| - 1]) + [log[|log| - 1].version]
    else Successes(log[..|log| - 1])
  }

  /** The given versions imported one after the other, nothing else. */
  ghost predicate ImportedInOrder(t: Tables, t': Tables, req: Request, versions: seq<Version>)
    decreases |versions|
  {
    if versions == [] then t' == t
    else
      var init, last := versions[..|versions| - 1], versions[|versions| - 1];
      exists mid :: ImportedInOrder(t, mid, req, init) && Imported(mid, t', req.config, req.provider, last)
  }

  /** The final tables are those of applying only the successful imports, in order: a failed one leaves no trace. */
  lemma {:induction false} OnlySuccessesCount(t: Tables, t': Tables, req: Request, pushes: seq<Push>, log: seq<Attempt>)
    requires Processed(t, t', req, pushes, log)
    ensures ImportedInOrder(t, t', req, Successes(log))
    decreases |pushes|
  {
    if pushes != [] {
      var init, last := pushes[..|pushes| - 1], pushes[|pushes| - 1];
      var mid, earlier, added :|
        Processed(t, mid, req, init, earlier) && PushProcessed(mid, t', req, last, added) && log == earlier + added;
      OnlySuccessesCount(t, mid, req, init, earlier);
      if added == [] {
        assert log == earlier;
      } else {
        assert added == [added[0]];
        OneMoreAttempt(t, mid, t', req, last.extraction, earlier, added[0]);
      }
    }
  }

  lemma OneMoreAttempt(t: Tables, mid: Tables, t': Tables, req: Request, extraction: Extraction,
                       earlier: seq<Attempt>, a: Attempt)
    requires ImportedInOrder(t, mid, req, Successes(earlier)) && Attempted(mid, t', req, extraction, a)
    ensures ImportedInOrder(t, t', req, Successes(earlier + [a]))
  {
    var log := earlier + [a];
    assert log[..|log| - 1] == earlier && log[|log| - 1] == a;
    if a.succeeded {
      var all := Successes(earlier) + [a.version];
      assert all[..|all| - 1] == Successes(earlier) && all[|all| - 1] == a.version;
    }
  }

  /** The imports of the given versions as events of a run. */
  function ImportEvents(req: Request, versions: seq<Version>): (events: seq<RegistryRuns.Event>)
    ensures |events| == |versions|
    ensures forall i :: 0 <= i < |events| ==>
              events[i] == RegistryRuns.ImportVersion(req.config, req.provider, versions[i])
  {
    seq(|versions|, i requires 0 <= i < |versions| => RegistryRuns.ImportVersion(req.config, req.provider, versions[i]))
  }

  /** Imports in order are a run of the registry. */
  lemma {:induction false} ImportsAreRun(t: Tables, t': Tables, req: Request, versions: seq<Version>)
    returns (states: seq<Tables>)
    requires ImportedInOrder(t, t', req, versions)
    ensures RegistryRuns.Run(states, ImportEvents(req, versions))
    ensures states[0] == t && states[|versions|] == t'
    decreases |versions|
  {
    if versions == [] {
      states := [t];
    } else {
      var init, last := versions[..|versions| - 1], versions[|versions| - 1];
      var mid := BeforeLastImport(t, t', req, versions);
      var earlier := ImportsAreRun(t, mid, req, init);
      states := earlier + [t'];
      LongerRun(earlier, ImportEvents(req, init), mid, RegistryRuns.ImportVersion(req.config, req.provider, last), t');
      OneMoreEvent(req, versions);
    }
  }

  lemma OneMoreEvent(req: Request, versions: seq<Version>)
    requires versions != []
    ensures ImportEvents(req, versions)
            == ImportEvents(req, versions[..|versions| - 1])
               + [RegistryRuns.ImportVersion(req.config, req.provider, versions[|versions| - 1])]
  {
  }

  lemma BeforeLastImport(t: Tables, t': Tables, req: Request, versions: seq<Version>) returns (mid: Tables)
    requires versions != [] && ImportedInOrder(t, t', req, versions)
    ensures ImportedInOrder(t, mid, req, versions[..|versions| - 1])
    ensures RegistryRuns.Step(mid, RegistryRuns.ImportVersion(req.config, req.provider, versions[|versions| - 1]), t')
  {
    var init, last := versions[..|versions| - 1], versions[|versions| - 1];
    mid :| ImportedInOrder(t, mid, req, init) && Imported(mid, t', req.config, req.provider, last);
  }

  lemma LongerRun(states: seq<Tables>, events: seq<RegistryRuns.Event>, mid: Tables, e: RegistryRuns.Event, t': Tables)
    requires RegistryRuns.Run(states, events) && states[|events|] == mid && RegistryRuns.Step(mid, e, t')
    ensures RegistryRuns.Run(states + [t'], events + [e])
    ensures (states + [t'])[0] == states[0] && (states + [t'])[|events| + 1] == t'
  {
    var longer, more := states + [t'], events + [e];
    forall i | 0 <= i < |more|
      ensures RegistryRuns.StepAt(longer, more, i)
    {
      if i < |events| {
        assert RegistryRuns.StepAt(states, events, i);
      }
    }
  }

  /** A whole request is a run of the registry: the imports of the successful tags, in order. */
  lemma RequestIsRun(t: Tables, t': Tables, req: Request, pushes: seq<Push>, log: seq<Attempt>)
    returns (states: seq<Tables>)
    requires Processed(t, t', req, pushes, log)
    ensures RegistryRuns.Run(states, ImportEvents(req, Successes(log)))
    ensures states[0] == t && states[|Successes(log)|] == t'
  {
    OnlySuccessesCount(t, t', req, pushes, log);
    states := ImportsAreRun(t, t', req, Successes(log));
  }

  /** A request changes what no live name stands for, and loses no download. */
  lemma RequestKeepsNamesAndDownloads(t: Tables, t': Tables, req: Request, pushes: seq<Push>, log: seq<Attempt>,
                                      name: Name, q: Id, version: Version, d: Id)
    requires Inv(t) && Processed(t, t', req, pushes, log)
    ensures IsLive(t, name, q) ==> Resolve(t', name) == Some(q)
    ensures d in DownloadsOf(t, q, version) ==> d in DownloadsOf(t', q, version)
  {
    var states := RequestIsRun(t, t', req, pushes, log);
    var events := ImportEvents(req, Successes(log));
    if IsLive(t, name, q) {
      RegistryRuns.HeldNamesKeepResolving(states, events, 0, |events|, name, q);
    }
    if d in DownloadsOf(t, q, version) {
      RegistryRuns.DownloadsSurvive(states, events, 0, |events|, q, version, d);
    }
  }

  /** One push keeps the registry's invariant, whatever its outcome. */
  lemma PushKeepsInv(t: Tables, t': Tables, req: Request, push: Push, added: seq<Attempt>)
    requires Inv(t) && PushProcessed(t, t', req, push, added)
    ensures Inv(t')
  {
    if push.Tagged? && added[0].succeeded {
      ImportKeepsInv(t, t', req.config, req.provider, push.version);
    }
  }

  /** The registry's invariant holds after every tag, whatever the outcomes. */
  lemma {:induction false} InvariantAfterEveryTag(t: Tables, t': Tables, req: Request, pushes: seq<Push>,
                                                  log: seq<Attempt>)
    requires Inv(t) && Processed(t, t', req, pushes, log)
    ensures Inv(t')
    decreases |pushes|
  {
    if pushes != [] {
      var init, last := pushes[..|pushes| - 1], pushes[|pushes| - 1];
      var mid, earlier, added :|
        Processed(t, mid, req, init, earlier) && PushProcessed(mid, t', req, last, added) && log == earlier + added;
      InvariantAfterEveryTag(t, mid, req, init, earlier);
      PushKeepsInv(mid, t', req, last, added);
    }
  }

  /** The report has an entry for every attempted version: the outcome of its last attempt. */
  lemma {:induction false} ReportIsLastOutcome(log: seq<Attempt>, i: nat)
    requires i < |log| && forall j :: i < j < |log| ==> log[j].version.text != log[i].version.text
    ensures log[i].version.text in Report(log)
    ensures Report(log)[log[i].version.text] == Outcome(log[i])
    decreases |log|
  {
    if i < |log| - 1 {
      assert forall j :: i < j < |log| - 1 ==> log[..|log| - 1][j] == log[j];
      ReportIsLastOutcome(log[..|log| - 1], i);
    }
  }

  /** Attempt j is the last one of its version. */
  ghost predicate LastAttempt(log: seq<Attempt>, text: string, j: int) {
    && 0 <= j < |log| && log[j].version.text == text
    && forall k :: j < k < |log| ==> log[k].version.text != text
  }

  lemma {:induction false} LastAttemptExists(log: seq<Attempt>, i: nat) returns (j: nat)
    requires i < |log|
    ensures i <= j && LastAttempt(log, log[i].version.text, j)
    decreases |log| - i
  {
    if LastAttempt(log, log[i].version.text, i) {
      j := i;
    } else {
      var k :| i < k < |log| && log[k].version.text == log[i].version.text;
      j := LastAttemptExists(log, k);
    }
  }

  /**
   A failed attempt is reported as failed unless a later attempt of the same
   version is that version's last one and succeeds.
   */
  lemma FailureHiddenIff(log: seq<Attempt>, i: nat)
    requires i < |log| && !log[i].succeeded
    ensures log[i].version.text in Report(log)
    ensures Report(log)[log[i].version.text] != Failed <==>
            exists j :: i < j && LastAttempt(log, log[i].version.text, j) && log[j].succeeded
  {
    var text := log[i].version.text;
    var j := LastAttemptExists(log, i);
    ReportIsLastOutcome(log, j);
    forall k | LastAttempt(log, text, k)
      ensures k == j
    {
    }
  }

  /** The report names only attempted versions. */
  lemma {:induction false} ReportNamesAttempts(log: seq<Attempt>, text: string)
    requires text in Report(log)
    ensures exists i :: 0 <= i < |log| && log[i].version.text == text
    decreases |log|
  {
    var n := |log| - 1;
    if log[n].version.text != text {
      ReportNamesAttempts(log[..n], text);
      var i :| 0 <= i < n && log[..n][i].version.text == text;
      assert log[i].version.text == text;
    }
  }

  /** The report shows a failure exactly when the last attempt of some version failed. */
  lemma FailureShownIff(log: seq<Attempt>)
    ensures Failed in Report(log).Values <==>
            exists j :: 0 <= j < |log| && LastAttempt(log, log[j].version.text, j) && !log[j].succeeded
  {
    if Failed in Report(log).Values {
      var text :| text in Report(log) && Report(log)[text] == Failed;
      ReportNamesAttempts(log, text);
      var i :| 0 <= i < |log| && log[i].version.text == text;
      var j := LastAttemptExists(log, i);
      ReportIsLastOutcome(log, j);
    }
    if j :| 0 <= j < |log| && LastAttempt(log, log[j].version.text, j) && !log[j].succeeded {
      ReportIsLastOutcome(log, j);
      assert Report(log)[log[j].version.text] in Report(log).Values;
    }
  }

  /** If no two pushed tags have the same version, the report shows a failure exactly when the answer is an error. */
  lemma DistinctTagsShowFailures(t: Tables, t': Tables, req: Request, pushes: seq<Push>, log: seq<Attempt>)
    requires Processed(t, t', req, pushes, log)
    requires var tags := TaggedVersions(pushes); forall i, j :: 0 <= i < j < |tags| ==> tags[i].text != tags[j].text
    ensures SomeFailed(log) <==> Failed in Report(log).Values
  {
    LogIsOutcomes(t, t', req, pushes, log);
    OneAttemptPerTag(req.config.reindexMode, VersionsOf(t, req.provider), pushes);
    FailureShownIff(log);
    forall j | 0 <= j < |log|
      ensures LastAttempt(log, log[j].version.text, j)
    {
    }
  }

  /** A tag that fails with a registry error and is pushed again in the same request. */
  function FailThenSucceed(version: Version): seq<Push> {
    [Tagged(version, RegistryFailure), Tagged(version, Extracted)]
  }

  /** Wherever a version may be indexed, the hook can hide its failure behind a later success. */
  lemma HiddenFailureHappens(t: Tables, req: Request, version: Version) returns (t': Tables, log: seq<Attempt>)
    requires req.provider in t.providers && MayIndex(t, req.config, req.provider, version)
    ensures Processed(t, t', req, FailThenSucceed(version), log)
    ensures log == [Attempt(version, false), Attempt(version, true)]
    ensures SomeFailed(log) && Failed !in Report(log).Values
  {
    t' := ImportIsPossible(t, req.config, req.provider, version);
    log := [Attempt(version, false), Attempt(version, true)];
    TwoPushes(t, t', req, FailThenSucceed(version), log);
    LaterSuccessHidesFailure(version);
  }

  lemma TwoPushes(t: Tables, t': Tables, req: Request, pushes: seq<Push>, log: seq<Attempt>)
    requires |pushes| == |log| == 2
    requires PushProcessed(t, t, req, pushes[0], [log[0]]) && PushProcessed(t, t', req, pushes[1], [log[1]])
    ensures Processed(t, t', req, pushes, log)
  {
    var none: seq<Push> := [];
    assert Processed(t, t, req, none, []);
    ProcessedSnoc(t, t, t, req, none, pushes[0], [], [log[0]]);
    ProcessedSnoc(t, t, t', req, none + [pushes[0]], pushes[1], [] + [log[0]], [log[1]]);
    assert none + [pushes[0]] + [pushes[1]] == pushes && [] + [log[0]] + [log[1]] == log;
  }

  /** Two changes of one tag, the first of which cannot be extracted. */
  function PushedTwice(ref: string): seq<Change> {
    [Change(true, true, Some(ref), RegistryFailure), Change(true, true, Some(ref), Extracted)]
  }

  /** The reference is read as the text, which is accepted and can be printed. */
  predicate IsReadable(template: GitTags.Template, ref: string, text: string) {
    && GitTags.ReadTag(GitTags.RefTemplate(template), Some(ref)) == Some(text)
    && IsValid(text) && GitTags.IsPrintable(text)
  }

  lemma ReadableChange(template: GitTags.Template, change: Change, ref: string, text: string)
    requires change.isTag && change.isAddOrUpdate && change.ref == Some(ref)
    ensures IsReadable(template, ref, text) ==>
              ReadChange(template, change) == Tagged(Accept(text).value, change.extraction)
  {
  }

  /** Two changes of one readable reference are such pushes of its version. */
  lemma PushedTwiceReadsAs(template: GitTags.Template, ref: string, text: string)
    ensures IsReadable(template, ref, text) ==>
              ReadChanges(template, PushedTwice(ref)) == FailThenSucceed(Accept(text).value)
  {
    if IsReadable(template, ref, text) {
      var changes := PushedTwice(ref);
      ReadableChange(template, changes[0], ref, text);
      ReadableChange(template, changes[1], ref, text);
    }
  }

  /** Pushing such a reference twice hides its failure. */
  lemma PushedTwiceHidesFailure(t: Tables, req: Request, ref: string, text: string)
    returns (t': Tables, log: seq<Attempt>)
    ensures IsReadable(req.template, ref, text) && req.provider in t.providers
            && MayIndex(t, req.config, req.provider, Accept(text).value) ==>
      && Processed(t, t', req, ReadChanges(req.template, PushedTwice(ref)), log)
      && SomeFailed(log) && Failed !in Report(log).Values
  {
    t', log := t, [];
    if IsReadable(req.template, ref, text) && req.provider in t.providers
       && MayIndex(t, req.config, req.provider, Accept(text).value) {
      PushedTwiceReadsAs(req.template, ref, text);
      t', log := HiddenFailureHappens(t, req, Accept(text).value);
    }
  }

  lemma ProcessedSnoc(t: Tables, mid: Tables, t': Tables, req: Request, pushes: seq<Push>, push: Push,
                      log: seq<Attempt>, added: seq<Attempt>)
    requires Processed(t, mid, req, pushes, log) && PushProcessed(mid, t', req, push, added)
    ensures Processed(t, t', req, pushes + [push], log + added)
  {
    var all := pushes + [push];
    assert all[..|all| - 1] == pushes && all[|all| - 1] == push;
  }

  /**
   A version that fails and then succeeds in one request is reported as a success, while
   the request is still an error.
   */
  lemma LaterSuccessHidesFailure(version: Version)
    ensures var log := [Attempt(version, false), Attempt(version, true)];
            SomeFailed(log) && Report(log) == map[version.text := Success]
  {
    var log := [Attempt(version, false), Attempt(version, true)];
    assert !log[0].succeeded;
    assert log[..1] == [Attempt(version, false)] && [Attempt(version, false)][..0] == [];
    assert Report(log[..1]) == map[version.text := Failed];
  }
}
