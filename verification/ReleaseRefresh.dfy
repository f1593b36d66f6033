/**
 Refreshing a provider over time: each refresh collects the new releases of a
 newest-first listing and indexes them, so that what it indexes decides what later
 refreshes can still find.
 */
module ReleaseRefresh {
  import opened Text
  import opened VersionText
  import opened Rows
  import opened ReleasePager
  import opened ProviderIndex

  /** What the pager finds a listed release to be; a release without usable metadata is nothing. */
  function Seen(known: set<Version>, listed: Option<RepositoryRelease>): Found<RepositoryRelease> {
    match listed
    case None => Invalid
    case Some(release) => if release.version in known then Found.AlreadyIndexed else New(release)
  }

  function View(known: set<Version>, listing: seq<Option<RepositoryRelease>>): (view: seq<Found<RepositoryRelease>>)
    ensures |view| == |listing| && forall i :: 0 <= i < |view| ==> view[i] == Seen(known, listing[i])
  {
    seq(|listing|, i requires 0 <= i < |listing| => Seen(known, listing[i]))
  }

  /** The releases a refresh gets to see. */
  function Releases(known: set<Version>, listing: seq<Option<RepositoryRelease>>): seq<RepositoryRelease> {
    NewReleases(View(known, listing))
  }

  /** A refresh gets to see the release listed at position i. */
  ghost predicate Collected(known: set<Version>, listing: seq<Option<RepositoryRelease>>, i: int) {
    0 <= i < |listing| && listing[i].Some? && i < FirstIndexed(View(known, listing))
  }

  /** The versions known to the pager are those of the provider's rows, and only grow. */
  ghost predicate LaterKnown(t: Tables, p: Id, later: set<Version>) {
    VersionsOf(t, p) <= later
  }

  /** A listed release is collected exactly if neither it nor any release before it is indexed. */
  lemma CollectedIffNoneIndexed(known: set<Version>, listing: seq<Option<RepositoryRelease>>, i: nat)
    requires i < |listing|
    ensures Collected(known, listing, i) <==>
            listing[i].Some? && forall j :: 0 <= j <= i && listing[j].Some? ==> listing[j].value.version !in known
  {
    var view := View(known, listing);
    if listing[i].Some? && forall j :: 0 <= j <= i && listing[j].Some? ==> listing[j].value.version !in known {
      assert forall j :: 0 <= j <= i ==> !view[j].AlreadyIndexed?;
    }
    if Collected(known, listing, i) {
      forall j | 0 <= j <= i && listing[j].Some?
        ensures listing[j].value.version !in known
      {
        assert !view[j].AlreadyIndexed?;
      }
    }
  }

  /**
   What is listed after an indexed release is lost to every later refresh, however
   the listing has grown at its new end.
   */
  lemma BehindIndexedIsLost(later: set<Version>, newer: seq<Option<RepositoryRelease>>,
                            listing: seq<Option<RepositoryRelease>>, f: nat, i: nat)
    requires f < i < |listing| && listing[f].Some? && listing[f].value.version in later
    ensures !Collected(later, newer + listing, |newer| + i)
  {
    var all := newer + listing;
    assert all[|newer| + f] == listing[f];
    CollectedIffNoneIndexed(later, all, |newer| + i);
  }

  // ---------- positions ----------

  /** The release at an index of the collected ones, back in the listing. */
  lemma {:induction false} PositionOf<R>(stretch: seq<Found<R>>, m: nat) returns (f: nat)
    requires m < |News(stretch)|
    ensures f < |stretch| && stretch[f] == New(News(stretch)[m]) && |News(stretch[..f])| == m
    decreases |stretch|
  {
    var init := stretch[..|stretch| - 1];
    if m < |News(init)| {
      f := PositionOf(init, m);
      assert init[..f] == stretch[..f] && init[f] == stretch[f];
    } else {
      f := |stretch| - 1;
    }
  }

  lemma NewsOfPrefix<R>(stretch: seq<Found<R>>, i: nat, j: nat)
    requires i <= j <= |stretch|
    ensures |News(stretch[..i])| <= |News(stretch[..j])|
  {
    assert stretch[..j] == stretch[..i] + stretch[i..j];
    NewsAppend(stretch[..i], stretch[i..j]);
  }

  /** Every version added is that of a release processed. */
  lemma {:induction false} AddedIsProcessed(known: set<Version>, releases: seq<RepositoryRelease>, version: Version)
    requires version in NewVersions(known, releases)
    ensures exists m :: 0 <= m < |releases| && releases[m].version == version
    decreases |releases|
  {
    var n := |releases| - 1;
    if releases[n].version != version {
      var init := releases[..n];
      AddedIsProcessed(known, init, version);
      var m :| 0 <= m < |init| && init[m].version == version;
      assert releases[m].version == version;
    }
  }

  // ---------- refreshes over time ----------

  /** A refresh of a provider has ended after the first k of the releases it got to see. */
  ghost predicate RefreshedTo(t: Tables, t': Tables, p: Id, listing: seq<Option<RepositoryRelease>>, k: nat) {
    var known := VersionsOf(t, p);
    && k <= |Releases(known, listing)|
    && Grown(t, t', p, NewVersions(known, Releases(known, listing)[..k]))
  }

  /** How many releases a refresh sees before position i. */
  function SeenBefore(known: set<Version>, listing: seq<Option<RepositoryRelease>>, i: nat): nat
    requires i <= |listing|
  {
    |News(View(known, listing)[..i])|
  }

  /** A version added by processing the first k releases is listed before all releases not processed. */
  lemma AddedBeforeUnreached(known: set<Version>, listing: seq<Option<RepositoryRelease>>, k: nat,
                             version: Version, i: nat)
    returns (f: nat)
    requires k <= |Releases(known, listing)| && version in NewVersions(known, Releases(known, listing)[..k])
    requires i <= |listing| && SeenBefore(known, listing, i) >= k
    ensures f < i && listing[f].Some? && listing[f].value.version == version
  {
    var view := View(known, listing);
    var stretch, releases := view[..FirstIndexed(view)], Releases(known, listing);
    AddedIsProcessed(known, releases[..k], version);
    var m :| 0 <= m < k && releases[..k][m].version == version;
    f := PositionOf(stretch, m);
    assert stretch[..f] == view[..f];
    if i <= f {
      NewsOfPrefix(view, i, f);
      assert false;
    }
  }

  /** A refresh that added something has indexed a release listed before all those it did not get to. */
  lemma IndexedBeforeUnreached(t: Tables, t': Tables, p: Id, listing: seq<Option<RepositoryRelease>>, k: nat, i: nat)
    returns (f: nat)
    requires RefreshedTo(t, t', p, listing, k)
    requires NewVersions(VersionsOf(t, p), Releases(VersionsOf(t, p), listing)[..k]) != []
    requires i <= |listing| && SeenBefore(VersionsOf(t, p), listing, i) >= k
    ensures f < i && listing[f].Some? && listing[f].value.version in VersionsOf(t', p)
  {
    var known := VersionsOf(t, p);
    var added := NewVersions(known, Releases(known, listing)[..k]);
    GrownVersions(t, t', p, added);
    f := AddedBeforeUnreached(known, listing, k, added[0], i);
  }

  /**
   Once a refresh has added something, the releases it did not get to, because of
   its limit or an exception, are lost to all later refreshes of the listing.
   */
  lemma UnreachedReleasesAreLost(t: Tables, t': Tables, p: Id, listing: seq<Option<RepositoryRelease>>, k: nat, i: nat,
                                 later: set<Version>, newer: seq<Option<RepositoryRelease>>)
    requires RefreshedTo(t, t', p, listing, k) && LaterKnown(t', p, later)
    requires NewVersions(VersionsOf(t, p), Releases(VersionsOf(t, p), listing)[..k]) != []
    requires Collected(VersionsOf(t, p), listing, i) && SeenBefore(VersionsOf(t, p), listing, i) >= k
    ensures !Collected(later, newer + listing, |newer| + i)
  {
    var f := IndexedBeforeUnreached(t, t', p, listing, k, i);
    BehindIndexedIsLost(later, newer, listing, f, i);
  }

  /** If the first release seen gets indexed, refreshing the same listing again finds nothing. */
  lemma NothingLeftToFind(t: Tables, t': Tables, p: Id, listing: seq<Option<RepositoryRelease>>, k: nat)
    requires RefreshedTo(t, t', p, listing, k) && Releases(VersionsOf(t, p), listing) != []
    requires Releases(VersionsOf(t, p), listing)[0].version in VersionsOf(t', p)
    ensures Releases(VersionsOf(t', p), listing) == []
  {
    GrownVersions(t, t', p, NewVersions(VersionsOf(t, p), Releases(VersionsOf(t, p), listing)[..k]));
    FirstSeenHidesAll(VersionsOf(t, p), VersionsOf(t', p), listing);
  }

  lemma FirstSeenHidesAll(known: set<Version>, known': set<Version>, listing: seq<Option<RepositoryRelease>>)
    requires known <= known' && Releases(known, listing) != [] && Releases(known, listing)[0].version in known'
    ensures Releases(known', listing) == []
  {
    var view := View(known, listing);
    var f := PositionOf(view[..FirstIndexed(view)], 0);
    assert view[..FirstIndexed(view)][..f] == view[..f];
    if Releases(known', listing) != [] {
      var release := Releases(known', listing)[0];
      CollectedIff(View(known', listing), release);
      var i :| 0 <= i < |listing| && View(known', listing)[i] == New(release)
               && forall j :: 0 <= j < i ==> !View(known', listing)[j].AlreadyIndexed?;
      FirstIsHiddenBefore(known, known', listing, f, i, release);
    }
  }

  lemma FirstIsHiddenBefore(known: set<Version>, known': set<Version>, listing: seq<Option<RepositoryRelease>>,
                            f: nat, i: nat, release: RepositoryRelease)
    requires known <= known' && f < |listing| && i < |listing| && listing[f].Some? && listing[f].value.version in known'
    requires News(View(known, listing)[..f]) == []
    ensures !(View(known', listing)[i] == New(release)
              && forall j :: 0 <= j < i ==> !View(known', listing)[j].AlreadyIndexed?)
  {
    var view, view' := View(known, listing), View(known', listing);
    assert view'[f].AlreadyIndexed?;
    if i < f && view'[i] == New(release) {
      assert view[..f][i] == New(release);
      InNews(view[..f], release);
      assert false;
    }
  }

  /** Two new releases, both signed and extractable, the newer one listed first. */
  function TwoReleases(newer: Version, older: Version): seq<Option<RepositoryRelease>> {
    [Some(RepositoryRelease(newer, Signed(Extracted))), Some(RepositoryRelease(older, Signed(Extracted)))]
  }

  /** With a limit of one, a refresh of two new releases adds the newer one and loses the older one. */
  lemma LimitOfOneLosesTheOlder(known: set<Version>, newer: Version, older: Version)
    requires newer !in known && older !in known && newer != older
    ensures var releases := Releases(known, TwoReleases(newer, older));
      && |releases| == 2 && releases[1].version == older
      && StopsAfter(known, releases, Some(1), 1, false) && NewVersions(known, releases[..1]) == [newer]
    ensures Releases(known + {newer}, TwoReleases(newer, older)) == []
  {
    var listing := TwoReleases(newer, older);
    BothSeen(View(known, listing), listing[0].value, listing[1].value);
    var releases := Releases(known, listing);
    assert releases[..0] == [] && releases[..1] == [releases[0]] && [releases[0]][..0] == [];
    FirstSeenHidesAll(known, known + {newer}, listing);
  }

  lemma BothSeen(view: seq<Found<RepositoryRelease>>, a: RepositoryRelease, b: RepositoryRelease)
    requires view == [New(a), New(b)]
    ensures NewReleases(view) == [a, b]
  {
    FirstIndexedIs(view, 2);
    assert view[..2] == view && view[..1] == [New(a)] && [New(a)][..0] == [];
    assert News(view[..1]) == [a];
  }
}
