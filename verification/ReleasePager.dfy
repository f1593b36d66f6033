/**
 Collecting the new releases of a repository from a listing that is fetched page
 by page, newest first, until a release turns up that is indexed already.
 */
module ReleasePager {

  const PAGE_SIZE: nat := 100

  /** What a listed release is found to be. */
  datatype Found<+R> = Invalid | AlreadyIndexed | New(release: R)

  /** The releases on a page; pages count from one, and pages past the end are empty. */
  function Page<R>(listing: seq<Found<R>>, page: nat): (results: seq<Found<R>>)
    requires page > 0
    ensures |results| <= PAGE_SIZE
  {
    var from := PAGE_SIZE * (page - 1);
    if from >= |listing| then []
    else if from + PAGE_SIZE <= |listing| then listing[from..from + PAGE_SIZE]
    else listing[from..]
  }

  // ---------- what is to be collected ----------

  /** The position of the first release indexed already, or the end of the listing. */
  function FirstIndexed<R>(listing: seq<Found<R>>): (n: nat)
    ensures n <= |listing| && (n < |listing| ==> listing[n].AlreadyIndexed?)
    ensures forall i :: 0 <= i < n ==> !listing[i].AlreadyIndexed?
  {
    if listing == [] || listing[0].AlreadyIndexed? then 0 else 1 + FirstIndexed(listing[1..])
  }

  /** The releases in a stretch of the listing that are neither invalid nor indexed. */
  function News<R>(stretch: seq<Found<R>>): seq<R> {
    if stretch == [] then []
    else if stretch[|stretch| - 1].New? then News(stretch[..|stretch| - 1]) + [stretch[|stretch| - 1].release]
    else News(stretch[..|stretch| - 1])
  }

  /** The new releases before the first indexed one. */
  function NewReleases<R>(listing: seq<Found<R>>): seq<R> {
    News(listing[..FirstIndexed(listing)])
  }

  /** The number of the last page that has to be fetched. */
  function LastPage<R>(listing: seq<Found<R>>): nat {
    FirstIndexed(listing) / PAGE_SIZE + 1
  }

  ghost predicate SomeFails(failing: set<nat>, pages: nat) {
    exists page :: 1 <= page <= pages && page in failing
  }

  // ---------- the loop ----------

  /** Goes through one page up to the first release indexed already. */
  method CollectPage<R>(results: seq<Found<R>>) returns (releases: seq<R>, stopped: bool)
    ensures releases == News(results[..FirstIndexed(results)])
    ensures stopped <==> FirstIndexed(results) < |results|
  {
    releases := [];
    for i := 0 to |results|
      invariant i <= FirstIndexed(results) && releases == News(results[..i])
    {
      match results[i] {
        case Invalid =>
        case AlreadyIndexed =>
          return releases, true;
        case New(release) =>
          releases := releases + [release];
      }
      assert results[..i + 1][..i] == results[..i];
    }
    stopped := false;
  }

  /** Fetches pages until an indexed release or a short page; a page that cannot be fetched loses everything. */
  method GetNewReleases<R>(listing: seq<Found<R>>, failing: set<nat>) returns (releases: seq<R>)
    ensures releases == if SomeFails(failing, FirstIndexed(listing) / 100 + 1) then [] else NewReleases(listing)
  {
    var page := 1;
    var obtainResults := true;
    releases := [];
    while obtainResults
      invariant page >= 1 && !SomeFails(failing, if obtainResults then page - 1 else LastPage(listing))
      invariant obtainResults ==>
        PAGE_SIZE * (page - 1) <= FirstIndexed(listing) && releases == News(listing[..PAGE_SIZE * (page - 1)])
      invariant !obtainResults ==> releases == NewReleases(listing)
      decreases obtainResults, |listing| - PAGE_SIZE * (page - 1)
    {
      if page in failing {
        return [];
      }
      OneMoreFetched(failing, page);
      var results := Page(listing, page);
      var added, stopped := CollectPage(results);
      PageCollected(listing, page);
      releases := releases + added;
      if stopped || |results| < PAGE_SIZE {
        obtainResults := false;
      } else {
        page := page + 1;
      }
    }
  }

  lemma OneMoreFetched(failing: set<nat>, page: nat)
    requires page >= 1 && page !in failing && !SomeFails(failing, page - 1)
    ensures !SomeFails(failing, page)
  {
  }

  lemma {:induction false} NewsAppend<R>(a: seq<Found<R>>, b: seq<Found<R>>)
    ensures News(a + b) == News(a) + News(b)
    decreases |b|
  {
    if b == [] {
      assert a + b == a;
    } else {
      var init := b[..|b| - 1];
      NewsAppend(a, init);
      assert (a + b)[..|a + b| - 1] == a + init;
    }
  }

  /** The first indexed release is determined by its position and what comes before it. */
  lemma {:induction false} FirstIndexedIs<R>(listing: seq<Found<R>>, n: nat)
    requires n <= |listing| && (n < |listing| ==> listing[n].AlreadyIndexed?)
    requires forall i :: 0 <= i < n ==> !listing[i].AlreadyIndexed?
    ensures FirstIndexed(listing) == n
  {
    if n > 0 {
      FirstIndexedIs(listing[1..], n - 1);
    }
  }

  /** Going through a page either finishes the listing or gets to the next page. */
  lemma PageCollected<R>(listing: seq<Found<R>>, page: nat)
    requires page >= 1 && PAGE_SIZE * (page - 1) <= FirstIndexed(listing)
    ensures var from, results := PAGE_SIZE * (page - 1), Page(listing, page);
            var n := FirstIndexed(results);
            && from + n <= |listing| && News(listing[..from]) + News(results[..n]) == News(listing[..from + n])
            && (n < |results| || |results| < PAGE_SIZE ==>
                  FirstIndexed(listing) == from + n && LastPage(listing) == page)
            && (n == |results| == PAGE_SIZE ==>
                  PAGE_SIZE * page <= FirstIndexed(listing) && from + n == PAGE_SIZE * page)
  {
    var from, results := PAGE_SIZE * (page - 1), Page(listing, page);
    NewsOfStretch(listing, from, results, FirstIndexed(results));
    FirstIndexedInStretch(listing, from, results);
  }

  lemma NewsOfStretch<R>(listing: seq<Found<R>>, from: nat, results: seq<Found<R>>, n: nat)
    requires from + |results| <= |listing| && results == listing[from..from + |results|] && n <= |results|
    ensures News(listing[..from]) + News(results[..n]) == News(listing[..from + n])
  {
    NewsAppend(listing[..from], results[..n]);
    PrefixGrows(listing, from, results, n);
  }

  /** An indexed release in a stretch before which there is none is the first one. */
  lemma FirstIndexedInStretch<R>(listing: seq<Found<R>>, from: nat, results: seq<Found<R>>)
    requires from + |results| <= |listing| && results == listing[from..from + |results|]
    requires from <= FirstIndexed(listing)
    ensures var n := FirstIndexed(results);
            && from + n <= FirstIndexed(listing)
            && (n < |results| || from + |results| == |listing| ==> FirstIndexed(listing) == from + n)
  {
    var n := FirstIndexed(results);
    NoneIndexedBefore(listing, from, results);
    if n < |results| {
      assert listing[from + n] == results[n];
    }
  }

  lemma NoneIndexedBefore<R>(listing: seq<Found<R>>, from: nat, results: seq<Found<R>>)
    requires from + |results| <= |listing| && results == listing[from..from + |results|]
    requires from <= FirstIndexed(listing)
    ensures from + FirstIndexed(results) <= FirstIndexed(listing)
  {
    var n := FirstIndexed(results);
    assert forall i :: from <= i < from + n ==> listing[i] == results[i - from];
    FirstIndexedAtLeast(listing, from + n);
  }

  lemma {:induction false} FirstIndexedAtLeast<R>(listing: seq<Found<R>>, n: nat)
    requires n <= |listing| && forall i :: 0 <= i < n ==> !listing[i].AlreadyIndexed?
    ensures FirstIndexed(listing) >= n
  {
    if n > 0 {
      FirstIndexedAtLeast(listing[1..], n - 1);
    }
  }

  lemma PrefixGrows<T>(s: seq<T>, from: nat, part: seq<T>, n: nat)
    requires from + |part| <= |s| && part == s[from..from + |part|] && n <= |part|
    ensures s[..from] + part[..n] == s[..from + n]
  {
  }

  // ---------- what is collected ----------

  /** Releases listed after an indexed one are never collected, whether or not they are indexed themselves. */
  lemma OlderReleasesAreIgnored<R>(newer: seq<Found<R>>, older: seq<Found<R>>)
    requires forall i :: 0 <= i < |newer| ==> !newer[i].AlreadyIndexed?
    ensures NewReleases(newer + [AlreadyIndexed] + older) == News(newer)
  {
    var listing := newer + [AlreadyIndexed] + older;
    FirstIndexedIs(listing, |newer|);
    assert listing[..|newer|] == newer;
  }

  /** A release is collected exactly when it is new and no release before it is indexed. */
  lemma {:induction false} CollectedIff<R>(listing: seq<Found<R>>, release: R)
    ensures release in NewReleases(listing) <==>
            exists i :: 0 <= i < |listing| && listing[i] == New(release)
                        && forall j :: 0 <= j < i ==> !listing[j].AlreadyIndexed?
  {
    var n := FirstIndexed(listing);
    InNews(listing[..n], release);
    if release in NewReleases(listing) {
      var i :| 0 <= i < n && listing[..n][i] == New(release);
      assert listing[i] == New(release);
    }
    if i :| 0 <= i < |listing| && listing[i] == New(release) && forall j :: 0 <= j < i ==> !listing[j].AlreadyIndexed? {
      assert i < n && listing[..n][i] == New(release);
    }
  }

  lemma {:induction false} InNews<R>(stretch: seq<Found<R>>, release: R)
    ensures release in News(stretch) <==> exists i :: 0 <= i < |stretch| && stretch[i] == New(release)
    decreases |stretch|
  {
    if stretch != [] {
      var init := stretch[..|stretch| - 1];
      InNews(init, release);
      assert forall i :: 0 <= i < |init| ==> init[i] == stretch[i];
    }
  }
}
