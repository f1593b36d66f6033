/**
 Which downloads show that a redirect is still in use: for every token, only its
 last download on the redirect's target counts.
 */
module RedirectUsage {
  import opened Text
  import opened RegistryTables
  import opened RegistryInvariants
  import opened VersionText

  const SECONDS_PER_DAY := 86400

  predicate OnProvider(t: Tables, p: Id, d: Id) {
    d in t.downloads && t.downloads[d].version in t.versions && t.versions[t.downloads[d].version].provider == p
  }

  /** No later download of the provider was made with the same token; downloads without a token form one group. */
  ghost predicate LastForToken(t: Tables, p: Id, d: Id) {
    && OnProvider(t, p, d)
    && forall e: Id :: OnProvider(t, p, e) && t.downloads[e].token == t.downloads[d].token ==> e <= d
  }

  /** The current name of a namespace and the names redirected to it, folded. */
  function NamespaceNames(t: Tables, ns: Id): set<string> {
    (if ns in t.namespaces then {Fold(t.namespaces[ns])} else {})
    + set n | n in t.namespaceRedirects && t.namespaceRedirects[n].ns == ns :: Fold(t.namespaceRedirects[n].name)
  }

  predicate UnderNames(t: Tables, redirect: RedirectRow, row: DownloadRow) {
    && Fold(row.moduleName) == Fold(redirect.moduleName)
    && row.providerName == redirect.provider
    && Fold(row.nsName) in NamespaceNames(t, redirect.ns)
  }

  /** A negative number of days does not limit the window. */
  predicate InWindow(time: int, now: int, lookbackDays: int) {
    lookbackDays < 0 || time >= now - lookbackDays * SECONDS_PER_DAY
  }

  /** The downloads that keep a redirect in use. */
  ghost function Usage(t: Tables, r: Id, now: int, lookbackDays: int): set<Id>
    requires r in t.redirects
  {
    set d | d in t.downloads && LastForToken(t, t.redirects[r].target, d)
            && UnderNames(t, t.redirects[r], t.downloads[d]) && InWindow(t.downloads[d].time, now, lookbackDays)
  }

  // ---------- written out over the tables ----------

  /** The download is of a version of the provider. */
  predicate IsOf(t: Tables, p: Id, d: Id) {
    d in t.downloads && t.downloads[d].version in t.versions && t.versions[t.downloads[d].version].provider == p
  }

  /** The name is, up to case, the one the namespace has now, or one it had before it was renamed. */
  ghost predicate NameOrFormerName(t: Tables, ns: Id, name: string) {
    || (ns in t.namespaces && SameUpToCase(name, t.namespaces[ns]))
    || exists n :: n in t.namespaceRedirects && t.namespaceRedirects[n].ns == ns
                   && SameUpToCase(name, t.namespaceRedirects[n].name)
  }

  /**
   The download is the newest of its token on the redirect's target, was made
   under the names of the redirect, and no longer ago than the given number of
   days; a negative number does not limit it.
   */
  ghost predicate KeepsInUse(t: Tables, redirect: RedirectRow, now: int, days: int, d: Id) {
    && IsOf(t, redirect.target, d)
    && (forall e: Id :: IsOf(t, redirect.target, e) && t.downloads[e].token == t.downloads[d].token ==> e <= d)
    && SameUpToCase(t.downloads[d].moduleName, redirect.moduleName)
    && t.downloads[d].providerName == redirect.provider
    && NameOrFormerName(t, redirect.ns, t.downloads[d].nsName)
    && (days < 0 || t.downloads[d].time + 86400 * days >= now)
  }

  lemma NamespaceNamesMean(t: Tables, ns: Id, name: string)
    ensures Fold(name) in NamespaceNames(t, ns) <==> NameOrFormerName(t, ns, name)
  {
    if ns in t.namespaces {
      FoldIdentifiesCase(name, t.namespaces[ns]);
    }
    forall n | n in t.namespaceRedirects
      ensures Fold(name) == Fold(t.namespaceRedirects[n].name) <==> SameUpToCase(name, t.namespaceRedirects[n].name)
    {
      FoldIdentifiesCase(name, t.namespaceRedirects[n].name);
    }
  }

  /** What uses a redirect are exactly the downloads that keep it in use. */
  lemma UsageMeans(t: Tables, r: Id, now: int, lookbackDays: int)
    requires r in t.redirects
    ensures forall d :: d in Usage(t, r, now, lookbackDays) <==> KeepsInUse(t, t.redirects[r], now, lookbackDays, d)
  {
    var redirect := t.redirects[r];
    forall d | d in t.downloads
      ensures d in Usage(t, r, now, lookbackDays) <==> KeepsInUse(t, redirect, now, lookbackDays, d)
    {
      NamespaceNamesMean(t, redirect.ns, t.downloads[d].nsName);
      FoldIdentifiesCase(t.downloads[d].moduleName, redirect.moduleName);
      assert forall e: Id :: IsOf(t, redirect.target, e) <==> OnProvider(t, redirect.target, e);
    }
  }

  /** Re-indexing any version of any provider does not change what uses a redirect. */
  lemma ImportKeepsUsage(t: Tables, t': Tables, config: Config, p: Id, version: Version,
                         r: Id, now: int, lookbackDays: int)
    requires Inv(t) && Imported(t, t', config, p, version) && r in t.redirects
    ensures r in t'.redirects && Usage(t', r, now, lookbackDays) == Usage(t, r, now, lookbackDays)
  {
    var target := t.redirects[r].target;
    ImportConservesDownloads(t, t', config, p, version);
    forall d: Id | d in t.downloads
      ensures OnProvider(t', target, d) <==> OnProvider(t, target, d)
    {
      OwnedDownload(t, target, d);
      OwnedDownload(t', target, d);
      assert forall w :: d in DownloadsOf(t', target, w) <==> d in DownloadsOf(t, target, w);
    }
  }

  lemma OwnedDownload(t: Tables, p: Id, d: Id)
    requires d in t.downloads
    ensures OnProvider(t, p, d) <==> exists w :: d in DownloadsOf(t, p, w)
  {
    var v := t.downloads[d].version;
    if OnProvider(t, p, d) {
      assert IsRowOf(t.versions, p, t.versions[v].version, v);
      assert d in DownloadsOf(t, p, t.versions[v].version);
    }
  }

  /** `t'` differs from `t` by later downloads only. */
  ghost predicate LaterDownloads(t: Tables, t': Tables) {
    && t' == t.(downloads := t'.downloads)
    && (forall d :: d in t.downloads ==> d in t'.downloads && t'.downloads[d] == t.downloads[d])
    && (forall d, e :: d in t'.downloads && d !in t.downloads && e in t.downloads ==> e < d)
  }

  /**
   Since an earlier time, every token that used the redirect has downloaded the
   target again, and the newest download of no token was made under the
   redirect's names.
   */
  ghost predicate TokensMoved(t: Tables, t': Tables, r: Id, now: int, now': int, lookbackDays: int) {
    && r in t.redirects && LaterDownloads(t, t') && now <= now'
    && var target := t.redirects[r].target;
    && (forall d :: d in Usage(t, r, now, lookbackDays) ==>
          exists e: Id :: e !in t.downloads && OnProvider(t', target, e)
                          && t'.downloads[e].token == t.downloads[d].token)
    && forall e: Id :: e !in t.downloads && LastForToken(t', target, e) ==>
         !UnderNames(t', t.redirects[r], t'.downloads[e])
  }

  /** Once all tokens have moved to other names, nothing uses the redirect any more. */
  lemma MovedTokensFreeRedirect(t: Tables, t': Tables, r: Id, now: int, now': int, lookbackDays: int)
    requires TokensMoved(t, t', r, now, now', lookbackDays)
    ensures r in t'.redirects && Usage(t', r, now', lookbackDays) == {}
  {
    var target := t.redirects[r].target;
    forall d: Id | OnProvider(t, target, d) && UnderNames(t, t.redirects[r], t.downloads[d])
                   && InWindow(t.downloads[d].time, now', lookbackDays)
      ensures exists e: Id :: OnProvider(t', target, e) && t'.downloads[e].token == t.downloads[d].token && d < e
    {
      if LastForToken(t, target, d) {
        assert d in Usage(t, r, now, lookbackDays);
        var e: Id :| e !in t.downloads && OnProvider(t', target, e) && t'.downloads[e].token == t.downloads[d].token;
        assert d < e;
      } else {
        var e: Id :| OnProvider(t, target, e) && t.downloads[e].token == t.downloads[d].token && d < e;
        assert OnProvider(t', target, e) && t'.downloads[e] == t.downloads[e];
      }
    }
  }

  /** All downloads that use a redirect, whenever they were made, are older than the given number of days. */
  ghost predicate OnlyUsedBefore(t: Tables, r: Id, now: int, days: int)
    requires r in t.redirects
  {
    forall d :: d in Usage(t, r, now, -1) ==> t.downloads[d].time < now - days * SECONDS_PER_DAY
  }

  /** Nothing uses a redirect within a window exactly when all downloads that use it at all are older. */
  lemma UnusedInWindowIff(t: Tables, r: Id, now: int, lookbackDays: int)
    requires r in t.redirects && lookbackDays >= 0
    ensures Usage(t, r, now, lookbackDays) == {} <==> OnlyUsedBefore(t, r, now, lookbackDays)
  {
    assert forall d :: d in Usage(t, r, now, lookbackDays) <==>
                       d in Usage(t, r, now, -1) && t.downloads[d].time >= now - lookbackDays * SECONDS_PER_DAY;
  }

  /** With a window of zero days a download still counts exactly if it is stamped at the present moment or later. */
  lemma ZeroDaysStillBlocks(t: Tables, r: Id, d: Id, now: int)
    requires r in t.redirects && d in Usage(t, r, now, -1)
    ensures d in Usage(t, r, now, 0) <==> t.downloads[d].time >= now
  {
  }

  /** A namespace renamed from `old` to `new`, and a download through the redirect, recorded under its former name. */
  function DownloadedInFormerNamespace(now: int): Tables {
    var t := DownloadedUnderFormerName(now);
    Tables(map[0 := "new"], map[0 := NamespaceRedirectRow("old", 0)], t.providers, t.versions,
           map[0 := DownloadRow(0, now, Some("token"), "old", "a", "aws")], t.redirects, [])
  }

  /** The former name of the namespace counts, so that the redirect is in use. */
  lemma FormerNamespaceRefused(now: int)
    ensures Inv(DownloadedInFormerNamespace(now))
    ensures Usage(DownloadedInFormerNamespace(now), 0, now, 7) == {0}
  {
    var t := DownloadedInFormerNamespace(now);
    FormerNamespaceIsValid(now);
    assert KeepsInUse(t, t.redirects[0], now, 7, 0) by {
      assert t.namespaceRedirects[0].name == "old";
    }
    UsageMeans(t, 0, now, 7);
  }

  lemma FormerNamespaceIsValid(now: int)
    ensures Inv(DownloadedInFormerNamespace(now))
  {
    InvParts(DownloadedInFormerNamespace(now));
    FormerNamespaceRows(now);
    FormerNamespaceNames(now);
  }

  lemma FormerNamespaceRows(now: int)
    ensures RowsInv(DownloadedInFormerNamespace(now))
  {
    RowsMean(DownloadedInFormerNamespace(now));
  }

  lemma FormerNamespaceNames(now: int)
    ensures NamesInv(DownloadedInFormerNamespace(now))
  {
    FormerNamesStayUnique(now);
    NamesMean(DownloadedInFormerNamespace(now));
  }

  lemma FormerNamesStayUnique(now: int)
    ensures NamesUnique(DownloadedInFormerNamespace(now))
  {
    var t := DownloadedUnderFormerName(now);
    FormerNameIsRedirect(t, now);
    NamesMean(t);
    SameNames(t, DownloadedInFormerNamespace(now));
  }

  lemma SameNames(t: Tables, t': Tables)
    requires NamesUnique(t) && t'.providers == t.providers && t'.redirects == t.redirects
    ensures NamesUnique(t')
  {
    assert forall name, p :: IsLive(t', name, p) <==> IsLive(t, name, p);
    assert forall name, r :: IsRedirect(t', name, r) <==> IsRedirect(t, name, r);
  }

  /** One provider, renamed from `a` to `b`, and a download under its former name at the given time. */
  function DownloadedUnderFormerName(now: int): Tables {
    Tables(map[0 := "ns"], map[], map[0 := ProviderRow(0, "b", "aws", None)],
           map[0 := VersionRow(0, FirstVersion(), false, false)],
           map[0 := DownloadRow(0, now, Some("token"), "ns", "a", "aws")],
           map[0 := RedirectRow(0, "a", "aws", 0)], [])
  }

  /** Such a redirect counts as used right after the download, although the window is zero days. */
  lemma ZeroDaysRefused(now: int)
    ensures Inv(DownloadedUnderFormerName(now))
    ensures Usage(DownloadedUnderFormerName(now), 0, now, 0) == {0}
  {
    var t := DownloadedUnderFormerName(now);
    InvParts(t);
    RowsMean(t);
    FormerNameIsRedirect(t, now);
    assert OnProvider(t, 0, 0) && LastForToken(t, 0, 0);
    assert Fold("ns") in NamespaceNames(t, 0);
  }

  lemma FormerNameIsRedirect(t: Tables, now: int)
    requires t == DownloadedUnderFormerName(now)
    ensures NamesInv(t)
  {
    NamesMean(t);
    FoldedLetters();
    assert forall name, r :: IsRedirect(t, name, r) ==> r == 0 && name == MakeName(0, "a", "aws");
    assert forall name, p :: IsLive(t, name, p) ==> p == 0 && name == MakeName(0, "b", "aws");
  }

  lemma FoldedLetters()
    ensures Fold("a") == "a" && Fold("b") == "b"
  {
    assert "a"[1..] == "" && "b"[1..] == "";
  }
}
