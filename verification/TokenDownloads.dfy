/**
 The downloads the token map is made of, as rows of the registry: the version and
 the provider of a download are those of the row it points at.
 */
module TokenDownloads {
  import opened Text
  import opened RegistryTables
  import opened RegistryInvariants
  import opened VersionText
  import TokenVersions

  /** The columns of a download that only the token map uses. */
  datatype Usage = Usage(environment: Option<string>, terraform: Option<string>)

  /** The downloads that point at an existing row, joined with it. */
  function Joined(t: Tables, usage: map<Id, Usage>): map<Id, TokenVersions.Download> {
    map d | d in t.downloads && d in usage && t.downloads[d].version in t.versions ::
      JoinedRow(t.downloads[d], t.versions[t.downloads[d].version], usage[d])
  }

  function JoinedRow(download: DownloadRow, row: VersionRow, usage: Usage): TokenVersions.Download {
    TokenVersions.Download(row.provider,
                           TokenVersions.Row(download.token, usage.environment, row.version.text, usage.terraform))
  }

  /** A download of a version is joined with that version's text and provider, and keeps its token. */
  lemma JoinedWithItsVersion(t: Tables, usage: map<Id, Usage>, p: Id, version: Version, d: Id)
    requires d in DownloadsOf(t, p, version) && d in usage
    ensures d in Joined(t, usage)
    ensures var joined := Joined(t, usage)[d];
            && joined.provider == p && joined.row.version == version.text && joined.row.token == t.downloads[d].token
            && joined.row.environment == usage[d].environment && joined.row.terraform == usage[d].terraform
  {
  }

  /** Re-indexing any version leaves the joined downloads, and with them the token map, as they were. */
  lemma ImportKeepsTokenMap(t: Tables, t': Tables, config: Config, p: Id, version: Version, usage: map<Id, Usage>)
    requires Inv(t) && Imported(t, t', config, p, version)
    ensures Joined(t', usage) == Joined(t, usage)
  {
    ImportConservesDownloads(t, t', config, p, version);
    NoneDangle(t);
    SameRowsSameJoin(t, t', usage);
  }

  lemma NoneDangle(t: Tables)
    requires Inv(t)
    ensures DownloadsOk(t)
  {
    InvParts(t);
    RowsMean(t);
  }

  lemma SameRowsSameJoin(t: Tables, t': Tables, usage: map<Id, Usage>)
    requires DownloadsOk(t) && t'.downloads.Keys == t.downloads.Keys
    requires forall q, w :: DownloadsOf(t', q, w) == DownloadsOf(t, q, w)
    requires forall d :: d in t.downloads ==> t'.downloads[d] == t.downloads[d].(version := t'.downloads[d].version)
    ensures Joined(t', usage) == Joined(t, usage)
  {
    forall d | d in t.downloads
      ensures t.downloads[d].version in t.versions && t'.downloads[d].version in t'.versions
      ensures var row, row' := t.versions[t.downloads[d].version], t'.versions[t'.downloads[d].version];
              row'.provider == row.provider && row'.version == row.version
    {
      var row := t.versions[t.downloads[d].version];
      SameRow(t, t', d, row.provider, row.version);
    }
  }

  lemma SameRow(t: Tables, t': Tables, d: Id, q: Id, w: Version)
    requires d in t.downloads && IsRowOf(t.versions, q, w, t.downloads[d].version)
    requires d in t'.downloads && DownloadsOf(t', q, w) == DownloadsOf(t, q, w)
    ensures IsRowOf(t'.versions, q, w, t'.downloads[d].version)
  {
    assert d in DownloadsOf(t, q, w);
  }
}
