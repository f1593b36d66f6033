/**
 The version every analytics token uses: of each token's latest downloads, one per
 environment, the one in the environment configured last.
 */
module TokenVersions {
  import opened Text

  type Id = nat

  /** What is recorded of a download besides its module provider. */
  datatype Row = Row(token: Option<string>, environment: Option<string>, version: string, terraform: Option<string>)

  datatype Download = Download(provider: Id, row: Row)

  /** What is reported of a token. */
  datatype Entry = Entry(environment: Option<string>, version: string, terraform: string)

  datatype Outcome = Versions(tokens: map<string, Entry>) | KeyWithoutEnvironment | UnknownEnvironment

  // ---------- the rows ----------

  predicate SameGroup(a: Download, b: Download) {
    a.provider == b.provider && a.row.token == b.row.token && a.row.environment == b.row.environment
  }

  /** The last download of its token and environment on the module provider. */
  ghost predicate IsLast(downloads: map<Id, Download>, p: Id, d: Id) {
    && d in downloads && downloads[d].provider == p
    && forall e :: e in downloads && SameGroup(downloads[e], downloads[d]) ==> e <= d
  }

  /** The last downloads, each once, in whatever order the database delivers them. */
  ghost predicate Delivers(downloads: map<Id, Download>, p: Id, ids: seq<Id>) {
    && (forall d :: d in ids <==> IsLast(downloads, p, d))
    && forall i, j :: 0 <= i < j < |ids| ==> ids[i] != ids[j]
  }

  function RowsOf(downloads: map<Id, Download>, ids: seq<Id>): (rows: seq<Row>)
    requires forall d :: d in ids ==> d in downloads
    ensures |rows| == |ids| && forall i :: 0 <= i < |ids| ==> rows[i] == downloads[ids[i]].row
  {
    seq(|ids|, i requires 0 <= i < |ids| => downloads[ids[i]].row)
  }

  // ---------- configuration ----------

  /** The environment in an authentication key: what follows the first colon, up to the next. */
  function EnvironmentOf(key: string): Option<string> {
    var parts := Split(key, ':');
    if |parts| > 1 then Some(parts[1]) else None
  }

  /** The key is written as token, colon and environment; what follows the environment starts with a colon. */
  ghost predicate IsKey(key: string, token: string, environment: string, tail: string) {
    && key == token + ":" + environment + tail && (tail == "" || tail[0] == ':')
    && ':' !in token && ':' !in environment
  }

  lemma SplitKey(key: string, token: string, environment: string, tail: string)
    requires IsKey(key, token, environment, tail)
    ensures |Split(key, ':')| > 1 && Split(key, ':')[0] == token && Split(key, ':')[1] == environment
  {
    assert key == token + [':'] + (environment + tail);
    SplitAtSeparator(token, environment + tail, ':');
    SplitUnbroken(token, ':');
    SplitUnbroken(environment, ':');
    if tail == "" {
      assert environment + tail == environment;
    } else {
      assert environment + tail == environment + [':'] + tail[1..];
      SplitAtSeparator(environment, tail[1..], ':');
    }
  }

  lemma KeyOfPieces(key: string) returns (tail: string)
    requires |Split(key, ':')| > 1
    ensures IsKey(key, Split(key, ':')[0], Split(key, ':')[1], tail)
  {
    var parts := Split(key, ':');
    JoinOfSplit(key, ':');
    SplitSeparable(key, ':');
    tail := if |parts| == 2 then "" else ":" + Join(parts[2..], ':');
    assert parts[1..][1..] == parts[2..] && parts[1..][0] == parts[1];
    assert Join(parts[1..], ':') == parts[1] + tail;
  }

  /** The environment of a key is what stands between its first colon and the next one or the end. */
  lemma EnvironmentIff(key: string, environment: string)
    ensures EnvironmentOf(key) == Some(environment) <==> exists token, tail :: IsKey(key, token, environment, tail)
  {
    if EnvironmentOf(key) == Some(environment) {
      var tail := KeyOfPieces(key);
    }
    if token, tail :| IsKey(key, token, environment, tail) {
      SplitKey(key, token, environment, tail);
    }
  }

  predicate AllNamed(keys: seq<string>) {
    forall i :: 0 <= i < |keys| ==> EnvironmentOf(keys[i]).Some?
  }

  /** The position of every environment among the keys, its last one if it has several. */
  function Priorities(keys: seq<string>): map<string, nat>
    requires AllNamed(keys)
    decreases |keys|
  {
    if keys == [] then map[]
    else
      var n := |keys| - 1;
      Priorities(keys[..n])[EnvironmentOf(keys[n]).value := n]
  }

  lemma {:induction false} PriorityIsPosition(keys: seq<string>)
    requires AllNamed(keys)
    ensures forall e :: e in Priorities(keys) ==>
              Priorities(keys)[e] < |keys| && EnvironmentOf(keys[Priorities(keys)[e]]) == Some(e)
    decreases |keys|
  {
    if keys != [] {
      PriorityIsPosition(keys[..|keys| - 1]);
    }
  }

  /** Minus one for an environment that is not configured. */
  function Priority(priorities: map<string, nat>, environment: Option<string>): int {
    if Configured(priorities, environment) then priorities[environment.value] else -1
  }

  lemma EnvironmentsHaveOwnPriority(keys: seq<string>, a: Option<string>, b: Option<string>)
    requires AllNamed(keys) && Configured(Priorities(keys), a)
    requires Priority(Priorities(keys), a) == Priority(Priorities(keys), b)
    ensures a == b
  {
    PriorityIsPosition(keys);
  }

  predicate EnvironmentsEnabled(keys: seq<string>) {
    keys != [] && !(|keys| == 1 && EnvironmentOf(keys[0]).None?)
  }

  predicate Given(s: Option<string>) {
    s.Some? && s.value != ""
  }

  /** Rows without a token or an environment are left out when those are in use. */
  predicate Usable(keys: seq<string>, row: Row) {
    (keys != [] ==> Given(row.token)) && (EnvironmentsEnabled(keys) ==> Given(row.environment))
  }

  function Shown(token: Option<string>): string {
    if Given(token) then token.value else "No token provided"
  }

  function EntryOf(row: Row): Entry {
    Entry(row.environment, row.version, if Given(row.terraform) then row.terraform.value else "0.0.0")
  }

  predicate Counts(keys: seq<string>, row: Row, token: string) {
    Usable(keys, row) && Shown(row.token) == token
  }

  predicate Configured(priorities: map<string, nat>, environment: Option<string>) {
    environment.Some? && environment.value in priorities
  }

  // ---------- recording ----------

  /** The environment every authentication token stands for, the last one if it occurs several times. */
  function TokenEnvironments(keys: seq<string>): map<string, string>
    requires AllNamed(keys)
    decreases |keys|
  {
    if keys == [] then map[]
    else
      var key := keys[|keys| - 1];
      TokenEnvironments(keys[..|keys| - 1])[Split(key, ':')[0] := EnvironmentOf(key).value]
  }

  /** The environment recorded with a download made with an authentication token. */
  function RecordedEnvironment(keys: seq<string>, auth: Option<string>): Option<string>
    requires EnvironmentsEnabled(keys) ==> AllNamed(keys)
  {
    if keys == [] then Some("Default")
    else if !EnvironmentsEnabled(keys) then (if auth == Some(keys[0]) then Some("Default") else None)
    else if auth.Some? && auth.value in TokenEnvironments(keys) then Some(TokenEnvironments(keys)[auth.value])
    else None
  }

  /** The key at position k is the last one of the token. */
  ghost predicate LastKeyOf(keys: seq<string>, token: string, environment: string, tail: string, k: int) {
    && 0 <= k < |keys| && IsKey(keys[k], token, environment, tail)
    && forall j, other, rest :: k < j < |keys| ==> !IsKey(keys[j], token, other, rest)
  }

  lemma {:induction false} TokenEnvironmentIs(keys: seq<string>, token: string, environment: string, tail: string,
                                             k: nat)
    requires AllNamed(keys) && LastKeyOf(keys, token, environment, tail, k)
    ensures token in TokenEnvironments(keys) && TokenEnvironments(keys)[token] == environment
    decreases |keys|
  {
    var n := |keys| - 1;
    if k == n {
      SplitKey(keys[n], token, environment, tail);
    } else {
      assert LastKeyOf(keys[..n], token, environment, tail, k);
      TokenEnvironmentIs(keys[..n], token, environment, tail, k);
      var rest := KeyOfPieces(keys[n]);
    }
  }

  lemma {:induction false} TokenHasKey(keys: seq<string>, token: string)
    requires AllNamed(keys) && token in TokenEnvironments(keys)
    ensures exists k, environment, tail :: 0 <= k < |keys| && IsKey(keys[k], token, environment, tail)
    decreases |keys|
  {
    var n := |keys| - 1;
    var tail := KeyOfPieces(keys[n]);
    if Split(keys[n], ':')[0] != token {
      TokenHasKey(keys[..n], token);
      var k, environment, rest :| 0 <= k < n && IsKey(keys[..n][k], token, environment, rest);
      assert IsKey(keys[k], token, environment, rest);
    }
  }

  /**
   The environment recorded is the default one without keys, or for the single key
   without an environment; otherwise that of the last key of the authentication
   token, and none without such a key.
   */
  lemma RecordedIsOfLastKey(keys: seq<string>, auth: Option<string>)
    requires AllNamed(keys) || |keys| == 1
    ensures keys == [] ==> RecordedEnvironment(keys, auth) == Some("Default")
    ensures |keys| == 1 && ':' !in keys[0] ==>
              RecordedEnvironment(keys, auth) == if auth == Some(keys[0]) then Some("Default") else None
    ensures AllNamed(keys) && auth.Some? ==>
              forall environment, tail, k :: LastKeyOf(keys, auth.value, environment, tail, k) ==>
                RecordedEnvironment(keys, auth) == Some(environment)
    ensures keys != [] && AllNamed(keys) && RecordedEnvironment(keys, auth).Some? ==>
              auth.Some? &&
              exists k, environment, tail :: 0 <= k < |keys| && IsKey(keys[k], auth.value, environment, tail)
  {
    if |keys| == 1 && ':' !in keys[0] {
      SplitUnbroken(keys[0], ':');
    }
    if AllNamed(keys) && auth.Some? {
      forall environment, tail, k | LastKeyOf(keys, auth.value, environment, tail, k)
        ensures RecordedEnvironment(keys, auth) == Some(environment)
      {
        TokenEnvironmentIs(keys, auth.value, environment, tail, k);
        assert |keys| == 1 ==> EnvironmentOf(keys[0]).Some?;
      }
      if auth.value in TokenEnvironments(keys) {
        TokenHasKey(keys, auth.value);
      }
    }
    assert |keys| == 1 && AllNamed(keys) ==> EnvironmentOf(keys[0]).Some?;
  }

  lemma {:induction false} TokenEnvironmentsAreConfigured(keys: seq<string>)
    requires AllNamed(keys)
    ensures forall token :: token in TokenEnvironments(keys) ==> TokenEnvironments(keys)[token] in Priorities(keys)
    decreases |keys|
  {
    if keys != [] {
      TokenEnvironmentsAreConfigured(keys[..|keys| - 1]);
    }
  }

  /** Where every key names an environment, downloads are recorded without one or with one that is configured. */
  lemma RecordedEnvironmentIsConfigured(keys: seq<string>, auth: Option<string>)
    requires keys != [] && AllNamed(keys)
    ensures RecordedEnvironment(keys, auth).None? || Configured(Priorities(keys), RecordedEnvironment(keys, auth))
  {
    TokenEnvironmentsAreConfigured(keys);
  }

  // ---------- the loop ----------

  /** Whether a row takes the place of what its token has so far; nothing if that cannot be decided. */
  function Replaces(priorities: map<string, nat>, current: Option<string>, row: Row): Option<bool> {
    if current.None? then Some(true)
    else if !Configured(priorities, row.environment) then Some(false)
    else if current.value !in priorities then None
    else Some(priorities[row.environment.value] > priorities[current.value])
  }

  /** The environment the token has so far. */
  function Current(tokens: map<string, Entry>, token: string): Option<string> {
    if token in tokens then tokens[token].environment else None
  }

  /** What is reported after the rows, unless comparing environments fails on the way. */
  function Scan(keys: seq<string>, priorities: map<string, nat>, rows: seq<Row>): Option<map<string, Entry>>
    decreases |rows|
  {
    if rows == [] then Some(map[])
    else
      var row := rows[|rows| - 1];
      match Scan(keys, priorities, rows[..|rows| - 1])
      case None => None
      case Some(tokens) =>
        if !Usable(keys, row) then Some(tokens)
        else
          match Replaces(priorities, Current(tokens, Shown(row.token)), row)
          case None => None
          case Some(wins) => Some(if wins then tokens[Shown(row.token) := EntryOf(row)] else tokens)
  }

  lemma {:induction false} ScanStaysFailed(keys: seq<string>, priorities: map<string, nat>, rows: seq<Row>, k: nat)
    requires k <= |rows| && Scan(keys, priorities, rows[..k]).None?
    ensures Scan(keys, priorities, rows).None?
    decreases |rows|
  {
    if k == |rows| {
      assert rows[..k] == rows;
    } else {
      assert rows[..|rows| - 1][..k] == rows[..k];
      ScanStaysFailed(keys, priorities, rows[..|rows| - 1], k);
    }
  }

  /** The priorities of the environments; nothing if a key names none. */
  method ReadKeys(keys: seq<string>) returns (priorities: Option<map<string, nat>>)
    ensures priorities == if AllNamed(keys) then Some(Priorities(keys)) else None
  {
    var found: map<string, nat> := map[];
    for k := 0 to |keys|
      invariant AllNamed(keys[..k]) && found == Priorities(keys[..k])
    {
      var environment := EnvironmentOf(keys[k]);
      if environment.None? {
        return None;
      }
      found := found[environment.value := k];
      assert keys[..k + 1][..k] == keys[..k];
    }
    assert keys[..|keys|] == keys;
    return Some(found);
  }

  /** Goes through the rows once, keeping one entry per token. */
  method ScanRows(keys: seq<string>, priorities: map<string, nat>, rows: seq<Row>)
    returns (r: Option<map<string, Entry>>)
    ensures r == Scan(keys, priorities, rows)
  {
    var tokens: map<string, Entry> := map[];
    for k := 0 to |rows|
      invariant Scan(keys, priorities, rows[..k]) == Some(tokens)
    {
      var row := rows[k];
      assert rows[..k + 1][..k] == rows[..k];
      if Usable(keys, row) {
        var wins := Replaces(priorities, Current(tokens, Shown(row.token)), row);
        if wins.None? {
          ScanStaysFailed(keys, priorities, rows, k + 1);
          return None;
        }
        if wins.value {
          tokens := tokens[Shown(row.token) := EntryOf(row)];
        }
      }
    }
    assert rows[..|rows|] == rows;
    return Some(tokens);
  }

  /** The version in use by every token, given the rows in the order the database delivers them. */
  method GetTokenVersions(keys: seq<string>, rows: seq<Row>) returns (r: Outcome)
    ensures r.KeyWithoutEnvironment? <==> !AllNamed(keys)
    ensures AllNamed(keys) ==>
      match Scan(keys, Priorities(keys), rows)
      case None => r == UnknownEnvironment
      case Some(tokens) => r == Versions(tokens)
  {
    var priorities := ReadKeys(keys);
    if priorities.None? {
      return KeyWithoutEnvironment;
    }
    var tokens := ScanRows(keys, priorities.value, rows);
    return if tokens.Some? then Versions(tokens.value) else UnknownEnvironment;
  }

  // ---------- when it fails ----------

  /** The first environment named by a row of the token. */
  function FirstNamed(keys: seq<string>, rows: seq<Row>, token: string): Option<string>
    decreases |rows|
  {
    if rows == [] then None
    else
      var earlier := FirstNamed(keys, rows[..|rows| - 1], token);
      var row := rows[|rows| - 1];
      if earlier.None? && Counts(keys, row, token) then row.environment else earlier
  }

  /** A row in a configured environment comes after the token was first seen in one that is not. */
  ghost predicate ComesAfterUnknown(keys: seq<string>, priorities: map<string, nat>, rows: seq<Row>, k: int) {
    && 0 <= k < |rows| && Usable(keys, rows[k]) && Configured(priorities, rows[k].environment)
    && var first := FirstNamed(keys, rows[..k], Shown(rows[k].token));
    first.Some? && first.value !in priorities
  }

  ghost predicate Tracks(keys: seq<string>, priorities: map<string, nat>, rows: seq<Row>, tokens: map<string, Entry>) {
    forall token ::
      var first := FirstNamed(keys, rows, token);
      && Current(tokens, token).Some? == first.Some?
      && (first.Some? ==> Configured(priorities, Current(tokens, token)) == Configured(priorities, first))
  }

  lemma {:induction false} ScanTracksFirst(keys: seq<string>, priorities: map<string, nat>, rows: seq<Row>)
    ensures Scan(keys, priorities, rows).Some? ==> Tracks(keys, priorities, rows, Scan(keys, priorities, rows).value)
    decreases |rows|
  {
    if rows != [] {
      ScanTracksFirst(keys, priorities, rows[..|rows| - 1]);
    }
  }

  /** The loop fails exactly when some token is first seen in an unknown environment and later in a configured one. */
  lemma {:induction false} FailsIff(keys: seq<string>, priorities: map<string, nat>, rows: seq<Row>)
    ensures Scan(keys, priorities, rows).None? <==> exists k :: ComesAfterUnknown(keys, priorities, rows, k)
    decreases |rows|
  {
    if rows != [] {
      var init, n := rows[..|rows| - 1], |rows| - 1;
      FailsIff(keys, priorities, init);
      ScanTracksFirst(keys, priorities, init);
      forall k | 0 <= k < n
        ensures ComesAfterUnknown(keys, priorities, init, k) <==> ComesAfterUnknown(keys, priorities, rows, k)
      {
        assert init[..k] == rows[..k] && init[k] == rows[k];
      }
      if k :| ComesAfterUnknown(keys, priorities, init, k) {
        assert ComesAfterUnknown(keys, priorities, rows, k);
      }
      assert Scan(keys, priorities, init).Some? ==>
        (Scan(keys, priorities, rows).None? <==> ComesAfterUnknown(keys, priorities, rows, n));
    }
  }

  /** Without keys it never fails. */
  lemma NeverFailsWithoutKeys(keys: seq<string>, rows: seq<Row>)
    requires keys == []
    ensures Scan(keys, Priorities(keys), rows).Some?
  {
    FailsIff(keys, Priorities(keys), rows);
  }

  /** A token first seen in an environment since removed from the keys, then in a configured one, makes it fail. */
  lemma RemovedEnvironmentFails(version: string)
    ensures AllNamed(["a:dev"])
    ensures Scan(["a:dev"], Priorities(["a:dev"]),
                 [Row(Some("t"), Some("old"), version, None), Row(Some("t"), Some("dev"), version, None)]).None?
  {
    var keys := ["a:dev"];
    var rows := [Row(Some("t"), Some("old"), version, None), Row(Some("t"), Some("dev"), version, None)];
    SplitAtSeparator("a", "dev", ':');
    SplitUnbroken("a", ':');
    SplitUnbroken("dev", ':');
    assert "a" + [':'] + "dev" == "a:dev";
    assert keys[..0] == [] && Priorities(keys) == map["dev" := 0];
    assert rows[..1] == [rows[0]] && rows[..1][..0] == [];
    assert FirstNamed(keys, rows[..1], "t") == Some("old");
    assert ComesAfterUnknown(keys, Priorities(keys), rows, 1);
    FailsIff(keys, Priorities(keys), rows);
  }

  /** A single key without an environment, which the configuration allows, makes it fail for all rows. */
  lemma SinglePlainKeyFails(key: string)
    requires ':' !in key
    ensures !AllNamed([key]) && !EnvironmentsEnabled([key])
  {
    SplitUnbroken(key, ':');
    assert EnvironmentOf([key][0]).None?;
  }

  // ---------- what is reported ----------

  /** Row i counts for the token, no row that does has a higher priority, and none before it the same. */
  ghost predicate Highest(keys: seq<string>, priorities: map<string, nat>, rows: seq<Row>, token: string, i: int) {
    && 0 <= i < |rows| && Counts(keys, rows[i], token)
    && forall j :: 0 <= j < |rows| && Counts(keys, rows[j], token) ==>
         var pi, pj := Priority(priorities, rows[i].environment), Priority(priorities, rows[j].environment);
         pj <= pi && (pj == pi ==> i <= j)
  }

  ghost predicate AllConfigured(keys: seq<string>, priorities: map<string, nat>, rows: seq<Row>) {
    forall i :: 0 <= i < |rows| && Usable(keys, rows[i]) ==> Configured(priorities, rows[i].environment)
  }

  /** What is reported of a token is the entry of a row with the highest priority, if any row counts for it. */
  ghost predicate Reports(keys: seq<string>, priorities: map<string, nat>, rows: seq<Row>,
                          tokens: map<string, Entry>, token: string) {
    if token in tokens then exists i :: Highest(keys, priorities, rows, token, i) && tokens[token] == EntryOf(rows[i])
    else forall i :: 0 <= i < |rows| ==> !Counts(keys, rows[i], token)
  }

  /** If all environments are configured, every token is reported with the first row of its highest priority. */
  lemma {:induction false} HighestEnvironmentWins(keys: seq<string>, priorities: map<string, nat>,
                                                 rows: seq<Row>, token: string)
    requires AllConfigured(keys, priorities, rows)
    ensures Scan(keys, priorities, rows).Some?
    ensures Reports(keys, priorities, rows, Scan(keys, priorities, rows).value, token)
    decreases |rows|
  {
    if rows != [] {
      var init, row := rows[..|rows| - 1], rows[|rows| - 1];
      assert forall i :: 0 <= i < |init| ==> init[i] == rows[i];
      HighestEnvironmentWins(keys, priorities, init, token);
      HighestEnvironmentWins(keys, priorities, init, Shown(row.token));
      OneMoreRow(keys, priorities, init, row, Scan(keys, priorities, init).value, token);
      assert rows == init + [row];
    }
  }

  lemma OneMoreRow(keys: seq<string>, priorities: map<string, nat>, rows: seq<Row>, row: Row,
                   tokens: map<string, Entry>, token: string)
    requires AllConfigured(keys, priorities, rows + [row]) && Reports(keys, priorities, rows, tokens, token)
    requires Reports(keys, priorities, rows, tokens, Shown(row.token))
    ensures Usable(keys, row) ==>
      var wins := Replaces(priorities, Current(tokens, Shown(row.token)), row);
      && wins.Some?
      && Reports(keys, priorities, rows + [row],
                 if wins.value then tokens[Shown(row.token) := EntryOf(row)] else tokens, token)
    ensures !Usable(keys, row) ==> Reports(keys, priorities, rows + [row], tokens, token)
  {
    if Usable(keys, row) {
      CountingRow(keys, priorities, rows, row, tokens);
      var wins := Replaces(priorities, Current(tokens, Shown(row.token)), row);
      if token != Shown(row.token) {
        OtherRow(keys, priorities, rows, row, tokens,
                 if wins.value then tokens[Shown(row.token) := EntryOf(row)] else tokens, token);
      }
    } else {
      OtherRow(keys, priorities, rows, row, tokens, tokens, token);
    }
  }

  /** A row that does not count for a token changes nothing in what is reported of it. */
  lemma OtherRow(keys: seq<string>, priorities: map<string, nat>, rows: seq<Row>, row: Row,
                 tokens: map<string, Entry>, tokens': map<string, Entry>, token: string)
    requires Reports(keys, priorities, rows, tokens, token) && !Counts(keys, row, token)
    requires (token in tokens' <==> token in tokens) && (token in tokens ==> tokens'[token] == tokens[token])
    ensures Reports(keys, priorities, rows + [row], tokens', token)
  {
    var all := rows + [row];
    assert forall i :: 0 <= i < |rows| ==> all[i] == rows[i];
    if token in tokens {
      var i :| Highest(keys, priorities, rows, token, i) && tokens[token] == EntryOf(rows[i]);
      assert Highest(keys, priorities, all, token, i);
    }
  }

  lemma CountingRow(keys: seq<string>, priorities: map<string, nat>, rows: seq<Row>, row: Row,
                    tokens: map<string, Entry>)
    requires AllConfigured(keys, priorities, rows + [row]) && Usable(keys, row)
    requires Reports(keys, priorities, rows, tokens, Shown(row.token))
    ensures var wins := Replaces(priorities, Current(tokens, Shown(row.token)), row);
      && wins.Some?
      && Reports(keys, priorities, rows + [row],
                 if wins.value then tokens[Shown(row.token) := EntryOf(row)] else tokens, Shown(row.token))
  {
    var all := rows + [row];
    assert forall i :: 0 <= i < |rows| ==> all[i] == rows[i];
    assert all[|rows|] == row;
    var token := Shown(row.token);
    if token in tokens {
      var i :| Highest(keys, priorities, rows, token, i) && tokens[token] == EntryOf(rows[i]);
      assert Configured(priorities, all[i].environment);
      if Replaces(priorities, rows[i].environment, row) == Some(false) {
        assert Highest(keys, priorities, all, token, i);
      } else {
        assert Highest(keys, priorities, all, token, |rows|);
      }
    } else {
      assert Highest(keys, priorities, all, token, |rows|);
    }
  }

  // ---------- without keys ----------

  /** Row i is the first that counts for the token. */
  ghost predicate FirstRow(keys: seq<string>, rows: seq<Row>, token: string, i: int) {
    && 0 <= i < |rows| && Counts(keys, rows[i], token)
    && forall j :: 0 <= j < i ==> !Counts(keys, rows[j], token)
  }

  ghost predicate ReportsFirst(keys: seq<string>, rows: seq<Row>, tokens: map<string, Entry>, token: string) {
    if token in tokens then exists i :: FirstRow(keys, rows, token, i) && tokens[token] == EntryOf(rows[i])
    else forall i :: 0 <= i < |rows| ==> !Counts(keys, rows[i], token)
  }

  /** Without keys, a token that has environments is reported with the first row delivered. */
  lemma {:induction false} FirstRowStays(keys: seq<string>, rows: seq<Row>, token: string)
    requires keys == [] && forall i :: 0 <= i < |rows| ==> rows[i].environment.Some?
    ensures Scan(keys, Priorities(keys), rows).Some?
    ensures ReportsFirst(keys, rows, Scan(keys, Priorities(keys), rows).value, token)
    decreases |rows|
  {
    NeverFailsWithoutKeys(keys, rows);
    if rows != [] {
      var init, row := rows[..|rows| - 1], rows[|rows| - 1];
      assert rows == init + [row] && forall i :: 0 <= i < |init| ==> init[i] == rows[i];
      NeverFailsWithoutKeys(keys, init);
      var tokens := Scan(keys, Priorities(keys), init).value;
      assert ReportsFirst(keys, init, tokens, token) && ReportsFirst(keys, init, tokens, Shown(row.token)) by {
        FirstRowStays(keys, init, token);
        FirstRowStays(keys, init, Shown(row.token));
      }
      OneMoreLaterRow(keys, init, row, tokens, token);
    }
  }

  lemma OneMoreLaterRow(keys: seq<string>, rows: seq<Row>, row: Row, tokens: map<string, Entry>, token: string)
    requires keys == [] && row.environment.Some? && forall i :: 0 <= i < |rows| ==> rows[i].environment.Some?
    requires ReportsFirst(keys, rows, tokens, token) && ReportsFirst(keys, rows, tokens, Shown(row.token))
    ensures Replaces(Priorities(keys), Current(tokens, Shown(row.token)), row) == Some(Shown(row.token) !in tokens)
    ensures Usable(keys, row)
    ensures ReportsFirst(keys, rows + [row],
                         if Shown(row.token) in tokens then tokens else tokens[Shown(row.token) := EntryOf(row)], token)
  {
    var all := rows + [row];
    assert forall i :: 0 <= i < |rows| ==> all[i] == rows[i];
    assert all[|rows|] == row;
    if token in tokens {
      var i :| FirstRow(keys, rows, token, i) && tokens[token] == EntryOf(rows[i]);
      assert FirstRow(keys, all, token, i);
    } else if token == Shown(row.token) {
      assert FirstRow(keys, all, token, |rows|);
    }
    if Shown(row.token) in tokens {
      var i :| FirstRow(keys, rows, Shown(row.token), i) && tokens[Shown(row.token)] == EntryOf(rows[i]);
    }
  }

  // ---------- in terms of all downloads ----------

  ghost predicate CountsFor(downloads: map<Id, Download>, p: Id, keys: seq<string>, token: string, d: Id) {
    d in downloads && downloads[d].provider == p && Counts(keys, downloads[d].row, token)
  }

  /** The priority of the environment a download was made in. */
  function PriorityOf(downloads: map<Id, Download>, keys: seq<string>, d: Id): int
    requires AllNamed(keys) && d in downloads
  {
    Priority(Priorities(keys), downloads[d].row.environment)
  }

  /** The most recent of the token's downloads in its environment of the highest priority. */
  ghost predicate InUse(downloads: map<Id, Download>, p: Id, keys: seq<string>, token: string, d: Id)
    requires AllNamed(keys)
  {
    && CountsFor(downloads, p, keys, token, d)
    && forall e: Id :: CountsFor(downloads, p, keys, token, e) ==>
         var pd, pe := PriorityOf(downloads, keys, d), PriorityOf(downloads, keys, e);
         pe <= pd && (pe == pd ==> e <= d)
  }

  ghost predicate KnowsAllEnvironments(downloads: map<Id, Download>, p: Id, keys: seq<string>)
    requires AllNamed(keys)
  {
    forall d :: d in downloads && downloads[d].provider == p && Usable(keys, downloads[d].row) ==>
      Configured(Priorities(keys), downloads[d].row.environment)
  }

  /** Every token shown stands for one recorded token: none is empty or reads like the text for a missing one. */
  ghost predicate ShownApart(downloads: map<Id, Download>, p: Id) {
    forall d, e :: d in downloads && e in downloads && downloads[d].provider == p && downloads[e].provider == p
                   && Shown(downloads[d].row.token) == Shown(downloads[e].row.token)
                   ==> downloads[d].row.token == downloads[e].row.token
  }

  /** All downloads were recorded in one environment, as they are without keys. */
  ghost predicate OneEnvironment(downloads: map<Id, Download>, p: Id, environment: string) {
    forall d :: d in downloads && downloads[d].provider == p ==> downloads[d].row.environment == Some(environment)
  }

  /** The downloads fit the keys: all environments are configured, or there are no keys and one environment. */
  ghost predicate FitsKeys(downloads: map<Id, Download>, p: Id, keys: seq<string>)
    requires AllNamed(keys)
  {
    || KnowsAllEnvironments(downloads, p, keys)
    || (keys == [] && ShownApart(downloads, p) && OneEnvironment(downloads, p, "Default"))
  }

  /** Unless the keys have changed since, downloads fit the keys. */
  lemma RecordedUnderTheseKeys(downloads: map<Id, Download>, p: Id, keys: seq<string>)
    requires AllNamed(keys) && (keys == [] ==> ShownApart(downloads, p))
    requires forall d :: d in downloads ==>
               exists auth :: downloads[d].row.environment == RecordedEnvironment(keys, auth)
    ensures FitsKeys(downloads, p, keys)
    ensures keys != [] ==> KnowsAllEnvironments(downloads, p, keys)
  {
    if keys == [] {
      assert OneEnvironment(downloads, p, "Default");
    } else {
      forall d | d in downloads && downloads[d].provider == p && Usable(keys, downloads[d].row)
        ensures Configured(Priorities(keys), downloads[d].row.environment)
      {
        var auth :| downloads[d].row.environment == RecordedEnvironment(keys, auth);
        RecordedEnvironmentIsConfigured(keys, auth);
        assert |keys| == 1 ==> EnvironmentOf(keys[0]).Some?;
      }
    }
  }

  /** At most one download of a token is in use. */
  lemma InUseIsUnique(downloads: map<Id, Download>, p: Id, keys: seq<string>, token: string, d: Id, e: Id)
    requires AllNamed(keys) && InUse(downloads, p, keys, token, d) && InUse(downloads, p, keys, token, e)
    ensures d == e
  {
  }

  lemma LastOfGroup(downloads: map<Id, Download>, d: Id) returns (last: Id)
    requires d in downloads
    ensures last in downloads && SameGroup(downloads[d], downloads[last])
    ensures IsLast(downloads, downloads[d].provider, last) && d <= last
    decreases |set e | e in downloads && e > d|
  {
    if IsLast(downloads, downloads[d].provider, d) {
      last := d;
    } else {
      var next :| next in downloads && SameGroup(downloads[next], downloads[d]) && next > d;
      var above, aboveNext := set e | e in downloads && e > d, set e | e in downloads && e > next;
      assert next in above && next !in aboveNext;
      SubsetIsSmaller(aboveNext, above);
      last := LastOfGroup(downloads, next);
    }
  }

  lemma {:induction false} SubsetIsSmaller(a: set<Id>, b: set<Id>)
    requires a < b
    ensures |a| < |b|
    decreases a
  {
    if a != {} {
      var x :| x in a;
      SubsetIsSmaller(a - {x}, b - {x});
    }
  }

  /** What is reported of a token is its download in use, if it has any downloads. */
  ghost predicate ReportsInUse(downloads: map<Id, Download>, p: Id, keys: seq<string>,
                               tokens: map<string, Entry>, token: string)
    requires AllNamed(keys)
  {
    && (token in tokens <==> exists d: Id :: CountsFor(downloads, p, keys, token, d))
    && (token in tokens ==>
          exists d: Id :: InUse(downloads, p, keys, token, d) && tokens[token] == EntryOf(downloads[d].row))
  }

  /** The download was made with the token shown; with keys in use also in some environment. */
  ghost predicate MadeWith(keys: seq<string>, row: Row, token: string) {
    if keys == [] then
      if row.token.None? || row.token.value == "" then token == "No token provided" else row.token.value == token
    else
      row.token == Some(token) && token != "" && row.environment.Some? && row.environment.value != ""
  }

  lemma CountsIff(keys: seq<string>, row: Row, token: string)
    requires AllNamed(keys)
    ensures Counts(keys, row, token) <==> MadeWith(keys, row, token)
  {
    assert |keys| == 1 ==> EnvironmentOf(keys[0]).Some?;
  }

  /** Download d of the provider was made with the token. */
  ghost predicate MadeBy(downloads: map<Id, Download>, p: Id, keys: seq<string>, token: string, d: Id) {
    d in downloads && downloads[d].provider == p && MadeWith(keys, downloads[d].row, token)
  }

  /** The entry shows environment, version and Terraform version of the row, `0.0.0` if the latter is missing. */
  ghost predicate Shows(entry: Entry, row: Row) {
    && entry.environment == row.environment && entry.version == row.version
    && entry.terraform == if row.terraform.None? || row.terraform.value == "" then "0.0.0" else row.terraform.value
  }

  /** Of the downloads made with a token, the newest in the environment of the last key that names one is shown. */
  ghost predicate ShowsNewestOfLastKey(downloads: map<Id, Download>, p: Id, keys: seq<string>,
                                       tokens: map<string, Entry>, token: string)
    requires AllNamed(keys)
  {
    && (token in tokens <==> exists d: Id :: MadeBy(downloads, p, keys, token, d))
    && (token in tokens ==>
          exists d: Id :: MadeBy(downloads, p, keys, token, d) && Shows(tokens[token], downloads[d].row)
                          && forall e: Id :: MadeBy(downloads, p, keys, token, e) ==>
                               var pd, pe := PriorityOf(downloads, keys, d), PriorityOf(downloads, keys, e);
                               pe < pd || (pe == pd && e <= d))
  }

  lemma InUseIsShown(downloads: map<Id, Download>, p: Id, keys: seq<string>, tokens: map<string, Entry>, token: string)
    requires AllNamed(keys) && ReportsInUse(downloads, p, keys, tokens, token)
    ensures ShowsNewestOfLastKey(downloads, p, keys, tokens, token)
  {
    forall d: Id
      ensures CountsFor(downloads, p, keys, token, d) <==> MadeBy(downloads, p, keys, token, d)
    {
      if d in downloads {
        CountsIff(keys, downloads[d].row, token);
      }
    }
    if token in tokens {
      var d: Id :| InUse(downloads, p, keys, token, d) && tokens[token] == EntryOf(downloads[d].row);
      assert MadeBy(downloads, p, keys, token, d) && Shows(tokens[token], downloads[d].row);
    }
  }

  /**
   Whatever the order of the rows, every token is reported with its download in
   use: the most recent one in its environment of the highest priority, and
   without keys simply the most recent one.
   */
  lemma ReportsDownloadInUse(keys: seq<string>, downloads: map<Id, Download>, p: Id, ids: seq<Id>, token: string)
    requires AllNamed(keys) && Delivers(downloads, p, ids) && FitsKeys(downloads, p, keys)
    ensures var tokens := Scan(keys, Priorities(keys), RowsOf(downloads, ids));
            && tokens.Some? && ReportsInUse(downloads, p, keys, tokens.value, token)
            && ShowsNewestOfLastKey(downloads, p, keys, tokens.value, token)
  {
    if KnowsAllEnvironments(downloads, p, keys) {
      ReportsConfigured(keys, downloads, p, ids, token);
    } else {
      ReportsWithoutKeys(keys, downloads, p, ids, token);
    }
    InUseIsShown(downloads, p, keys, Scan(keys, Priorities(keys), RowsOf(downloads, ids)).value, token);
  }

  lemma ReportsConfigured(keys: seq<string>, downloads: map<Id, Download>, p: Id, ids: seq<Id>, token: string)
    requires AllNamed(keys) && Delivers(downloads, p, ids) && KnowsAllEnvironments(downloads, p, keys)
    ensures var tokens := Scan(keys, Priorities(keys), RowsOf(downloads, ids));
            tokens.Some? && ReportsInUse(downloads, p, keys, tokens.value, token)
  {
    var rows := RowsOf(downloads, ids);
    forall i | 0 <= i < |rows| && Usable(keys, rows[i])
      ensures Configured(Priorities(keys), rows[i].environment)
    {
      assert ids[i] in ids && IsLast(downloads, p, ids[i]);
    }
    HighestEnvironmentWins(keys, Priorities(keys), rows, token);
    var tokens := Scan(keys, Priorities(keys), rows).value;
    if token in tokens {
      var i :| Highest(keys, Priorities(keys), rows, token, i) && tokens[token] == EntryOf(rows[i]);
      HighestRowIsInUse(keys, downloads, p, ids, token, i);
    } else if d: Id :| CountsFor(downloads, p, keys, token, d) {
      var last := LastOfGroup(downloads, d);
      assert last in ids;
      var j :| 0 <= j < |ids| && ids[j] == last;
      assert Counts(keys, rows[j], token);
    }
  }

  lemma ReportsWithoutKeys(keys: seq<string>, downloads: map<Id, Download>, p: Id, ids: seq<Id>, token: string)
    requires keys == [] && Delivers(downloads, p, ids)
    requires ShownApart(downloads, p) && OneEnvironment(downloads, p, "Default")
    ensures var tokens := Scan(keys, Priorities(keys), RowsOf(downloads, ids));
            tokens.Some? && ReportsInUse(downloads, p, keys, tokens.value, token)
  {
    var rows := RowsOf(downloads, ids);
    forall i | 0 <= i < |rows|
      ensures rows[i].environment.Some?
    {
      assert ids[i] in ids && IsLast(downloads, p, ids[i]);
    }
    FirstRowStays(keys, rows, token);
    var tokens := Scan(keys, Priorities(keys), rows).value;
    forall d: Id | CountsFor(downloads, p, keys, token, d)
      ensures token in tokens
    {
      var last := LastOfGroup(downloads, d);
      assert last in ids;
      var j :| 0 <= j < |ids| && ids[j] == last;
      assert Counts(keys, rows[j], token);
    }
    if token in tokens {
      var i :| FirstRow(keys, rows, token, i) && tokens[token] == EntryOf(rows[i]);
      OnlyRowIsInUse(keys, downloads, p, ids, token, i);
    }
  }

  lemma OnlyRowIsInUse(keys: seq<string>, downloads: map<Id, Download>, p: Id, ids: seq<Id>, token: string, i: nat)
    requires keys == [] && Delivers(downloads, p, ids)
    requires ShownApart(downloads, p) && OneEnvironment(downloads, p, "Default")
    requires i < |ids| && ids[i] in downloads && Counts(keys, downloads[ids[i]].row, token)
    ensures InUse(downloads, p, keys, token, ids[i])
  {
    var d := ids[i];
    assert d in ids && IsLast(downloads, p, d);
    forall e: Id | CountsFor(downloads, p, keys, token, e)
      ensures e <= d
    {
      assert SameGroup(downloads[e], downloads[d]);
    }
    assert Priorities(keys) == map[];
  }

  lemma HighestRowIsInUse(keys: seq<string>, downloads: map<Id, Download>, p: Id, ids: seq<Id>, token: string, i: nat)
    requires AllNamed(keys) && Delivers(downloads, p, ids) && KnowsAllEnvironments(downloads, p, keys)
    requires forall d :: d in ids ==> d in downloads
    requires Highest(keys, Priorities(keys), RowsOf(downloads, ids), token, i)
    ensures InUse(downloads, p, keys, token, ids[i])
  {
    var d := ids[i];
    assert d in ids && IsLast(downloads, p, d);
    forall e: Id | CountsFor(downloads, p, keys, token, e)
      ensures var pd, pe := PriorityOf(downloads, keys, d), PriorityOf(downloads, keys, e);
              pe <= pd && (pe == pd ==> e <= d)
    {
      var last := LastOfGroup(downloads, e);
      assert last in ids;
      var j :| 0 <= j < |ids| && ids[j] == last;
      assert Counts(keys, RowsOf(downloads, ids)[j], token);
      if PriorityOf(downloads, keys, e) == PriorityOf(downloads, keys, d) {
        EnvironmentsHaveOwnPriority(keys, downloads[d].row.environment, downloads[e].row.environment);
        assert keys != [];
        assert SameGroup(downloads[e], downloads[d]);
      }
    }
  }

  /** The order in which the database delivers the rows has no influence. */
  lemma OrderIsIrrelevant(keys: seq<string>, downloads: map<Id, Download>, p: Id, ids: seq<Id>, others: seq<Id>)
    requires AllNamed(keys) && FitsKeys(downloads, p, keys)
    requires Delivers(downloads, p, ids) && Delivers(downloads, p, others)
    ensures Scan(keys, Priorities(keys), RowsOf(downloads, ids)) ==
            Scan(keys, Priorities(keys), RowsOf(downloads, others))
  {
    var first := Scan(keys, Priorities(keys), RowsOf(downloads, ids));
    var second := Scan(keys, Priorities(keys), RowsOf(downloads, others));
    ReportsDownloadInUse(keys, downloads, p, ids, "");
    ReportsDownloadInUse(keys, downloads, p, others, "");
    forall token
      ensures token in first.value <==> token in second.value
      ensures token in first.value && token in second.value ==> first.value[token] == second.value[token]
    {
      ReportsDownloadInUse(keys, downloads, p, ids, token);
      ReportsDownloadInUse(keys, downloads, p, others, token);
      if token in first.value && token in second.value {
        var d: Id :| InUse(downloads, p, keys, token, d) && first.value[token] == EntryOf(downloads[d].row);
        var e: Id :| InUse(downloads, p, keys, token, e) && second.value[token] == EntryOf(downloads[e].row);
        InUseIsUnique(downloads, p, keys, token, d, e);
      }
    }
    assert first.value == second.value;
  }
}
