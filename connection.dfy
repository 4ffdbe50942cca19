/**
 * Connection resolution: which configuration key supplies the database
 * connection string, whether a database counts as configured (the switch
 * between the database and the in-memory fallback), and the start-up step that
 * copies a discovered connection string into POSTGRES_URL.
 *
 * Two resolvers exist in the source. The one in src/lib/db-server.ts (copied
 * verbatim into src/app/api/guestbook/approve/route.ts) tries eight keys and
 * ignores values that are blank after trimming; the one in
 * src/app/api/guestbook/route.ts tries four keys and accepts any non-empty value.
 */
module Connection {
  import opened Wrappers
  import opened Js
  import opened Env

  /** The keys `getSql` tries, in order of preference. */
  const PossibleVars: seq<string> := [
    "DATABASE_URL_UNPOOLED",
    "POSTGRES_URL_NON_POOLING",
    "DATABASE_URL",
    "POSTGRES_URL",
    "POSTGRES_POSTGRES_URL",
    "POSTGRES_DATABASE_URL",
    "POSTGRES_POSTGRES_URL_NON_POOLING",
    "POSTGRES_DATABASE_URL_NON_POOLING"
  ]

  /** The keys `isDbConfigured` searches: the same eight, with POSTGRES_URL_NON_POOLING listed a second time. */
  const ConfiguredVars: seq<string> := [
    "DATABASE_URL_UNPOOLED",
    "POSTGRES_URL_NON_POOLING",
    "DATABASE_URL",
    "POSTGRES_URL",
    "POSTGRES_POSTGRES_URL",
    "POSTGRES_DATABASE_URL",
    "POSTGRES_URL_NON_POOLING",
    "POSTGRES_POSTGRES_URL_NON_POOLING",
    "POSTGRES_DATABASE_URL_NON_POOLING"
  ]

  /** The four keys of the `||` chains in the guestbook route's `getSql` and `isDbConfigured`. */
  const RouteVars: seq<string> := ["DATABASE_URL_UNPOOLED", "POSTGRES_URL_NON_POOLING", "DATABASE_URL", "POSTGRES_URL"]

  /** The keys `hydratePostgresEnv` copies from before it scans the whole environment. */
  const DirectCandidates: seq<string> := [
    "POSTGRES_URL",
    "DATABASE_URL",
    "POSTGRES_POSTGRES_URL",
    "POSTGRES_DATABASE_URL",
    "POSTGRES_URL_NON_POOLING",
    "POSTGRES_POSTGRES_URL_NON_POOLING",
    "POSTGRES_DATABASE_URL_NON_POOLING"
  ]

  /** process.env[key] holds a value that is not blank after trimming (`value && value.trim().length > 0`). */
  predicate HasValue(env: Environment, key: string) {
    Lookup(env, key).Some? && !IsBlank(Lookup(env, key).value)
  }

  /** The connection string `getSql` hands to the database client, with the key it came from. */
  datatype Source = Source(key: string, connectionString: string)

  /** `getSql` throws when no key holds a connection string. */
  datatype ConfigError = MissingConnectionString

  /**
   * `possibleVars.find(...)`: the first of `keys` whose value is not blank; the
   * result is that key, and None when every key is blank or unset.
   */
  function FindConfigured(env: Environment, keys: seq<string>): (found: Option<string>)
    ensures found.None? <==> forall j :: 0 <= j < |keys| ==> !HasValue(env, keys[j])
    ensures found.Some? ==> found.value in keys && HasValue(env, found.value)
    ensures found.Some? && |keys| > 0 && found.value != keys[0] ==>
              !HasValue(env, keys[0]) && found == FindConfigured(env, keys[1..])
  {
    if keys == [] then None
    else if HasValue(env, keys[0]) then Some(keys[0])
    else FindConfigured(env, keys[1..])
  }

  /**
   * `isDbConfigured` in db-server.ts and the approve route: some key `getSql`
   * tries holds a value that is not blank.
   */
  predicate IsDbConfigured(env: Environment)
    ensures IsDbConfigured(env) <==> exists j :: 0 <= j < |PossibleVars| && HasValue(env, PossibleVars[j])
  {
    DuplicateKeyChangesNothing(env);
    FindConfigured(env, ConfiguredVars).Some?
  }

  /** A key that is unset, blank or already listed earlier can be dropped from the list without changing what is found. */
  lemma {:induction false} FindSkipsKey(env: Environment, pre: seq<string>, k: string, post: seq<string>)
    requires !HasValue(env, k) || k in pre
    ensures FindConfigured(env, pre + [k] + post) == FindConfigured(env, pre + post)
  {
    if pre == [] {
      assert pre + [k] + post == [k] + post && pre + post == post;
      assert ([k] + post)[1..] == post;
    } else if !HasValue(env, pre[0]) {
      assert (pre + [k] + post)[1..] == pre[1..] + [k] + post;
      assert (pre + post)[1..] == pre[1..] + post;
      FindSkipsKey(env, pre[1..], k, post);
    }
  }

  /** Listing POSTGRES_URL_NON_POOLING twice changes nothing: both lists find the same key on every environment. */
  lemma DuplicateKeyChangesNothing(env: Environment)
    ensures FindConfigured(env, ConfiguredVars) == FindConfigured(env, PossibleVars)
  {
    var pre, post := PossibleVars[..6], PossibleVars[6..];
    assert ConfiguredVars == pre + ["POSTGRES_URL_NON_POOLING"] + post;
    assert PossibleVars == pre + post;
    assert pre[1] == "POSTGRES_URL_NON_POOLING";
    FindSkipsKey(env, pre, "POSTGRES_URL_NON_POOLING", post);
  }

  /**
   * `getSql` (db-server.ts, approve route): the first key of PossibleVars, in
   * order, whose value is not blank, with that value; MissingConnectionString
   * when there is none. It succeeds exactly when `isDbConfigured` holds, and on
   * the key that `isDbConfigured` finds.
   */
  method GetSql(env: Environment) returns (r: Result<Source, ConfigError>)
    ensures r.Failure? <==> forall j :: 0 <= j < |PossibleVars| ==> !HasValue(env, PossibleVars[j])
    ensures r.Success? ==>
              (exists i :: 0 <= i < |PossibleVars| && r.value.key == PossibleVars[i]
                 && Lookup(env, PossibleVars[i]) == Some(r.value.connectionString)
                 && !IsBlank(r.value.connectionString)
                 && forall j :: 0 <= j < i ==> !HasValue(env, PossibleVars[j]))
    ensures r.Success? <==> IsDbConfigured(env)
    ensures r.Success? ==> FindConfigured(env, ConfiguredVars) == Some(r.value.key)
  {
    var connectionString: Option<string> := None;
    var foundKey: Option<string> := None;
    ghost var foundAt := |PossibleVars|;
    for i := 0 to |PossibleVars|
      invariant connectionString.None? && foundKey.None?
      invariant forall j :: 0 <= j < i ==> !HasValue(env, PossibleVars[j])
    {
      var value := Lookup(env, PossibleVars[i]);
      if value.Some? && value.value != "" && !IsBlank(value.value) {
        connectionString := value;
        foundKey := Some(PossibleVars[i]);
        foundAt := i;
        break;
      }
    }
    DuplicateKeyChangesNothing(env);
    if connectionString.None? {
      return Failure(MissingConnectionString);
    }
    r := Success(Source(foundKey.value, connectionString.value));
    FirstConfiguredIsFirst(env, PossibleVars, foundAt);
  }

  /** The key FindConfigured returns is the one at the first index holding a value. */
  lemma {:induction false} FirstConfiguredIsFirst(env: Environment, keys: seq<string>, i: nat)
    requires i < |keys| && HasValue(env, keys[i])
    requires forall j :: 0 <= j < i ==> !HasValue(env, keys[j])
    ensures FindConfigured(env, keys) == Some(keys[i])
  {
    if i > 0 {
      FirstConfiguredIsFirst(env, keys[1..], i - 1);
    }
  }

  /** `isDbConfigured` in the guestbook route: `Boolean(a || b || c || d)` over RouteVars, with no trimming. */
  predicate RouteDbConfigured(env: Environment)
    ensures RouteDbConfigured(env) <==> exists j :: 0 <= j < |RouteVars| && IsSet(env, RouteVars[j])
  {
    FirstSet(env, RouteVars).Some?
  }

  /** `isDatabaseConfigured` in src/lib/db.ts: DATABASE_URL or POSTGRES_URL is a non-empty string. */
  function IsDatabaseConfigured(env: Environment): (r: bool)
    ensures r <==> IsSet(env, "DATABASE_URL") || IsSet(env, "POSTGRES_URL")
  {
    var keys := ["DATABASE_URL", "POSTGRES_URL"];
    assert keys[0] == "DATABASE_URL" && keys[1] == "POSTGRES_URL";
    FirstSet(env, keys).Some?
  }

  /** The two resolvers disagree: a DATABASE_URL of one space selects the database in the guestbook route only. */
  lemma BlankUrlSplitsResolvers()
    ensures var env: Environment := [("DATABASE_URL", " ")];
            RouteDbConfigured(env) && !IsDbConfigured(env)
  {
    var env: Environment := [("DATABASE_URL", " ")];
    assert IsSet(env, RouteVars[2]);
    assert IsBlank(" ");
  }

  // ---------------------------------------------------------------------------
  // hydratePostgresEnv

  /** No line terminator in `s`: what `.*` can span. */
  predicate SingleLine(s: string) {
    forall i :: 0 <= i < |s| ==> !IsLineTerminator(s[i])
  }

  /** `k` matches `^prefix.*suffix$` (no multiline flag, so `.*` stays on one line). */
  predicate MatchesAnchored(k: string, prefix: string, suffix: string) {
    && |prefix| + |suffix| <= |k|
    && prefix <= k
    && k[|k| - |suffix|..] == suffix
    && SingleLine(k[|prefix|..|k| - |suffix|])
  }

  /** The entry test of `hydratePostgresEnv`'s second loop, on the key: upper-cased, not a Prisma or no-SSL variant, of the URL shape. */
  predicate IsPostgresUrlKey(key: string) {
    var k := ToUpper(key);
    && !Contains(k, "_PRISMA_")
    && !Contains(k, "NO_SSL")
    && (MatchesAnchored(k, "POSTGRES_", "_URL") || MatchesAnchored(k, "POSTGRES_", "_DATABASE_URL"))
  }

  /** The second pattern adds nothing: every key matching `^POSTGRES_.*_DATABASE_URL$` matches `^POSTGRES_.*_URL$`. */
  lemma DatabaseUrlPatternRedundant(k: string)
    ensures MatchesAnchored(k, "POSTGRES_", "_DATABASE_URL") ==> MatchesAnchored(k, "POSTGRES_", "_URL")
  {
    if MatchesAnchored(k, "POSTGRES_", "_DATABASE_URL") {
      var middle := k[9..|k| - 4];
      assert k[|k| - 4..] == k[|k| - 13..][9..];
      assert forall i :: 0 <= i < |middle| ==> middle[i] == k[9 + i];
      forall i | 0 <= i < |middle|
        ensures !IsLineTerminator(middle[i])
      {
        if i >= |k| - 22 {
          assert middle[i] == k[|k| - 13..][i - (|k| - 22)];
          assert middle[i] == "_DATABASE_URL"[i - (|k| - 22)];
        } else {
          assert middle[i] == k[9..|k| - 13][i];
        }
      }
    }
  }

  /** Index of the first entry with a non-empty value and a POSTGRES_..._URL key; |env| when there is none. */
  function FirstPostgresEntry(env: Environment): (i: nat)
    ensures i <= |env|
    ensures i < |env| ==> env[i].1 != "" && IsPostgresUrlKey(env[i].0)
    ensures forall j :: 0 <= j < i ==> !(env[j].1 != "" && IsPostgresUrlKey(env[j].0))
  {
    if env == [] then 0
    else if env[0].1 != "" && IsPostgresUrlKey(env[0].0) then 0
    else 1 + FirstPostgresEntry(env[1..])
  }

  /**
   * The environment after `hydratePostgresEnv`: unchanged when POSTGRES_URL is
   * set; otherwise POSTGRES_URL takes the value of the first direct candidate
   * that is set, or else of the first entry of the POSTGRES_..._URL shape, or
   * nothing changes. No key other than POSTGRES_URL is touched.
   */
  function Hydrated(env: Environment): (r: Environment)
    ensures IsSet(env, "POSTGRES_URL") ==> r == env
    ensures forall k :: k != "POSTGRES_URL" ==> Lookup(r, k) == Lookup(env, k)
    ensures r == env || (IsSet(r, "POSTGRES_URL") && !IsSet(env, "POSTGRES_URL"))
    ensures !IsSet(env, "POSTGRES_URL") && FirstSet(env, DirectCandidates).Some? ==>
              Lookup(r, "POSTGRES_URL") == FirstSet(env, DirectCandidates)
    ensures !IsSet(env, "POSTGRES_URL") && FirstSet(env, DirectCandidates).None? && FirstPostgresEntry(env) < |env| ==>
              Lookup(r, "POSTGRES_URL") == Some(env[FirstPostgresEntry(env)].1)
    ensures !IsSet(env, "POSTGRES_URL") && FirstSet(env, DirectCandidates).None? && FirstPostgresEntry(env) == |env| ==>
              r == env
  {
    if IsSet(env, "POSTGRES_URL") then env
    else
      var direct := FirstSet(env, DirectCandidates);
      if direct.Some? then Assign(env, "POSTGRES_URL", direct.value)
      else
        var i := FirstPostgresEntry(env);
        if i < |env| then Assign(env, "POSTGRES_URL", env[i].1) else env
  }

  /** The step runs once per module that carries a copy; running it again changes nothing. */
  lemma HydrateIdempotent(env: Environment)
    ensures Hydrated(Hydrated(env)) == Hydrated(env)
  {
  }

  /**
   * After hydration the guestbook route's four-key test agrees with the
   * eight-key resolver whenever the latter finds a database: every key the
   * route does not list is a direct candidate, so its value reaches POSTGRES_URL.
   */
  lemma HydrationEnablesRoute(env: Environment)
    requires IsDbConfigured(env)
    ensures RouteDbConfigured(Hydrated(env))
  {
    var key := FindConfigured(env, ConfiguredVars).value;
    var h := Hydrated(env);
    assert IsSet(env, key);
    if IsSet(env, "POSTGRES_URL") {
      assert IsSet(h, RouteVars[3]);
    } else if key in RouteVars {
      assert key != "POSTGRES_URL";
      assert Lookup(h, key) == Lookup(env, key);
      var i :| 0 <= i < |RouteVars| && RouteVars[i] == key;
      assert IsSet(h, RouteVars[i]);
    } else {
      assert key in DirectCandidates;
      var i :| 0 <= i < |DirectCandidates| && DirectCandidates[i] == key;
      assert FirstSet(env, DirectCandidates).Some?;
      assert IsSet(h, RouteVars[3]);
    }
  }

  /** process.env as the mutable object `hydratePostgresEnv` writes to. */
  class ProcessEnv {
    var entries: Environment

    constructor (initial: Environment)
      ensures entries == initial
    {
      entries := initial;
    }

    /** `hydratePostgresEnv`: at most one assignment, to POSTGRES_URL, as Hydrated describes. */
    method HydratePostgresEnv()
      modifies this
      ensures entries == Hydrated(old(entries))
    {
      if IsSet(entries, "POSTGRES_URL") {
        return;
      }
      for i := 0 to |DirectCandidates|
        invariant entries == old(entries)
        invariant forall j :: 0 <= j < i ==> !IsSet(entries, DirectCandidates[j])
      {
        var v := Lookup(entries, DirectCandidates[i]);
        if v.Some? && v.value != "" {
          assert FirstSetIndex(entries, DirectCandidates) == i;
          entries := Assign(entries, "POSTGRES_URL", v.value);
          return;
        }
      }
      var all := entries;
      for i := 0 to |all|
        invariant entries == old(entries) == all
        invariant forall j :: 0 <= j < i ==> !(all[j].1 != "" && IsPostgresUrlKey(all[j].0))
      {
        var (key, value) := all[i];
        if value == "" {
          continue;
        }
        var k := ToUpper(key);
        if Contains(k, "_PRISMA_") || Contains(k, "NO_SSL") {
          continue;
        }
        if MatchesAnchored(k, "POSTGRES_", "_URL") || MatchesAnchored(k, "POSTGRES_", "_DATABASE_URL") {
          assert FirstPostgresEntry(all) == i;
          entries := Assign(entries, "POSTGRES_URL", value);
          return;
        }
      }
    }
  }
}
