/**
 * The moderation endpoint src/app/api/guestbook/approve/route.ts: the admin
 * gate shared by its handlers, the list query GET chooses, and the flags a
 * PATCH writes.
 */
module Approve {
  import opened Wrappers
  import opened Js
  import opened Env
  import opened Http
  import Connection
  import Auth

  // ---------------------------------------------------------------------------
  // Admin gate

  /** The authorization header names a bearer token: it starts with "bearer ", in any letter case. */
  predicate IsBearer(authorization: string) {
    "bearer " <= ToLower(authorization)
  }

  /**
   * getHeaderToken: a non-empty x-admin-token header wins; then the rest of a
   * bearer authorization header; then the `token` search parameter. Each is
   * trimmed.
   */
  function HeaderToken(headers: Params, query: Params): (token: string)
    ensures Get(headers, "x-admin-token") != "" ==> token == Trim(Get(headers, "x-admin-token"))
    ensures Get(headers, "x-admin-token") == "" && IsBearer(Get(headers, "authorization"))
            ==> token == Trim(Get(headers, "authorization")[7..])
    ensures Get(headers, "x-admin-token") == "" && !IsBearer(Get(headers, "authorization"))
            ==> token == Trim(Get(query, "token"))
    ensures Trim(token) == token
  {
    var header := Get(headers, "x-admin-token");
    var authorization := Get(headers, "authorization");
    if header != "" then
      TrimIdempotent(header);
      Trim(header)
    else if IsBearer(authorization) then
      TrimIdempotent(authorization[7..]);
      Trim(authorization[7..])
    else
      TrimIdempotent(Get(query, "token"));
      Trim(Get(query, "token"))
  }

  /** The expected token: GUESTBOOK_ADMIN_TOKEN trimmed (ADMIN_TOKEN is not consulted here). */
  function ExpectedToken(env: Environment): (expected: string)
    ensures Trim(expected) == expected
    ensures expected == "" <==> IsBlank(ValueOr(env, "GUESTBOOK_ADMIN_TOKEN", ""))
    ensures IsTrimOf(expected, ValueOr(env, "GUESTBOOK_ADMIN_TOKEN", ""))
  {
    TrimIdempotent(ValueOr(env, "GUESTBOOK_ADMIN_TOKEN", ""));
    TrimIsTrimOf(ValueOr(env, "GUESTBOOK_ADMIN_TOKEN", ""));
    Trim(ValueOr(env, "GUESTBOOK_ADMIN_TOKEN", ""))
  }

  /** Setting ADMIN_TOKEN, to anything, leaves the expected token as it was. */
  lemma ExpectedTokenIgnoresAdminToken(env: Environment, value: string)
    ensures ExpectedToken(Assign(env, "ADMIN_TOKEN", value)) == ExpectedToken(env)
  {
    var env' := Assign(env, "ADMIN_TOKEN", value);
    assert Lookup(env', "GUESTBOOK_ADMIN_TOKEN") == Lookup(env, "GUESTBOOK_ADMIN_TOKEN");
    assert ValueOr(env', "GUESTBOOK_ADMIN_TOKEN", "") == ValueOr(env, "GUESTBOOK_ADMIN_TOKEN", "");
  }

  /**
   * requireAdmin lets a request through exactly when a secret is configured and
   * the presented token, once trimmed, equals the secret once trimmed.
   */
  predicate RequireAdmin(env: Environment, headers: Params, query: Params)
    ensures RequireAdmin(env, headers, query) <==>
              !IsBlank(ValueOr(env, "GUESTBOOK_ADMIN_TOKEN", ""))
              && IsTrimOf(HeaderToken(headers, query), ValueOr(env, "GUESTBOOK_ADMIN_TOKEN", ""))
  {
    var expected := ExpectedToken(env);
    TrimCharacterised(HeaderToken(headers, query), ValueOr(env, "GUESTBOOK_ADMIN_TOKEN", ""));
    expected != "" && HeaderToken(headers, query) == expected
  }

  /** With GUESTBOOK_ADMIN_TOKEN unset or blank, no request whatsoever passes the gate. */
  lemma BlankSecretLocksOut(env: Environment, headers: Params, query: Params)
    requires IsBlank(ValueOr(env, "GUESTBOOK_ADMIN_TOKEN", ""))
    ensures !RequireAdmin(env, headers, query)
  {
  }

  /**
   * With a secret configured, each of the three channels admits the secret,
   * padded with white space or not; a bearer prefix may be in any letter case.
   */
  lemma EveryChannelAdmits(env: Environment, padded: string)
    requires ExpectedToken(env) != ""
    requires Trim(padded) == ExpectedToken(env)
    ensures RequireAdmin(env, map["x-admin-token" := padded], map[])
    ensures RequireAdmin(env, map["authorization" := "Bearer " + padded], map[])
    ensures RequireAdmin(env, map[], map["token" := padded])
  {
    HeaderChannelAdmits(env, padded);
    BearerChannelAdmits(env, padded);
    QueryChannelAdmits(env, padded);
  }

  /** The x-admin-token channel on its own. */
  lemma HeaderChannelAdmits(env: Environment, padded: string)
    requires ExpectedToken(env) != ""
    requires Trim(padded) == ExpectedToken(env)
    ensures RequireAdmin(env, map["x-admin-token" := padded], map[])
  {
    assert padded != "";
  }

  /** The `token` search parameter on its own. */
  lemma QueryChannelAdmits(env: Environment, padded: string)
    requires ExpectedToken(env) != ""
    requires Trim(padded) == ExpectedToken(env)
    ensures RequireAdmin(env, map[], map["token" := padded])
  {
    var headers: Params := map[];
    assert Get(headers, "x-admin-token") == "" && Get(headers, "authorization") == "";
    assert !IsBearer("");
  }

  /** "Bearer " followed by any text is a bearer header whose token part is that text. */
  lemma BearerPrefix(rest: string)
    ensures IsBearer("Bearer " + rest)
    ensures ("Bearer " + rest)[7..] == rest
  {
    var auth := "Bearer " + rest;
    var low := ToLower(auth);
    assert low[..7] == "bearer ";
  }

  /** The token of a lone "Bearer " authorization header is the rest of it, trimmed. */
  lemma BearerToken(rest: string)
    ensures HeaderToken(map["authorization" := "Bearer " + rest], map[]) == Trim(rest)
  {
    var headers := map["authorization" := "Bearer " + rest];
    assert Get(headers, "x-admin-token") == "";
    BearerPrefix(rest);
  }

  /** The bearer channel on its own: "Bearer " followed by the padded secret passes the gate. */
  lemma BearerChannelAdmits(env: Environment, padded: string)
    requires ExpectedToken(env) != ""
    requires Trim(padded) == ExpectedToken(env)
    ensures RequireAdmin(env, map["authorization" := "Bearer " + padded], map[])
  {
    BearerToken(padded);
  }

  /**
   * The verification endpoint also honours ADMIN_TOKEN, which this gate
   * ignores: with only ADMIN_TOKEN configured a token verifies as valid yet is
   * refused here.
   */
  lemma VerifiedTokenCanBeRefused()
    ensures var env := [("ADMIN_TOKEN", "letmein")];
            Auth.VerifyToken(env, Some("letmein")).valid
            && !RequireAdmin(env, map["x-admin-token" := "letmein"], map[])
  {
    var env := [("ADMIN_TOKEN", "letmein")];
    assert Lookup(env, "GUESTBOOK_ADMIN_TOKEN") == None;
    AdminTokenVerifies(env);
    assert ExpectedToken(env) == "";
  }

  lemma AdminTokenVerifies(env: Environment)
    requires env == [("ADMIN_TOKEN", "letmein")]
    ensures Auth.VerifyToken(env, Some("letmein")).valid
  {
    assert Lookup(env, "GUESTBOOK_ADMIN_TOKEN") == None;
    assert Lookup(env, "ADMIN_TOKEN") == Some("letmein");
    assert Auth.AdminSecret(env) == Some("letmein");
  }

  // ---------------------------------------------------------------------------
  // GET: the moderation lists

  /** Which of the two list queries runs. */
  datatype ListChoice =
    | ApprovedList  // approved and not rejected, newest first
    | PendingList   // neither approved nor rejected, oldest first

  /** The `status` parameter, lower-cased, "pending" when absent or empty. */
  function StatusParam(query: Params): (status: string)
    ensures Get(query, "status") == "" ==> status == "pending"
    ensures Get(query, "status") != "" ==> status == ToLower(Get(query, "status"))
  {
    ToLower(if Get(query, "status") != "" then Get(query, "status") else "pending")
  }

  /** Only a status equal to "approved" (ignoring ASCII case) selects the approved list; anything else lists pending entries. */
  function SelectList(query: Params): (choice: ListChoice)
    ensures choice == ApprovedList <==> ToLower(Get(query, "status")) == "approved"
  {
    if StatusParam(query) == "approved" then ApprovedList else PendingList
  }

  /** What GET answers before any row is read. */
  datatype GetResponse =
    | GetUnauthorized        // 401 {error: "unauthorized"}
    | NoItems                // 200 {items: []}
    | RunList(choice: ListChoice)  // 200 {items: rows of that query}

  /** GET: the gate first, then an empty list without a database, then the chosen query. */
  function HandleGet(env: Environment, headers: Params, query: Params): (r: GetResponse)
    ensures !RequireAdmin(env, headers, query) ==> r == GetUnauthorized
    ensures RequireAdmin(env, headers, query) && !Connection.IsDbConfigured(env) ==> r == NoItems
    ensures r.RunList? <==> RequireAdmin(env, headers, query) && Connection.IsDbConfigured(env)
    ensures r.RunList? ==> r.choice == SelectList(query)
  {
    if !RequireAdmin(env, headers, query) then GetUnauthorized
    else if !Connection.IsDbConfigured(env) then NoItems
    else RunList(SelectList(query))
  }

  // ---------------------------------------------------------------------------
  // PATCH: approve or reject one entry

  /**
   * The JSON body of a PATCH: `id` when it is a string, and the `approved` and
   * `rejected` properties as given (None when the property is absent).
   */
  datatype PatchBody = PatchBody(id: Option<string>, approved: Option<Json>, rejected: Option<Json>)

  /** The body a request supplies: a body that is not JSON reads as `{}`. */
  function BodyOrEmpty(parsed: Option<PatchBody>): PatchBody {
    if parsed.Some? then parsed.value else PatchBody(None, None, None)
  }

  /** The id to update: `(body.id || "").trim()`. */
  function PatchId(body: PatchBody): (id: string)
    ensures body.id.None? ==> id == ""
    ensures body.id.Some? ==> id == Trim(body.id.value)
    ensures body.id.Some? ==> IsTrimOf(id, body.id.value)
    ensures Trim(id) == id
  {
    if body.id.Some? then
      TrimIdempotent(body.id.value);
      TrimIsTrimOf(body.id.value);
      Trim(body.id.value)
    else ""
  }

  /**
   * The (approved, rejected) pair written: `approved` is the truthiness of the
   * body's approved property; when that property is present, rejected is its
   * negation, otherwise rejected is the truthiness of the body's rejected
   * property. The two flags are never both set.
   */
  function PatchFlags(body: PatchBody): (flags: (bool, bool))
    ensures flags.0 == BooleanOf(body.approved)
    ensures body.approved.Some? ==> flags.1 == !flags.0
    ensures body.approved.None? ==> flags.1 == BooleanOf(body.rejected)
    ensures !(flags.0 && flags.1)
  {
    var approved := BooleanOf(body.approved);
    var rejected := if body.approved.Some? then !approved else BooleanOf(body.rejected);
    (approved, rejected)
  }

  /** A present `approved` property decides both flags, whatever `rejected` says. */
  lemma ApprovedPropertyDominates(id: Option<string>, a: Json, r1: Option<Json>, r2: Option<Json>)
    ensures PatchFlags(PatchBody(id, Some(a), r1)) == PatchFlags(PatchBody(id, Some(a), r2))
    ensures PatchFlags(PatchBody(id, Some(a), r1)).0 != PatchFlags(PatchBody(id, Some(a), r1)).1
  {
  }

  /** What PATCH answers. */
  datatype PatchResponse =
    | PatchUnauthorized                           // 401 {error: "unauthorized"}
    | NoDb                                        // 400 {error: "no_db"}
    | MissingId                                   // 400 {error: "missing_id"}
    | Update(id: string, approved: bool, rejected: bool)  // UPDATE ... WHERE id, then 200 {ok: true}

  /**
   * PATCH: the gate, then the database, then the id; otherwise the UPDATE with
   * the computed flags. No check that a row with that id exists.
   */
  function HandlePatch(env: Environment, headers: Params, query: Params, parsed: Option<PatchBody>): (r: PatchResponse)
    ensures !RequireAdmin(env, headers, query) ==> r == PatchUnauthorized
    ensures RequireAdmin(env, headers, query) && !Connection.IsDbConfigured(env) ==> r == NoDb
    ensures RequireAdmin(env, headers, query) && Connection.IsDbConfigured(env) && PatchId(BodyOrEmpty(parsed)) == ""
            ==> r == MissingId
    ensures r.Update? <==> RequireAdmin(env, headers, query) && Connection.IsDbConfigured(env) && PatchId(BodyOrEmpty(parsed)) != ""
    ensures r.Update? ==> r.id == PatchId(BodyOrEmpty(parsed)) && Trim(r.id) == r.id
                          && (r.approved, r.rejected) == PatchFlags(BodyOrEmpty(parsed))
                          && !(r.approved && r.rejected)
  {
    var body := BodyOrEmpty(parsed);
    if !RequireAdmin(env, headers, query) then PatchUnauthorized
    else if !Connection.IsDbConfigured(env) then NoDb
    else if PatchId(body) == "" then MissingId
    else
      TrimIdempotent(if body.id.Some? then body.id.value else "");
      var flags := PatchFlags(body);
      Update(PatchId(body), flags.0, flags.1)
  }

  /** A body that is not JSON never reaches the UPDATE. */
  lemma UnparsableBodyUpdatesNothing(env: Environment, headers: Params, query: Params)
    ensures !HandlePatch(env, headers, query, None).Update?
  {
  }
}
