/**
 * The admin-token check of src/lib/auth.ts and the token-verification endpoint
 * of src/app/api/auth/route.ts that the moderation page calls before it shows
 * its panel.
 */
module Auth {
  import opened Wrappers
  import opened Env

  /**
   * The module constant ADMIN_TOKEN, read once when the module loads:
   * GUESTBOOK_ADMIN_TOKEN, or ADMIN_TOKEN when the former is unset or empty,
   * or nothing when neither holds a non-empty value.
   */
  function AdminSecret(env: Environment): (secret: Option<string>)
    ensures IsSet(env, "GUESTBOOK_ADMIN_TOKEN") ==> secret == Lookup(env, "GUESTBOOK_ADMIN_TOKEN")
    ensures !IsSet(env, "GUESTBOOK_ADMIN_TOKEN") && IsSet(env, "ADMIN_TOKEN") ==> secret == Lookup(env, "ADMIN_TOKEN")
    ensures !IsSet(env, "GUESTBOOK_ADMIN_TOKEN") && !IsSet(env, "ADMIN_TOKEN") ==> secret.None?
    ensures secret.Some? ==> secret.value != ""
  {
    var keys := ["GUESTBOOK_ADMIN_TOKEN", "ADMIN_TOKEN"];
    assert keys[0] == "GUESTBOOK_ADMIN_TOKEN" && keys[1] == "ADMIN_TOKEN";
    assert !IsSet(env, keys[0]) ==> FirstSetIndex(env, keys) > 0;
    FirstSet(env, keys)
  }

  /**
   * isAdminTokenValid: false for every token while no secret is configured;
   * otherwise true exactly for the token that equals the secret character for
   * character (no trimming), and never for a missing token.
   */
  function IsAdminTokenValid(env: Environment, token: Option<string>): (valid: bool)
    ensures AdminSecret(env).None? ==> !valid
    ensures valid <==> AdminSecret(env).Some? && token == AdminSecret(env)
    ensures token.None? ==> !valid
  {
    var secret := AdminSecret(env);
    if secret.None? then false else token == secret
  }

  /** The response of POST /api/auth: an HTTP status and the `valid` field. */
  datatype VerifyResponse = VerifyResponse(status: int, valid: bool)

  /** The least token length the endpoint's schema accepts. */
  const MinTokenLength := 4

  /**
   * POST /api/auth: a token that is missing, not a string or shorter than four
   * characters fails the schema and answers 422 with valid = false; any other
   * token answers 200 with the verdict of isAdminTokenValid.
   */
  function VerifyToken(env: Environment, token: Option<string>): (r: VerifyResponse)
    ensures token.None? || |token.value| < MinTokenLength ==> r == VerifyResponse(422, false)
    ensures token.Some? && |token.value| >= MinTokenLength ==> r.status == 200 && r.valid == IsAdminTokenValid(env, token)
    ensures r.valid ==> AdminSecret(env) == token
  {
    if token.None? || |token.value| < MinTokenLength then VerifyResponse(422, false)
    else VerifyResponse(200, IsAdminTokenValid(env, token))
  }

  /** The schema check comes first: a short token gets the same answer whatever the environment holds. */
  lemma ShortTokenIgnoresSecret(env1: Environment, env2: Environment, token: string)
    requires |token| < MinTokenLength
    ensures VerifyToken(env1, Some(token)) == VerifyToken(env2, Some(token)) == VerifyResponse(422, false)
  {
  }

  /** A configured secret shorter than four characters can never be confirmed through the endpoint. */
  lemma ShortSecretNeverVerifies(env: Environment, token: Option<string>)
    requires AdminSecret(env).Some? && |AdminSecret(env).value| < MinTokenLength
    ensures !VerifyToken(env, token).valid
  {
  }
}
