/**
 * `TenantValidationMiddleware`: the tenant id an instance is configured with,
 * the bearer token taken from the Authorization header, the check of the
 * token's `tenant_id` claim, and the three outcomes of a request (validation
 * disabled, rejected with 401 or 403, or passed with the user context).
 *
 * Decoding a token (`jwt.decode`) is a library call: it is a parameter of
 * the model that either fails or yields the JSON payload.
 */
module TenantMiddleware {
  import opened Wrappers
  import opened Text

  /** A JSON value of a token payload. */
  datatype Value = Null | Bool(b: bool) | Int(i: int) | Str(s: string) | List(items: seq<Value>) | Object(fields: map<string, Value>)

  /** Python truthiness of a JSON value. */
  predicate Truthy(v: Value) {
    match v
    case Null => false
    case Bool(b) => b
    case Int(i) => i != 0
    case Str(s) => s != ""
    case List(items) => items != []
    case Object(fields) => fields != map[]
  }

  /** `payload.get(key)`: the value, or None when the key is absent. */
  function Get(payload: map<string, Value>, key: string): Value {
    if key in payload then payload[key] else Null
  }

  /** The decoding of a token: None when it fails, else the payload. */
  type Decoder = string -> Option<map<string, Value>>

  const TenantEnv := "BASIC_MEMORY_TENANT_ID"

  /** The middleware: its only field is the tenant id, fixed when it is built. */
  datatype Middleware = Middleware(tenantId: Option<string>)

  /** Whether tenant validation is on: a configured, non-empty tenant id. */
  predicate Enabled(m: Middleware) {
    m.tenantId.Some? && m.tenantId.value != ""
  }

  /** `__init__`: the argument when it is a non-empty string, else the environment variable (possibly unset). */
  function NewMiddleware(tenantId: Option<string>, environ: map<string, string>): (m: Middleware)
    ensures tenantId.Some? && tenantId.value != "" ==> m.tenantId == tenantId
    ensures !(tenantId.Some? && tenantId.value != "") ==> (m.tenantId.Some? <==> TenantEnv in environ)
    ensures !(tenantId.Some? && tenantId.value != "") && TenantEnv in environ ==> m.tenantId.value == environ[TenantEnv]
  {
    if tenantId.Some? && tenantId.value != "" then Middleware(tenantId)
    else if TenantEnv in environ then Middleware(Some(environ[TenantEnv]))
    else Middleware(None)
  }

  /** Validation is on exactly when the argument or the environment holds a non-empty tenant id. */
  lemma NewMiddlewareEnabled(tenantId: Option<string>, environ: map<string, string>)
    ensures Enabled(NewMiddleware(tenantId, environ)) <==>
              (tenantId.Some? && tenantId.value != "") || (TenantEnv in environ && environ[TenantEnv] != "")
  {
  }

  /** A non-empty argument wins: the environment is then not consulted. */
  lemma NewMiddlewareArgumentWins(tenantId: string, environ: map<string, string>, other: map<string, string>)
    requires tenantId != ""
    ensures NewMiddleware(Some(tenantId), environ) == NewMiddleware(Some(tenantId), other)
    ensures Enabled(NewMiddleware(Some(tenantId), environ))
  {
  }

  /** A missing or empty argument defers to the environment, as if none were given. */
  lemma NewMiddlewareFallsBack(environ: map<string, string>)
    ensures NewMiddleware(Some(""), environ) == NewMiddleware(None, environ)
    ensures NewMiddleware(None, environ).tenantId.Some? <==> TenantEnv in environ
  {
  }

  const Bearer := "Bearer "

  /** `extract_jwt_from_request`: the text after "Bearer " in the `authorization` header, if it has that form. */
  function ExtractJwt(headers: map<string, string>): (token: Option<string>)
    ensures token.Some? <==> "authorization" in headers && StartsWith(headers["authorization"], Bearer)
    ensures token.Some? ==> headers["authorization"] == Bearer + token.value
  {
    if "authorization" !in headers || headers["authorization"] == "" then None
    else
      var header := headers["authorization"];
      if !StartsWith(header, Bearer) then None
      else
        assert header == header[..7] + header[7..];
        Some(header[7..])
  }

  /** A header built from a token gives that token back. */
  lemma ExtractJwtOfBearer(headers: map<string, string>, token: string)
    ensures ExtractJwt(headers["authorization" := Bearer + token]) == Some(token)
  {
    var h := headers["authorization" := Bearer + token];
    assert h["authorization"][..7] == Bearer;
    assert (Bearer + token)[7..] == token;
  }

  /** `validate_tenant_access`: the `tenant_id` claim must be present, non-empty and equal to the configured id. */
  function ValidateTenantAccess(m: Middleware, payload: map<string, Value>): (ok: bool)
    ensures !Enabled(m) ==> ok
    ensures Enabled(m) ==> (ok <==> Get(payload, "tenant_id") == Str(m.tenantId.value))
  {
    if !Enabled(m) then true
    else
      var claim := Get(payload, "tenant_id");
      if !Truthy(claim) then false
      else if claim != Str(m.tenantId.value) then false
      else true
  }

  /** What a request yields: the returned dictionary, or the HTTP error raised. */
  datatype Response = Context(fields: map<string, Value>) | HttpError(status: int, detail: string)

  const Disabled := Context(map["tenant_validation" := Str("disabled")])

  /** The user context of a validated payload. */
  function UserContext(payload: map<string, Value>): (r: map<string, Value>)
    ensures r.Keys == {"user_id", "tenant_id", "user_role", "email", "tenant_validation"}
    ensures r["user_id"] == Get(payload, "sub") && r["tenant_id"] == Get(payload, "tenant_id")
    ensures r["user_role"] == Get(payload, "user_role") && r["email"] == Get(payload, "email")
    ensures r["tenant_validation"] == Str("passed")
  {
    map["user_id" := Get(payload, "sub"), "tenant_id" := Get(payload, "tenant_id"),
        "user_role" := Get(payload, "user_role"), "email" := Get(payload, "email"),
        "tenant_validation" := Str("passed")]
  }

  /**
   * `__call__`. Only 401 and 403 are raised, 403 only when validation is on,
   * and with validation on a request that is let through carried a token
   * whose `tenant_id` claim is the instance's.
   */
  function Call(m: Middleware, headers: map<string, string>, decode: Decoder): (r: Response)
    ensures r.HttpError? ==> r.status == 401 || (r.status == 403 && Enabled(m))
    ensures Enabled(m) && r.Context? ==>
              && ExtractJwt(headers).Some? && decode(ExtractJwt(headers).value).Some?
              && Get(decode(ExtractJwt(headers).value).value, "tenant_id") == Str(m.tenantId.value)
              && "tenant_id" in r.fields && r.fields["tenant_id"] == Str(m.tenantId.value)
  {
    var token := ExtractJwt(headers);
    if token.None? || token.value == "" then
      if Enabled(m) then HttpError(401, "Missing Authorization header") else Disabled
    else
      var payload := decode(token.value);
      if payload.None? || payload.value == map[] then HttpError(401, "Invalid JWT token")
      else if !ValidateTenantAccess(m, payload.value) then HttpError(403, "Access denied: invalid tenant")
      else Context(UserContext(payload.value))
  }

  // ---- The outcomes of a request ----

  /** No token, or the empty token of a bare "Bearer ": 401 when validation is on, else the disabled marker. */
  lemma CallWithoutToken(m: Middleware, headers: map<string, string>, decode: Decoder)
    requires "authorization" !in headers || !StartsWith(headers["authorization"], Bearer) || headers["authorization"] == Bearer
    ensures Call(m, headers, decode) == if Enabled(m) then HttpError(401, "Missing Authorization header") else Disabled
  {
    if "authorization" in headers && headers["authorization"] == Bearer {
      assert ExtractJwt(headers) == Some("");
    }
  }

  /** A token that does not decode, or decodes to an empty payload, is rejected with 401 whether or not validation is on. */
  lemma CallInvalidToken(m: Middleware, headers: map<string, string>, decode: Decoder, token: string)
    requires ExtractJwt(headers) == Some(token) && token != ""
    requires decode(token).None? || decode(token).value == map[]
    ensures Call(m, headers, decode) == HttpError(401, "Invalid JWT token")
  {
  }

  /** With validation on, a token whose `tenant_id` is not the instance's is rejected with 403. */
  lemma CallWrongTenant(m: Middleware, headers: map<string, string>, decode: Decoder, token: string)
    requires Enabled(m)
    requires ExtractJwt(headers) == Some(token) && token != ""
    requires decode(token).Some? && decode(token).value != map[]
    requires Get(decode(token).value, "tenant_id") != Str(m.tenantId.value)
    ensures Call(m, headers, decode) == HttpError(403, "Access denied: invalid tenant")
  {
  }

  /** A decoded token passes with the user context when its tenant matches or validation is off. */
  lemma CallPassed(m: Middleware, headers: map<string, string>, decode: Decoder, token: string)
    requires ExtractJwt(headers) == Some(token) && token != ""
    requires decode(token).Some? && decode(token).value != map[]
    requires !Enabled(m) || Get(decode(token).value, "tenant_id") == Str(m.tenantId.value)
    ensures Call(m, headers, decode) == Context(UserContext(decode(token).value))
  {
  }

  /**
   * Tenant isolation: with validation on, every request that is not rejected
   * carried a token whose `tenant_id` claim is the instance's, and the context
   * returned reports that tenant.
   */
  lemma CallIsolatesTenant(m: Middleware, headers: map<string, string>, decode: Decoder)
    requires Enabled(m) && Call(m, headers, decode).Context?
    ensures ExtractJwt(headers).Some? && decode(ExtractJwt(headers).value).Some?
    ensures Get(decode(ExtractJwt(headers).value).value, "tenant_id") == Str(m.tenantId.value)
    ensures Call(m, headers, decode).fields["tenant_id"] == Str(m.tenantId.value)
    ensures Call(m, headers, decode).fields["tenant_validation"] == Str("passed")
  {
  }

  /** The only errors raised are 401 and 403, and 403 only when validation is on. */
  lemma CallErrors(m: Middleware, headers: map<string, string>, decode: Decoder)
    ensures Call(m, headers, decode).HttpError? ==> Call(m, headers, decode).status in {401, 403}
    ensures Call(m, headers, decode).HttpError? && Call(m, headers, decode).status == 403 ==> Enabled(m)
    ensures !Enabled(m) && Call(m, headers, decode).HttpError? ==> Call(m, headers, decode).detail == "Invalid JWT token"
  {
  }
}
