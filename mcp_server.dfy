/**
 * `create_auth_config` of the MCP server: whether JWT validation is switched
 * on by the environment, and with which JWKS URI, issuer and audience.
 * The environment is a map from variable name to value.
 */
module McpServer {
  import opened Wrappers
  import opened Text

  /** The bearer-token provider the server is given: it only records its settings. */
  datatype BearerAuthProvider = BearerAuthProvider(jwksUri: string, issuer: string, audience: string)

  /** The OAuth settings slot of the result; the function never fills it. */
  datatype AuthSettings = AuthSettings(issuerUrl: string)

  /** The pair `create_auth_config` returns. */
  datatype AuthConfig = AuthConfig(settings: Option<AuthSettings>, provider: Option<BearerAuthProvider>)

  const DefaultAudience := "basic-memory-mcp"

  /** `os.getenv(name, fallback)`. */
  function GetEnv(env: map<string, string>, name: string, fallback: string): string {
    if name in env then env[name] else fallback
  }

  /** `os.getenv("FASTMCP_AUTH_ENABLED", "false").lower() == "true"`. */
  predicate AuthEnabled(env: map<string, string>)
    ensures AuthEnabled(env) ==> "FASTMCP_AUTH_ENABLED" in env && |env["FASTMCP_AUTH_ENABLED"]| == 4
  {
    assert |Lower("false")| == 5;
    Lower(GetEnv(env, "FASTMCP_AUTH_ENABLED", "false")) == "true"
  }

  /** A variable that is set to a non-empty value (`not os.getenv(name)` fails for it). */
  predicate IsSet(env: map<string, string>, name: string) {
    name in env && env[name] != ""
  }

  /**
   * `create_auth_config`: the settings slot is never filled, and a provider is
   * only built with the flag on and a non-empty JWKS URI and issuer.
   */
  function CreateAuthConfig(env: map<string, string>): (c: AuthConfig)
    ensures c.settings.None?
    ensures c.provider.Some? ==> AuthEnabled(env) && c.provider.value.jwksUri != "" && c.provider.value.issuer != ""
  {
    if AuthEnabled(env) then
      if !IsSet(env, "FASTMCP_AUTH_JWKS_URI") || !IsSet(env, "FASTMCP_AUTH_ISSUER") then AuthConfig(None, None)
      else
        var audience := GetEnv(env, "FASTMCP_AUTH_AUDIENCE", DefaultAudience);
        AuthConfig(None, Some(BearerAuthProvider(env["FASTMCP_AUTH_JWKS_URI"], env["FASTMCP_AUTH_ISSUER"], audience)))
    else AuthConfig(None, None)
  }

  /** The flag is "true" in any letter case, e.g. "TRUE" or "True", and nothing else. */
  lemma AuthEnabledSpelling(env: map<string, string>)
    ensures AuthEnabled(env) <==>
              "FASTMCP_AUTH_ENABLED" in env && |env["FASTMCP_AUTH_ENABLED"]| == 4
              && LowerChar(env["FASTMCP_AUTH_ENABLED"][0]) == 't' && LowerChar(env["FASTMCP_AUTH_ENABLED"][1]) == 'r'
              && LowerChar(env["FASTMCP_AUTH_ENABLED"][2]) == 'u' && LowerChar(env["FASTMCP_AUTH_ENABLED"][3]) == 'e'
  {
    var v := GetEnv(env, "FASTMCP_AUTH_ENABLED", "false");
    if "FASTMCP_AUTH_ENABLED" !in env {
      assert Lower("false") != "true" by { assert |Lower("false")| == 5; }
    } else if |v| == 4 {
      assert Lower(v) == [LowerChar(v[0]), LowerChar(v[1]), LowerChar(v[2]), LowerChar(v[3])];
    }
  }

  /**
   * The settings slot is always empty, and a provider is configured exactly
   * when the flag is on and both the JWKS URI and the issuer are non-empty; it
   * then carries them, with the audience variable or "basic-memory-mcp".
   */
  lemma CreateAuthConfigSpec(env: map<string, string>)
    ensures CreateAuthConfig(env).settings.None?
    ensures CreateAuthConfig(env).provider.Some? <==>
              AuthEnabled(env) && IsSet(env, "FASTMCP_AUTH_JWKS_URI") && IsSet(env, "FASTMCP_AUTH_ISSUER")
    ensures CreateAuthConfig(env).provider.Some? ==>
              && CreateAuthConfig(env).provider.value.jwksUri == env["FASTMCP_AUTH_JWKS_URI"]
              && CreateAuthConfig(env).provider.value.issuer == env["FASTMCP_AUTH_ISSUER"]
              && CreateAuthConfig(env).provider.value.audience
                 == (if "FASTMCP_AUTH_AUDIENCE" in env then env["FASTMCP_AUTH_AUDIENCE"] else DefaultAudience)
  {
  }

  /** With the flag off, the other variables do not matter. */
  lemma DisabledIgnoresRest(env: map<string, string>, other: map<string, string>)
    requires !AuthEnabled(env)
    requires "FASTMCP_AUTH_ENABLED" in env <==> "FASTMCP_AUTH_ENABLED" in other
    requires "FASTMCP_AUTH_ENABLED" in env ==> env["FASTMCP_AUTH_ENABLED"] == other["FASTMCP_AUTH_ENABLED"]
    ensures CreateAuthConfig(env) == CreateAuthConfig(other) == AuthConfig(None, None)
  {
  }
}
