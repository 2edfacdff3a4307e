/**
 * `config.py`: the credentials read from the process environment once the
 * `.env` file has been loaded into it. `os.getenv(name)` is a lookup in
 * `env`; a variable that is unset or set to the empty string counts as
 * missing, as Python's `not value` does.
 */
module Config {
  import opened Wrappers

  const UserVariables: string := "FVJ_USERNAME/USUARIO"
  const PasswordVariables: string := "FVJ_PASSWORD/SENHA"
  const ApiKeyVariable: string := "GEMINI_API_KEY"

  /** `os.getenv(name)`. */
  function GetEnv(env: map<string, string>, name: string): Option<string> {
    if name in env then Some(env[name]) else None
  }

  /** Python's `not value` for an optional string. */
  predicate Missing(v: Option<string>) {
    v.None? || v.value == ""
  }

  /** The username: `FVJ_USERNAME` unless it is missing, then `USUARIO`. */
  function Username(env: map<string, string>): (v: Option<string>)
    ensures !Missing(GetEnv(env, "FVJ_USERNAME")) ==> v == Some(env["FVJ_USERNAME"])
    ensures Missing(GetEnv(env, "FVJ_USERNAME")) ==> v == GetEnv(env, "USUARIO")
  {
    var first := GetEnv(env, "FVJ_USERNAME");
    if Missing(first) then GetEnv(env, "USUARIO") else first
  }

  /** The password: `FVJ_PASSWORD` unless it is missing, then `SENHA`. */
  function Password(env: map<string, string>): (v: Option<string>)
    ensures !Missing(GetEnv(env, "FVJ_PASSWORD")) ==> v == Some(env["FVJ_PASSWORD"])
    ensures Missing(GetEnv(env, "FVJ_PASSWORD")) ==> v == GetEnv(env, "SENHA")
  {
    var first := GetEnv(env, "FVJ_PASSWORD");
    if Missing(first) then GetEnv(env, "SENHA") else first
  }

  /** The API key: `GEMINI_API_KEY` only; its "fallback" reads the same variable again. */
  function ApiKey(env: map<string, string>): Option<string> {
    var first := GetEnv(env, "GEMINI_API_KEY");
    if Missing(first) then GetEnv(env, "GEMINI_API_KEY") else first
  }

  /** The credentials dictionary, or None when any of the three values is missing. */
  function Credentials(env: map<string, string>): (r: Option<map<string, string>>)
    ensures r.None? <==> Missing(Username(env)) || Missing(Password(env)) || Missing(ApiKey(env))
    ensures r.Some? ==> r.value.Keys == {"usuario", "senha", "api_key"}
    ensures r.Some? ==> r.value["usuario"] == Username(env).value && r.value["senha"] == Password(env).value
    ensures r.Some? ==> "GEMINI_API_KEY" in env && r.value["api_key"] == env["GEMINI_API_KEY"] != ""
  {
    var u, p, k := Username(env), Password(env), ApiKey(env);
    if Missing(u) || Missing(p) || Missing(k) then None
    else Some(map["usuario" := u.value, "senha" := p.value, "api_key" := k.value])
  }

  /** The three variable groups in the order the error message names them. */
  const AllGroups: seq<string> := [UserVariables, PasswordVariables, ApiKeyVariable]

  /** The position of a group in the error message; other strings come last. */
  function Rank(g: string): nat {
    if g == UserVariables then 0 else if g == PasswordVariables then 1 else if g == ApiKeyVariable then 2 else 3
  }

  /**
   * `load_env_variables`: None when the `.env` file is absent; otherwise the
   * credentials, or None together with the list of missing variable groups,
   * in the fixed order user, password, API key.
   */
  method LoadEnvVariables(envFileExists: bool, env: map<string, string>)
    returns (credentials: Option<map<string, string>>, missing: seq<string>)
    ensures credentials == (if envFileExists then Credentials(env) else None)
    ensures !envFileExists ==> missing == []
    ensures envFileExists ==> (missing == [] <==> credentials.Some?)
    ensures UserVariables in missing <==> envFileExists && Missing(Username(env))
    ensures PasswordVariables in missing <==> envFileExists && Missing(Password(env))
    ensures ApiKeyVariable in missing <==> envFileExists && Missing(ApiKey(env))
    ensures forall g :: g in missing ==> g in AllGroups
    ensures forall i, j :: 0 <= i < j < |missing| ==> Rank(missing[i]) < Rank(missing[j])
  {
    missing := [];
    if !envFileExists {
      return None, missing;
    }
    var username := GetEnv(env, "FVJ_USERNAME");
    var password := GetEnv(env, "FVJ_PASSWORD");
    var apiKey := GetEnv(env, "GEMINI_API_KEY");
    if Missing(username) {
      username := GetEnv(env, "USUARIO");
    }
    if Missing(password) {
      password := GetEnv(env, "SENHA");
    }
    if Missing(apiKey) {
      apiKey := GetEnv(env, "GEMINI_API_KEY");
    }
    if Missing(username) || Missing(password) || Missing(apiKey) {
      if Missing(username) {
        missing := missing + [UserVariables];
      }
      if Missing(password) {
        missing := missing + [PasswordVariables];
      }
      if Missing(apiKey) {
        missing := missing + [ApiKeyVariable];
      }
      return None, missing;
    }
    credentials := Some(map["usuario" := username.value, "senha" := password.value, "api_key" := apiKey.value]);
  }
}
