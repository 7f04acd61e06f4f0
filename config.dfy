/**
 * The environment both entry scripts read at start-up, and the check that
 * the three required variables are set (src/ingest.py and src/chat.py run
 * the same loop when they are imported).
 */
module Config {
  import opened Wrappers

  /** The process environment after `.env` has been loaded: an unset
      variable has no key. */
  type Env = map<string, string>

  /** `os.getenv(name)` is truthy: the variable exists and is not empty. */
  predicate IsSet(env: Env, name: string) {
    name in env && env[name] != ""
  }

  /** `os.getenv(name, default)`: the default only replaces a missing
      variable, not an empty one. */
  function GetEnv(env: Env, name: string, default: string): (r: string)
    ensures name in env ==> r == env[name]
    ensures name !in env ==> r == default
  {
    if name in env then env[name] else default
  }

  /** The variables both scripts refuse to start without, in checking order. */
  const RequiredVars: seq<string> := ["GOOGLE_API_KEY", "DATABASE_URL", "PG_VECTOR_COLLECTION_NAME"]

  predicate AllSet(env: Env, names: seq<string>) {
    forall i | 0 <= i < |names| :: IsSet(env, names[i])
  }

  /** The RuntimeError raised for a variable that is not configured. */
  datatype ConfigError = MissingVariable(name: string)

  /** The start-up loop: walk the names in order and fail on the first one
      that is unset or empty. */
  method CheckRequired(env: Env, names: seq<string>) returns (r: Outcome<ConfigError>)
    ensures r.Pass? <==> AllSet(env, names)
    ensures r.Fail? ==> exists i | 0 <= i < |names| ::
              && r.error == MissingVariable(names[i])
              && !IsSet(env, names[i])
              && AllSet(env, names[..i])
  {
    for i := 0 to |names|
      invariant AllSet(env, names[..i])
    {
      if !IsSet(env, names[i]) {
        return Fail(MissingVariable(names[i]));
      }
    }
    assert names[..|names|] == names;
    return Pass;
  }
}
