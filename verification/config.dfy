/** Start-up configuration of the backend: the sandbox root and the version
    object, each read from an environment variable with JavaScript `||`
    falling back to a fixed default. */
module Config {
  import opened Outcomes

  /** `process.env`: variable names mapped to their (string) values. */
  type Environment = map<string, string>

  const DefaultRoot: string := "/home/ubuntu/.openclaw/workspace"
  const DefaultVersion: string := "1.0.0"
  const DefaultGitSha: string := "unknown"

  /** Reading `process.env[name]`: `undefined` when the variable is unset. */
  function Lookup(env: Environment, name: string): (v: Option<string>)
    ensures v.Some? <==> name in env
    ensures v.Some? ==> v.value == env[name]
  {
    if name in env then Some(env[name]) else None
  }

  /** A variable is truthy for `||` when it is set and not the empty string. */
  predicate Truthy(v: Option<string>)
  {
    v.Some? && v.value != ""
  }

  /** `v || fallback` for a variable that is a string or `undefined`. */
  function OrElse(v: Option<string>, fallback: string): (r: string)
    ensures Truthy(v) ==> r == v.value
    ensures !Truthy(v) ==> r == fallback
    ensures r == fallback || v == Some(r)
    ensures fallback != "" ==> r != ""
  {
    match v
    case Some(s) => if s != "" then s else fallback
    case None => fallback
  }

  /** `MOCK_ROOT`: the variable when it is a non-empty string, else the default path. */
  function Root(env: Environment): (root: string)
    ensures root != ""
    ensures "MOCK_ROOT" in env && env["MOCK_ROOT"] != "" ==> root == env["MOCK_ROOT"]
    ensures "MOCK_ROOT" !in env || env["MOCK_ROOT"] == "" ==> root == DefaultRoot
  {
    OrElse(Lookup(env, "MOCK_ROOT"), DefaultRoot)
  }

  /** The body of `/api/version`: exactly the two fields `version` and `gitSha`. */
  datatype VersionInfo = VersionInfo(version: string, gitSha: string)

  /** `/api/version`: each field is its variable when non-empty, else its default. */
  function Version(env: Environment): (info: VersionInfo)
    ensures info.version != "" && info.gitSha != ""
    ensures Truthy(Lookup(env, "REACT_APP_VERSION")) ==> info.version == env["REACT_APP_VERSION"]
    ensures !Truthy(Lookup(env, "REACT_APP_VERSION")) ==> info.version == DefaultVersion
    ensures Truthy(Lookup(env, "REACT_APP_GIT_SHA")) ==> info.gitSha == env["REACT_APP_GIT_SHA"]
    ensures !Truthy(Lookup(env, "REACT_APP_GIT_SHA")) ==> info.gitSha == DefaultGitSha
  {
    VersionInfo(
      OrElse(Lookup(env, "REACT_APP_VERSION"), DefaultVersion),
      OrElse(Lookup(env, "REACT_APP_GIT_SHA"), DefaultGitSha))
  }

  /** The root depends on `MOCK_ROOT` alone: any other variable, such as
      `EXPLORER_DATA_ROOT`, can be set or changed without effect. */
  lemma RootReadsOnlyMockRoot(env: Environment, name: string, value: string)
    requires name != "MOCK_ROOT"
    ensures Root(env[name := value]) == Root(env)
    ensures Root(env - {name}) == Root(env)
  {
  }

  /** Setting `MOCK_ROOT` to the empty string is the same as leaving it unset. */
  lemma EmptyMockRootIsUnset(env: Environment)
    ensures Root(env["MOCK_ROOT" := ""]) == Root(env - {"MOCK_ROOT"}) == DefaultRoot
  {
  }
}
