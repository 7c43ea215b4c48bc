/** Construction of the ETL job: reading the four required settings from the
    environment and refusing to start when any is unset or empty. */
module Settings {
  import opened Wrappers
  import opened Errors
  import Text
  import Seqs

  /** The process environment: variable name to value. */
  type Env = map<string, string>

  /** The required settings, in the order the check reports them. */
  const RequiredNames: seq<string> := ["MONGODB_URL", "DATA_SOURCE", "MONGODB_DATABASE", "MONGODB_COLLECTION"]

  /** The job's configuration. `caFile` is the certificate bundle path of the
      `certifi` package, taken as given. */
  datatype Config = Config(
    mongodbUrl: string,
    dataSource: string,
    database: string,
    collection: string,
    caFile: string)

  /** `os.getenv(name)` is falsy: the variable is absent (None) or empty. */
  predicate IsUnset(env: Env, name: string) {
    name !in env || env[name] == ""
  }

  /** The names among `names` that are unset, in the same order. */
  function Unset(env: Env, names: seq<string>): (missing: seq<string>)
    ensures forall n :: n in missing <==> n in names && IsUnset(env, n)
    ensures Seqs.IsSubsequence(missing, names)
    decreases |names|
  {
    if |names| == 0 then []
    else
      var rest := Unset(env, names[1..]);
      assert forall n :: n in names <==> n == names[0] || n in names[1..];
      if IsUnset(env, names[0]) then [names[0]] + rest else rest
  }

  /** The unset required settings, in check order. */
  function MissingNames(env: Env): (missing: seq<string>)
    ensures forall n :: n in missing <==> n in RequiredNames && IsUnset(env, n)
    ensures Seqs.IsSubsequence(missing, RequiredNames)
  {
    Unset(env, RequiredNames)
  }

  /** `_validate_env`: fails exactly when a required setting is unset, naming every
      unset one; otherwise the configuration carries the four values. */
  function Validate(env: Env, caFile: string): (r: Result<Config, EtlError>)
    ensures r.Failure? <==> exists n :: n in RequiredNames && IsUnset(env, n)
    ensures r.Failure? ==> r.error.MissingEnvironment? && r.error.names == MissingNames(env)
    ensures r.Failure? ==> forall n :: n in r.error.names <==> n in RequiredNames && IsUnset(env, n)
    ensures r.Success? ==>
      && "MONGODB_URL" in env && r.value.mongodbUrl == env["MONGODB_URL"] != ""
      && "DATA_SOURCE" in env && r.value.dataSource == env["DATA_SOURCE"] != ""
      && "MONGODB_DATABASE" in env && r.value.database == env["MONGODB_DATABASE"] != ""
      && "MONGODB_COLLECTION" in env && r.value.collection == env["MONGODB_COLLECTION"] != ""
      && r.value.caFile == caFile
  {
    var missing := MissingNames(env);
    if |missing| > 0 then
      Failure(MissingEnvironment(missing))
    else
      assert forall n :: n in RequiredNames ==> !IsUnset(env, n);
      assert RequiredNames[0] in RequiredNames && RequiredNames[1] in RequiredNames;
      assert RequiredNames[2] in RequiredNames && RequiredNames[3] in RequiredNames;
      Success(Config(env["MONGODB_URL"], env["DATA_SOURCE"], env["MONGODB_DATABASE"], env["MONGODB_COLLECTION"], caFile))
  }

  /** Reads the unset names back out of the configuration error message. */
  function ParseMissingNames(message: string): seq<string>
    requires |MissingEnvironmentPrefix| <= |message|
  {
    Text.Split(message[|MissingEnvironmentPrefix|..], ", ")
  }

  /** The error message names every unset setting, not only the first, in check
      order: splitting its list at ", " recovers exactly the unset names. */
  lemma MessageListsAllMissing(env: Env, caFile: string)
    requires MissingNames(env) != []
    ensures var e := Validate(env, caFile).error;
      && |MissingEnvironmentPrefix| <= |Message(e)|
      && ParseMissingNames(Message(e)) == MissingNames(env)
  {
    var missing := MissingNames(env);
    var message := Message(MissingEnvironment(missing));
    assert message[|MissingEnvironmentPrefix|..] == Text.Join(missing, ", ");
    forall i | 0 <= i < |missing|
      ensures ',' !in missing[i]
    {
      assert missing[i] in RequiredNames;
      NoCommaInRequired(missing[i]);
    }
    Text.SplitJoin(missing, ", ");
  }

  lemma NoCommaInRequired(n: string)
    requires n in RequiredNames
    ensures ',' !in n
  {
    assert forall i :: 0 <= i < |RequiredNames| ==> ',' !in RequiredNames[i] by {
      assert ',' !in RequiredNames[0];
      assert ',' !in RequiredNames[1];
      assert ',' !in RequiredNames[2];
      assert ',' !in RequiredNames[3];
    }
  }
}
