/** The credential resolution shared, line for line, by the `register` method
    of the Kinesis input and the Kinesis output: an explicit `[id, secret]`
    pair, a one-element `[path]` naming a credentials file, or, when the
    setting is absent, the process environment. */
module CredentialResolution {
  import opened Wrappers
  import opened CredentialsFile
  import opened RubyStrings

  /** The access key id and secret access key handed to the AWS client. */
  datatype AwsCredentials = AwsCredentials(accessKeyId: string, secretAccessKey: string)

  /** The two `ArgumentError`s `register` can raise. */
  datatype CredentialsError = MalformedCredentials | MissingCredentials

  function ErrorMessage(e: CredentialsError): string {
    match e
    case MalformedCredentials => "Credentials must be of the form \"/path/to/file\" or [\"id\", \"secret\"]"
    case MissingCredentials => "Missing AWS credentials"
  }

  /** The process environment: a name that is absent reads as `nil`. */
  type Environment = map<string, string>

  function EnvLookup(env: Environment, name: string): Option<string> {
    if name in env then Some(env[name]) else None
  }

  /** The two variables after the branch on the `credentials` setting, or the
      error for a setting of the wrong length. `readLines` gives the lines of
      the file at a path. */
  function Gather(credentials: Option<seq<string>>, env: Environment, readLines: string -> seq<string>)
    : (r: Result<Found, CredentialsError>)
    ensures r.Failure? <==> credentials.Some? && |credentials.value| != 1 && |credentials.value| != 2
    ensures r.Failure? ==> r.error == MalformedCredentials
    ensures credentials.None? ==>
      && (r.value.accessKeyId.Some? <==> AccessKeyIdName in env)
      && (r.value.secretAccessKey.Some? <==> SecretAccessKeyName in env)
      && (AccessKeyIdName in env ==> r.value.accessKeyId.value == env[AccessKeyIdName])
      && (SecretAccessKeyName in env ==> r.value.secretAccessKey.value == env[SecretAccessKeyName])
    ensures credentials.Some? && |credentials.value| == 1 ==>
      var parsed := ParseLines(readLines(credentials.value[0]));
      && r.value.accessKeyId == LastValue(parsed, AccessKeyIdName)
      && r.value.secretAccessKey == LastValue(parsed, SecretAccessKeyName)
    ensures credentials.Some? && |credentials.value| == 2 ==>
      r.value == Found(Some(credentials.value[0]), Some(credentials.value[1]))
  {
    match credentials
    case None => Success(Found(EnvLookup(env, AccessKeyIdName), EnvLookup(env, SecretAccessKeyName)))
    case Some(c) =>
      if |c| == 1 then Success(Scan(readLines(c[0])))
      else if |c| == 2 then Success(Found(Some(c[0]), Some(c[1])))
      else Failure(MalformedCredentials)
  }

  /** Credential resolution as `register` performs it: the pair when both
      variables end up non-`nil`, otherwise the error `register` raises. */
  function ResolveCredentials(credentials: Option<seq<string>>, env: Environment, readLines: string -> seq<string>)
    : (r: Result<AwsCredentials, CredentialsError>)
    // No setting: both come from the environment, and no file is read.
    ensures credentials.None? ==>
      && (r.Success? <==> AccessKeyIdName in env && SecretAccessKeyName in env)
      && (r.Success? ==> r.value == AwsCredentials(env[AccessKeyIdName], env[SecretAccessKeyName]))
      && (r.Failure? ==> r.error == MissingCredentials)
    // A pair: its elements, whatever the environment or any file says.
    ensures credentials.Some? && |credentials.value| == 2 ==>
      r == Success(AwsCredentials(credentials.value[0], credentials.value[1]))
    // A path: the last assignment in the file to each key, the environment unused.
    ensures credentials.Some? && |credentials.value| == 1 ==>
      var parsed := ParseLines(readLines(credentials.value[0]));
      var id := LastValue(parsed, AccessKeyIdName);
      var secret := LastValue(parsed, SecretAccessKeyName);
      && (r.Success? <==> id.Some? && secret.Some?)
      && (r.Success? ==> r.value == AwsCredentials(id.value, secret.value))
      && (r.Failure? ==> r.error == MissingCredentials)
    // Any other length, the empty array included, is malformed.
    ensures r == Failure(MalformedCredentials) <==>
      credentials.Some? && |credentials.value| != 1 && |credentials.value| != 2
  {
    Complete(Gather(credentials, env, readLines))
  }

  /** The final `nil` check of `register`, with the message it raises. */
  function Complete(gathered: Result<Found, CredentialsError>): (r: Result<AwsCredentials, CredentialsError>)
    ensures r.Success? <==>
      gathered.Success? && gathered.value.accessKeyId.Some? && gathered.value.secretAccessKey.Some?
    ensures r.Success? ==>
      r.value == AwsCredentials(gathered.value.accessKeyId.value, gathered.value.secretAccessKey.value)
    ensures r.Failure? ==> r.error == if gathered.Failure? then gathered.error else MissingCredentials
    ensures r.Failure? && gathered.Success? ==> ErrorMessage(r.error) == "Missing AWS credentials"
  {
    var found :- gathered;
    if found.accessKeyId.None? || found.secretAccessKey.None? then Failure(MissingCredentials)
    else Success(AwsCredentials(found.accessKeyId.value, found.secretAccessKey.value))
  }

  /** A file in which no line assigns one of the two keys (for instance one
      that sets only the access key id) fails with "Missing AWS credentials",
      even when the environment holds both variables: the environment is no
      fallback for the file. */
  lemma FileMissingAKeyIsMissingCredentials(path: string, env: Environment, readLines: string -> seq<string>)
    requires var lines := readLines(path);
      || (forall i :: 0 <= i < |lines| ==> !Assigns(lines[i], AccessKeyIdName))
      || (forall i :: 0 <= i < |lines| ==> !Assigns(lines[i], SecretAccessKeyName))
    ensures ResolveCredentials(Some([path]), env, readLines) == Failure(MissingCredentials)
  {
    var parsed := ParseLines(readLines(path));
    assert LastValue(parsed, AccessKeyIdName).None? || LastValue(parsed, SecretAccessKeyName).None?;
  }
}
