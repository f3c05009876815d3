/** The `register` step of the Kinesis input: credentials, then the choice of
    shards handed to the stream-reading client. */
module KinesisInput {
  import opened Wrappers
  import opened CredentialResolution

  /** The settings `register` reads. `shards` defaults to the empty list. */
  datatype InputConfig = InputConfig(stream: string, shards: seq<string>, credentials: Option<seq<string>>)

  /** The `shard_ids` argument of the client: the symbol `:all`, or a list of ids. */
  datatype ShardSelection = AllShards | Shards(ids: seq<string>)

  /** What `register` hands to the AWS configuration and the stream client. */
  datatype InputSetup = InputSetup(credentials: AwsCredentials, stream: string, shardIds: ShardSelection)

  /** An empty shard list selects every shard; any other list is passed on as given. */
  function SelectShards(shards: seq<string>): (r: ShardSelection)
    ensures r.AllShards? <==> |shards| == 0
    ensures r.Shards? ==> r.ids == shards && |r.ids| > 0
  {
    if |shards| == 0 then AllShards else Shards(shards)
  }

  /** The list a selection stands for when read back as a setting. */
  function ShardList(selection: ShardSelection): seq<string> {
    match selection
    case AllShards => []
    case Shards(ids) => ids
  }

  /** Selecting shards loses nothing: the setting can be read back from the selection. */
  lemma ShardSelectionRoundTrip(shards: seq<string>)
    ensures ShardList(SelectShards(shards)) == shards
  {
  }

  /** `register`: fails with the credential error when resolution fails (before
      shards are looked at); otherwise configures the client with the resolved
      pair, the stream, and the shard selection. */
  function Register(config: InputConfig, env: Environment, readLines: string -> seq<string>)
    : (r: Result<InputSetup, CredentialsError>)
    ensures var resolved := ResolveCredentials(config.credentials, env, readLines);
      && (r.Success? <==> resolved.Success?)
      && (r.Failure? ==> r.error == resolved.error)
      && (r.Success? ==> r.value.credentials == resolved.value && r.value.stream == config.stream)
    ensures r.Success? ==>
      && (r.value.shardIds.AllShards? <==> |config.shards| == 0)
      && ShardList(r.value.shardIds) == config.shards
  {
    var credentials :- ResolveCredentials(config.credentials, env, readLines);
    Success(InputSetup(credentials, config.stream, SelectShards(config.shards)))
  }
}
