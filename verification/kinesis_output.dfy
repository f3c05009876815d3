/** The Kinesis output: `register` resolves credentials, and `receive` turns
    each pipeline event into at most one `put_record` call. Template expansion
    (`event.sprintf`), JSON serialisation and Base64 encoding belong to the
    host framework and the standard library, so they enter as parameters. */
module KinesisOutput {
  import opened Wrappers
  import opened CredentialResolution
  import opened CredentialsFile
  import KinesisInput

  /** The settings the output reads. */
  datatype OutputConfig = OutputConfig(stream: string, partitionKey: string, credentials: Option<seq<string>>)

  /** What `receive` is given: the pipeline's shutdown sentinel, or an event. */
  datatype Message<+E> = Shutdown | Event(event: E)

  /** The operations `receive` uses without looking inside them. */
  datatype EventOps<-E> = EventOps(
    outputAllowed: Message<E> -> bool,      // `output?(event)`: the output's tag and type filters
    sprintf: (E, string) -> string,        // `event.sprintf(template)`
    toJson: E -> string,                   // `event.to_json`
    encode64: string -> string)            // `Base64.encode64`

  /** The arguments of one `put_record` call. */
  datatype PutRecordRequest = PutRecordRequest(streamName: string, data: string, partitionKey: string)

  /** What one call of `receive` does. */
  datatype Reaction = Filtered | Finished | Put(request: PutRecordRequest)

  /** `register`: the pair the output's client is built from, or the error
      raised instead, case by case on the `credentials` setting. */
  function Register(config: OutputConfig, env: Environment, readLines: string -> seq<string>)
    : (r: Result<AwsCredentials, CredentialsError>)
    // No setting: both come from the environment.
    ensures config.credentials.None? ==>
      && (r.Success? <==> AccessKeyIdName in env && SecretAccessKeyName in env)
      && (r.Success? ==> r.value == AwsCredentials(env[AccessKeyIdName], env[SecretAccessKeyName]))
      && (r.Failure? ==> r.error == MissingCredentials)
    // A pair: exactly its elements.
    ensures config.credentials.Some? && |config.credentials.value| == 2 ==>
      r == Success(AwsCredentials(config.credentials.value[0], config.credentials.value[1]))
    // A path: the last assignment in the file to each key; a key never assigned is missing.
    ensures config.credentials.Some? && |config.credentials.value| == 1 ==>
      var parsed := ParseLines(readLines(config.credentials.value[0]));
      var id := LastValue(parsed, AccessKeyIdName);
      var secret := LastValue(parsed, SecretAccessKeyName);
      && (r.Success? <==> id.Some? && secret.Some?)
      && (r.Success? ==> r.value == AwsCredentials(id.value, secret.value))
      && (r.Failure? ==> r.error == MissingCredentials)
    // Any other length is malformed.
    ensures r == Failure(MalformedCredentials) <==>
      config.credentials.Some? && |config.credentials.value| != 1 && |config.credentials.value| != 2
  {
    ResolveCredentials(config.credentials, env, readLines)
  }

  /** The two plugins resolve credentials alike: given the same `credentials`
      setting, environment and files, the output registers exactly when the
      input does, with the same pair, and otherwise raises the same error. */
  lemma RegisterAgreesWithInput(config: OutputConfig, input: KinesisInput.InputConfig,
                                env: Environment, readLines: string -> seq<string>)
    requires input.credentials == config.credentials
    ensures var out := Register(config, env, readLines);
      var inp := KinesisInput.Register(input, env, readLines);
      && (out.Success? <==> inp.Success?)
      && (out.Success? ==> out.value == inp.value.credentials)
      && (out.Failure? ==> out.error == inp.error)
  {
  }

  /** The record written for an event: stream and partition key expanded from
      their templates against the event, data the Base64 of its JSON. */
  function RequestFor<E>(config: OutputConfig, ops: EventOps<E>, e: E): PutRecordRequest {
    PutRecordRequest(ops.sprintf(e, config.stream), ops.encode64(ops.toJson(e)), ops.sprintf(e, config.partitionKey))
  }

  /** `receive(event)`: a message the filters reject is dropped before anything
      else, the shutdown sentinel finishes the plugin without a put, and every
      other event makes exactly one put. */
  function Receive<E>(config: OutputConfig, ops: EventOps<E>, m: Message<E>): (r: Reaction)
    ensures r.Filtered? <==> !ops.outputAllowed(m)
    ensures r.Finished? <==> ops.outputAllowed(m) && m.Shutdown?
    ensures r.Put? <==> ops.outputAllowed(m) && m.Event?
    ensures r.Put? ==>
      && r.request.streamName == ops.sprintf(m.event, config.stream)
      && r.request.partitionKey == ops.sprintf(m.event, config.partitionKey)
      && r.request.data == ops.encode64(ops.toJson(m.event))
  {
    if !ops.outputAllowed(m) then Filtered
    else if m.Shutdown? then Finished
    else Put(RequestFor(config, ops, m.event))
  }

  /** The events among `ms` that get past the filters, in order. */
  function Delivered<E>(ops: EventOps<E>, ms: seq<Message<E>>): seq<E>
    decreases |ms|
  {
    if |ms| == 0 then []
    else
      var rest := Delivered(ops, ms[1..]);
      if ops.outputAllowed(ms[0]) && ms[0].Event? then [ms[0].event] + rest else rest
  }

  /** The `put_record` calls made when `receive` is called on each of `ms` in turn. */
  function Puts<E>(config: OutputConfig, ops: EventOps<E>, ms: seq<Message<E>>): (r: seq<PutRecordRequest>)
    ensures |r| == |Delivered(ops, ms)|
    ensures forall i :: 0 <= i < |r| ==> r[i] == RequestFor(config, ops, Delivered(ops, ms)[i])
    decreases |ms|
  {
    if |ms| == 0 then []
    else
      var rest := Puts(config, ops, ms[1..]);
      match Receive(config, ops, ms[0])
      case Put(request) => [request] + rest
      case _ => rest
  }

  /** Across a run of calls, every message makes a put except those the filters
      reject and the shutdown sentinels that get past them. */
  lemma {:induction false} OnePutPerDeliveredEvent<E>(config: OutputConfig, ops: EventOps<E>, ms: seq<Message<E>>)
    ensures |Puts(config, ops, ms)| ==
      |ms| - CountFiltered(ops, ms) - CountShutdowns(ops, ms)
    decreases |ms|
  {
    if |ms| > 0 {
      OnePutPerDeliveredEvent(config, ops, ms[1..]);
    }
  }

  /** How many of `ms` the filters reject. */
  function CountFiltered<E>(ops: EventOps<E>, ms: seq<Message<E>>): nat
    decreases |ms|
  {
    if |ms| == 0 then 0
    else (if ops.outputAllowed(ms[0]) then 0 else 1) + CountFiltered(ops, ms[1..])
  }

  /** How many of `ms` are shutdown sentinels that get past the filters. */
  function CountShutdowns<E>(ops: EventOps<E>, ms: seq<Message<E>>): nat
    decreases |ms|
  {
    if |ms| == 0 then 0
    else (if ops.outputAllowed(ms[0]) && ms[0].Shutdown? then 1 else 0) + CountShutdowns(ops, ms[1..])
  }
}
