# Kinesis input and output plugins — a Dafny model

The repository holds two Logstash plugins for Amazon Kinesis: an input that
reads records from a stream and an output that writes pipeline events to one.
Apart from calls into the AWS SDK and the Logstash framework, their logic is
three decisions, and this project models those and proves what they promise:

- **Credential resolution**, repeated word for word in both plugins'
  `register`. A `credentials` setting of `[id, secret]` is used as given.
  A setting of `[path]` names a `KEY=value` credentials file. With no
  setting, the environment variables `AWS_ACCESS_KEY_ID` and
  `AWS_SECRET_ACCESS_KEY` are used. Any other length raises
  `Credentials must be of the form "/path/to/file" or ["id", "secret"]`.
  If either value is still `nil` at the end, `register` raises
  `Missing AWS credentials`. The file parser skips comment lines and lines
  without `=`. It splits every other line at its first `=` and chomps and
  strips both halves. Only the two known keys are assigned, and the last
  line for a key wins.
- **Shard selection** in the input. An empty `shards` list becomes `:all`;
  any other list is passed on unchanged.
- **Per-event dispatch** in the output's `receive`. There are three cases:
  1. An event the output's filters reject is dropped.
  2. The shutdown sentinel calls `finished`.
  3. Any other event makes exactly one `put_record`. Its stream name and
     partition key are the event's expansions of the two templates. Its data
     is the Base64 encoding of the event's JSON.

Files:

- `wrappers.dfy`: `Option` and `Result`.
- `ruby_strings.dfy`: `String#chomp`, `String#strip` and `String#split(sep, 2)`.
- `credentials_file.dfy`: the line parser, the file scan, and an independent
  "last assignment wins" definition proved equal to the scan.
- `credential_resolution.dfy`: the shared resolver and its two errors.
- `kinesis_input.dfy` and `kinesis_output.dfy`: each plugin's `register`,
  plus `receive` for the output.

Environment access becomes a `map<string, string>` parameter. File reading
becomes a parameter `readLines` that gives the lines of the file at a path.
The output's `output?` filter, `event.sprintf`, `event.to_json` and
`Base64.encode64` become function-valued fields of `EventOps`, and nothing
is assumed about them.

## Model

| member | source | states |
|---|---|---|
| `RubyStrings.Chomp` | lib/logstash/inputs/kinesis.rb:49-50 | exactly one trailing line terminator ("\r\n", "\n" or "\r") is removed when there is one; otherwise the string is unchanged |
| `RubyStrings.ChompRemovesOnlyWhitespace` | lib/logstash/inputs/kinesis.rb:49-50 | everything `chomp` removes is whitespace |
| `RubyStrings.SkipLeading` | lib/logstash/inputs/kinesis.rb:49-50 | `lstrip` starts at the first non-whitespace character: everything before that position is whitespace |
| `RubyStrings.SkipTrailing` | lib/logstash/inputs/kinesis.rb:49-50 | `rstrip` ends just after the last non-whitespace character: everything after that position is whitespace |
| `RubyStrings.Strip` | lib/logstash/inputs/kinesis.rb:49-50 | `strip` never lengthens a string, its result neither starts nor ends with whitespace, and it is empty iff the string is all whitespace |
| `RubyStrings.Trim` | lib/logstash/inputs/kinesis.rb:49-50 | `chomp().strip()` gives the same result as `strip` alone and never lengthens the string |
| `RubyStrings.StripIsWhitespaceFreeInfix` | lib/logstash/inputs/kinesis.rb:49-50 | a stripped string is an infix of the original with only whitespace around it, and it neither starts nor ends with whitespace |
| `RubyStrings.StripOfPadded` | lib/logstash/inputs/kinesis.rb:49-50 | whitespace, then text that neither starts nor ends with whitespace, then whitespace, always strips to exactly that text |
| `RubyStrings.StripIgnoresTrailingWhitespace` | lib/logstash/inputs/kinesis.rb:49-50 | appending whitespace to a string does not change what it strips to |
| `RubyStrings.ChompIsAbsorbedByStrip` | lib/logstash/inputs/kinesis.rb:49-50 | `chomp` followed by `strip` gives the same result as `strip` alone, on every string |
| `RubyStrings.SplitAtFirst` | lib/logstash/inputs/kinesis.rb:48 | the two parts joined by the separator rebuild the line, and the first part contains no separator |
| `RubyStrings.SplitAtFirstOfJoin` | lib/logstash/inputs/kinesis.rb:48 | splitting `before + "=" + after` returns exactly `before` and `after` when `before` has no `=`, so the value may itself contain `=` |
| `CredentialsFile.CommentLineStartsWithHash` | lib/logstash/inputs/kinesis.rb:46 | for a line as `IO#each` yields it (no line feed before its last character), `/^#/` matches iff the line starts with `#` |
| `CredentialsFile.SpacedEqualsMatchesIffSeparator` | lib/logstash/inputs/kinesis.rb:47 | `/\s*=\s*/` matches a line iff the line contains `=`, so the optional whitespace around `=` decides nothing |
| `CredentialsFile.ParseLine` | lib/logstash/inputs/kinesis.rb:46-50 | a line yields an assignment iff it is not a comment and contains `=`; the assignment holds the trimmed text before the first `=` and the trimmed text after it |
| `CredentialsFile.SkippedLinesAssignNothing` | lib/logstash/inputs/kinesis.rb:46-47 | comment lines and lines without `=` assign no key |
| `CredentialsFile.FirstSeparatorSplits` | lib/logstash/inputs/kinesis.rb:48-50 | a non-comment line `KEY=value` with no `=` in KEY assigns the trimmed KEY to the trimmed value, whatever `=` signs the value contains |
| `CredentialsFile.KeyPrecedesEverySeparator` | lib/logstash/inputs/kinesis.rb:48-50 | the key of a line comes from the text before any of its `=` signs, so it is never longer than that text |
| `CredentialsFile.EmptyValueIsPresent` | lib/logstash/inputs/kinesis.rb:48-52 | `KEY=` assigns the empty string, a present value rather than `nil` |
| `CredentialsFile.LastValue` | lib/logstash/inputs/kinesis.rb:51-55 | the value is absent iff no line assigns the key; otherwise it is the value of a line that assigns the key and is followed by no other such line |
| `CredentialsFile.ParseLines` | lib/logstash/inputs/kinesis.rb:45-50 | the lines are parsed one by one, each on its own: the parse of a line depends only on that line |
| `CredentialsFile.Apply` | lib/logstash/inputs/kinesis.rb:51-55 | one line sets `@access_key_id` iff its key is `AWS_ACCESS_KEY_ID`, and `@secret_access_key` iff its key is `AWS_SECRET_ACCESS_KEY`, to the line's value; a field the line does not assign keeps its value |
| `CredentialsFile.ApplyAll` | lib/logstash/inputs/kinesis.rb:45-58 | a key that no line of the file assigns keeps the value it had before the file was read |
| `CredentialsFile.Scan` | lib/logstash/inputs/kinesis.rb:45-58 | reading a file from two unset fields leaves each key at the value of the last line assigning it, and unset iff no line does |
| `CredentialsFile.ApplyAllAppend` | lib/logstash/inputs/kinesis.rb:45-58 | lines are processed in file order: reading `a + b` equals reading `a` and then continuing with `b` |
| `CredentialsFile.ApplyAllFindsLastValue` | lib/logstash/inputs/kinesis.rb:45-58 | after the file loop, each known key holds the value of the last line that assigns it, and it is `nil` iff no line does |
| `CredentialsFile.IgnoredLineChangesNothing` | lib/logstash/inputs/kinesis.rb:46-56 | a line assigning neither key (comment, no `=`, unknown key) can be inserted anywhere without changing the result |
| `CredentialResolution.Gather` | lib/logstash/inputs/kinesis.rb:40-66 | with no setting each value is the environment variable, unset iff it is absent; a 1-element array gives the file's last assignments; a 2-element array gives its elements; the malformed error arises iff the length is neither 1 nor 2 |
| `CredentialResolution.ResolveCredentials` | lib/logstash/inputs/kinesis.rb:40-69 | with no setting, success iff both environment variables exist, and their values are used; a 2-element array gives its elements, whatever the environment and files hold; a 1-element array gives the last file assignments, and success iff both keys are assigned; the malformed error arises iff the array length is neither 1 nor 2 |
| `CredentialResolution.Complete` | lib/logstash/inputs/kinesis.rb:67-68 | success iff no earlier error and both values are non-`nil`; otherwise the earlier error, or the error whose message is exactly "Missing AWS credentials" |
| `CredentialResolution.FileMissingAKeyIsMissingCredentials` | lib/logstash/outputs/kinesis.rb:36-60 | a file in which no line assigns one of the two keys fails with "Missing AWS credentials", even when the environment holds both variables |
| `KinesisInput.SelectShards` | lib/logstash/inputs/kinesis.rb:71-75 | `:all` iff the shard list is empty; otherwise the list unchanged |
| `KinesisInput.ShardSelectionRoundTrip` | lib/logstash/inputs/kinesis.rb:71-75 | the shard setting can be recovered from the selection, so no list is lost or altered |
| `KinesisInput.Register` | lib/logstash/inputs/kinesis.rb:40-84 | succeeds iff credential resolution succeeds, and fails with the same error otherwise; on success the client gets the resolved pair, the stream, and `:all` iff no shards are configured |
| `KinesisOutput.Register` | lib/logstash/outputs/kinesis.rb:31-65 | with no setting, success iff both environment variables exist, with their values; a 2-element array gives its elements; a 1-element array gives the file's last assignments, success iff both keys are assigned and "Missing AWS credentials" otherwise; the malformed error arises iff the length is neither 1 nor 2; the client is built from the resolved pair |
| `KinesisOutput.RegisterAgreesWithInput` | lib/logstash/outputs/kinesis.rb:31-60 | with the same `credentials` setting, environment and files, the output's `register` succeeds iff the input's does, with the same pair, and otherwise raises the same error |
| `KinesisOutput.Receive` | lib/logstash/outputs/kinesis.rb:69-84 | a filtered message does nothing; the shutdown sentinel finishes without a put; any other event makes one put with the expanded stream, the expanded partition key and the Base64 of its JSON |
| `KinesisOutput.Puts` | lib/logstash/outputs/kinesis.rb:69-84 | over a run of `receive` calls, the puts are one per event that passes the filters, in order, each built from its own event |
| `KinesisOutput.OnePutPerDeliveredEvent` | lib/logstash/outputs/kinesis.rb:69-84 | the number of puts equals the number of messages minus the filtered ones and the shutdown sentinels that pass the filters |

## Left out

- Opening the credentials file and its failures (a missing or unreadable
  path raises a Ruby I/O error). `readLines` is total and gives the file's
  lines as `IO#each` yields them.
- Reading `ENV`: it is an input map, and a missing name reads as `nil`.
- The AWS SDK and the client library: `AWS.config`,
  `AWS::Kinesis.new(...).client`, `Kinesis::Client::Stream.new`, the input's
  `run` loop (`decorate`, `queue <<`, `finished`) and the response `put_record`
  returns. `Register` results stand for the arguments handed to these calls.
- `batch` and `sleep`: they are only forwarded to the client, and `sleep` is a float.
- The internals of `output?`, `event.sprintf` (`%{field}` templates),
  `event.to_json` and `Base64.encode64`. They are parameters about which
  nothing is assumed. The effect of `finished` is host-framework state and
  appears only as the `Finished` reaction.
- Logging, `config_name`, `milestone`, `config` declarations, and the host
  framework's threading and shutdown machinery.
- A `credentials` value that is not an array. The framework's `:array`
  validation turns a single string into a one-element array, so the model
  takes `Option<seq<string>>`. The source's "not an Array" path, which
  assigns nothing, cannot occur.
- Credentials-file lines are decoded strings of characters. A line that is
  not valid UTF-8 makes `/^\#/.match(line)` (inputs/kinesis.rb:46,
  outputs/kinesis.rb:37) raise `ArgumentError: invalid byte sequence in UTF-8`;
  that error is not modelled.
- An exception that `put_record` raises (network failure, throttling, a
  missing stream) propagates out of `receive`. `Receive` and `Puts` describe
  the request that is made, not whether the call returns.
- `register` is modelled as running once on a fresh plugin: both instance
  variables start as `nil` before the file branch.
- `RubyStrings.IsWhitespace` uses Ruby's documented whitespace for `strip`:
  NUL, tab, line feed, vertical tab, form feed, carriage return and space.
  NUL is removed at both ends. Some older Ruby releases keep a leading NUL.
  The difference only matters for NUL bytes in a credentials file.
