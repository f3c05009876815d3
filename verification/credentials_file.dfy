/** The `KEY=value` credentials file read by both Kinesis plugins when the
    `credentials` setting holds a single path: each line is classified,
    split and trimmed, and the two recognised keys are assigned, the last
    matching line winning. */
module CredentialsFile {
  import opened Wrappers
  import opened RubyStrings

  const AccessKeyIdName: string := "AWS_ACCESS_KEY_ID"
  const SecretAccessKeyName: string := "AWS_SECRET_ACCESS_KEY"

  /** The pair a non-comment line with an `=` yields, both sides trimmed. */
  datatype Assignment = Assignment(key: string, value: string)

  /** What the scan has assigned so far; `None` is a variable still `nil`. */
  datatype Found = Found(accessKeyId: Option<string>, secretAccessKey: Option<string>)

  const NothingFound: Found := Found(None, None)

  /** The regular expression `^#`: Ruby's `^` matches at the start of the
      string and after every line feed, so a `#` in either place makes the
      line a comment. */
  predicate IsCommentLine(line: string) {
    exists i :: 0 <= i < |line| && StartsLineWithHash(line, i)
  }

  /** Position `i` holds a `#` that begins a line of `s`. */
  predicate StartsLineWithHash(s: string, i: nat)
    requires i < |s|
  {
    s[i] == '#' && (i == 0 || s[i - 1] == '\n')
  }

  /** The line holds an `=`. */
  predicate HasSeparator(line: string) {
    '=' in line
  }

  /** The regular expression `\s*=\s*` finds a match in `line`: some run of
      whitespace directly followed by `=` (the trailing `\s*` may match nothing). */
  predicate SpacedEqualsMatches(line: string) {
    exists i, j :: 0 <= i <= j < |line| && AllWhitespace(line[i..j]) && line[j] == '='
  }

  /** The regular expression `\s*=\s*` matches a line exactly when the line
      holds an `=`. */
  lemma SpacedEqualsMatchesIffSeparator(line: string)
    ensures SpacedEqualsMatches(line) <==> HasSeparator(line)
  {
    if HasSeparator(line) {
      var j :| 0 <= j < |line| && line[j] == '=';
      assert AllWhitespace(line[j..j]);
    }
  }

  /** A line as the file iterator yields it, with a line feed only at its end,
      is a comment exactly when its first character is `#`. */
  lemma CommentLineStartsWithHash(line: string)
    requires forall k :: 0 <= k < |line| - 1 ==> line[k] != '\n'
    ensures IsCommentLine(line) <==> |line| > 0 && line[0] == '#'
  {
    if |line| > 0 && line[0] == '#' {
      assert StartsLineWithHash(line, 0);
    }
  }

  /** The assignment a file line makes, if any: comment lines and lines without
      `=` make none; any other line is split at its first `=`, and both halves
      are chomped and stripped. */
  function ParseLine(line: string): (r: Option<Assignment>)
    ensures r.Some? <==> !IsCommentLine(line) && HasSeparator(line)
    ensures r.Some? ==>
      exists i :: 0 <= i < |line| && line[i] == '=' && '=' !in line[..i]
        && r.value == Assignment(Trim(line[..i]), Trim(line[i + 1..]))
  {
    if IsCommentLine(line) || !HasSeparator(line) then None
    else
      var (param, value) := SplitAtFirst(line, '=');
      var i := |param|;
      assert line[..i] == param && line[i] == '=' && line[i + 1..] == value;
      Some(Assignment(Trim(param), Trim(value)))
  }

  /** The effect of one parsed line on the two variables: an assignment to
      either known key overwrites that variable and leaves the other as it
      was; anything else leaves both. */
  function Apply(found: Found, parsed: Option<Assignment>): (r: Found)
    ensures r.accessKeyId ==
      if AssignsKey(parsed, AccessKeyIdName) then Some(parsed.value.value) else found.accessKeyId
    ensures r.secretAccessKey ==
      if AssignsKey(parsed, SecretAccessKeyName) then Some(parsed.value.value) else found.secretAccessKey
  {
    match parsed
    case None => found
    case Some(a) =>
      if a.key == AccessKeyIdName then found.(accessKeyId := Some(a.value))
      else if a.key == SecretAccessKeyName then found.(secretAccessKey := Some(a.value))
      else found
  }

  /** The parsed lines applied in file order, starting from `found`: the
      file loop, each line parsed as the loop body does. A variable that no
      line assigns keeps the value it had before the loop. */
  function ApplyAll(found: Found, parsed: seq<Option<Assignment>>): (r: Found)
    ensures (forall i :: 0 <= i < |parsed| ==> !AssignsKey(parsed[i], AccessKeyIdName)) ==>
      r.accessKeyId == found.accessKeyId
    ensures (forall i :: 0 <= i < |parsed| ==> !AssignsKey(parsed[i], SecretAccessKeyName)) ==>
      r.secretAccessKey == found.secretAccessKey
    decreases |parsed|
  {
    if |parsed| == 0 then found
    else
      assert forall i :: 1 <= i < |parsed| ==> parsed[1..][i - 1] == parsed[i];
      ApplyAll(Apply(found, parsed[0]), parsed[1..])
  }

  /** The two variables after reading the whole file, both `nil` beforehand:
      each holds the value of the last line assigning its key, or stays
      `nil` when no line does. */
  function Scan(lines: seq<string>): (r: Found)
    ensures r.accessKeyId == LastValue(ParseLines(lines), AccessKeyIdName)
    ensures r.secretAccessKey == LastValue(ParseLines(lines), SecretAccessKeyName)
  {
    ApplyAllFindsLastValue(ParseLines(lines), AccessKeyIdName);
    ApplyAllFindsLastValue(ParseLines(lines), SecretAccessKeyName);
    ApplyAll(NothingFound, ParseLines(lines))
  }

  /** Every line of the file, parsed on its own. */
  function ParseLines(lines: seq<string>): (r: seq<Option<Assignment>>)
    ensures |r| == |lines|
    ensures forall i :: 0 <= i < |lines| ==> r[i] == ParseLine(lines[i])
    decreases |lines|
  {
    if |lines| == 0 then [] else [ParseLine(lines[0])] + ParseLines(lines[1..])
  }

  /** The parsed line is an assignment to `key`. */
  predicate AssignsKey(parsed: Option<Assignment>, key: string) {
    parsed.Some? && parsed.value.key == key
  }

  /** The line assigns the given key. */
  predicate Assigns(line: string, key: string) {
    AssignsKey(ParseLine(line), key)
  }

  /** The value of `key` after the file, defined independently of the scan:
      the value of the last assignment to `key`, or `None` when there is none. */
  function LastValue(parsed: seq<Option<Assignment>>, key: string): (r: Option<string>)
    ensures r.None? <==> forall i :: 0 <= i < |parsed| ==> !AssignsKey(parsed[i], key)
    ensures r.Some? ==>
      exists i :: 0 <= i < |parsed| && AssignsKey(parsed[i], key)
        && parsed[i].value.value == r.value
        && forall j :: i < j < |parsed| ==> !AssignsKey(parsed[j], key)
    decreases |parsed|
  {
    if |parsed| == 0 then None
    else
      var last := parsed[|parsed| - 1];
      var prefix := parsed[..|parsed| - 1];
      if AssignsKey(last, key) then Some(last.value.value)
      else
        var r := LastValue(prefix, key);
        assert forall i | 0 <= i < |prefix| :: prefix[i] == parsed[i];
        r
  }

  /** The field of `found` that `key` names. */
  function Lookup(found: Found, key: string): Option<string>
    requires key == AccessKeyIdName || key == SecretAccessKeyName
  {
    if key == AccessKeyIdName then found.accessKeyId else found.secretAccessKey
  }

  /** Reading `a + b` is reading `a`, then carrying on with `b`. */
  lemma {:induction false} ApplyAllAppend(found: Found, a: seq<Option<Assignment>>, b: seq<Option<Assignment>>)
    ensures ApplyAll(found, a + b) == ApplyAll(ApplyAll(found, a), b)
    decreases |a|
  {
    if |a| == 0 {
      assert a + b == b;
    } else {
      assert (a + b)[1..] == a[1..] + b;
      ApplyAllAppend(Apply(found, a[0]), a[1..], b);
    }
  }

  /** The file loop agrees with the independent definition: for each of the
      two keys, the value found is the one of the last line assigning it, and
      the key stays unset exactly when no line assigns it. */
  lemma {:induction false} ApplyAllFindsLastValue(parsed: seq<Option<Assignment>>, key: string)
    requires key == AccessKeyIdName || key == SecretAccessKeyName
    ensures Lookup(ApplyAll(NothingFound, parsed), key) == LastValue(parsed, key)
    decreases |parsed|
  {
    if |parsed| > 0 {
      var prefix := parsed[..|parsed| - 1];
      var last := parsed[|parsed| - 1];
      assert parsed == prefix + [last];
      ApplyAllAppend(NothingFound, prefix, [last]);
      assert ApplyAll(ApplyAll(NothingFound, prefix), [last]) == Apply(ApplyAll(NothingFound, prefix), last);
      ApplyAllFindsLastValue(prefix, key);
    }
  }

  /** Parsing is line by line, so it distributes over concatenation. */
  lemma {:induction false} ParseLinesAppend(a: seq<string>, b: seq<string>)
    ensures ParseLines(a + b) == ParseLines(a) + ParseLines(b)
    decreases |a|
  {
    if |a| == 0 {
      assert a + b == b;
    } else {
      assert (a + b)[0] == a[0];
      assert (a + b)[1..] == a[1..] + b;
      ParseLinesAppend(a[1..], b);
    }
  }

  /** A line that assigns neither key can be inserted anywhere in the file
      without changing what is read: in particular comment lines, lines
      without `=`, and lines whose key is any other name. */
  lemma IgnoredLineChangesNothing(lines: seq<string>, k: nat, line: string)
    requires k <= |lines|
    requires !Assigns(line, AccessKeyIdName) && !Assigns(line, SecretAccessKeyName)
    ensures Scan(lines[..k] + [line] + lines[k..]) == Scan(lines)
  {
    var a, b := lines[..k], lines[k..];
    assert a + b == lines;
    ParseLinesAppend(a + [line], b);
    ParseLinesAppend(a, [line]);
    ParseLinesAppend(a, b);
    var pa, pb := ParseLines(a), ParseLines(b);
    var pl := ParseLines([line]);
    ApplyAllAppend(NothingFound, pa + pl, pb);
    ApplyAllAppend(NothingFound, pa, pl);
    ApplyAllAppend(NothingFound, pa, pb);
    assert ApplyAll(ApplyAll(NothingFound, pa), pl) == Apply(ApplyAll(NothingFound, pa), ParseLine(line));
  }

  /** Comment lines and lines without `=` assign nothing. */
  lemma SkippedLinesAssignNothing(line: string, key: string)
    requires IsCommentLine(line) || !HasSeparator(line)
    ensures !Assigns(line, key)
  {
  }

  /** A well-formed line `KEY=value` assigns exactly its trimmed key and value,
      and everything after the first `=` belongs to the value, further `=`
      signs included. */
  lemma FirstSeparatorSplits(key: string, value: string)
    requires '=' !in key
    requires !IsCommentLine(key + "=" + value)
    ensures ParseLine(key + "=" + value) == Some(Assignment(Trim(key), Trim(value)))
  {
    var line := key + "=" + value;
    assert line[|key|] == '=';
    SplitAtFirstOfJoin(key, value, '=');
  }

  /** The key of a line comes from the text before any of its `=` signs, so
      it is no longer than that text. */
  lemma KeyPrecedesEverySeparator(line: string, i: nat)
    requires i < |line| && line[i] == '='
    ensures ParseLine(line).Some? ==> |ParseLine(line).value.key| <= i
  {
    if ParseLine(line).Some? {
      var j :| 0 <= j < |line| && line[j] == '=' && '=' !in line[..j]
        && ParseLine(line).value == Assignment(Trim(line[..j]), Trim(line[j + 1..]));
      assert j <= i;
    }
  }

  /** An empty right-hand side (`KEY=`) is a present, empty value. */
  lemma EmptyValueIsPresent(key: string)
    requires '=' !in key && !IsCommentLine(key + "=")
    ensures ParseLine(key + "=") == Some(Assignment(Trim(key), ""))
  {
    assert key + "=" + "" == key + "=";
    FirstSeparatorSplits(key, "");
  }
}
