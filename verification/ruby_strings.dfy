/** The three Ruby string operations the credentials-file parser relies on:
    `String#chomp` with no argument, `String#strip`, and `String#split(sep, 2)`
    for a one-character separator. */
module RubyStrings {

  /** Ruby's whitespace for `strip`: NUL, horizontal tab, line feed,
      vertical tab, form feed, carriage return and space. */
  predicate IsWhitespace(c: char) {
    c == ' ' || c == '\t' || c == '\n' || c == '\U{B}' || c == '\U{C}' || c == '\r' || c == '\0'
  }

  predicate AllWhitespace(s: string) {
    forall k :: 0 <= k < |s| ==> IsWhitespace(s[k])
  }

  /** `s.chomp`: removes one trailing line terminator, which is "\r\n", "\n"
      or "\r"; any other string is returned unchanged. */
  function Chomp(s: string): (r: string)
    ensures r <= s
    ensures s == r + s[|r|..]
    ensures s[|r|..] in {"", "\n", "\r", "\r\n"}
    ensures s[|r|..] == "" <==> !(|s| > 0 && (s[|s| - 1] == '\n' || s[|s| - 1] == '\r'))
    ensures s[|r|..] == "\n" ==> !(|r| > 0 && r[|r| - 1] == '\r')
  {
    if |s| >= 2 && s[|s| - 2] == '\r' && s[|s| - 1] == '\n' then
      assert s[|s| - 2..] == "\r\n";
      s[..|s| - 2]
    else if |s| >= 1 && (s[|s| - 1] == '\n' || s[|s| - 1] == '\r') then
      assert s[|s| - 1..] == [s[|s| - 1]];
      s[..|s| - 1]
    else s
  }

  /** The index of the first character at or after `i` that is not whitespace,
      or `|s|` when there is none. */
  function SkipLeading(s: string, i: nat): (n: nat)
    requires i <= |s|
    ensures i <= n <= |s|
    ensures forall k :: i <= k < n ==> IsWhitespace(s[k])
    ensures n < |s| ==> !IsWhitespace(s[n])
    decreases |s| - i
  {
    if i < |s| && IsWhitespace(s[i]) then SkipLeading(s, i + 1) else i
  }

  /** The index just past the last character before `j` that is not whitespace,
      or 0 when there is none. */
  function SkipTrailing(s: string, j: nat): (n: nat)
    requires j <= |s|
    ensures n <= j
    ensures forall k :: n <= k < j ==> IsWhitespace(s[k])
    ensures n > 0 ==> !IsWhitespace(s[n - 1])
    decreases j
  {
    if j > 0 && IsWhitespace(s[j - 1]) then SkipTrailing(s, j - 1) else j
  }

  /** `s.lstrip`: `s` without its leading whitespace. */
  function StripLeft(s: string): string {
    s[SkipLeading(s, 0)..]
  }

  /** `s.rstrip`: `s` without its trailing whitespace. */
  function StripRight(s: string): string {
    s[..SkipTrailing(s, |s|)]
  }

  /** `s.strip`: whitespace removed from both ends. The result neither starts
      nor ends with whitespace, and it is empty exactly when `s` is all
      whitespace. */
  function Strip(s: string): (r: string)
    ensures |r| <= |s|
    ensures IsStripped(r)
    ensures |r| == 0 <==> AllWhitespace(s)
  {
    var i := SkipLeading(s, 0);
    var l := s[i..];
    var e := SkipTrailing(l, |l|);
    assert e > 0 ==> l[0] == s[i];
    assert forall k :: i <= k < |s| ==> s[k] == l[k - i];
    StripRight(StripLeft(s))
  }

  /** `s.chomp.strip`, applied to both halves of a credentials-file line:
      the same as `s.strip`. */
  function Trim(s: string): (r: string)
    ensures |r| <= |s|
    ensures r == Strip(s)
  {
    ChompIsAbsorbedByStrip(s);
    Strip(Chomp(s))
  }

  /** The text a string is made of once whitespace is put around it: empty,
      or starting and ending with a character that is not whitespace. */
  predicate IsStripped(r: string) {
    |r| == 0 || (!IsWhitespace(r[0]) && !IsWhitespace(r[|r| - 1]))
  }

  /** What `strip` returns is the infix of its argument starting at `i`, with
      only whitespace before and after it, and it neither begins nor ends
      with whitespace. */
  lemma StripIsWhitespaceFreeInfix(s: string) returns (i: nat)
    ensures var r := Strip(s);
      && i + |r| <= |s| && s[i..i + |r|] == r
      && (forall k :: 0 <= k < i ==> IsWhitespace(s[k]))
      && (forall k :: i + |r| <= k < |s| ==> IsWhitespace(s[k]))
      && IsStripped(r)
  {
    i := SkipLeading(s, 0);
    var l := s[i..];
    var e := SkipTrailing(l, |l|);
    assert forall k :: i + e <= k < |s| ==> s[k] == l[k - i];
    if e > 0 {
      assert l[0] == s[i];
    }
  }

  /** `strip` is determined by the shape of its argument: whitespace, then
      stripped text `r`, then whitespace, always strips to `r`. */
  lemma StripOfPadded(p: string, r: string, q: string)
    requires AllWhitespace(p) && AllWhitespace(q) && IsStripped(r)
    ensures Strip(p + r + q) == r
  {
    var s := p + r + q;
    var i := SkipLeading(s, 0);
    if |r| == 0 {
      assert i == |s|;
    } else {
      assert s[|p|] == r[0];
      assert i == |p|;
      var l := s[i..];
      assert l == r + q;
      var e := SkipTrailing(l, |l|);
      assert l[|r| - 1] == r[|r| - 1];
      assert e == |r|;
    }
  }

  /** Whitespace appended to a string does not change what it strips to. */
  lemma StripIgnoresTrailingWhitespace(c: string, w: string)
    requires AllWhitespace(w)
    ensures Strip(c + w) == Strip(c)
  {
    var i := StripIsWhitespaceFreeInfix(c);
    var r := Strip(c);
    var p, q := c[..i], c[i + |r|..];
    assert c == p + r + q;
    assert c + w == p + r + (q + w);
    StripOfPadded(p, r, q + w);
  }

  /** `chomp` only removes characters that `strip` would remove anyway, so
      `s.chomp.strip` and `s.strip` agree on every string. */
  lemma ChompIsAbsorbedByStrip(s: string)
    ensures Strip(Chomp(s)) == Strip(s)
  {
    var c := Chomp(s);
    ChompRemovesOnlyWhitespace(s);
    assert s == c + s[|c|..];
    StripIgnoresTrailingWhitespace(c, s[|c|..]);
  }

  /** What `chomp` removes is whitespace. */
  lemma ChompRemovesOnlyWhitespace(s: string)
    ensures AllWhitespace(s[|Chomp(s)|..])
  {
    var w := s[|Chomp(s)|..];
    assert w == "" || w == "\n" || w == "\r" || w == "\r\n";
  }

  /** `s.split(sep, 2)` on a string that contains `sep`: the part before the
      first `sep` and everything after it, which may contain `sep` again. */
  function SplitAtFirst(s: string, sep: char): (r: (string, string))
    requires sep in s
    ensures s == r.0 + [sep] + r.1
    ensures sep !in r.0
  {
    if s[0] == sep then ([], s[1..])
    else
      var (before, after) := SplitAtFirst(s[1..], sep);
      ([s[0]] + before, after)
  }

  /** Splitting undoes joining: a string built as `before`, the separator,
      then `after`, with no separator in `before`, splits back into exactly
      `before` and `after`. */
  lemma {:induction false} SplitAtFirstOfJoin(before: string, after: string, sep: char)
    requires sep !in before
    ensures SplitAtFirst(before + [sep] + after, sep) == (before, after)
    decreases |before|
  {
    var s := before + [sep] + after;
    if |before| > 0 {
      assert s[0] == before[0];
      assert s[1..] == before[1..] + [sep] + after;
      SplitAtFirstOfJoin(before[1..], after, sep);
      assert [before[0]] + before[1..] == before;
    }
  }
}
