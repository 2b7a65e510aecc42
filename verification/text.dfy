/** The few pieces of Rust's `str` API that the library's serialisers and
    solution parsers rely on, written over `string` (a sequence of chars).
 */
module Text {

  /** Rust's `char::is_whitespace`: the Unicode White_Space property. */
  predicate IsWhitespace(c: char) {
    c == ' ' || c == '\t' || c == '\n' || c == '\U{000B}' || c == '\U{000C}' || c == '\r'
    || c == '\U{0085}' || c == '\U{00A0}' || c == '\U{1680}' || ('\U{2000}' <= c <= '\U{200A}')
    || c == '\U{2028}' || c == '\U{2029}' || c == '\U{202F}' || c == '\U{205F}' || c == '\U{3000}'
  }

  /** A non-empty run of non-whitespace characters: one item of `split_whitespace`. */
  predicate IsToken(s: string) {
    |s| > 0 && forall i :: 0 <= i < |s| ==> !IsWhitespace(s[i])
  }

  /** Length of the leading run of non-whitespace characters of `s`. */
  function TokenLength(s: string): (n: nat)
    ensures n <= |s|
    ensures forall i :: 0 <= i < n ==> !IsWhitespace(s[i])
    ensures n == |s| || IsWhitespace(s[n])
  {
    if |s| == 0 || IsWhitespace(s[0]) then 0 else 1 + TokenLength(s[1..])
  }

  /** Rust's `str::split_whitespace`, collected into a vector. */
  function SplitWhitespace(s: string): (r: seq<string>)
    ensures forall k :: 0 <= k < |r| ==> IsToken(r[k])
    decreases |s|
  {
    if |s| == 0 then []
    else if IsWhitespace(s[0]) then SplitWhitespace(s[1..])
    else
      var n := TokenLength(s);
      [s[..n]] + SplitWhitespace(s[n..])
  }

  /** The tokens separated by single spaces. */
  function JoinWithSpaces(tokens: seq<string>): string {
    if |tokens| == 0 then ""
    else if |tokens| == 1 then tokens[0]
    else tokens[0] + " " + JoinWithSpaces(tokens[1..])
  }

  /** Concatenation of a sequence of strings. */
  function Concat(parts: seq<string>): string {
    if |parts| == 0 then "" else parts[0] + Concat(parts[1..])
  }

  lemma {:induction false} ConcatAppend(a: seq<string>, b: seq<string>)
    ensures Concat(a + b) == Concat(a) + Concat(b)
  {
    if |a| == 0 {
      assert a + b == b;
    } else {
      assert (a + b)[1..] == a[1..] + b;
      ConcatAppend(a[1..], b);
    }
  }

  /** A token followed by whitespace (or nothing) splits off as exactly that token. */
  lemma {:induction false} SplitAfterToken(t: string, rest: string)
    requires IsToken(t)
    requires |rest| == 0 || IsWhitespace(rest[0])
    ensures SplitWhitespace(t + rest) == [t] + SplitWhitespace(rest)
  {
    var s := t + rest;
    TokenLengthOfToken(t, rest);
    assert s[..|t|] == t;
    assert s[|t|..] == rest;
  }

  lemma {:induction false} TokenLengthOfToken(t: string, rest: string)
    requires IsToken(t)
    requires |rest| == 0 || IsWhitespace(rest[0])
    ensures TokenLength(t + rest) == |t|
    decreases |t|
  {
    var s := t + rest;
    assert s[0] == t[0];
    if |t| > 1 {
      assert s[1..] == t[1..] + rest;
      TokenLengthOfToken(t[1..], rest);
    } else {
      assert s[1..] == rest;
    }
  }

  /** Splitting tokens joined by single spaces gives the tokens back. */
  lemma {:induction false} SplitJoinWithSpaces(tokens: seq<string>)
    requires forall k :: 0 <= k < |tokens| ==> IsToken(tokens[k])
    ensures SplitWhitespace(JoinWithSpaces(tokens)) == tokens
    decreases |tokens|
  {
    if |tokens| == 1 {
      SplitAfterToken(tokens[0], "");
      assert tokens[0] + "" == tokens[0];
    } else if |tokens| > 1 {
      var rest := JoinWithSpaces(tokens[1..]);
      SplitJoinWithSpaces(tokens[1..]);
      assert tokens[0] + " " + rest == tokens[0] + (" " + rest);
      SplitAfterToken(tokens[0], " " + rest);
      assert (" " + rest)[1..] == rest;
      assert tokens == [tokens[0]] + tokens[1..];
    }
  }

  /** No string is listed twice. */
  predicate NoRepeats(names: seq<string>) {
    forall i, j :: 0 <= i < j < |names| ==> names[i] != names[j]
  }

  /** `names` is an iteration order of the map: each key exactly once. */
  predicate ListsKeys<V>(names: seq<string>, m: map<string, V>) {
    NoRepeats(names) && (forall k :: 0 <= k < |names| ==> names[k] in m) && (forall n :: n in m ==> n in names)
  }

  /** Rust's `str::starts_with`. */
  predicate StartsWith(s: string, p: string) {
    |p| <= |s| && s[..|p|] == p
  }

  /** Rust's `str::contains` for a string pattern. */
  predicate Contains(s: string, p: string)
    decreases |s|
  {
    StartsWith(s, p) || (|s| > 0 && Contains(s[1..], p))
  }

  /** Where a contained pattern occurs. */
  lemma {:induction false} ContainsAt(s: string, p: string) returns (k: nat)
    requires Contains(s, p)
    ensures k + |p| <= |s| && s[k..k + |p|] == p
    decreases |s|
  {
    if StartsWith(s, p) {
      k := 0;
    } else {
      var j := ContainsAt(s[1..], p);
      assert s[1..][j..j + |p|] == s[j + 1..j + 1 + |p|];
      k := j + 1;
    }
  }

  /** A pattern contained in a suffix is contained in the whole. */
  lemma {:induction false} ContainsInSuffix(s: string, p: string, k: nat)
    requires k <= |s| && Contains(s[k..], p)
    ensures Contains(s, p)
    decreases k
  {
    if k > 0 {
      assert s[1..][k - 1..] == s[k..];
      ContainsInSuffix(s[1..], p, k - 1);
    }
  }

  lemma {:induction false} ShortNeverContains(s: string, p: string)
    requires |s| < |p|
    ensures !Contains(s, p)
    decreases |s|
  {
    if |s| > 0 {
      ShortNeverContains(s[1..], p);
    }
  }

  /** Rust's `str::replace`: every non-overlapping occurrence of `pat`, found
      scanning left to right, becomes `rep`. */
  function Replace(s: string, pat: string, rep: string): (r: string)
    requires |pat| > 0
    ensures |rep| <= |pat| ==> |r| <= |s|
    ensures !Contains(s, pat) ==> r == s
    ensures |rep| < |pat| && Contains(s, pat) ==> |r| < |s|
    decreases |s|
  {
    if |s| < |pat| then
      ShortNeverContains(s, pat);
      s
    else if s[..|pat|] == pat then
      rep + Replace(s[|pat|..], pat, rep)
    else
      [s[0]] + Replace(s[1..], pat, rep)
  }

  /** Rust's `s.split(" ").next()`: the text before the first space. */
  function UntilSpace(s: string): (r: string)
    ensures StartsWith(s, r)
    ensures ' ' !in r
    ensures |r| == |s| || s[|r|] == ' '
  {
    if |s| == 0 || s[0] == ' ' then "" else [s[0]] + UntilSpace(s[1..])
  }

  predicate IsDigit(c: char) {
    '0' <= c <= '9'
  }

  function DigitChar(d: nat): (c: char)
    requires d < 10
    ensures IsDigit(c)
  {
    "0123456789"[d]
  }

  function DigitValue(c: char): (d: nat)
    requires IsDigit(c)
    ensures d < 10
  {
    (c as int) - ('0' as int)
  }

  /** Rust's `Display` for an unsigned integer: its decimal digits. */
  function NatToString(n: nat): (r: string)
    ensures |r| > 0
    ensures forall i :: 0 <= i < |r| ==> IsDigit(r[i])
  {
    if n < 10 then [DigitChar(n)] else NatToString(n / 10) + [DigitChar(n % 10)]
  }

  /** The value of a string of decimal digits. */
  function DigitsValue(s: string): nat
    requires forall i :: 0 <= i < |s| ==> IsDigit(s[i])
  {
    if |s| == 0 then 0 else DigitsValue(s[..|s| - 1]) * 10 + DigitValue(s[|s| - 1])
  }

  /** The decimal rendering of `n` reads back as `n`. */
  lemma {:induction false} NatToStringRoundTrip(n: nat)
    ensures DigitsValue(NatToString(n)) == n
  {
    var r := NatToString(n);
    if n >= 10 {
      NatToStringRoundTrip(n / 10);
      assert r[..|r| - 1] == NatToString(n / 10);
    }
  }

  lemma DigitsAreToken(s: string)
    requires |s| > 0
    requires forall i :: 0 <= i < |s| ==> IsDigit(s[i])
    ensures IsToken(s)
  {
  }
}
