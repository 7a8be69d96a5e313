/** The parts of the JavaScript runtime the front end leans on: nullable
    values, truthiness, thrown errors, and the String built-ins it calls
    (endsWith, includes, lastIndexOf, replace with a string pattern, trim,
    Array.prototype.join, a case-insensitive regular-expression test). */
module JsRuntime {

  /** `T | null` (and an absent optional property). */
  datatype Option<+T> = None | Some(value: T)

  /** A browser `File`; the model only ever reads its name. */
  datatype BrowserFile = BrowserFile(name: string)

  /** What an `await`ed call produced: a value, or something thrown. */
  datatype Thrown = ErrorObject(message: string) | OtherValue
  datatype Outcome<+T> = Resolved(value: T) | Rejected(error: Thrown)

  /** `err instanceof Error ? err.message : "An unknown error occurred."` */
  function ErrorMessage(e: Thrown): string {
    match e
    case ErrorObject(m) => m
    case OtherValue => "An unknown error occurred."
  }

  /** A nullable string is truthy when it is present and non-empty. */
  predicate Truthy(s: Option<string>) {
    s.Some? && s.value != ""
  }

  /** `${s}` in a template literal: null is rendered as the text "null". */
  function Interpolate(s: Option<string>): string {
    match s
    case None => "null"
    case Some(v) => v
  }

  /** `${b}` for a boolean. */
  function BoolText(b: bool): string {
    if b then "true" else "false"
  }

  predicate StartsWith(s: string, prefix: string) {
    |prefix| <= |s| && s[..|prefix|] == prefix
  }

  /** `s.endsWith(suffix)`, case-sensitive. */
  predicate EndsWith(s: string, suffix: string) {
    |suffix| <= |s| && s[|s| - |suffix|..] == suffix
  }

  /** `s.lastIndexOf(c)`: the last index holding `c`, or -1. */
  function LastIndexOf(s: string, c: char): (r: int)
    ensures -1 <= r < |s|
    ensures r >= 0 ==> s[r] == c
    ensures forall i :: r < i < |s| ==> s[i] != c
  {
    if s == [] then -1
    else if s[|s| - 1] == c then |s| - 1
    else LastIndexOf(s[..|s| - 1], c)
  }

  /** `s.replace(from, to)` with a one-character string pattern: only the
      FIRST occurrence is replaced. */
  function ReplaceFirst(s: string, from: char, to: char): (r: string)
    ensures |r| == |s|
  {
    if s == [] then []
    else if s[0] == from then [to] + s[1..]
    else [s[0]] + ReplaceFirst(s[1..], from, to)
  }

  /** `parts.join(sep)`: separators go between parts, never after the last. */
  function Join(parts: seq<string>, sep: string): string {
    if |parts| == 0 then ""
    else if |parts| == 1 then parts[0]
    else parts[0] + sep + Join(parts[1..], sep)
  }

  /** The characters JavaScript's `trim` and the regular-expression class `\s`
      treat as white space (WhiteSpace and LineTerminator of ECMA-262). */
  const Whitespace: set<char> :=
    {'\t', '\n', '\U{B}', '\U{C}', '\r', ' ', '\U{A0}', '\U{1680}',
     '\U{2000}', '\U{2001}', '\U{2002}', '\U{2003}', '\U{2004}', '\U{2005}',
     '\U{2006}', '\U{2007}', '\U{2008}', '\U{2009}', '\U{200A}',
     '\U{2028}', '\U{2029}', '\U{202F}', '\U{205F}', '\U{3000}', '\U{FEFF}'}

  predicate IsWhitespace(c: char) {
    c in Whitespace
  }

  /** Removes leading white space. */
  function TrimStart(s: string): (r: string)
    ensures |r| <= |s| && r == s[|s| - |r|..]
    ensures r != [] ==> !IsWhitespace(r[0])
    ensures forall i :: 0 <= i < |s| - |r| ==> IsWhitespace(s[i])
  {
    if s != [] && IsWhitespace(s[0]) then TrimStart(s[1..]) else s
  }

  /** Removes trailing white space. */
  function TrimEnd(s: string): (r: string)
    ensures |r| <= |s| && r == s[..|r|]
    ensures r != [] ==> !IsWhitespace(r[|r| - 1])
    ensures forall i :: |r| <= i < |s| ==> IsWhitespace(s[i])
  {
    if s != [] && IsWhitespace(s[|s| - 1]) then TrimEnd(s[..|s| - 1]) else s
  }

  /** `s.trim()`: neither end of the result is white space. */
  function Trim(s: string): (r: string)
    ensures r != [] ==> !IsWhitespace(r[0]) && !IsWhitespace(r[|r| - 1])
  {
    var t := TrimStart(s);
    var r := TrimEnd(t);
    assert r != [] ==> r[0] == t[0];
    r
  }

  /** How many characters `trim` removes at the front. */
  function LeadingWhitespace(s: string): (n: nat)
    ensures n <= |s|
  {
    |s| - |TrimStart(s)|
  }

  lemma SliceOfSuffix(s: string, lo: nat, n: nat)
    requires lo + n <= |s|
    ensures s[lo..][..n] == s[lo..lo + n]
  {
  }

  /** Trimming cuts off the two ends and keeps a contiguous piece. */
  lemma TrimIsSlice(s: string)
    ensures LeadingWhitespace(s) + |Trim(s)| <= |s|
    ensures Trim(s) == s[LeadingWhitespace(s)..LeadingWhitespace(s) + |Trim(s)|]
  {
    var t := TrimStart(s);
    var r := TrimEnd(t);
    var lo := LeadingWhitespace(s);
    assert t == s[lo..];
    assert r == t[..|r|];
    SliceOfSuffix(s, lo, |r|);
  }

  /** The case folding of a regular expression with the `i` flag and no `u`
      flag: only ASCII letters have a second case that matches. */
  function FoldCase(c: char): char {
    if 'A' <= c <= 'Z' then (c as int + 32) as char else c
  }

  /** `s` begins with `pat` up to ASCII case (`pat` is given in lower case). */
  predicate StartsWithIgnoringCase(s: string, pat: string) {
    pat == [] || (s != [] && FoldCase(s[0]) == pat[0] && StartsWithIgnoringCase(s[1..], pat[1..]))
  }

  /** `/pat/i.test(s)` for a pattern made only of literal characters. */
  predicate ContainsIgnoringCase(s: string, pat: string)
    decreases |s|
  {
    |pat| <= |s| && (StartsWithIgnoringCase(s, pat) || ContainsIgnoringCase(s[1..], pat))
  }

  /** Position-wise reading of a case-insensitive match at offset `i`. */
  ghost predicate MatchesAt(s: string, i: int, pat: string) {
    0 <= i && i + |pat| <= |s| && forall k :: 0 <= k < |pat| ==> FoldCase(s[i + k]) == pat[k]
  }

  lemma {:induction false} StartsWithIgnoringCaseIff(s: string, pat: string)
    ensures StartsWithIgnoringCase(s, pat) <==> MatchesAt(s, 0, pat)
    decreases |pat|
  {
    if pat != [] && s != [] {
      StartsWithIgnoringCaseIff(s[1..], pat[1..]);
      if MatchesAt(s[1..], 0, pat[1..]) && FoldCase(s[0]) == pat[0] {
        forall k | 0 <= k < |pat| ensures FoldCase(s[k]) == pat[k] {
          if k > 0 { assert s[1..][k - 1] == s[k]; }
        }
      }
      if MatchesAt(s, 0, pat) {
        forall k | 0 <= k < |pat| - 1 ensures FoldCase(s[1..][k]) == pat[1..][k] {
          assert FoldCase(s[k + 1]) == pat[k + 1];
        }
      }
    }
  }

  /** The scanning test agrees with "some offset matches". */
  lemma {:induction false} ContainsIgnoringCaseIff(s: string, pat: string)
    ensures ContainsIgnoringCase(s, pat) <==> exists i :: MatchesAt(s, i, pat)
    decreases |s|
  {
    StartsWithIgnoringCaseIff(s, pat);
    if |pat| <= |s| && s != [] {
      ContainsIgnoringCaseIff(s[1..], pat);
      if ContainsIgnoringCase(s[1..], pat) {
        var i :| MatchesAt(s[1..], i, pat);
        assert MatchesAt(s, i + 1, pat) by {
          forall k | 0 <= k < |pat| ensures FoldCase(s[i + 1 + k]) == pat[k] {
            assert s[1..][i + k] == s[i + 1 + k];
          }
        }
      }
      if exists i :: MatchesAt(s, i, pat) {
        var i :| MatchesAt(s, i, pat);
        if i > 0 {
          assert MatchesAt(s[1..], i - 1, pat) by {
            forall k | 0 <= k < |pat| ensures FoldCase(s[1..][i - 1 + k]) == pat[k] {
              assert s[1..][i - 1 + k] == s[i + k];
            }
          }
        }
      }
    }
  }

  /** A text in which no character folds to the pattern's first character
      does not contain the pattern. */
  lemma {:induction false} MissingFirstCharacter(s: string, pat: string)
    requires pat != [] && forall i :: 0 <= i < |s| ==> FoldCase(s[i]) != pat[0]
    ensures !ContainsIgnoringCase(s, pat)
    decreases |s|
  {
    if s != [] {
      MissingFirstCharacter(s[1..], pat);
    }
  }

  lemma {:induction false} JoinAppend(parts: seq<string>, sep: string, last: string)
    requires parts != []
    ensures Join(parts + [last], sep) == Join(parts, sep) + sep + last
    decreases |parts|
  {
    if |parts| == 1 {
      assert parts + [last] == [parts[0], last];
    } else {
      assert (parts + [last])[1..] == parts[1..] + [last];
      JoinAppend(parts[1..], sep, last);
    }
  }

  /** A join of several parts begins with the first part and a separator and
      ends with the last part: no separator trails. */
  lemma {:induction false} JoinEnds(parts: seq<string>, sep: string)
    requires |parts| >= 2
    ensures StartsWith(Join(parts, sep), parts[0] + sep)
    ensures EndsWith(Join(parts, sep), parts[|parts| - 1])
    decreases |parts|
  {
    if |parts| > 2 {
      JoinEnds(parts[1..], sep);
    }
  }

  /** Without an occurrence of the pattern, `replace` is the identity. */
  lemma {:induction false} ReplaceFirstAbsent(s: string, from: char, to: char)
    requires from !in s
    ensures ReplaceFirst(s, from, to) == s
    decreases |s|
  {
    if s != [] {
      assert from !in s[1..] by {
        assert forall k :: 0 <= k < |s| - 1 ==> s[1..][k] == s[k + 1];
      }
      ReplaceFirstAbsent(s[1..], from, to);
    }
  }

  /** With its first occurrence at index i, `replace` changes exactly that
      character and keeps everything before and after it. */
  lemma {:induction false} ReplaceFirstAt(s: string, from: char, to: char, i: nat)
    requires i < |s| && s[i] == from && from !in s[..i]
    ensures ReplaceFirst(s, from, to) == s[..i] + [to] + s[i + 1..]
    decreases i
  {
    if i > 0 {
      assert s[0] == s[..i][0];
      assert s[1..][..i - 1] == s[1..i];
      ReplaceFirstAt(s[1..], from, to, i - 1);
      assert s[..i] == [s[0]] + s[1..][..i - 1];
    }
  }

  lemma ReplaceFirstSplit(a: string, from: char, to: char, b: string)
    requires from !in a
    ensures ReplaceFirst(a + [from] + b, from, to) == a + [to] + b
  {
    var s := a + [from] + b;
    assert s[..|a|] == a;
    ReplaceFirstAt(s, from, to, |a|);
    assert s[|a| + 1..] == b;
  }
}
