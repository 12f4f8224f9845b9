/** The few Python `str` operations the lyric pipeline relies on, written
    over `seq<char>`: `isspace`, `strip`, `split`, `startswith`, the
    substring test `in`, and `replace`. */
module PyStr {

  /** Every character for which Python's `str.isspace()` holds; `strip()`
      with no argument removes exactly these. */
  const Whitespace: set<char> := {
    '\t', '\n', '\U{0B}', '\U{0C}', '\r',
    '\U{1C}', '\U{1D}', '\U{1E}', '\U{1F}', ' ',
    '\U{85}', '\U{A0}', '\U{1680}',
    '\U{2000}', '\U{2001}', '\U{2002}', '\U{2003}', '\U{2004}', '\U{2005}',
    '\U{2006}', '\U{2007}', '\U{2008}', '\U{2009}', '\U{200A}',
    '\U{2028}', '\U{2029}', '\U{202F}', '\U{205F}', '\U{3000}'
  }

  /** Number of leading characters of `s` that belong to `cs`. */
  function LeadCount(s: string, cs: set<char>): (n: nat)
    ensures n <= |s|
    ensures forall i :: 0 <= i < n ==> s[i] in cs
    ensures n == |s| || s[n] !in cs
  {
    if |s| > 0 && s[0] in cs then 1 + LeadCount(s[1..], cs) else 0
  }

  /** Number of trailing characters of `s` that belong to `cs`. */
  function TrailCount(s: string, cs: set<char>): (n: nat)
    ensures n <= |s|
    ensures forall i :: |s| - n <= i < |s| ==> s[i] in cs
    ensures n == |s| || s[|s| - n - 1] !in cs
  {
    if |s| > 0 && s[|s| - 1] in cs then 1 + TrailCount(s[..|s| - 1], cs) else 0
  }

  /** Python's `s.strip(chars)`: drop the longest prefix and the longest
      suffix made of characters in `cs`. */
  function Strip(s: string, cs: set<char>): (r: string)
    ensures LeadCount(s, cs) + |r| <= |s|
    ensures r == s[LeadCount(s, cs)..LeadCount(s, cs) + |r|]
    ensures forall i :: 0 <= i < LeadCount(s, cs) ==> s[i] in cs
    ensures forall i :: LeadCount(s, cs) + |r| <= i < |s| ==> s[i] in cs
    ensures r != [] ==> r[0] !in cs && r[|r| - 1] !in cs
    ensures r == [] <==> forall i :: 0 <= i < |s| ==> s[i] in cs
  {
    var a := LeadCount(s, cs);
    if a == |s| then [] else s[a..|s| - TrailCount(s, cs)]
  }

  /** `s.strip()` with no argument. */
  function Trim(s: string): string {
    Strip(s, Whitespace)
  }

  /** Stripping a string whose ends are already clear changes nothing. */
  lemma StripClearEnds(s: string, cs: set<char>)
    requires s == [] || (s[0] !in cs && s[|s| - 1] !in cs)
    ensures Strip(s, cs) == s
  {
    if s != [] {
      assert LeadCount(s, cs) == 0;
      assert TrailCount(s, cs) == 0;
    }
  }

  /** `strip()` is idempotent. */
  lemma TrimTwice(s: string)
    ensures Trim(Trim(s)) == Trim(s)
  {
    StripClearEnds(Trim(s), Whitespace);
  }

  /** One leading space in front of a trimmed, non-empty string is all
      that `strip()` removes. */
  lemma TrimLeadingSpace(c: string)
    requires c != [] && c[0] !in Whitespace && c[|c| - 1] !in Whitespace
    ensures Trim(" " + c) == c
  {
    var s := " " + c;
    assert s[1..] == c;
    assert LeadCount(s[1..], Whitespace) == 0;
    assert LeadCount(s, Whitespace) == 1;
    assert TrailCount(s, Whitespace) == 0;
  }

  /** Neither end of `s` is whitespace. */
  predicate IsTrimmed(s: string) {
    s == [] || (s[0] !in Whitespace && s[|s| - 1] !in Whitespace)
  }

  /** Index of the first occurrence of `c` in `s` (Python's `s.index(c)`). */
  function IndexOf(s: string, c: char): (i: nat)
    requires c in s
    ensures i < |s| && s[i] == c
    ensures c !in s[..i]
  {
    if s[0] == c then 0 else 1 + IndexOf(s[1..], c)
  }

  /** The first occurrence is the only one with no `c` before it. */
  lemma IndexOfIsFirst(s: string, c: char, j: nat)
    requires j < |s| && s[j] == c && c !in s[..j]
    ensures c in s && IndexOf(s, c) == j
  {
    var i := IndexOf(s, c);
    assert s[i] == c && s[j] == c;
  }

  /** `sep.join(parts)` for a one-character separator. */
  function Join(parts: seq<string>, sep: char): string
    requires |parts| >= 1
  {
    if |parts| == 1 then parts[0] else parts[0] + [sep] + Join(parts[1..], sep)
  }

  /** Python's `s.split(sep)` for a one-character separator: never empty,
      no piece holds the separator, and joining the pieces gives `s` back. */
  function Split(s: string, sep: char): (r: seq<string>)
    ensures |r| >= 1
    ensures forall i :: 0 <= i < |r| ==> sep !in r[i]
    ensures Join(r, sep) == s
    decreases |s|
  {
    if sep !in s then [s]
    else
      var i := IndexOf(s, sep);
      assert s == s[..i] + [sep] + s[i + 1..];
      [s[..i]] + Split(s[i + 1..], sep)
  }

  /** Python's `s.startswith(p)`. */
  predicate StartsWith(s: string, p: string) {
    |p| <= |s| && s[..|p|] == p
  }

  /** Python's `sub in s` for strings. */
  predicate Contains(s: string, sub: string)
    decreases |s|
  {
    StartsWith(s, sub) || (|s| > 0 && Contains(s[1..], sub))
  }

  /** Python's `s.replace(pat, repl)` for a non-empty `pat`: occurrences are
      replaced left to right, and the scan resumes after each replaced one. */
  function Replace(s: string, pat: string, repl: string): (r: string)
    requires |pat| > 0
    ensures !Contains(s, pat) ==> r == s
    decreases |s|
  {
    if |s| == 0 then []
    else if StartsWith(s, pat) then repl + Replace(s[|pat|..], pat, repl)
    else [s[0]] + Replace(s[1..], pat, repl)
  }

  /** A replacement no longer than the pattern never lengthens the text. */
  lemma {:induction false} ReplaceNoLonger(s: string, pat: string, repl: string)
    requires |pat| > 0 && |repl| <= |pat|
    ensures |Replace(s, pat, repl)| <= |s|
    decreases |s|
  {
    if |s| > 0 {
      if StartsWith(s, pat) {
        ReplaceNoLonger(s[|pat|..], pat, repl);
      } else {
        ReplaceNoLonger(s[1..], pat, repl);
      }
    }
  }
}
