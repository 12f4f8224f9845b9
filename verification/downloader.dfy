/** The pure decisions of the song downloader (main.py,
    `MusicDownloader`): which fields a song record must carry, how a name is
    made safe for the file system, and which directory name a new song gets
    when earlier downloads already took the plain one. */
module Downloader {
  import opened Wrappers
  import opened PyStr
  import opened Decimal

  // ---------------------------------------------------------------------
  // Required fields (`process_song`)

  /** The keys `process_song` insists on, in the order it checks them. */
  const RequiredFields: seq<string> := ["name", "ar_name", "al_name", "url", "pic", "lyric", "tlyric"]

  /** The first required key missing from a song record with keys `keys`,
      which the source reports through a `KeyError`; `None` when all are
      present. */
  function MissingField(keys: set<string>): (r: Option<string>)
    ensures r.None? <==> forall f :: f in RequiredFields ==> f in keys
    ensures r.Some? ==> r.value in RequiredFields && r.value !in keys
  {
    FirstMissing(RequiredFields, keys)
  }

  function FirstMissing(fields: seq<string>, keys: set<string>): (r: Option<string>)
    ensures r.None? <==> forall f :: f in fields ==> f in keys
    ensures r.Some? ==> r.value in fields && r.value !in keys
  {
    if fields == [] then None
    else if fields[0] !in keys then Some(fields[0])
    else FirstMissing(fields[1..], keys)
  }

  /** The reported key is the first missing one: every key checked before
      it is present. */
  lemma {:induction false} FirstMissingIsFirst(fields: seq<string>, keys: set<string>, i: nat)
    requires i < |fields| && fields[i] !in keys
    requires forall j :: 0 <= j < i ==> fields[j] in keys
    ensures FirstMissing(fields, keys) == Some(fields[i])
  {
    if i > 0 {
      FirstMissingIsFirst(fields[1..], keys, i - 1);
    }
  }

  /** A record without an artist but with a name is reported as missing
      `ar_name`, even when later keys are missing too. */
  lemma MissingArtistExample(keys: set<string>)
    requires "name" in keys && "ar_name" !in keys
    ensures MissingField(keys) == Some("ar_name")
  {
    FirstMissingIsFirst(RequiredFields, keys, 1);
  }

  // ---------------------------------------------------------------------
  // File names (`sanitize_filename`)

  /** The characters `sanitize_filename` replaces by a comma. */
  const InvalidChars: string := "<>:\"/\\|?*"

  /** `s.replace(c, d)` for single characters. */
  function ReplaceChar(s: string, c: char, d: char): string {
    Replace(s, [c], [d])
  }

  /** The loop `for char in invalid_chars: filename = filename.replace(char, ',')`. */
  function ReplaceEach(s: string, chars: string): string
    decreases |chars|
  {
    if chars == [] then s else ReplaceEach(ReplaceChar(s, chars[0], ','), chars[1..])
  }

  /** `sanitize_filename`: an empty name becomes `unknown`; otherwise every
      invalid character becomes a comma and surrounding whitespace goes. */
  function Sanitize(filename: string): (r: string)
    ensures filename == [] ==> r == "unknown"
    ensures IsTrimmed(r)
  {
    if filename == [] then "unknown" else Trim(ReplaceEach(filename, InvalidChars))
  }

  /** The reference reading of the replacement loop: each character in `cs`
      becomes a comma, each other character stays. */
  function Scrub(s: string, cs: set<char>): (r: string)
    ensures |r| == |s|
    ensures forall i :: 0 <= i < |s| ==> r[i] == if s[i] in cs then ',' else s[i]
  {
    if s == [] then [] else [if s[0] in cs then ',' else s[0]] + Scrub(s[1..], cs)
  }

  /** Replacing one character is scrubbing that character. */
  lemma {:induction false} ReplaceCharIsScrub(s: string, c: char, d: char)
    requires d == ','
    ensures ReplaceChar(s, c, d) == Scrub(s, {c})
    decreases |s|
  {
    if s != [] {
      ReplaceCharIsScrub(s[1..], c, d);
      assert StartsWith(s, [c]) <==> s[0] == c by {
        assert s[..1] == [s[0]];
      }
      assert s[1..] == s[|[c]|..];
    }
  }

  /** Scrubbing twice is scrubbing the union. */
  lemma ScrubScrub(s: string, a: set<char>, b: set<char>)
    ensures Scrub(Scrub(s, a), b) == Scrub(s, a + b)
  {
    var l := Scrub(Scrub(s, a), b);
    var r := Scrub(s, a + b);
    assert |l| == |r|;
    forall i | 0 <= i < |s| ensures l[i] == r[i] {
    }
  }

  /** The replacement loop over `chars` scrubs exactly the characters of
      `chars`. */
  lemma {:induction false} ReplaceEachIsScrub(s: string, chars: string)
    ensures ReplaceEach(s, chars) == Scrub(s, set c | c in chars)
    decreases |chars|
  {
    if chars == [] {
      var none := set c | c in chars;
      assert none == {};
      assert Scrub(s, none) == s;
    } else {
      var t := ReplaceChar(s, chars[0], ',');
      ReplaceCharIsScrub(s, chars[0], ',');
      ReplaceEachIsScrub(t, chars[1..]);
      var rest := set c | c in chars[1..];
      ScrubScrub(s, {chars[0]}, rest);
      assert (set c | c in chars) == {chars[0]} + rest by {
        forall x ensures x in chars <==> x == chars[0] || x in chars[1..] {
          assert chars == [chars[0]] + chars[1..];
        }
      }
    }
  }

  /** The same characters as a set. */
  const Invalid: set<char> := {'<', '>', ':', '"', '/', '\\', '|', '?', '*'}

  lemma InvalidCharsAsSet()
    ensures (set c | c in InvalidChars) == Invalid
  {
    var s := set c | c in InvalidChars;
    forall x ensures x in s <==> x in Invalid {
      if x in InvalidChars {
        var k :| 0 <= k < |InvalidChars| && InvalidChars[k] == x;
        assert x in Invalid;
      }
      if x in Invalid {
        assert x in InvalidChars;
      }
    }
  }

  /** No whitespace character and not the comma is invalid. */
  lemma ValidFillers(c: char)
    requires c in Whitespace || c == ','
    ensures c !in Invalid
  {
  }

  /** What `sanitize_filename` means, stated without the loop: on a
      non-empty name, the name with every invalid character turned into a
      comma, stripped. */
  lemma SanitizeMeaning(filename: string)
    requires filename != []
    ensures Sanitize(filename) == Trim(Scrub(filename, Invalid))
  {
    ReplaceEachIsScrub(filename, InvalidChars);
    InvalidCharsAsSet();
  }

  /** A sanitized name holds no invalid character. */
  lemma SanitizedIsSafe(filename: string)
    ensures forall i :: 0 <= i < |Sanitize(filename)| ==> Sanitize(filename)[i] !in Invalid
  {
    if filename != [] {
      SanitizeMeaning(filename);
      ScrubbedTrimIsSafe(filename);
    } else {
      UnknownIsSafe();
    }
  }

  lemma ScrubbedTrimIsSafe(filename: string)
    ensures forall i :: 0 <= i < |Trim(Scrub(filename, Invalid))| ==> Trim(Scrub(filename, Invalid))[i] !in Invalid
  {
    ValidFillers(',');
    StrippedScrubAvoids(filename, Invalid, Whitespace);
  }

  /** Once scrubbed of a set without the comma, no strip brings its
      characters back. */
  lemma StrippedScrubAvoids(s: string, cs: set<char>, ws: set<char>)
    requires ',' !in cs
    ensures forall i :: 0 <= i < |Strip(Scrub(s, cs), ws)| ==> Strip(Scrub(s, cs), ws)[i] !in cs
  {
    var sc := Scrub(s, cs);
    var r := Strip(sc, ws);
    var a := LeadCount(sc, ws);
    forall i | 0 <= i < |r| ensures r[i] !in cs {
      assert r[i] == sc[a + i];
    }
  }

  lemma UnknownIsSafe()
    ensures forall i :: 0 <= i < |"unknown"| ==> "unknown"[i] !in Invalid
  {
    var u := "unknown";
    forall i | 0 <= i < |u| ensures u[i] !in Invalid {
      assert u[i] in "unkow";
    }
  }


  /** A non-empty name of nothing but whitespace sanitizes to the empty
      string, not to `unknown`. */
  lemma BlankNameBecomesEmpty(filename: string)
    requires filename != [] && forall i :: 0 <= i < |filename| ==> filename[i] in Whitespace
    ensures Sanitize(filename) == []
  {
    SanitizeMeaning(filename);
    var sc := Scrub(filename, Invalid);
    forall i | 0 <= i < |sc| ensures sc[i] in Whitespace {
      ValidFillers(filename[i]);
    }
  }

  /** A name with a character that is neither whitespace nor invalid keeps
      a non-empty sanitized form. */
  lemma VisibleNameStaysNonEmpty(filename: string, i: nat)
    requires i < |filename| && filename[i] !in Whitespace
    ensures Sanitize(filename) != []
  {
    SanitizeMeaning(filename);
    var sc := Scrub(filename, Invalid);
    CommaIsNotWhitespace();
    assert sc[i] !in Whitespace;
    NotAllWhitespace(sc, i);
  }

  lemma CommaIsNotWhitespace()
    ensures ',' !in Whitespace
  {
  }

  lemma NotAllWhitespace(s: string, i: nat)
    requires i < |s| && s[i] !in Whitespace
    ensures Trim(s) != []
  {
  }

  /** A name that is already clean and stripped is kept as it is. */
  lemma CleanNameUnchanged(filename: string)
    requires filename != [] && IsTrimmed(filename)
    requires forall i :: 0 <= i < |filename| ==> filename[i] !in Invalid
    ensures Sanitize(filename) == filename
  {
    SanitizeMeaning(filename);
    assert Scrub(filename, Invalid) == filename;
    StripClearEnds(filename, Whitespace);
  }

  /** Sanitizing a non-empty result again changes nothing. */
  lemma SanitizeIdempotent(filename: string)
    requires Sanitize(filename) != []
    ensures Sanitize(Sanitize(filename)) == Sanitize(filename)
  {
    var r := Sanitize(filename);
    SanitizedIsSafe(filename);
    if filename == [] {
      CleanNameUnchanged(r);
    } else {
      SanitizeMeaning(filename);
      assert IsTrimmed(r);
      CleanNameUnchanged(r);
    }
  }

  /** The directory name `process_song` asks for: `"{song}-{artist}"` of the
      sanitized names. */
  function FolderName(song: string, artist: string): (r: string)
    ensures |r| >= 1
    ensures forall i :: 0 <= i < |r| ==> r[i] !in Invalid
  {
    SanitizedIsSafe(song);
    SanitizedIsSafe(artist);
    assert "-"[0] !in Invalid;
    JoinedAvoids(Sanitize(song), "-", Sanitize(artist), Invalid);
    Sanitize(song) + "-" + Sanitize(artist)
  }

  /** Text built from pieces that avoid a set of characters avoids it too. */
  lemma JoinedAvoids(a: string, sep: string, b: string, cs: set<char>)
    requires forall i :: 0 <= i < |a| ==> a[i] !in cs
    requires forall i :: 0 <= i < |b| ==> b[i] !in cs
    requires forall i :: 0 <= i < |sep| ==> sep[i] !in cs
    ensures forall i :: 0 <= i < |a + sep + b| ==> (a + sep + b)[i] !in cs
  {
    var r := a + sep + b;
    forall i | 0 <= i < |r| ensures r[i] !in cs {
      if i < |a| {
        assert r[i] == a[i];
      } else if i < |a| + |sep| {
        assert r[i] == sep[i - |a|];
      } else {
        assert r[i] == b[i - |a| - |sep|];
      }
    }
  }

  // ---------------------------------------------------------------------
  // Unique directory names (`create_unique_directory`)

  /** The `k`-th name tried: the base itself, then `base(1)`, `base(2)`, … */
  function Candidate(base: string, k: nat): (r: string)
    ensures k == 0 <==> r == base
  {
    if k == 0 then base else base + "(" + NatToString(k) + ")"
  }

  /** Different attempts try different names. */
  lemma CandidateInjective(base: string, j: nat, k: nat)
    requires Candidate(base, j) == Candidate(base, k)
    ensures j == k
  {
    if j != 0 && k != 0 {
      var cj := Candidate(base, j);
      var sj := NatToString(j);
      var sk := NatToString(k);
      assert |sj| == |sk|;
      assert cj[|base| + 1..|cj| - 1] == sj;
      assert Candidate(base, k)[|base| + 1..|cj| - 1] == sk;
    }
  }

  /** Names `Candidate(base, 0) … Candidate(base, k - 1)`. */
  ghost function Tried(base: string, k: nat): set<string> {
    if k == 0 then {} else Tried(base, k - 1) + {Candidate(base, k - 1)}
  }

  /** No attempt from `k` on repeats a name tried before it. */
  lemma {:induction false} TriedOnlyEarlier(base: string, k: nat, n: nat)
    requires k <= n
    ensures Candidate(base, n) !in Tried(base, k)
  {
    if k > 0 {
      TriedOnlyEarlier(base, k - 1, n);
      if Candidate(base, k - 1) == Candidate(base, n) {
        CandidateInjective(base, k - 1, n);
      }
    }
  }

  /** `k` attempts try `k` different names. */
  lemma {:induction false} TriedSize(base: string, k: nat)
    ensures |Tried(base, k)| == k
  {
    if k > 0 {
      TriedSize(base, k - 1);
      TriedOnlyEarlier(base, k - 1, k - 1);
    }
  }

  /** The loop of `create_unique_directory` against the set of names that
      already exist: the first candidate not taken, and its attempt number. */
  method UniqueName(taken: set<string>, base: string) returns (name: string, k: nat)
    ensures name == Candidate(base, k) && name !in taken
    ensures forall j :: 0 <= j < k ==> Candidate(base, j) in taken
    ensures k <= |taken|
  {
    name := base;
    k := 0;
    while name in taken
      invariant name == Candidate(base, k)
      invariant forall j :: 0 <= j < k ==> Candidate(base, j) in taken
      invariant Tried(base, k) <= taken
      invariant k <= |taken|
      decreases |taken| - k
    {
      assert Tried(base, k + 1) == Tried(base, k) + {name};
      TriedSize(base, k + 1);
      SubsetSize(Tried(base, k + 1), taken);
      k := k + 1;
      name := Candidate(base, k);
    }
  }

  lemma SubsetSize(a: set<string>, b: set<string>)
    requires a <= b
    ensures |a| <= |b|
  {
    assert b == a + (b - a);
  }

  /** The first free candidate is unique: a name that is free and all of
      whose predecessors are taken is the one `UniqueName` returns. */
  lemma FirstFreeUnique(taken: set<string>, base: string, k1: nat, k2: nat)
    requires Candidate(base, k1) !in taken && Candidate(base, k2) !in taken
    requires forall j :: 0 <= j < k1 ==> Candidate(base, j) in taken
    requires forall j :: 0 <= j < k2 ==> Candidate(base, j) in taken
    ensures k1 == k2
  {
  }
}
