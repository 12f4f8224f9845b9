/** `LRCParser.parse_lrc_content`: a lyric document to its time-ordered
    entries. Time tags are the matches of `\[(\d+:\d+\.\d+)\]`, found left
    to right without overlap. */
module LrcParser {
  import opened Wrappers
  import opened PyStr
  import opened Decimal
  import opened Timecode
  import opened Entries

  /** The text a time tag captures, `\d+:\d+\.\d+` with ASCII digits. */
  predicate IsTagBody(b: string) {
    BodyFrom(b, Minutes, false)
  }

  /** The three digit runs of a tag body. */
  datatype Field = Minutes | Seconds | Fraction

  /** The rest `s` of a tag body is accepted when the scan is in `field`
      and has (`seen`) or has not yet read a digit of it. */
  predicate BodyFrom(s: string, field: Field, seen: bool)
    decreases |s|
  {
    if s == [] then field == Fraction && seen
    else if IsDigit(s[0]) then BodyFrom(s[1..], field, true)
    else if field == Minutes && s[0] == ':' then seen && BodyFrom(s[1..], Seconds, false)
    else if field == Seconds && s[0] == '.' then seen && BodyFrom(s[1..], Fraction, false)
    else false
  }

  lemma {:induction false} DigitsPass(d: string, rest: string, field: Field, seen: bool)
    requires AllDigits(d)
    ensures BodyFrom(d + rest, field, seen) == BodyFrom(rest, field, seen || d != [])
    decreases |d|
  {
    if d != [] {
      assert (d + rest)[1..] == d[1..] + rest;
      DigitsPass(d[1..], rest, field, true);
    } else {
      assert d + rest == rest;
    }
  }

  /** Every digit triple spells a tag body. */
  lemma DigitsMakeTagBody(m: string, s: string, f: string)
    requires m != [] && s != [] && f != []
    requires AllDigits(m) && AllDigits(s) && AllDigits(f)
    ensures IsTagBody(m + ":" + s + "." + f)
  {
    var afterM := [':'] + (s + ['.'] + f);
    assert m + ":" + s + "." + f == m + afterM;
    DigitsPass(m, afterM, Minutes, false);
    assert afterM[1..] == s + (['.'] + f);
    DigitsPass(s, ['.'] + f, Seconds, false);
    assert (['.'] + f)[1..] == f;
    DigitsPass(f, [], Fraction, false);
    assert f + [] == f;
  }

  lemma {:induction false} FractionAccepted(s: string, seen: bool)
    requires BodyFrom(s, Fraction, seen)
    ensures AllDigits(s) && (seen || s != [])
    decreases |s|
  {
    if s != [] {
      FractionAccepted(s[1..], true);
    }
  }

  lemma {:induction false} SecondsAccepted(s: string, seen: bool)
    requires BodyFrom(s, Seconds, seen)
    ensures '.' in s
    ensures AllDigits(s[..IndexOf(s, '.')]) && (seen || IndexOf(s, '.') > 0)
    ensures BodyFrom(s[IndexOf(s, '.') + 1..], Fraction, false)
    decreases |s|
  {
    if IsDigit(s[0]) {
      SecondsAccepted(s[1..], true);
      assert s[..IndexOf(s, '.')] == [s[0]] + s[1..][..IndexOf(s[1..], '.')];
    }
  }

  lemma {:induction false} MinutesAccepted(s: string, seen: bool)
    requires BodyFrom(s, Minutes, seen)
    ensures ':' in s
    ensures AllDigits(s[..IndexOf(s, ':')]) && (seen || IndexOf(s, ':') > 0)
    ensures BodyFrom(s[IndexOf(s, ':') + 1..], Seconds, false)
    decreases |s|
  {
    if IsDigit(s[0]) {
      MinutesAccepted(s[1..], true);
      assert s[..IndexOf(s, ':')] == [s[0]] + s[1..][..IndexOf(s[1..], ':')];
    }
  }

  /** A tag body holds only digits, `':'` and `'.'`. */
  lemma {:induction false} BodyChars(s: string, field: Field, seen: bool)
    requires BodyFrom(s, field, seen)
    ensures forall i :: 0 <= i < |s| ==> IsDigit(s[i]) || s[i] == ':' || s[i] == '.'
    decreases |s|
  {
    if s != [] {
      if IsDigit(s[0]) {
        BodyChars(s[1..], field, true);
      } else if field == Minutes {
        BodyChars(s[1..], Seconds, false);
      } else {
        BodyChars(s[1..], Fraction, false);
      }
      assert forall i :: 1 <= i < |s| ==> s[i] == s[1..][i - 1];
    }
  }

  lemma SplitAround(s: string, i: nat)
    requires i < |s|
    ensures s == s[..i] + [s[i]] + s[i + 1..]
  {
  }

  /** ... and every tag body is a digit triple, so it always decodes. */
  lemma TagBodyParses(b: string)
    requires IsTagBody(b)
    ensures ParseTime(b).Ok?
  {
    var m, s, f := TagBodyFields(b);
    ParseDigitFields(b, m, s, f);
  }

  /** The three digit runs of a tag body. */
  lemma TagBodyFields(b: string) returns (m: string, s: string, f: string)
    requires IsTagBody(b)
    ensures b == m + ":" + s + "." + f
    ensures m != [] && s != [] && f != []
    ensures AllDigits(m) && AllDigits(s) && AllDigits(f)
  {
    MinutesAccepted(b, false);
    var i := IndexOf(b, ':');
    var rest := b[i + 1..];
    m := b[..i];
    s, f := SecondsFields(rest);
    SplitAround(b, i);
    JoinFields(b, m, rest, s, f);
  }

  /** The seconds and fraction runs after the colon of a tag body. */
  lemma SecondsFields(rest: string) returns (s: string, f: string)
    requires BodyFrom(rest, Seconds, false)
    ensures rest == s + "." + f
    ensures s != [] && f != [] && AllDigits(s) && AllDigits(f)
  {
    SecondsAccepted(rest, false);
    var j := IndexOf(rest, '.');
    FractionAccepted(rest[j + 1..], false);
    s, f := rest[..j], rest[j + 1..];
    SplitAround(rest, j);
  }

  lemma JoinFields(b: string, m: string, rest: string, s: string, f: string)
    requires b == m + [':'] + rest && rest == s + "." + f
    ensures b == m + ":" + s + "." + f
  {
  }

  lemma TagBodyHasNoBrackets(b: string)
    requires IsTagBody(b)
    ensures ']' !in b && '[' !in b && '\n' !in b
  {
    BodyChars(b, Minutes, false);
  }

  /** The length of the time tag at the very start of `s`, if one starts
      there; it runs to the first `']'`. */
  function TagEnd(s: string): (r: Option<nat>)
    ensures r.Some? ==> 2 <= r.value <= |s| && s[0] == '[' && s[r.value - 1] == ']'
                        && IsTagBody(s[1..r.value - 1])
  {
    if |s| > 0 && s[0] == '[' && ']' in s then
      var k := IndexOf(s, ']');
      if IsTagBody(s[1..k]) then Some(k + 1) else None
    else None
  }

  /** A tag body between brackets at the start of `s` is always recognised. */
  lemma TagEndFinds(b: string, tail: string)
    requires IsTagBody(b)
    ensures TagEnd("[" + b + "]" + tail) == Some(|b| + 2)
  {
    TagBodyHasNoBrackets(b);
    var s := "[" + b + "]" + tail;
    assert s == ("[" + b) + [']'] + tail;
    FirstIndexAfter("[" + b, ']', tail);
    assert s[1..|b| + 1] == b;
  }

  /** One step of the scan: a recognised tag, or a single character that
      starts none. */
  datatype Piece = Text(c: char) | Tag(body: string)

  function PieceText(p: Piece): string {
    match p
    case Text(c) => [c]
    case Tag(b) => "[" + b + "]"
  }

  function Flatten(ps: seq<Piece>): string {
    if ps == [] then [] else PieceText(ps[0]) + Flatten(ps[1..])
  }

  /** The leftmost, non-overlapping scan that both `re.findall` and
      `re.sub` perform. Nothing is lost: the pieces spell `s` again. */
  function Tokenize(s: string): (r: seq<Piece>)
    ensures Flatten(r) == s
    ensures forall i :: 0 <= i < |r| && r[i].Tag? ==> IsTagBody(r[i].body)
    decreases |s|
  {
    if s == [] then []
    else
      match TagEnd(s)
      case Some(k) =>
        TagSpelling(s, k);
        [Tag(s[1..k - 1])] + Tokenize(s[k..])
      case None =>
        assert s == [s[0]] + s[1..];
        [Text(s[0])] + Tokenize(s[1..])
  }

  lemma TagSpelling(s: string, k: nat)
    requires 2 <= k <= |s| && s[0] == '[' && s[k - 1] == ']'
    ensures s == "[" + s[1..k - 1] + "]" + s[k..]
  {
  }

  function TagBodies(ps: seq<Piece>): seq<string> {
    if ps == [] then []
    else (if ps[0].Tag? then [ps[0].body] else []) + TagBodies(ps[1..])
  }

  function TextChars(ps: seq<Piece>): string {
    if ps == [] then []
    else (if ps[0].Text? then [ps[0].c] else []) + TextChars(ps[1..])
  }

  /** `re.findall(r'\[(\d+:\d+\.\d+)\]', line)`: the captured bodies. */
  function FindTags(line: string): (r: seq<string>)
    ensures forall i :: 0 <= i < |r| ==> IsTagBody(r[i])
  {
    var ps := Tokenize(line);
    TagBodiesAreTags(ps);
    TagBodies(ps)
  }

  lemma {:induction false} TagBodiesAreTags(ps: seq<Piece>)
    requires forall i :: 0 <= i < |ps| && ps[i].Tag? ==> IsTagBody(ps[i].body)
    ensures forall i :: 0 <= i < |TagBodies(ps)| ==> IsTagBody(TagBodies(ps)[i])
  {
    if ps != [] {
      TagBodiesAreTags(ps[1..]);
    }
  }

  /** `re.sub(r'\[(\d+:\d+\.\d+)\]', '', line)`: the line without its tags. */
  function RemoveTags(line: string): string {
    TextChars(Tokenize(line))
  }

  /** The time a tag body denotes; tag bodies always decode. */
  function TagTime(b: string): nat
    requires IsTagBody(b)
  {
    TagBodyParses(b);
    ParseTime(b).value
  }

  /** One entry per tag that decodes, all sharing `content`; a tag that does
      not decode is skipped (after a diagnostic in the source). */
  function EntriesFor(tags: seq<string>, content: string): (r: seq<Entry>)
    ensures |r| <= |tags|
    ensures forall i :: 0 <= i < |r| ==> r[i].content == content
  {
    if tags == [] then []
    else
      (match ParseTime(tags[0])
       case Ok(t) => [Entry(t, content)]
       case Err(_) => [])
      + EntriesFor(tags[1..], content)
  }

  /** When every tag decodes, nothing is skipped: the `k`th entry carries
      the `k`th tag's time. */
  lemma {:induction false} EntriesForTags(tags: seq<string>, content: string)
    requires forall i :: 0 <= i < |tags| ==> IsTagBody(tags[i])
    ensures |EntriesFor(tags, content)| == |tags|
    ensures forall i :: 0 <= i < |tags| ==>
              EntriesFor(tags, content)[i] == Entry(TagTime(tags[i]), content)
  {
    if tags != [] {
      TagBodyParses(tags[0]);
      EntriesForTags(tags[1..], content);
    }
  }

  /** What every parsed entry's text satisfies: something is left once the
      tags are removed, and it is trimmed. */
  predicate IsDisplayEntry(e: Entry) {
    e.content != [] && IsTrimmed(e.content)
  }

  /** The entries one physical line contributes. */
  function LineEntries(raw: string): (r: seq<Entry>)
    ensures forall e :: e in r ==> IsDisplayEntry(e)
    ensures forall i :: 0 <= i < |r| ==> r[i].content == Trim(RemoveTags(Trim(raw)))
    ensures FindTags(Trim(raw)) == [] ==> r == []
    ensures Trim(RemoveTags(Trim(raw))) == [] ==> r == []
    ensures |r| <= |FindTags(Trim(raw))|
  {
    var line := Trim(raw);
    if line == [] then []
    else
      var tags := FindTags(line);
      if tags == [] then []
      else
        var content := Trim(RemoveTags(line));
        if content == [] then [] else EntriesFor(tags, content)
  }

  /** A line with `k` tags and some text yields `k` entries, in tag order,
      all carrying the same trimmed text. */
  lemma MultiTagLine(raw: string)
    requires Trim(RemoveTags(Trim(raw))) != []
    ensures |LineEntries(raw)| == |FindTags(Trim(raw))|
    ensures forall i :: 0 <= i < |LineEntries(raw)| ==>
              LineEntries(raw)[i]
              == Entry(TagTime(FindTags(Trim(raw))[i]), Trim(RemoveTags(Trim(raw))))
  {
    EntriesForTags(FindTags(Trim(raw)), Trim(RemoveTags(Trim(raw))));
  }

  /** The entries of all lines, line after line. */
  function CollectEntries(lines: seq<string>): (r: seq<Entry>)
    ensures forall e :: e in r ==> IsDisplayEntry(e)
  {
    if lines == [] then [] else LineEntries(lines[0]) + CollectEntries(lines[1..])
  }

  /** The entries in the order the source appends them, before sorting. */
  function Unsorted(text: string): seq<Entry> {
    if text == [] || Trim(text) == [] then []
    else CollectEntries(Split(Trim(text), '\n'))
  }

  /** `parse_lrc_content`. */
  function ParseLrc(text: string): (r: seq<Entry>)
    ensures SortedByTime(r)
    ensures IsStableSortOf(r, Unsorted(text))
    ensures forall e :: e in r ==> IsDisplayEntry(e)
    ensures Trim(text) == [] ==> r == []
  {
    var xs := Unsorted(text);
    SortByTimeIsStable(xs);
    var r := SortByTime(xs);
    assert forall e :: e in r ==> e in multiset(xs);
    r
  }
}

module LrcParserFacts {
  import opened Wrappers
  import opened PyStr
  import opened Decimal
  import opened Timecode
  import opened Entries
  import opened LrcParser

  /** Text without tags is kept whole by `re.sub`. */
  lemma {:induction false} NoTagsKeepText(c: string)
    ensures FindTags(c) == [] ==> RemoveTags(c) == c
    decreases |c|
  {
    if c != [] {
      match TagEnd(c)
      case Some(k) =>
      case None =>
        NoTagsKeepText(c[1..]);
    }
  }

  /** A tag body holds both separators, so `00:01` (no fraction) is not a
      tag and a line stamped `[00:01]` contributes nothing. */
  lemma TagBodyNeedsBothSeparators(b: string)
    requires IsTagBody(b)
    ensures ':' in b && '.' in b
  {
    BodyHasSeparators(b, Minutes, false);
  }

  lemma {:induction false} BodyHasSeparators(s: string, field: Field, seen: bool)
    requires BodyFrom(s, field, seen)
    ensures field == Minutes ==> ':' in s
    ensures field != Fraction ==> '.' in s
    decreases |s|
  {
    if s != [] {
      if IsDigit(s[0]) {
        BodyHasSeparators(s[1..], field, true);
      } else if field == Minutes && s[0] == ':' {
        BodyHasSeparators(s[1..], Seconds, false);
      } else if field == Seconds && s[0] == '.' {
      }
      assert s == [s[0]] + s[1..];
    }
  }

  /** Text with no `'['` holds no tag. */
  lemma {:induction false} NoBracketNoTags(c: string)
    requires '[' !in c
    ensures FindTags(c) == [] && RemoveTags(c) == c
    decreases |c|
  {
    if c != [] {
      assert TagEnd(c) == None;
      assert '[' !in c[1..];
      NoBracketNoTags(c[1..]);
    }
  }

  /** Tags written one after another, `[b1][b2]...`. */
  function TagPrefix(bs: seq<string>): string {
    if bs == [] then [] else "[" + bs[0] + "]" + TagPrefix(bs[1..])
  }

  /** A run of tags followed by tag-free text: the scan finds exactly those
      tags, and removing them leaves exactly the text. */
  lemma {:induction false} ScanTaggedText(bs: seq<string>, c: string)
    requires forall i :: 0 <= i < |bs| ==> IsTagBody(bs[i])
    requires FindTags(c) == []
    ensures FindTags(TagPrefix(bs) + c) == bs
    ensures RemoveTags(TagPrefix(bs) + c) == RemoveTags(c)
  {
    if bs != [] {
      var tail := TagPrefix(bs[1..]) + c;
      var line := TagPrefix(bs) + c;
      TagPrefixCons(bs, c);
      ScanStep(line, bs[0], tail);
      ScanTaggedText(bs[1..], c);
      assert bs == [bs[0]] + bs[1..];
    } else {
      assert TagPrefix(bs) + c == c;
    }
  }

  lemma TagPrefixCons(bs: seq<string>, c: string)
    requires bs != []
    ensures TagPrefix(bs) + c == "[" + bs[0] + "]" + (TagPrefix(bs[1..]) + c)
  {
  }

  /** A leading tag is found first and removed. */
  lemma ScanStep(line: string, b: string, tail: string)
    requires line == "[" + b + "]" + tail && IsTagBody(b)
    ensures FindTags(line) == [b] + FindTags(tail)
    ensures RemoveTags(line) == RemoveTags(tail)
  {
    TokenizeAfterTag(line, b, tail);
    PiecesAfterTag(b, Tokenize(tail));
  }

  lemma TokenizeAfterTag(line: string, b: string, tail: string)
    requires line == "[" + b + "]" + tail && IsTagBody(b)
    ensures Tokenize(line) == [Tag(b)] + Tokenize(tail)
  {
    TagEndFinds(b, tail);
    assert line[|b| + 2..] == tail;
    assert line[1..|b| + 1] == b;
    TokenizeAtTag(line, |b| + 2);
  }

  lemma TokenizeAtTag(line: string, k: nat)
    requires line != [] && TagEnd(line) == Some(k)
    ensures Tokenize(line) == [Tag(line[1..k - 1])] + Tokenize(line[k..])
  {
  }

  lemma PiecesAfterTag(b: string, ps: seq<Piece>)
    ensures TagBodies([Tag(b)] + ps) == [b] + TagBodies(ps)
    ensures TextChars([Tag(b)] + ps) == TextChars(ps)
  {
    assert ([Tag(b)] + ps)[1..] == ps;
  }

  lemma TokenizeAtText(s: string)
    requires s != [] && TagEnd(s) == None
    ensures Tokenize(s) == [Text(s[0])] + Tokenize(s[1..])
  {
  }

  /** The scan is leftmost: at every position it takes a tag exactly when
      one starts there. */
  predicate Leftmost(ps: seq<Piece>) {
    forall i :: 0 <= i < |ps| ==> (ps[i].Text? <==> TagEnd(Flatten(ps[i..])) == None)
  }

  lemma {:induction false} TokenizeIsLeftmost(s: string)
    ensures Leftmost(Tokenize(s))
    decreases |s|
  {
    if s != [] {
      match TagEnd(s)
      case Some(k) =>
        TokenizeAtTag(s, k);
        TokenizeIsLeftmost(s[k..]);
        LeftmostCons(Tag(s[1..k - 1]), Tokenize(s[k..]));
      case None =>
        TokenizeAtText(s);
        TokenizeIsLeftmost(s[1..]);
        LeftmostCons(Text(s[0]), Tokenize(s[1..]));
    }
  }

  lemma LeftmostCons(p: Piece, ps: seq<Piece>)
    requires Leftmost(ps) && (p.Text? <==> TagEnd(Flatten([p] + ps)) == None)
    ensures Leftmost([p] + ps)
  {
    var qs := [p] + ps;
    forall i | 0 <= i < |qs| ensures qs[i].Text? <==> TagEnd(Flatten(qs[i..])) == None {
      if i == 0 {
        assert qs[i..] == qs;
      } else {
        assert qs[i..] == ps[i - 1..];
      }
    }
  }

  /** ... and it is the only leftmost scan: any pieces with valid tag bodies
      that spell `s` and take a tag wherever one starts are `Tokenize(s)`. */
  lemma {:induction false} LeftmostIsTokenize(ps: seq<Piece>, s: string)
    requires Flatten(ps) == s && Leftmost(ps)
    requires forall i :: 0 <= i < |ps| && ps[i].Tag? ==> IsTagBody(ps[i].body)
    ensures ps == Tokenize(s)
    decreases |ps|
  {
    if ps != [] {
      var rest := ps[1..];
      LeftmostTail(ps);
      assert ps == [ps[0]] + rest;
      match ps[0]
      case Text(c) =>
        assert ps[0..] == ps;
        assert s == [c] + Flatten(rest);
        assert s[1..] == Flatten(rest);
        TokenizeAtText(s);
        LeftmostIsTokenize(rest, s[1..]);
      case Tag(b) =>
        assert IsTagBody(ps[0].body);
        TokenizeAfterTag(s, b, Flatten(rest));
        LeftmostIsTokenize(rest, Flatten(rest));
    }
  }

  lemma LeftmostTail(ps: seq<Piece>)
    requires ps != [] && Leftmost(ps)
    ensures Leftmost(ps[1..])
  {
    var rest := ps[1..];
    forall i | 0 <= i < |rest| ensures rest[i].Text? <==> TagEnd(Flatten(rest[i..])) == None {
      assert rest[i..] == ps[i + 1..];
    }
  }

  /** The scan never runs past a `'['`: no tag body holds one, so the tag
      (if any) opening `a` is the same in `a + x`. */
  lemma TagEndBeforeBracket(a: string, x: string)
    requires a != [] && x != [] && x[0] == '['
    ensures TagEnd(a + x) == TagEnd(a)
  {
    var s := a + x;
    if a[0] == '[' {
      if ']' in a {
        var j := IndexOf(a, ']');
        assert s[..j] == a[..j];
        IndexOfIsFirst(s, ']', j);
        assert s[1..j] == a[1..j];
      } else if ']' in s {
        var j := IndexOf(s, ']');
        assert j >= |a|;
        assert s[|a|] == '[';
        assert s[1..j][|a| - 1] == '[';
        BracketNotTagBody(s[1..j]);
      }
    }
  }

  lemma BracketNotTagBody(b: string)
    requires '[' in b
    ensures !IsTagBody(b)
  {
    if IsTagBody(b) {
      TagBodyHasNoBrackets(b);
    }
  }

  /** A `'['` is a cut point: the line before it and the line from it on
      are scanned independently. */
  lemma {:induction false} TokenizeSplitsAtBracket(a: string, x: string)
    requires x != [] && x[0] == '['
    ensures Tokenize(a + x) == Tokenize(a) + Tokenize(x)
    decreases |a|
  {
    if a == [] {
      assert a + x == x;
    } else {
      var k, p := SplitStep(a, x);
      TokenizeSplitsAtBracket(a[k..], x);
      ConsAssoc(p, Tokenize(a[k..]), Tokenize(x));
    }
  }

  lemma ConsAssoc(p: Piece, u: seq<Piece>, v: seq<Piece>)
    ensures [p] + (u + v) == ([p] + u) + v
  {
  }

  /** The first piece of `a + x` is the first piece of `a`. */
  lemma SplitStep(a: string, x: string) returns (k: nat, p: Piece)
    requires a != [] && x != [] && x[0] == '['
    ensures 1 <= k <= |a|
    ensures Tokenize(a + x) == [p] + Tokenize(a[k..] + x)
    ensures Tokenize(a) == [p] + Tokenize(a[k..])
  {
    TagEndBeforeBracket(a, x);
    match TagEnd(a)
    case Some(n) =>
      k, p := n, Tag(a[1..n - 1]);
      SplitStepTag(a, x, n);
    case None =>
      k, p := 1, Text(a[0]);
      SplitStepText(a, x);
  }

  lemma SplitStepTag(a: string, x: string, k: nat)
    requires 2 <= k <= |a| && TagEnd(a) == Some(k) && TagEnd(a + x) == Some(k)
    ensures Tokenize(a + x) == [Tag(a[1..k - 1])] + Tokenize(a[k..] + x)
    ensures Tokenize(a) == [Tag(a[1..k - 1])] + Tokenize(a[k..])
  {
    AppendSlices(a, x, k);
    TokenizeAtTag(a + x, k);
    TokenizeAtTag(a, k);
  }

  lemma SplitStepText(a: string, x: string)
    requires a != [] && TagEnd(a) == None && TagEnd(a + x) == None
    ensures Tokenize(a + x) == [Text(a[0])] + Tokenize(a[1..] + x)
    ensures Tokenize(a) == [Text(a[0])] + Tokenize(a[1..])
  {
    AppendSlices(a, x, 1);
    TokenizeAtText(a + x);
    TokenizeAtText(a);
  }

  lemma AppendSlices(a: string, x: string, k: nat)
    requires 1 <= k <= |a|
    ensures (a + x)[0] == a[0] && (a + x)[k..] == a[k..] + x
    ensures k >= 2 ==> (a + x)[1..k - 1] == a[1..k - 1]
  {
  }

  lemma {:induction false} TagBodiesAppend(p: seq<Piece>, q: seq<Piece>)
    ensures TagBodies(p + q) == TagBodies(p) + TagBodies(q)
    decreases |p|
  {
    if p == [] {
      assert p + q == q;
    } else {
      var pq := p + q;
      assert pq[0] == p[0] && pq[1..] == p[1..] + q;
      TagBodiesAppend(p[1..], q);
    }
  }

  lemma {:induction false} TextCharsAppend(p: seq<Piece>, q: seq<Piece>)
    ensures TextChars(p + q) == TextChars(p) + TextChars(q)
    decreases |p|
  {
    if p == [] {
      assert p + q == q;
    } else {
      var pq := p + q;
      assert pq[0] == p[0] && pq[1..] == p[1..] + q;
      TextCharsAppend(p[1..], q);
    }
  }

  /** Every tag is found wherever it stands: `a[b]c` yields the tags of
      `a`, then `b`, then the tags of `c`, and removing the tags leaves
      what `a` and `c` leave. */
  lemma FindsEveryTag(a: string, b: string, c: string)
    requires IsTagBody(b)
    ensures FindTags(a + "[" + b + "]" + c) == FindTags(a) + [b] + FindTags(c)
    ensures RemoveTags(a + "[" + b + "]" + c) == RemoveTags(a) + RemoveTags(c)
  {
    var x := "[" + b + "]" + c;
    assert a + "[" + b + "]" + c == a + x;
    TokenizeSplitsAtBracket(a, x);
    TokenizeAfterTag(x, b, c);
    TagBodiesAppend(Tokenize(a), Tokenize(x));
    TextCharsAppend(Tokenize(a), Tokenize(x));
    PiecesAfterTag(b, Tokenize(c));
  }

  /** The line `[b1]...[bk]c`, with `c` free of tags and trimmed, yields one
      entry per tag, in tag order, each carrying `c`. */
  lemma TaggedLineEntries(bs: seq<string>, c: string)
    requires bs != [] && forall i :: 0 <= i < |bs| ==> IsTagBody(bs[i])
    requires c != [] && IsTrimmed(c) && FindTags(c) == []
    ensures LineEntries(TagPrefix(bs) + c) == EntriesFor(bs, c)
    ensures |LineEntries(TagPrefix(bs) + c)| == |bs|
    ensures forall i :: 0 <= i < |bs| ==> LineEntries(TagPrefix(bs) + c)[i] == Entry(TagTime(bs[i]), c)
  {
    var line := TagPrefix(bs) + c;
    TaggedLineIsClear(bs, c);
    LineEntriesOfClearLine(line, bs, c);
    EntriesForTags(bs, c);
  }

  /** The tagged line needs no trimming, and the scan recovers its parts. */
  lemma TaggedLineIsClear(bs: seq<string>, c: string)
    requires bs != [] && forall i :: 0 <= i < |bs| ==> IsTagBody(bs[i])
    requires c != [] && IsTrimmed(c) && FindTags(c) == []
    ensures var line := TagPrefix(bs) + c;
      line != [] && Trim(line) == line && FindTags(line) == bs && RemoveTags(line) == c && Trim(c) == c
  {
    TagPrefixOpens(bs);
    BracketLineIsClear(TagPrefix(bs), c);
    ScanTaggedText(bs, c);
    NoTagsKeepText(c);
    StripClearEnds(c, Whitespace);
  }

  lemma TagPrefixOpens(bs: seq<string>)
    requires bs != []
    ensures TagPrefix(bs) != [] && TagPrefix(bs)[0] == '['
  {
    assert TagPrefix(bs) == "[" + bs[0] + "]" + TagPrefix(bs[1..]);
  }

  lemma BracketLineIsClear(p: string, c: string)
    requires p != [] && p[0] == '[' && c != [] && IsTrimmed(c)
    ensures p + c != [] && Trim(p + c) == p + c
  {
    var line := p + c;
    assert line[0] == '[' && line[|line| - 1] == c[|c| - 1];
    StripClearEnds(line, Whitespace);
  }

  lemma LineEntriesOfClearLine(line: string, bs: seq<string>, c: string)
    requires line != [] && Trim(line) == line
    requires FindTags(line) == bs && bs != []
    requires RemoveTags(line) == c && Trim(c) == c && c != []
    ensures LineEntries(line) == EntriesFor(bs, c)
  {
  }

  /** The time of a tag body spelled from three digit runs. */
  lemma TagTimeOfDigits(b: string, m: string, s: string, f: string)
    requires b == m + ":" + s + "." + f
    requires m != [] && s != [] && f != []
    requires AllDigits(m) && AllDigits(s) && AllDigits(f)
    ensures IsTagBody(b)
    ensures TagTime(b) == Value(m) * 60000 + Value(s) * 1000 + FractionValue(f)
  {
    DigitsMakeTagBody(m, s, f);
    ParseDigitFields(b, m, s, f);
  }

  /** A document of one line is that line's entries, sorted. */
  lemma OneLineDocument(text: string)
    requires '\n' !in text && Trim(text) != []
    ensures ParseLrc(text) == SortByTime(LineEntries(text))
  {
    var l := Trim(text);
    TrimKeepsAbsent(text, '\n');
    assert Split(l, '\n') == [l];
    OneLineCollected(l);
    TrimTwice(text);
    SameLineEntries(text);
    assert Unsorted(text) == LineEntries(text);
  }

  /** Stripping never brings in a character. */
  lemma TrimKeepsAbsent(text: string, c: char)
    requires c !in text
    ensures c !in Trim(text)
  {
    var l := Trim(text);
    assert forall i :: 0 <= i < |l| ==> l[i] == text[LeadCount(text, Whitespace) + i];
  }

  lemma OneLineCollected(l: string)
    ensures CollectEntries([l]) == LineEntries(l)
  {
    assert [l][1..] == [];
    assert CollectEntries([l]) == LineEntries(l) + CollectEntries([]);
  }

  /** A line and its stripped form give the same entries. */
  lemma SameLineEntries(text: string)
    ensures LineEntries(Trim(text)) == LineEntries(text)
  {
    TrimTwice(text);
  }

  lemma {:induction false} TagPrefixHasNoNewline(bs: seq<string>)
    requires forall i :: 0 <= i < |bs| ==> IsTagBody(bs[i])
    ensures '\n' !in TagPrefix(bs)
  {
    if bs != [] {
      TagBodyHasNoBrackets(bs[0]);
      TagPrefixHasNoNewline(bs[1..]);
    }
  }

  /** A one-line document `[b1]...[bk]c` is the sorted entries of its tags,
      each carrying `c`. */
  lemma TaggedDocument(bs: seq<string>, c: string)
    requires bs != [] && forall i :: 0 <= i < |bs| ==> IsTagBody(bs[i])
    requires c != [] && IsTrimmed(c) && FindTags(c) == [] && '\n' !in c
    ensures ParseLrc(TagPrefix(bs) + c) == SortByTime(EntriesFor(bs, c))
  {
    var line := TagPrefix(bs) + c;
    TaggedLineEntries(bs, c);
    TagPrefixHasNoNewline(bs);
    assert line[0] == '[';
    assert Trim(line) != [];
    OneLineDocument(line);
  }

  /** A tag in the middle of a line is found too: `a[00:01.00]` holds the
      tag `00:01.00` and the text `a`. */
  lemma MidLineTagExample()
    ensures FindTags("a[00:01.00]") == ["00:01.00"] && RemoveTags("a[00:01.00]") == "a"
  {
    var line := "a[00:01.00]";
    var b := "00:01.00";
    MidLineSpelling(line, b);
    OneSecondTag(b);
    MidLineTag(line, b);
  }

  lemma MidLineSpelling(line: string, b: string)
    requires line == "a[00:01.00]" && b == "00:01.00"
    ensures line == "a[" + b + "]"
  {
  }

  lemma MidLineTag(line: string, b: string)
    requires IsTagBody(b) && line == "a[" + b + "]"
    ensures FindTags(line) == [b] && RemoveTags(line) == "a"
  {
    var a, c := "a", [];
    assert line == a + "[" + b + "]" + c;
    FindsEveryTag(a, b, c);
    NoBracketNoTags(a);
    NoBracketNoTags(c);
  }

  /** A sorted sequence is its own stable sort. */
  lemma SortedIsItsOwnSort(xs: seq<Entry>)
    requires SortedByTime(xs)
    ensures SortByTime(xs) == xs
  {
    StableSortIsSortByTime(xs, xs);
  }

  lemma TwoTagPrefix(b1: string, b2: string)
    ensures TagPrefix([b1, b2]) == "[" + b1 + "]" + "[" + b2 + "]"
  {
    assert [b2][1..] == [];
    assert TagPrefix([b2]) == "[" + b2 + "]" + TagPrefix([]);
    assert [b1, b2][1..] == [b2];
    assert TagPrefix([b1, b2]) == "[" + b1 + "]" + TagPrefix([b2]);
  }

  /** The timestamp `FormatTime` writes is a tag the scanner recognises,
      and it stands for the same instant. */
  lemma FormattedBodyIsTag(ms: nat)
    ensures IsTagBody(FormattedBody(ms)) && TagTime(FormattedBody(ms)) == ms
  {
    MinutesFieldDigits(ms);
    SecondsFieldShape(ms);
    MillisFieldShape(ms);
    TagTimeOfDigits(FormattedBody(ms), MinutesField(ms), SecondsField(ms), MillisField(ms));
    ParseFormattedBody(ms);
  }

  /** A space in front of tag-free text is one more text character. */
  lemma SpaceBeforeText(c: string)
    requires FindTags(c) == []
    ensures FindTags(" " + c) == [] && RemoveTags(" " + c) == " " + RemoveTags(c)
  {
    var s := " " + c;
    assert TagEnd(s) == None;
    assert s[1..] == c;
    var ps := Tokenize(c);
    assert Tokenize(s) == [Text(' ')] + ps;
    assert ([Text(' ')] + ps)[1..] == ps;
  }

  /** A line with one tag and a space before its text reads back as one
      entry carrying the text without the space. */
  lemma SpacedTagLine(line: string, b: string, c: string)
    requires IsTagBody(b) && line == "[" + b + "] " + c
    requires c != [] && IsTrimmed(c) && FindTags(c) == []
    ensures LineEntries(line) == [Entry(TagTime(b), c)]
  {
    SpacedTagLineScan(line, b, c);
    OneTagEntries(line, b, c);
  }

  lemma OneTagEntries(line: string, b: string, c: string)
    requires IsTagBody(b) && c != [] && IsTrimmed(c)
    requires line != [] && Trim(line) == line
    requires FindTags(line) == [b] && RemoveTags(line) == " " + c
    ensures LineEntries(line) == [Entry(TagTime(b), c)]
  {
    TrimLeadingSpace(c);
    LineEntriesOfLine(line, [b], c);
    EntriesForTags([b], c);
  }

  lemma SpacedTagLineScan(line: string, b: string, c: string)
    requires IsTagBody(b) && line == "[" + b + "] " + c
    requires c != [] && IsTrimmed(c) && FindTags(c) == []
    ensures line != [] && Trim(line) == line
    ensures FindTags(line) == [b] && RemoveTags(line) == " " + c
  {
    var spaced := " " + c;
    assert line == "[" + b + "]" + spaced;
    ScanStep(line, b, spaced);
    SpaceBeforeText(c);
    NoTagsKeepText(c);
    assert line[|line| - 1] == c[|c| - 1];
    OpenBracketLineIsTrimmed(line);
  }

  lemma OpenBracketLineIsTrimmed(line: string)
    requires line != [] && line[0] == '[' && line[|line| - 1] !in Whitespace
    ensures Trim(line) == line
  {
    StripClearEnds(line, Whitespace);
  }

  lemma LineEntriesOfLine(line: string, bs: seq<string>, c: string)
    requires line != [] && Trim(line) == line
    requires FindTags(line) == bs && bs != []
    requires Trim(RemoveTags(line)) == c && c != []
    ensures LineEntries(line) == EntriesFor(bs, c)
  {
  }

  lemma StampedLineSpelling(ms: nat, b: string, c: string)
    requires b == FormattedBody(ms)
    ensures FormatTime(ms) + " " + c == "[" + b + "] " + c
  {
  }

  /** A line written as `FormatTime(ms) + " " + c` reads back as the single
      entry `(ms, c)`: the lines the merger produces are themselves LRC. */
  lemma FormattedLineReparses(ms: nat, c: string)
    requires c != [] && IsTrimmed(c) && FindTags(c) == []
    ensures LineEntries(FormatTime(ms) + " " + c) == [Entry(ms, c)]
  {
    var b := FormattedBody(ms);
    FormattedBodyIsTag(ms);
    StampedLineSpelling(ms, b, c);
    SpacedTagLine(FormatTime(ms) + " " + c, b, c);
  }

  /** A line with two tags in time order yields two entries with the same
      text. */
  lemma TwoTagDocument(b1: string, b2: string, c: string)
    requires IsTagBody(b1) && IsTagBody(b2) && TagTime(b1) <= TagTime(b2)
    requires c != [] && IsTrimmed(c) && FindTags(c) == [] && '\n' !in c
    ensures ParseLrc(TagPrefix([b1, b2]) + c) == [Entry(TagTime(b1), c), Entry(TagTime(b2), c)]
  {
    var bs := [b1, b2];
    var es := [Entry(TagTime(b1), c), Entry(TagTime(b2), c)];
    TwoTagBodies(b1, b2);
    TaggedDocument(bs, c);
    TwoTagEntries(b1, b2, c);
    TwoSorted(es[0], es[1]);
    SortedIsItsOwnSort(es);
  }

  lemma TwoTagBodies(b1: string, b2: string)
    requires IsTagBody(b1) && IsTagBody(b2)
    ensures forall i :: 0 <= i < |[b1, b2]| ==> IsTagBody([b1, b2][i])
  {
  }

  lemma TwoSorted(x: Entry, y: Entry)
    requires x.time <= y.time
    ensures SortedByTime([x, y])
  {
  }

  lemma TwoTagEntries(b1: string, b2: string, c: string)
    requires IsTagBody(b1) && IsTagBody(b2)
    ensures EntriesFor([b1, b2], c) == [Entry(TagTime(b1), c), Entry(TagTime(b2), c)]
  {
    var bs := [b1, b2];
    EntriesForTags(bs, c);
    var r := EntriesFor(bs, c);
    assert r[0] == Entry(TagTime(b1), c);
    assert r[1] == Entry(TagTime(b2), c);
  }

  /** `mm:ss.00` for two-digit minutes and seconds. */
  lemma WholeSecondTag(b: string, m: string, sec: string, n: nat)
    requires |m| == 2 && |sec| == 2 && AllDigits(m) && AllDigits(sec)
    requires Value(m) == 0 && Value(sec) == n
    requires b == m + ":" + sec + ".00"
    ensures IsTagBody(b) && TagTime(b) == n * 1000
  {
    var zero := "00";
    assert b == m + ":" + sec + "." + zero;
    assert AllDigits(zero) && Value(zero) == 0 && FractionValue(zero) == 0 by {
      TwoDigits(zero, '0', '0');
    }
    TagTimeOfDigits(b, m, sec, zero);
  }

  /** `00:ss.00` for seconds `s` spelled `sec`. */
  lemma WholeSecondSample(b: string, sec: string, last: char, n: nat)
    requires b == "00:" + sec + ".00" && |sec| == 2 && IsDigit(sec[0]) && last == sec[1] && IsDigit(last)
    requires n == DigitValue(sec[0]) * 10 + DigitValue(last)
    ensures IsTagBody(b) && TagTime(b) == n * 1000
  {
    var zero := "00";
    TwoDigits(zero, '0', '0');
    TwoDigits(sec, sec[0], last);
    assert b == zero + ":" + sec + ".00";
    WholeSecondTag(b, zero, sec, n);
  }

  /** A line with two tags yields two entries with the same text:
      `[00:01.00][00:10.00]Repeated line` is that text at 1 s and at 10 s. */
  lemma RepeatedLineExample()
    ensures ParseLrc("[00:01.00][00:10.00]Repeated line") == [Entry(1000, "Repeated line"), Entry(10000, "Repeated line")]
  {
    var text := "[00:01.00][00:10.00]Repeated line";
    var b1 := "00:01.00";
    var b2 := "00:10.00";
    var c := "Repeated line";
    RepeatedLineSpelling(text, b1, b2, c);
    RepeatedLineTags(b1, b2);
    RepeatedLineText(c);
    TwoTagDocument(b1, b2, c);
  }

  /** A document of two lines is the first line's entries followed by the
      second line's, sorted by time. */
  lemma TwoLineDocument(text: string, l1: string, l2: string)
    requires text == l1 + "\n" + l2 && '\n' !in l1 && '\n' !in l2
    requires Trim(text) == text
    ensures ParseLrc(text) == SortByTime(LineEntries(l1) + LineEntries(l2))
  {
    TwoLineSplit(text, l1, l2);
    TwoLinesCollected(l1, l2);
    assert Unsorted(text) == LineEntries(l1) + LineEntries(l2);
  }

  lemma TwoLineSplit(text: string, l1: string, l2: string)
    requires text == l1 + "\n" + l2 && '\n' !in l1 && '\n' !in l2
    ensures Split(text, '\n') == [l1, l2]
  {
    assert text == l1 + ['\n'] + l2;
    FirstIndexAfter(l1, '\n', l2);
    assert text[..|l1|] == l1 && text[|l1| + 1..] == l2;
    assert Split(l2, '\n') == [l2];
  }

  lemma TwoLinesCollected(l1: string, l2: string)
    ensures CollectEntries([l1, l2]) == LineEntries(l1) + LineEntries(l2)
  {
    assert [l1, l2][1..] == [l2];
    OneLineCollected(l2);
  }

  /** A line made of one tag and its text gives one entry. */
  lemma OneTagLine(b: string, c: string)
    requires IsTagBody(b) && c != [] && IsTrimmed(c) && FindTags(c) == [] && '\n' !in c
    ensures '\n' !in TagPrefix([b]) + c
    ensures LineEntries(TagPrefix([b]) + c) == [Entry(TagTime(b), c)]
  {
    TaggedLineEntries([b], c);
    TagPrefixHasNoNewline([b]);
  }

  lemma OneTagPrefix(b: string)
    ensures TagPrefix([b]) == "[" + b + "]"
  {
    assert TagPrefix([b]) == "[" + b + "]" + TagPrefix([]);
  }

  lemma TwoStampedLinesSpelling(text: string, b1: string, c1: string, b2: string, c2: string)
    requires text == "[" + b1 + "]" + c1 + "\n" + "[" + b2 + "]" + c2
    requires c2 != [] && c2[|c2| - 1] !in Whitespace
    ensures text == TagPrefix([b1]) + c1 + "\n" + (TagPrefix([b2]) + c2)
    ensures Trim(text) == text
  {
    OneTagPrefix(b1);
    OneTagPrefix(b2);
    assert text[0] == '[' && text[|text| - 1] == c2[|c2| - 1];
    OpenBracketLineIsTrimmed(text);
  }

  /** Two one-tag lines in time order give one entry each, in line order. */
  lemma TwoStampedLines(text: string, b1: string, c1: string, b2: string, c2: string)
    requires text == "[" + b1 + "]" + c1 + "\n" + "[" + b2 + "]" + c2
    requires IsTagBody(b1) && IsTagBody(b2) && TagTime(b1) <= TagTime(b2)
    requires c1 != [] && IsTrimmed(c1) && FindTags(c1) == [] && '\n' !in c1
    requires c2 != [] && IsTrimmed(c2) && FindTags(c2) == [] && '\n' !in c2
    ensures ParseLrc(text) == [Entry(TagTime(b1), c1), Entry(TagTime(b2), c2)]
  {
    var l1 := TagPrefix([b1]) + c1;
    var l2 := TagPrefix([b2]) + c2;
    TwoStampedLinesSpelling(text, b1, c1, b2, c2);
    OneTagLine(b1, c1);
    OneTagLine(b2, c2);
    TwoLineDocument(text, l1, l2);
    var es := [Entry(TagTime(b1), c1), Entry(TagTime(b2), c2)];
    TwoSorted(es[0], es[1]);
    SortedIsItsOwnSort(es);
  }

  // Literal helpers for `RepeatedLineExample` and the merger's self-test
  // example. Each one spells out a single literal (a tag body, a text) so
  // that the solver never has to unfold a whole literal goal at once; none
  // of them is a fact about the parser.

  lemma RepeatedLineSpelling(text: string, b1: string, b2: string, c: string)
    requires text == "[00:01.00][00:10.00]Repeated line"
    requires b1 == "00:01.00" && b2 == "00:10.00" && c == "Repeated line"
    ensures text == TagPrefix([b1, b2]) + c
  {
    TwoTagPrefix(b1, b2);
  }

  lemma RepeatedLineText(c: string)
    requires c == "Repeated line"
    ensures c != [] && IsTrimmed(c) && FindTags(c) == [] && '\n' !in c
  {
    assert IsTrimmed(c) by { assert c[0] == 'R' && c[|c| - 1] == 'e'; }
    assert '[' !in c && '\n' !in c by {
      forall i | 0 <= i < |c| ensures c[i] != '[' && c[i] != '\n' {
        assert c[i] in "Repeatd lin";
      }
    }
    NoBracketNoTags(c);
  }

  lemma RepeatedLineTags(b1: string, b2: string)
    requires b1 == "00:01.00" && b2 == "00:10.00"
    ensures IsTagBody(b1) && TagTime(b1) == 1000
    ensures IsTagBody(b2) && TagTime(b2) == 10000
  {
    OneSecondTag(b1);
    TenSecondTag(b2);
  }

  lemma OneSecondTag(b: string)
    requires b == "00:01.00"
    ensures IsTagBody(b) && TagTime(b) == 1000
  {
    WholeSecondSample(b, "01", '1', 1);
  }

  lemma TenSecondTag(b: string)
    requires b == "00:10.00"
    ensures IsTagBody(b) && TagTime(b) == 10000
  {
    WholeSecondSample(b, "10", '0', 10);
  }

  lemma FiveSecondTag(b: string)
    requires b == "00:05.00"
    ensures IsTagBody(b) && TagTime(b) == 5000
  {
    WholeSecondSample(b, "05", '5', 5);
  }
}
