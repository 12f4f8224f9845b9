/** Merging an original and a translated lyric: both are parsed, each is
    collapsed into a time -> text dictionary, and one output line is written
    per time of the sorted union of the two key sets
    (Lyrics.py, `LyricsMerger.merge_lyrics`). */
module Merger {
  import opened Wrappers
  import opened PyStr
  import opened Timecode
  import opened Entries
  import opened LrcParser

  /** `{e.time: e.content for e in xs}`: a later entry with the same time
      overwrites an earlier one. */
  function ContentMap(xs: seq<Entry>): (m: map<nat, string>)
    ensures m.Keys == Times(xs)
    ensures forall t :: t in m ==> Entry(t, m[t]) in xs
  {
    if xs == [] then map[]
    else
      var init := xs[..|xs| - 1];
      var last := xs[|xs| - 1];
      assert xs == init + [last];
      ContentMap(init)[last.time := last.content]
  }

  /** `d.get(t, '')`. */
  function Get(m: map<nat, string>, t: nat): string {
    if t in m then m[t] else ""
  }

  /** A dictionary lookup as an option. */
  function Lookup(m: map<nat, string>, t: nat): Option<string> {
    if t in m then Some(m[t]) else None
  }

  /** The dictionary holds, for every time, the content of the LAST entry
      with that time, and nothing for a time no entry carries. */
  lemma {:induction false} ContentMapIsLast(xs: seq<Entry>, t: nat)
    ensures Lookup(ContentMap(xs), t) == LastContent(xs, t)
  {
    if xs != [] {
      var init := xs[..|xs| - 1];
      var last := xs[|xs| - 1];
      assert xs == init + [last];
      ContentMapIsLast(init, t);
      LastContentSnoc(init, last, t);
    }
  }

  /** Python's `d.get(t, '')` on the dictionary: the last content for `t`,
      or the empty string. */
  lemma GetIsLastOrEmpty(xs: seq<Entry>, t: nat)
    ensures Get(ContentMap(xs), t) == match LastContent(xs, t) case Some(c) => c case None => ""
  {
    ContentMapIsLast(xs, t);
  }

  /** Strictly increasing. */
  predicate Increasing(r: seq<nat>) {
    forall i, j :: 0 <= i < j < |r| ==> r[i] < r[j]
  }

  lemma MinExists(s: set<nat>)
    requires s != {}
    ensures exists m :: m in s && forall y :: y in s ==> m <= y
  {
    var m := LeastElement(s);
  }

  lemma {:induction false} LeastElement(s: set<nat>) returns (least: nat)
    requires s != {}
    ensures least in s && forall y :: y in s ==> least <= y
    decreases |s|
  {
    var x :| x in s;
    var rest := s - {x};
    if rest == {} {
      least := x;
      assert s == {x};
    } else {
      var m := LeastElement(rest);
      least := if x < m then x else m;
      LeastOfAdded(s, x, rest, m);
    }
  }

  lemma LeastOfAdded(s: set<nat>, x: nat, rest: set<nat>, m: nat)
    requires x in s && rest == s - {x}
    requires m in rest && forall y :: y in rest ==> m <= y
    ensures forall y :: y in s ==> (if x < m then x else m) <= y
  {
    forall y | y in s ensures (if x < m then x else m) <= y {
      if y != x {
        assert y in rest;
      }
    }
  }

  /** The least element of a non-empty set. */
  function Min(s: set<nat>): (m: nat)
    requires s != {}
    ensures m in s && forall y :: y in s ==> m <= y
  {
    MinExists(s);
    var m :| m in s && forall y :: y in s ==> m <= y;
    m
  }

  /** `sorted(s)` for a set of times: its elements in increasing order. */
  function SortedSet(s: set<nat>): (r: seq<nat>)
    ensures Increasing(r)
    ensures forall x :: x in r <==> x in s
    ensures |r| == |s|
    decreases |s|
  {
    if s == {} then []
    else
      var m := Min(s);
      var rest := SortedSet(s - {m});
      assert forall x :: x in rest ==> m < x;
      [m] + rest
  }

  /** Only one increasing sequence lists a given set of elements, so
      `SortedSet` is THE sorted listing. */
  lemma {:induction false} IncreasingUnique(a: seq<nat>, b: seq<nat>)
    requires Increasing(a) && Increasing(b)
    requires forall x :: x in a <==> x in b
    ensures a == b
    decreases |a|
  {
    if a != [] {
      assert a[0] in b;
    }
    if b != [] {
      assert b[0] in a;
    }
    if a != [] && b != [] {
      HeadIsLeast(a);
      HeadIsLeast(b);
      forall x ensures x in a[1..] <==> x in b[1..] {
        SameTail(a, b, x);
      }
      IncreasingUnique(a[1..], b[1..]);
      assert a == [a[0]] + a[1..] && b == [b[0]] + b[1..];
    }
  }

  lemma SameTail(a: seq<nat>, b: seq<nat>, x: nat)
    requires Increasing(a) && Increasing(b) && a != [] && b != [] && a[0] == b[0]
    requires x in a <==> x in b
    ensures x in a[1..] <==> x in b[1..]
  {
    if x in a[1..] {
      var k :| 1 <= k < |a| && a[k] == x;
      assert a[0] < a[k];
    }
    if x in b[1..] {
      var k :| 1 <= k < |b| && b[k] == x;
      assert b[0] < b[k];
    }
    assert x in a ==> x == a[0] || x in a[1..];
    assert x in b ==> x == b[0] || x in b[1..];
  }

  lemma HeadIsLeast(a: seq<nat>)
    requires Increasing(a) && a != []
    ensures forall x :: x in a ==> a[0] <= x
  {
    forall x | x in a ensures a[0] <= x {
      var k :| 0 <= k < |a| && a[k] == x;
      if k > 0 {
        assert a[0] < a[k];
      }
    }
  }

  /** Any increasing listing of `s` is `SortedSet(s)`. */
  lemma SortedSetIsTheSortedListing(s: set<nat>, r: seq<nat>)
    requires Increasing(r) && forall x :: x in r <==> x in s
    ensures r == SortedSet(s)
  {
    IncreasingUnique(r, SortedSet(s));
  }

  /** One output line for a time, given the original and the translated
      text there (either may be empty); `None` when both are empty. */
  function MergeLine(t: nat, original: string, translated: string): (r: Option<string>)
    ensures r.None? <==> original == [] && translated == []
  {
    if original != [] && translated != [] then
      Some(FormatTime(t) + " " + original + " / " + translated)
    else if original != [] then Some(FormatTime(t) + " " + original)
    else if translated != [] then Some(FormatTime(t) + " " + translated)
    else None
  }

  /** The text after the timestamp of a merged line. */
  function MergedText(original: string, translated: string): string {
    if original != [] && translated != [] then original + " / " + translated
    else if original != [] then original
    else translated
  }

  /** Every line `MergeLine` writes is the timestamp, one space and the
      merged text. */
  lemma MergeLineLayout(t: nat, original: string, translated: string)
    requires original != [] || translated != []
    ensures MergeLine(t, original, translated) == Some(FormatTime(t) + " " + MergedText(original, translated))
  {
    var stamp := FormatTime(t) + " ";
    if original != [] && translated != [] {
      Reassociate(stamp, original, translated);
    }
  }

  lemma Reassociate(stamp: string, original: string, translated: string)
    ensures stamp + original + " / " + translated == stamp + (original + " / " + translated)
  {
  }

  /** The loop over the sorted times. */
  function MergeTimes(times: seq<nat>, om: map<nat, string>, tm: map<nat, string>): (r: seq<string>)
    ensures |r| <= |times|
  {
    if times == [] then []
    else
      (match MergeLine(times[0], Get(om, times[0]), Get(tm, times[0]))
       case Some(line) => [line]
       case None => [])
      + MergeTimes(times[1..], om, tm)
  }

  /** When one side has text at every time, no time is skipped: line `i`
      belongs to time `i`. */
  lemma {:induction false} MergeTimesKeepsEveryTime(times: seq<nat>, om: map<nat, string>, tm: map<nat, string>)
    requires forall t :: t in times ==> Get(om, t) != [] || Get(tm, t) != []
    ensures |MergeTimes(times, om, tm)| == |times|
    ensures forall i :: 0 <= i < |times| ==>
              MergeTimes(times, om, tm)[i]
                == FormatTime(times[i]) + " " + MergedText(Get(om, times[i]), Get(tm, times[i]))
  {
    if times != [] {
      var t := times[0];
      assert t in times;
      forall u | u in times[1..] ensures Get(om, u) != [] || Get(tm, u) != [] {
        assert u in times;
      }
      MergeTimesKeepsEveryTime(times[1..], om, tm);
      MergeTimesStep(times, om, tm);
      forall i | 0 <= i < |times|
        ensures MergeTimes(times, om, tm)[i]
                  == FormatTime(times[i]) + " " + MergedText(Get(om, times[i]), Get(tm, times[i]))
      {
        if i > 0 {
          assert times[i] == times[1..][i - 1];
        }
      }
    }
  }

  lemma MergeTimesStep(times: seq<nat>, om: map<nat, string>, tm: map<nat, string>)
    requires times != [] && (Get(om, times[0]) != [] || Get(tm, times[0]) != [])
    ensures MergeTimes(times, om, tm)
              == [FormatTime(times[0]) + " " + MergedText(Get(om, times[0]), Get(tm, times[0]))]
                 + MergeTimes(times[1..], om, tm)
  {
    MergeLineLayout(times[0], Get(om, times[0]), Get(tm, times[0]));
  }

  /** The dictionaries built from display entries hold no empty text. */
  lemma ContentMapNonEmpty(xs: seq<Entry>, t: nat)
    requires forall e :: e in xs ==> IsDisplayEntry(e)
    requires t in ContentMap(xs)
    ensures ContentMap(xs)[t] != []
  {
    assert Entry(t, ContentMap(xs)[t]) in xs;
  }

  /** The times of both lyrics, in increasing order. */
  function AllTimes(original: seq<Entry>, translated: seq<Entry>): (r: seq<nat>)
    ensures Increasing(r)
    ensures forall t :: t in r <==> t in Times(original) || t in Times(translated)
  {
    SortedSet(ContentMap(original).Keys + ContentMap(translated).Keys)
  }

  /** `merge_lyrics` after parsing: merge two parsed lyrics. */
  function MergeEntries(original: seq<Entry>, translated: seq<Entry>): (r: seq<string>)
    ensures |r| <= |AllTimes(original, translated)|
  {
    MergeTimes(AllTimes(original, translated), ContentMap(original), ContentMap(translated))
  }

  /** `merge_lyrics(original_text, translated_text)`. */
  function MergeLyrics(originalText: string, translatedText: string): (r: seq<string>)
    ensures Trim(originalText) == [] && Trim(translatedText) == [] ==> r == []
  {
    MergeEntries(ParseLrc(originalText), ParseLrc(translatedText))
  }

  /** The text the source puts after the timestamp at time `t`: the last
      original and the last translated line at `t`, joined. */
  function TextAt(original: seq<Entry>, translated: seq<Entry>, t: nat): string {
    MergedText(Get(ContentMap(original), t), Get(ContentMap(translated), t))
  }

  /** On parsed lyrics (whose every entry has text) the merge writes one line
      per distinct time of either side, in increasing time order, stamped
      with that time. */
  lemma MergeOfDisplayEntries(original: seq<Entry>, translated: seq<Entry>)
    requires forall e :: e in original ==> IsDisplayEntry(e)
    requires forall e :: e in translated ==> IsDisplayEntry(e)
    ensures |MergeEntries(original, translated)| == |AllTimes(original, translated)|
    ensures forall i :: 0 <= i < |AllTimes(original, translated)| ==>
              MergeEntries(original, translated)[i]
                == FormatTime(AllTimes(original, translated)[i]) + " "
                   + TextAt(original, translated, AllTimes(original, translated)[i])
  {
    var om := ContentMap(original);
    var tm := ContentMap(translated);
    var times := AllTimes(original, translated);
    forall t | t in times ensures Get(om, t) != [] || Get(tm, t) != [] {
      if t in om {
        ContentMapNonEmpty(original, t);
      } else {
        assert t in tm;
        ContentMapNonEmpty(translated, t);
      }
    }
    MergeTimesKeepsEveryTime(times, om, tm);
  }

  /** The number of lines is the number of distinct times, at most the two
      lyrics' entry counts together. */
  lemma LineCountBound(original: seq<Entry>, translated: seq<Entry>)
    ensures |AllTimes(original, translated)| <= |original| + |translated|
  {
    TimesBound(original);
    TimesBound(translated);
    var a := Times(original);
    var b := Times(translated);
    assert |a + b| <= |a| + |b| by {
      assert a + b == a + (b - a);
      assert |a + (b - a)| == |a| + |b - a|;
    }
  }

  lemma {:induction false} TimesBound(xs: seq<Entry>)
    ensures |Times(xs)| <= |xs|
  {
    if xs != [] {
      var init := xs[..|xs| - 1];
      var last := xs[|xs| - 1];
      assert xs == init + [last];
      TimesBound(init);
      TimesSnoc(init, last);
    }
  }

  lemma TimesSnoc(init: seq<Entry>, last: Entry)
    ensures Times(init + [last]) == Times(init) + {last.time}
  {
    var xs := init + [last];
    forall t ensures t in Times(xs) <==> t in Times(init) + {last.time} {
      if t in Times(xs) {
        var i :| 0 <= i < |xs| && xs[i].time == t;
        if i < |init| {
          assert init[i].time == t;
        }
      }
      if t in Times(init) {
        var i :| 0 <= i < |init| && init[i].time == t;
        assert xs[i].time == t;
      }
    }
  }
}

/** Properties of the merged output as a whole. */
module MergerFacts {
  import opened Wrappers
  import opened Decimal
  import opened PyStr
  import opened Timecode
  import opened Entries
  import opened LrcParser
  import opened LrcParserFacts
  import opened Merger

  /** Joining two trimmed texts, at least one non-empty, gives a non-empty
      trimmed text. */
  lemma MergedTextIsDisplay(original: string, translated: string)
    requires IsTrimmed(original) && IsTrimmed(translated)
    requires original != [] || translated != []
    ensures MergedText(original, translated) != []
    ensures IsTrimmed(MergedText(original, translated))
  {
    if original != [] && translated != [] {
      var r := original + " / " + translated;
      assert r[0] == original[0] && r[|r| - 1] == translated[|translated| - 1];
    }
  }

  lemma GetIsDisplay(xs: seq<Entry>, t: nat)
    requires forall e :: e in xs ==> IsDisplayEntry(e)
    ensures IsTrimmed(Get(ContentMap(xs), t))
    ensures Get(ContentMap(xs), t) == [] <==> t !in Times(xs)
  {
    var m := ContentMap(xs);
    if t in m {
      assert Entry(t, m[t]) in xs;
    }
  }

  /** Every merged line is itself an LRC line: read back, it is the single
      entry of its time and its merged text (as long as the merged text
      holds nothing that looks like a tag). */
  lemma MergedLineReparses(original: seq<Entry>, translated: seq<Entry>, i: nat)
    requires forall e :: e in original ==> IsDisplayEntry(e)
    requires forall e :: e in translated ==> IsDisplayEntry(e)
    requires i < |AllTimes(original, translated)|
    requires FindTags(TextAt(original, translated, AllTimes(original, translated)[i])) == []
    ensures i < |MergeEntries(original, translated)|
    ensures LineEntries(MergeEntries(original, translated)[i])
            == [Entry(AllTimes(original, translated)[i],
                      TextAt(original, translated, AllTimes(original, translated)[i]))]
  {
    var t := AllTimes(original, translated)[i];
    MergeOfDisplayEntries(original, translated);
    GetIsDisplay(original, t);
    GetIsDisplay(translated, t);
    assert t in AllTimes(original, translated);
    MergedTextIsDisplay(Get(ContentMap(original), t), Get(ContentMap(translated), t));
    FormattedLineReparses(t, TextAt(original, translated, t));
  }

  /** `merge_lyrics` on two texts: one line per distinct time of either
      parsed lyric, in increasing time order, each the formatted time, a
      space and the text at that time. */
  lemma MergeLyricsLines(originalText: string, translatedText: string)
    ensures |MergeLyrics(originalText, translatedText)|
            == |AllTimes(ParseLrc(originalText), ParseLrc(translatedText))|
    ensures forall i :: 0 <= i < |MergeLyrics(originalText, translatedText)| ==>
              var t := AllTimes(ParseLrc(originalText), ParseLrc(translatedText))[i];
              MergeLyrics(originalText, translatedText)[i]
                == FormatTime(t) + " " + TextAt(ParseLrc(originalText), ParseLrc(translatedText), t)
  {
    MergeOfDisplayEntries(ParseLrc(originalText), ParseLrc(translatedText));
  }

  /** Two lyrics with no time in common give one line per time of each. */
  lemma DisjointLineCount(original: seq<Entry>, translated: seq<Entry>)
    ensures |AllTimes(original, translated)| <= |Times(original)| + |Times(translated)|
    ensures |AllTimes(original, translated)| == |Times(original)| + |Times(translated)|
            <==> Times(original) !! Times(translated)
  {
    var a := Times(original);
    var b := Times(translated);
    assert a + b == a + (b - a);
    assert |a + (b - a)| == |a| + |b - a|;
    assert b == (b - a) + (a * b);
    assert |b| == |b - a| + |a * b|;
    if a * b != {} {
      var x :| x in a * b;
      assert x in a && x in b;
    }
  }

  /** The dictionary keeps the last of two entries with the same time. */
  lemma LastEntryWins(x: string, y: string)
    ensures ContentMap([Entry(5, x), Entry(5, y)]) == map[5 := y]
  {
    var xs := [Entry(5, x), Entry(5, y)];
    assert xs[..1] == [Entry(5, x)];
    assert [Entry(5, x)][..0] == [];
  }

  /** An original and a translated line at the same time share one output
      line. */
  lemma SharedTimeExample()
    ensures MergeEntries([Entry(1000, "Hello")], [Entry(1000, "Bonjour")])
            == [FormatTime(1000) + " " + "Hello" + " / " + "Bonjour"]
  {
    var o := "Hello";
    var t := "Bonjour";
    SharedTime(1000, o, t);
  }

  /** One original and one translated entry at the same time merge into a
      single line: the stamp, the original, ` / `, the translation. */
  lemma SharedTime(ms: nat, o: string, t: string)
    requires o != [] && t != []
    ensures MergeEntries([Entry(ms, o)], [Entry(ms, t)]) == [FormatTime(ms) + " " + o + " / " + t]
  {
    var om := ContentMap([Entry(ms, o)]);
    var tm := ContentMap([Entry(ms, t)]);
    SingleContentMap(ms, o);
    SingleContentMap(ms, t);
    var times := [ms];
    SortedSetIsTheSortedListing(om.Keys + tm.Keys, times);
    MergeTimesStep(times, om, tm);
    assert times[1..] == [];
  }

  lemma SingleContentMap(ms: nat, c: string)
    ensures ContentMap([Entry(ms, c)]) == map[ms := c]
  {
    assert [Entry(ms, c)][..0] == [];
  }

  lemma TwoContentMap(ms1: nat, c1: string, ms2: nat, c2: string)
    requires ms1 != ms2
    ensures ContentMap([Entry(ms1, c1), Entry(ms2, c2)]) == map[ms1 := c1, ms2 := c2]
  {
    var xs := [Entry(ms1, c1), Entry(ms2, c2)];
    assert xs[..1] == [Entry(ms1, c1)];
    SingleContentMap(ms1, c1);
  }

  /** Two lyrics with the same two times merge pairwise, in time order. */
  lemma TwoSharedTimes(ms1: nat, o1: string, t1: string, ms2: nat, o2: string, t2: string)
    requires ms1 < ms2 && o1 != [] && t1 != [] && o2 != [] && t2 != []
    ensures MergeEntries([Entry(ms1, o1), Entry(ms2, o2)], [Entry(ms1, t1), Entry(ms2, t2)])
            == [FormatTime(ms1) + " " + o1 + " / " + t1, FormatTime(ms2) + " " + o2 + " / " + t2]
  {
    var om := ContentMap([Entry(ms1, o1), Entry(ms2, o2)]);
    var tm := ContentMap([Entry(ms1, t1), Entry(ms2, t2)]);
    TwoContentMap(ms1, o1, ms2, o2);
    TwoContentMap(ms1, t1, ms2, t2);
    TwoTimes(om.Keys + tm.Keys, ms1, ms2);
    MergeTwoTimes(ms1, ms2, om, tm);
    Reassociate(FormatTime(ms1) + " ", o1, t1);
    Reassociate(FormatTime(ms2) + " ", o2, t2);
  }

  lemma TwoTimes(s: set<nat>, ms1: nat, ms2: nat)
    requires ms1 < ms2 && s == {ms1, ms2}
    ensures SortedSet(s) == [ms1, ms2]
  {
    SortedSetIsTheSortedListing(s, [ms1, ms2]);
  }

  lemma MergeTwoTimes(ms1: nat, ms2: nat, om: map<nat, string>, tm: map<nat, string>)
    requires Get(om, ms1) != [] && Get(om, ms2) != [] && Get(tm, ms1) != [] && Get(tm, ms2) != []
    ensures MergeTimes([ms1, ms2], om, tm)
            == [FormatTime(ms1) + " " + (Get(om, ms1) + " / " + Get(tm, ms1)),
                FormatTime(ms2) + " " + (Get(om, ms2) + " / " + Get(tm, ms2))]
  {
    var times := [ms1, ms2];
    MergeTimesStep(times, om, tm);
    assert times[1..] == [ms2];
    MergeTimesStep([ms2], om, tm);
    assert [ms2][1..] == [];
  }

  /** The module's own self-test: two two-line lyrics with the same times
      merge line by line into `[00:01.000] Hello world / 你好世界` and
      `[00:05.000] This is a test / 这是一个测试`. */
  lemma SelfTestExample()
    ensures MergeLyrics("[00:01.00]Hello world\n[00:05.00]This is a test",
                        "[00:01.00]你好世界\n[00:05.00]这是一个测试")
            == ["[00:01.000] Hello world / 你好世界",
                "[00:05.000] This is a test / 这是一个测试"]
  {
    SelfTestMerge("[00:01.00]Hello world\n[00:05.00]This is a test",
                  "[00:01.00]你好世界\n[00:05.00]这是一个测试");
  }

  /** `format_lrc_time` of a whole number of seconds below ten. */
  lemma WholeSecondStamp(ms: nat, sec: nat)
    requires sec < 10 && ms == sec * 1000
    ensures FormatTime(ms) == "[00:0" + [DigitChar(sec)] + ".000]"
  {
    WholeSecondFields(ms, sec);
  }

  lemma WholeSecondFields(ms: nat, sec: nat)
    requires sec < 10 && ms == sec * 1000
    ensures MinutesField(ms) == "00" && SecondsField(ms) == ['0', DigitChar(sec)]
    ensures MillisField(ms) == "000"
  {
    assert ms / 60000 == 0 && ms % 60000 / 1000 == sec && ms % 1000 == 0;
  }

  /** Two lyrics of two lines each, one tag per line, with the same two
      times in the same order: the merge pairs them line by line. */
  lemma TwoLineLyricsMerge(o: string, t: string, b1: string, o1: string, t1: string,
                           b2: string, o2: string, t2: string)
    requires o == "[" + b1 + "]" + o1 + "\n" + "[" + b2 + "]" + o2
    requires t == "[" + b1 + "]" + t1 + "\n" + "[" + b2 + "]" + t2
    requires IsTagBody(b1) && IsTagBody(b2) && TagTime(b1) < TagTime(b2)
    requires o1 != [] && IsTrimmed(o1) && FindTags(o1) == [] && '\n' !in o1
    requires o2 != [] && IsTrimmed(o2) && FindTags(o2) == [] && '\n' !in o2
    requires t1 != [] && IsTrimmed(t1) && FindTags(t1) == [] && '\n' !in t1
    requires t2 != [] && IsTrimmed(t2) && FindTags(t2) == [] && '\n' !in t2
    ensures MergeLyrics(o, t)
            == [FormatTime(TagTime(b1)) + " " + o1 + " / " + t1,
                FormatTime(TagTime(b2)) + " " + o2 + " / " + t2]
  {
    TwoStampedLines(o, b1, o1, b2, o2);
    TwoStampedLines(t, b1, t1, b2, t2);
    TwoSharedTimes(TagTime(b1), o1, t1, TagTime(b2), o2, t2);
  }

  // Literal helpers for `SelfTestExample`. Each one spells out a single
  // literal of the self-test (a line, a text, a stamp) so that the solver
  // never has to unfold the whole literal goal at once; none of them is a
  // fact about the merge.

  lemma SelfTestMerge(o: string, t: string)
    requires o == "[00:01.00]Hello world\n[00:05.00]This is a test"
    requires t == "[00:01.00]你好世界\n[00:05.00]这是一个测试"
    ensures MergeLyrics(o, t)
            == ["[00:01.000] Hello world / 你好世界",
                "[00:05.000] This is a test / 这是一个测试"]
  {
    var b1, b2 := "00:01.00", "00:05.00";
    var o1, o2 := "Hello world", "This is a test";
    var t1, t2 := "你好世界", "这是一个测试";
    OneSecondTag(b1);
    FiveSecondTag(b2);
    HelloWorldText(o1);
    TestLineText(o2);
    NihaoText(t1);
    TestLineTranslation(t2);
    OriginalSpelling(o, b1, o1, b2, o2);
    TranslationSpelling(t, b1, t1, b2, t2);
    WholeSecondStamp(TagTime(b1), 1);
    WholeSecondStamp(TagTime(b2), 5);
    FirstMergedSpelling(FormatTime(TagTime(b1)), o1, t1);
    SecondMergedSpelling(FormatTime(TagTime(b2)), o2, t2);
    TwoLineLyricsMerge(o, t, b1, o1, t1, b2, o2, t2);
  }

  lemma OriginalSpelling(o: string, b1: string, o1: string, b2: string, o2: string)
    requires o == "[00:01.00]Hello world\n[00:05.00]This is a test"
    requires b1 == "00:01.00" && b2 == "00:05.00"
    requires o1 == "Hello world" && o2 == "This is a test"
    ensures o == "[" + b1 + "]" + o1 + "\n" + "[" + b2 + "]" + o2
  {
    var l1, l2 := "[00:01.00]Hello world", "[00:05.00]This is a test";
    OriginalLines(o, l1, l2);
    HelloWorldLine(l1, b1, o1);
    TestLine(l2, b2, o2);
    JoinTwoLines(o, l1, l2, b1, o1, b2, o2);
  }

  lemma TranslationSpelling(t: string, b1: string, t1: string, b2: string, t2: string)
    requires t == "[00:01.00]你好世界\n[00:05.00]这是一个测试"
    requires b1 == "00:01.00" && b2 == "00:05.00"
    requires t1 == "你好世界" && t2 == "这是一个测试"
    ensures t == "[" + b1 + "]" + t1 + "\n" + "[" + b2 + "]" + t2
  {
    var l1, l2 := "[00:01.00]你好世界", "[00:05.00]这是一个测试";
    TranslationLines(t, l1, l2);
    NihaoLine(l1, b1, t1);
    TestTranslationLine(l2, b2, t2);
    JoinTwoLines(t, l1, l2, b1, t1, b2, t2);
  }

  lemma OriginalLines(text: string, l1: string, l2: string)
    requires text == "[00:01.00]Hello world\n[00:05.00]This is a test"
    requires l1 == "[00:01.00]Hello world" && l2 == "[00:05.00]This is a test"
    ensures text == l1 + "\n" + l2
  {
  }

  lemma TranslationLines(text: string, l1: string, l2: string)
    requires text == "[00:01.00]你好世界\n[00:05.00]这是一个测试"
    requires l1 == "[00:01.00]你好世界" && l2 == "[00:05.00]这是一个测试"
    ensures text == l1 + "\n" + l2
  {
  }

  lemma HelloWorldLine(l: string, b: string, c: string)
    requires l == "[00:01.00]Hello world" && b == "00:01.00" && c == "Hello world"
    ensures l == "[" + b + "]" + c
  {
  }

  lemma TestLine(l: string, b: string, c: string)
    requires l == "[00:05.00]This is a test" && b == "00:05.00" && c == "This is a test"
    ensures l == "[" + b + "]" + c
  {
  }

  lemma NihaoLine(l: string, b: string, c: string)
    requires l == "[00:01.00]你好世界" && b == "00:01.00" && c == "你好世界"
    ensures l == "[" + b + "]" + c
  {
  }

  lemma TestTranslationLine(l: string, b: string, c: string)
    requires l == "[00:05.00]这是一个测试" && b == "00:05.00" && c == "这是一个测试"
    ensures l == "[" + b + "]" + c
  {
  }

  lemma JoinTwoLines(text: string, l1: string, l2: string, b1: string, c1: string, b2: string, c2: string)
    requires l1 == "[" + b1 + "]" + c1 && l2 == "[" + b2 + "]" + c2 && text == l1 + "\n" + l2
    ensures text == "[" + b1 + "]" + c1 + "\n" + "[" + b2 + "]" + c2
  {
  }

  lemma FirstMergedSpelling(stamp: string, o1: string, t1: string)
    requires stamp == "[00:0" + [DigitChar(1)] + ".000]"
    requires o1 == "Hello world" && t1 == "你好世界"
    ensures stamp + " " + o1 + " / " + t1 == "[00:01.000] Hello world / 你好世界"
  {
  }

  lemma SecondMergedSpelling(stamp: string, o2: string, t2: string)
    requires stamp == "[00:0" + [DigitChar(5)] + ".000]"
    requires o2 == "This is a test" && t2 == "这是一个测试"
    ensures stamp + " " + o2 + " / " + t2 == "[00:05.000] This is a test / 这是一个测试"
  {
  }

  lemma HelloWorldText(c: string)
    requires c == "Hello world"
    ensures c != [] && IsTrimmed(c) && FindTags(c) == [] && '\n' !in c
  {
    assert IsTrimmed(c) by { assert c[0] == 'H' && c[|c| - 1] == 'd'; }
    assert '[' !in c && '\n' !in c by {
      forall i | 0 <= i < |c| ensures c[i] != '[' && c[i] != '\n' {
        assert c[i] in "Helo wrd";
      }
    }
    NoBracketNoTags(c);
  }

  lemma TestLineText(c: string)
    requires c == "This is a test"
    ensures c != [] && IsTrimmed(c) && FindTags(c) == [] && '\n' !in c
  {
    assert IsTrimmed(c) by { assert c[0] == 'T' && c[|c| - 1] == 't'; }
    assert '[' !in c && '\n' !in c by {
      forall i | 0 <= i < |c| ensures c[i] != '[' && c[i] != '\n' {
        assert c[i] in "Thisate ";
      }
    }
    NoBracketNoTags(c);
  }

  lemma NihaoText(c: string)
    requires c == "你好世界"
    ensures c != [] && IsTrimmed(c) && FindTags(c) == [] && '\n' !in c
  {
    assert IsTrimmed(c) by { assert c[0] == '你' && c[|c| - 1] == '界'; }
    assert '[' !in c && '\n' !in c by {
      forall i | 0 <= i < |c| ensures c[i] != '[' && c[i] != '\n' {
        assert c[i] in "你好世界";
      }
    }
    NoBracketNoTags(c);
  }

  lemma TestLineTranslation(c: string)
    requires c == "这是一个测试"
    ensures c != [] && IsTrimmed(c) && FindTags(c) == [] && '\n' !in c
  {
    assert IsTrimmed(c) by { assert c[0] == '这' && c[|c| - 1] == '试'; }
    assert '[' !in c && '\n' !in c by {
      forall i | 0 <= i < |c| ensures c[i] != '[' && c[i] != '\n' {
        assert c[i] in "这是一个测试";
      }
    }
    NoBracketNoTags(c);
  }
}
