# LRC lyric pipeline and playlist helpers, in Dafny

This project models the pure core of a small NetEase Cloud Music downloader and
proves properties of it:

* **The LRC lyric pipeline** (`Lyrics.py`):
  * the timecode codec (`parse_lrc_time`, `format_lrc_time`);
  * the document parser (`parse_lrc_content`), which finds every
    `[digits:digits.digits]` tag on a line, emits one `(time, content)` entry
    per tag, and stably sorts the entries by time;
  * the merger (`merge_lyrics`), which collapses the original and the
    translated lyric into time → text dictionaries and writes one
    `"[MM:SS.mmm] original / translation"` line per timestamp of the sorted
    union.
* **The playlist page scanner** (`Songs_url.py`):
  * `SongParser`, as a state machine over start-tag, text and end-tag events;
  * the `/#` clean-up of the playlist address;
  * the song-address loop of `get_songs_url_list`.
* **The downloader's naming rules** (`main.py`):
  * `sanitize_filename`;
  * the name choice of `create_unique_directory`, made against a finite set of
    names that already exist;
  * the required-field check of `process_song`.

Files:

| file | module(s) | what it holds |
|---|---|---|
| `wrappers.dfy` | `Wrappers` | `Option`, `Result` |
| `pystr.dfy` | `PyStr` | the Python `str` operations the code relies on: `isspace`, `strip`, `split`, `startswith`, `in` and `replace` |
| `decimal.dfy` | `Decimal` | ASCII digit strings, `int()`, `str()`, zero padding |
| `timecode.dfy` | `Timecode` | `parse_lrc_time`, `format_lrc_time` and their round trip |
| `entries.dfy` | `Entries` | lyric entries, the stable sort by time, per-time views |
| `lrc_parser.dfy` | `LrcParser`, `LrcParserFacts` | the tag scanner, line and document parsing |
| `merger.dfy` | `Merger`, `MergerFacts` | the dictionaries, the sorted union, the merged lines |
| `song_parser.dfy` | `SongParser` | the HTML event state machine |
| `song_urls.dfy` | `SongUrls` | the playlist address clean-up and the song addresses |
| `downloader.dfy` | `Downloader` | the required fields, `sanitize_filename`, unique directory names |

Python behaviours that needed a decision:

* **Whitespace:**
  * `str.strip()` removes exactly the characters of Python's `str.isspace()`,
    which are listed in `PyStr.Whitespace`.
  * `strip('[]')` removes only brackets.
* **`int()`:** accepts a non-empty string of ASCII digits. Signs, spaces,
  underscores and non-ASCII digits are not modelled.
* **Tag matching:** `re.findall` / `re.sub` with `\[(\d+:\d+\.\d+)\]` is a
  leftmost, non-overlapping scan.
  * At a `[`, a tag is the text up to the first `]`, provided that text has
    the shape `digits:digits.digits`.
  * Otherwise the `[` is ordinary text.
* **Timecode errors:** a malformed timecode is `Err(InvalidFormat(t))`, where
  `t` is the text after `strip('[]')`. This is the text the source's
  `ValueError` message carries.
* **Bare `class` attribute:** a valueless `class` attribute on a `<ul>` (as in
  `<ul class>`) makes `"f-hide" in value` raise `TypeError`.
  * The exception leaves `feed`, and `get_song_links` catches it and returns
    `[]`.
  * The model's `Step` returns `Err(ValuelessClass)` here, and `SongLinks`
    maps that to `[]`.

* **Skipped timecodes:** `parse_lrc_content` catches a `ValueError` for each
  tag and skips that tag with a printed warning (`Lyrics.py:87-95`).
  `EntriesFor` models the skip, and `LrcParser.TagBodyParses` shows it never
  fires for tags whose minute and second runs have at most 4300 digits: every
  such text the tag pattern matches decodes. Longer runs exceed Python's
  `int()` digit limit and are skipped there; the model has no such limit (see
  "Left out"). A malformed bracket such as `[xx]` is not a tag at all and
  stays in the line's text.

## Model

| member | source | states |
|---|---|---|
| Timecode.ParseTime | Lyrics.py:21-41 | a failure always carries the bracket-stripped text, and text without `:` always fails |
| Timecode.ParseTimeOfDigits | Lyrics.py:23-38 | for digit fields `m:s.f`, the result is `m*60000 + s*1000 + FractionValue(f)` |
| Timecode.ParseTimeShape | Lyrics.py:21-38 | a successful parse has read, after `strip('[]')`, a digit run, `:`, a digit run, then nothing or `.` and a fraction whose first (at most three) characters are digits; the result is minutes x 60000 + seconds x 1000 + the fraction's milliseconds |
| Timecode.FractionMillisRead | Lyrics.py:28-31 | a fraction that converts at all has digits in its first (at most three) characters, and these give its milliseconds |
| Timecode.FractionMillisAccepts | Lyrics.py:28-31 | conversely, a fraction whose first (at most three) characters are digits converts to their milliseconds, whatever follows them |
| Timecode.ParseTimeOfFraction | Lyrics.py:21-38 | `m:s.f` with digit runs `m` and `s` parses whenever the first (at most three) characters of `f` are digits, whatever follows them, and the result is minutes x 60000 + seconds x 1000 + those characters' milliseconds |
| Timecode.FractionValueMeaning | Lyrics.py:28-31 | a fraction is always below 1000 ms; one digit is read as it stands, two digits are hundredths (x10), and from three digits on every digit after the third is cut off (value div 10^(n-3)) |
| Decimal.PrefixValue | Lyrics.py:31 | the first n digits of a numeral denote its value with the other digits cut off |
| Decimal.ValueBound | Lyrics.py:31 | a numeral of k digits denotes less than 10^k |
| Timecode.ParseTimeWithoutFraction | Lyrics.py:32-34 | with no `.` after the colon, the milliseconds part is 0 |
| Timecode.HundredthsExample | Lyrics.py:28-29 | `01:30.50` is 90500 ms |
| Timecode.ThousandthsExample | Lyrics.py:30-31 | `01:30.500` is 90500 ms |
| Timecode.BracketedExample | Lyrics.py:22 | `[01:30.500]` is 90500 ms, with the brackets stripped first |
| Timecode.OneDigitFractionExample | Lyrics.py:30-31 | a one-digit fraction `5` is 5 ms, not 500 |
| Timecode.FourDigitFractionExample | Lyrics.py:30-31 | a four-digit fraction `5009` is 500 ms: only its first three digits count |
| Timecode.TrailingTextExample | Lyrics.py:30-31 | `00:00.500x` is 500 ms: characters after the first three of the fraction are never read |
| Timecode.MissingColonExample | Lyrics.py:22-23 | `[bad]` fails, and the error carries `bad` |
| Timecode.FormatTimeShape | Lyrics.py:54-57 | the output is `[MM:SS.mmm]`: minutes padded to two digits and no further (exactly two below ten minutes, no leading zero from ten on), seconds exactly two and below 60, millis exactly three and below 1000, together denoting `ms` |
| Timecode.MinutesFieldShape | Lyrics.py:54 | `{minutes:02d}`: the minutes field reads back as `ms div 60000`, unbounded, is exactly two digits below ten minutes and has no leading zero from ten on, which fixes its text |
| Timecode.SecondsFieldShape | Lyrics.py:55 | the seconds field reads back as `(ms mod 60000) div 1000` |
| Timecode.MillisFieldShape | Lyrics.py:56 | the millis field reads back as `ms mod 1000` |
| Timecode.ParseFormatRoundTrip | Lyrics.py:44-57 | for every ms, parsing the formatted time gives ms back (in Python, for minute counts of at most 4300 digits) |
| Decimal.NatToString | Lyrics.py:57 | the decimal numeral is non-empty, all digits, reads back as `n`, and has no leading zero |
| Decimal.PaddedNumeralValue | Lyrics.py:57 | a zero-padded numeral still reads back as `n` |
| PyStr.Strip | Lyrics.py:22 | `strip(chars)` removes the longest prefix and suffix in the set; what is left is a slice whose ends are not in the set |
| PyStr.TrimTwice | Lyrics.py:76 | stripping is idempotent |
| PyStr.Split | Lyrics.py:72 | the pieces hold no separator and join back to the input |
| PyStr.ReplaceNoLonger | main.py:229 | a replacement no longer than the pattern never lengthens the text |
| Entries.Insert | Lyrics.py:98 | inserting into a sorted list keeps it sorted and adds exactly the element; the new first element is either that element or the old first one |
| Entries.SortByTime | Lyrics.py:98 | the result is sorted by time and is a permutation of the input |
| Entries.SortByTimeIsStable | Lyrics.py:98 | for every time, the entries with that time keep their input order (stability) |
| Entries.StableSortUnique | Lyrics.py:98 | two time-sorted lists with the same per-time subsequences are equal, so a stable sort's result is unique |
| Entries.StableSortIsSortByTime | Lyrics.py:98 | any stable sort of a list is `SortByTime` of it |
| LrcParser.TagBodyParses | Lyrics.py:81-95 | every text the tag pattern matches decodes, so the skip-with-diagnostic branch is unreachable (in Python, for minute and second runs of at most 4300 digits) |
| LrcParser.TagBodyHasNoBrackets | Lyrics.py:81 | a tag body holds no bracket and no line break |
| LrcParser.TagEnd | Lyrics.py:81 | a tag found at the start of a text runs from its opening `[` to a `]`, with a valid `digits:digits.digits` body in between |
| LrcParser.TagEndFinds | Lyrics.py:81 | `[`, a valid body, `]` at the start of a text is found as a tag of exactly that length, whatever follows |
| LrcParser.Tokenize | Lyrics.py:81-84 | the scan splits a line into text and tags that spell the line again, and every tag has a valid body |
| LrcParser.FindTags | Lyrics.py:81 | every tag found has the `digits:digits.digits` shape |
| LrcParserFacts.TokenizeIsLeftmost | Lyrics.py:81-84 | at every position the scan takes a tag exactly when a tag starts there, and a single character of text otherwise |
| LrcParserFacts.LeftmostIsTokenize | Lyrics.py:81-84 | any split of a line into text and valid tags that takes a tag wherever one starts is the scan's split, so the leftmost scan is unique |
| LrcParserFacts.TokenizeSplitsAtBracket | Lyrics.py:81-84 | at a `[` the line can be cut: the scan of the whole is the scan of the part before it followed by the scan from it on |
| LrcParserFacts.FindsEveryTag | Lyrics.py:81-84 | a tag anywhere in a line is found: `a[b]c` yields the tags of `a`, then `b`, then the tags of `c`, and removing tags leaves what `a` and `c` leave |
| LrcParserFacts.MidLineTagExample | Lyrics.py:81-84 | `a[00:01.00]` holds the tag `00:01.00` and the text `a` |
| LrcParser.EntriesForTags | Lyrics.py:86-92 | with valid tags, there is one entry per tag, in tag order, with the tag's time and the shared content |
| LrcParser.LineEntries | Lyrics.py:75-95 | a line gives non-empty trimmed entries whose text is the tag-free, stripped line; a line with no tag or no text gives none |
| LrcParser.MultiTagLine | Lyrics.py:86-92 | a line with k tags and text gives k entries in tag order, all with the same text |
| LrcParser.ParseLrc | Lyrics.py:59-99 | the result is sorted by time and is the stable sort of the per-line entries; every entry has non-empty trimmed text; blank text gives `[]` |
| LrcParserFacts.TagBodyNeedsBothSeparators | Lyrics.py:81 | a tag needs both `:` and `.`, so `[00:01]` is not a tag |
| LrcParserFacts.NoBracketNoTags | Lyrics.py:81-84 | text without `[` has no tags and keeps all its characters |
| LrcParserFacts.TaggedLineEntries | Lyrics.py:81-92 | a line of tags followed by plain trimmed text gives exactly one entry per tag with that text |
| LrcParserFacts.TaggedDocument | Lyrics.py:69-99 | a one-line document of tags and text parses to the sorted entries of its tags |
| LrcParserFacts.TwoTagDocument | Lyrics.py:86-98 | a line with two ordered tags and text parses to two entries with that text, in tag order |
| LrcParserFacts.FormattedLineReparses | Lyrics.py:57 | a line `FormatTime(ms) + " " + text` parses back to the single entry `(ms, text)` |
| LrcParserFacts.RepeatedLineExample | Lyrics.py:86-98 | `[00:01.00][00:10.00]Repeated line` gives that text at 1000 ms and at 10000 ms |
| LrcParserFacts.TwoLineDocument | Lyrics.py:69-99 | a document of two lines, neither holding a line break, parses to the first line's entries followed by the second's, sorted by time |
| LrcParserFacts.TwoStampedLines | Lyrics.py:69-99 | two lines of one tag and plain text each, in time order, parse to one entry per line in line order |
| Merger.ContentMap | Lyrics.py:124-125 | the dictionary's keys are exactly the entries' times, and each value belongs to an entry with that time |
| Merger.ContentMapIsLast | Lyrics.py:124-125 | the dictionary holds the text of the LAST entry with each time, and nothing for absent times |
| Merger.GetIsLastOrEmpty | Lyrics.py:133-134 | `get(t, '')` is the last text at `t`, or empty |
| Merger.SortedSet | Lyrics.py:128 | `sorted(set)` is strictly increasing and lists exactly the set |
| Merger.SortedSetIsTheSortedListing | Lyrics.py:128 | every strictly increasing listing of a set is `SortedSet` of it |
| Merger.MergeLine | Lyrics.py:136-143 | a line is skipped exactly when both sides are empty |
| Merger.MergeLineLayout | Lyrics.py:136-141 | each written line is the formatted time, a space, then `orig / trans`, or the one side present |
| Merger.MergeTimesKeepsEveryTime | Lyrics.py:132-145 | when one side has text at every time, line i is for time i and no time is skipped |
| Merger.AllTimes | Lyrics.py:128 | the merged times are strictly increasing, and each comes from one of the two lyrics |
| Merger.MergeOfDisplayEntries | Lyrics.py:124-147 | on parsed lyrics, there is exactly one line per distinct time, in increasing order, each with the time and the text there |
| Merger.MergeLyrics | Lyrics.py:154-165 | blank inputs on both sides give no lines |
| Merger.LineCountBound | Lyrics.py:128-145 | there are never more lines than entries on both sides together |
| MergerFacts.MergeLyricsLines | Lyrics.py:108-147 | `merge_lyrics` of two texts gives one line per distinct parsed time, increasing, each stamped and carrying the text at that time |
| MergerFacts.GetIsDisplay | Lyrics.py:133-134 | a looked-up text is stripped, and it is empty exactly when the lyric has no entry at that time |
| MergerFacts.MergedLineReparses | Lyrics.py:136-141 | each merged line whose text holds no tag is itself an LRC line that parses back to its time and text |
| MergerFacts.DisjointLineCount | Lyrics.py:128 | the line count is the sum of both sides' distinct times exactly when no time is shared |
| MergerFacts.LastEntryWins | Lyrics.py:124 | of two entries with the same time, the dictionary keeps the second |
| MergerFacts.SharedTime | Lyrics.py:124-145 | one original and one translated entry at the same time merge into the single line `stamp original / translation` |
| MergerFacts.SharedTimeExample | Lyrics.py:136-137 | `Hello` and `Bonjour` at 1000 ms merge into one line: the formatted time, then ` Hello / Bonjour` |
| MergerFacts.TwoSharedTimes | Lyrics.py:124-145 | two lyrics with the same two times merge pairwise into two lines `stamp original / translated`, in time order |
| MergerFacts.TwoLineLyricsMerge | Lyrics.py:108-147 | two texts of two one-tag lines each, with the same times in the same order, merge line by line into `stamp original / translated` |
| MergerFacts.WholeSecondStamp | Lyrics.py:54-57 | a whole number of seconds below ten is formatted `[00:0s.000]` |
| MergerFacts.SelfTestExample | Lyrics.py:186-193 | the module's self-test texts merge into `[00:01.000] Hello world / 你好世界` and `[00:05.000] This is a test / 这是一个测试` |
| SongParser.AttrValue | Songs_url.py:51-56 | a value found belongs to an attribute with the target name |
| SongParser.AttrValueIsFirst | Songs_url.py:51-56 | the lookup returns the value of the FIRST attribute with that name |
| SongParser.AttrValueAbsent | Songs_url.py:56 | with no such attribute, the lookup gives `None` |
| SongParser.OpensAtMark | Songs_url.py:22-26 | a `class` containing `f-hide`, with no bare `class` before it, opens the song list |
| SongParser.RaisesAtBareClass | Songs_url.py:22-24 | a bare `class` with no marking `class` before it makes the start tag raise |
| SongParser.NoClassDecides | Songs_url.py:22-26 | without either kind of `class`, a `<ul>` leaves the list flag as it was |
| SongParser.OnStartTag | Songs_url.py:20-32 | only a `<ul>` can fail. The list flag is set only by a marking `<ul>`. An `<a>` inside the list whose `href` starts with `/song` opens the song `{href}`, and the open song changes at no other tag. Found songs never change |
| SongParser.OnData | Songs_url.py:34-39 | inside the list, with a song open and text that is non-empty once stripped, the open song's name becomes the stripped text, replacing any earlier name; in every other case nothing changes |
| SongParser.OnEndTag | Songs_url.py:41-49 | `</a>` appends the open song exactly when it has a name, and always closes it; any `</ul>` clears the list flag |
| SongParser.StepAppends | Songs_url.py:41-46 | each event keeps the found songs as a prefix and adds at most one, only at `</a>`, and that one is the open song |
| SongParser.StepKeepsValid | Songs_url.py:29-46 | each event keeps every found and open song with a `/song` link and a non-empty stripped name |
| SongParser.FeedKeepsValid | Songs_url.py:20-49 | feeding keeps that invariant, and the list of found songs only grows |
| SongParser.SongLinksAreWellFormed | Songs_url.py:124-127 | every reported song has a `/song...` link and a non-empty stripped name |
| SongParser.NoListPage | Songs_url.py:22-32 | a page without a `<ul>` start tag yields no songs |
| SongParser.ValuelessClassLosesEverything | Songs_url.py:130-134 | a `<ul class>` makes `get_song_links` return `[]`, losing songs found before it |
| SongParser.FeedAppend | Songs_url.py:124 | feeding two batches is feeding their concatenation |
| SongParser.OneSongExample | Songs_url.py:20-49 | one link inside an `f-hide` list is collected with its stripped name |
| SongUrls.EffectiveUrl | Songs_url.py:102 | the clean-up never lengthens the address and leaves an address without `/#` unchanged |
| SongUrls.DropsEveryMarker | Songs_url.py:102 | every `/#` is removed, left to right: the text before the first marker is kept and the clean-up continues after it |
| SongUrls.DropsTheMarker | Songs_url.py:102 | one `/#` with none elsewhere is removed and nothing else changes |
| SongUrls.TwoMarkersExample | Songs_url.py:102 | `a/#b/#c` becomes `abc` |
| SongUrls.MarkerCanSurvive | Songs_url.py:102 | `//##` becomes `/#`, so the cleaned address can still contain `/#` |
| SongUrls.SongUrlList | Songs_url.py:152-158 | there are no more addresses than songs, and each starts with the base address |
| SongUrls.SongUrlListAppend | Songs_url.py:155-158 | the loop keeps song order |
| SongUrls.UnusableDropped | Songs_url.py:156 | a song without a link or a name gives no address |
| SongUrls.AllUsableKept | Songs_url.py:155-158 | songs with link and name give exactly one address each, in order, base plus link |
| SongUrls.PlaylistSongUrls | Songs_url.py:146-161 | after scanning, there is one address per found song, in order, base plus link |
| SongUrls.PlaylistUrlsAreSongPages | Songs_url.py:153-157 | every address starts with `https://music.163.com/song` |
| Downloader.MissingField | main.py:160-163 | `None` exactly when all seven keys are present; otherwise a required key that is absent |
| Downloader.FirstMissingIsFirst | main.py:161-163 | the reported key is the first missing one in checking order |
| Downloader.MissingArtistExample | main.py:160-163 | a record with `name` but no `ar_name` is reported as missing `ar_name` |
| Downloader.Sanitize | main.py:222-230 | an empty name gives `unknown`, and the result never starts or ends with whitespace |
| Downloader.Scrub | main.py:227-229 | each listed character becomes `,` and the others stay, one for one, at the same length |
| Downloader.ReplaceCharIsScrub | main.py:229 | `replace(c, ',')` is the per-character substitution of `c` |
| Downloader.ReplaceEachIsScrub | main.py:227-229 | the replacement loop over the invalid characters is the per-character substitution of all of them |
| Downloader.SanitizeMeaning | main.py:222-230 | a non-empty name gives the stripped per-character substitution |
| Downloader.SanitizedIsSafe | main.py:227-230 | a sanitized name contains none of `<>:"/\|?*` |
| Downloader.BlankNameBecomesEmpty | main.py:224-230 | a non-empty whitespace-only name gives `""`, not `unknown` |
| Downloader.VisibleNameStaysNonEmpty | main.py:224-230 | a name with any non-whitespace character gives a non-empty result |
| Downloader.CleanNameUnchanged | main.py:222-230 | a clean, stripped, non-empty name is kept as it is |
| Downloader.SanitizeIdempotent | main.py:222-230 | sanitizing a non-empty result again changes nothing |
| Downloader.FolderName | main.py:166-169 | the folder name `song-artist` is non-empty and contains none of `<>:"/\|?*` |
| Downloader.Candidate | main.py:140-145 | the first name tried is the folder name itself, and no later attempt tries it again |
| Downloader.CandidateInjective | main.py:144-146 | different attempts try different names |
| Downloader.UniqueName | main.py:138-149 | the name chosen is free and is attempt k, every earlier attempt is taken, and k is at most the number of taken names, so the loop ends |
| Downloader.FirstFreeUnique | main.py:144-146 | only one attempt number has a free name with all earlier candidates taken |

## Left out

* **I/O:** HTTP requests, the SSL context, retries, `time.sleep` and the
  random jitter are not modelled. They are network I/O and nondeterminism.
* **MP3 tagging:** the ID3 metadata embedding is a foreign library plus file
  I/O.
* **Files and console:** file writes, directory creation, the `exists` test
  and the console `input()` calls are not modelled.
  * `create_unique_directory` becomes `UniqueName` over a finite set of taken
    names.
  * The candidate is built from the folder name itself. This equals
    `base_path.name` because sanitized names hold no `/`.
* **Encoding detection:** the encoding detection and the decode fallbacks
  depend on codec libraries.
* **HTML tokenizing:** the page text is not tokenized. `SongParser` works on
  the event sequence that Python's `HTMLParser` would deliver. How the
  tokenizer lower-cases names, unescapes values, splits text chunks or holds
  back trailing text is not modelled.
* **Diagnostic prints:** `print` diagnostics are treated as silent.
* **Output joining:** the `"".join` that writes the merged lines to the `.lrc`
  file is not modelled. The model stops at the list of lines.
* **Non-string values:** a record value that is not a string (for example a
  `None` name, which `sanitize_filename` also turns into `unknown`) is not
  modelled. Names are strings, and only the empty string is falsy.
* Timecode.ParseTime: `int()` is restricted to ASCII digit strings. Python
  also accepts surrounding whitespace, a sign, underscores between digits and
  non-ASCII decimal digits, and the regex `\d` matches non-ASCII digits too.
  Inputs using these are outside the model.
* Timecode.FormatTime: negative milliseconds are outside the model (it takes
  a `nat`). Python would format -1 as `[-1:59.999]`, but every time the
  parser produces, and so every time the merger formats, is non-negative.
* Timecode.ParseTime: Python's limit on converting a decimal string with
  `int()` (4300 digits by default since CPython 3.11 and the matching
  security releases) is not modelled.
  * A minute or second run longer than that raises `ValueError` at
    `Lyrics.py:36-37`, so `parse_lrc_content` skips the tag
    (`Lyrics.py:93-95`); the model reads it.
  * The fraction is never affected, since at most three of its characters
    are converted.
  * `format_lrc_time` also raises when the minute count has more than 4300
    digits, so `Timecode.FormatTime` and `Timecode.ParseFormatRoundTrip`
    match Python only below that size.
* Timecode.ParseTime: the `AttributeError` branch for a non-string argument
  is not modelled, because arguments are strings.
