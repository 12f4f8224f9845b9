/** The playlist page scanner (Songs_url.py, `SongParser`): a state machine
    over the start-tag, text and end-tag events an HTML tokenizer delivers.
    It opens a "song list" at a `<ul>` whose `class` mentions `f-hide`,
    remembers the `href` of each `<a>` inside it that points at `/song…`,
    takes the link's stripped text as the song's name, and keeps the song
    when the link closes with a name. */
module SongParser {
  import opened Wrappers
  import opened PyStr

  /** One attribute as the tokenizer reports it; a bare attribute such as
      `<ul class>` has no value. */
  datatype Attr = Attr(name: string, value: Option<string>)

  datatype Event =
    | StartTag(tag: string, attrs: seq<Attr>)
    | Data(text: string)
    | EndTag(tag: string)

  /** A song dictionary: `{"href": …}` with an optional `"name"`. */
  datatype Song = Song(href: string, name: Option<string>)

  datatype ParserState = ParserState(inSongList: bool, current: Option<Song>, songLinks: seq<Song>)

  /** `"f-hide" in value` on a valueless attribute raises a `TypeError`,
      which ends the whole parse. */
  datatype ParseError = ValuelessClass

  const Initial := ParserState(false, None, [])

  /** The value of the first attribute called `target`; a missing attribute
      and a valueless one both read as `None`. */
  function AttrValue(attrs: seq<Attr>, target: string): (r: Option<string>)
    ensures r.Some? ==> exists i :: 0 <= i < |attrs| && attrs[i].name == target && attrs[i].value == r
  {
    if attrs == [] then None
    else if attrs[0].name == target then attrs[0].value
    else AttrValue(attrs[1..], target)
  }

  /** `AttrValue` is the value of the first attribute with that name. */
  lemma {:induction false} AttrValueIsFirst(attrs: seq<Attr>, target: string, i: nat)
    requires i < |attrs| && attrs[i].name == target
    requires forall j :: 0 <= j < i ==> attrs[j].name != target
    ensures AttrValue(attrs, target) == attrs[i].value
  {
    if i > 0 {
      AttrValueIsFirst(attrs[1..], target, i - 1);
    }
  }

  /** With no attribute of that name the lookup finds nothing. */
  lemma {:induction false} AttrValueAbsent(attrs: seq<Attr>, target: string)
    requires forall j :: 0 <= j < |attrs| ==> attrs[j].name != target
    ensures AttrValue(attrs, target) == None
  {
    if attrs != [] {
      AttrValueAbsent(attrs[1..], target);
    }
  }

  /** An attribute that marks the song list. */
  predicate MarksList(a: Attr) {
    a.name == "class" && a.value.Some? && Contains(a.value.value, "f-hide")
  }

  /** An attribute whose test raises. */
  predicate Raises(a: Attr) {
    a.name == "class" && a.value.None?
  }

  /** The attribute loop of `handle_starttag` for a `<ul>`: true at the first
      `class` mentioning `f-hide`; an error at a valueless `class` met first. */
  function OpensSongList(attrs: seq<Attr>): (r: Result<bool, ParseError>)
  {
    if attrs == [] then Ok(false)
    else if Raises(attrs[0]) then Err(ValuelessClass)
    else if MarksList(attrs[0]) then Ok(true)
    else OpensSongList(attrs[1..])
  }

  /** The loop opens the list at a marking `class` that no valueless
      `class` precedes. */
  lemma {:induction false} OpensAtMark(attrs: seq<Attr>, i: nat)
    requires i < |attrs| && MarksList(attrs[i])
    requires forall j :: 0 <= j < i ==> !Raises(attrs[j])
    ensures OpensSongList(attrs) == Ok(true)
  {
    if i > 0 && !MarksList(attrs[0]) {
      assert !Raises(attrs[0]);
      OpensAtMark(attrs[1..], i - 1);
    }
  }

  /** The loop raises at a valueless `class` that no marking `class`
      precedes. */
  lemma {:induction false} RaisesAtBareClass(attrs: seq<Attr>, i: nat)
    requires i < |attrs| && Raises(attrs[i])
    requires forall j :: 0 <= j < i ==> !MarksList(attrs[j])
    ensures OpensSongList(attrs) == Err(ValuelessClass)
  {
    if i > 0 && !Raises(attrs[0]) {
      assert !MarksList(attrs[0]);
      RaisesAtBareClass(attrs[1..], i - 1);
    }
  }

  /** With neither kind of `class` attribute the list stays as it was. */
  lemma {:induction false} NoClassDecides(attrs: seq<Attr>)
    requires forall j :: 0 <= j < |attrs| ==> !MarksList(attrs[j]) && !Raises(attrs[j])
    ensures OpensSongList(attrs) == Ok(false)
  {
    if attrs != [] {
      NoClassDecides(attrs[1..]);
    }
  }

  /** An `href` the parser takes as a song link. */
  predicate IsSongHref(href: string) {
    href != [] && StartsWith(href, "/song")
  }

  /** `handle_starttag`. */
  function OnStartTag(st: ParserState, tag: string, attrs: seq<Attr>): (r: Result<ParserState, ParseError>)
    ensures r.Ok? ==> r.value.songLinks == st.songLinks
    ensures tag != "ul" ==> r.Ok?
    ensures r.Err? <==> tag == "ul" && OpensSongList(attrs).Err?
    ensures r.Ok? ==> (r.value.inSongList <==> st.inSongList || (tag == "ul" && OpensSongList(attrs) == Ok(true)))
    ensures r.Ok? && r.value.current != st.current ==>
              tag == "a" && r.value.inSongList && AttrValue(attrs, "href").Some?
              && IsSongHref(AttrValue(attrs, "href").value)
              && r.value.current == Some(Song(AttrValue(attrs, "href").value, None))
    ensures r.Ok? && tag == "a" && r.value.inSongList && AttrValue(attrs, "href").Some?
            && IsSongHref(AttrValue(attrs, "href").value) ==>
              r.value.current == Some(Song(AttrValue(attrs, "href").value, None))
  {
    var listed :=
      if tag == "ul" then
        match OpensSongList(attrs)
        case Err(e) => Err(e)
        case Ok(b) => Ok(st.inSongList || b)
      else Ok(st.inSongList);
    match listed
    case Err(e) => Err(e)
    case Ok(inList) =>
      var href := AttrValue(attrs, "href");
      if inList && tag == "a" && href.Some? && IsSongHref(href.value) then
        Ok(st.(inSongList := inList, current := Some(Song(href.value, None))))
      else Ok(st.(inSongList := inList))
  }

  /** `handle_data`. */
  function OnData(st: ParserState, text: string): (r: ParserState)
    ensures r.songLinks == st.songLinks && r.inSongList == st.inSongList
    ensures r.current.None? <==> st.current.None?
    ensures r.current.Some? ==> r.current.value.href == st.current.value.href
    ensures st.inSongList && st.current.Some? && Trim(text) != [] ==>
              r.current == Some(st.current.value.(name := Some(Trim(text))))
    ensures !(st.inSongList && st.current.Some? && Trim(text) != []) ==> r == st
    ensures r != st ==> st.inSongList && Trim(text) != [] && r.current.value.name == Some(Trim(text))
  {
    if st.inSongList && st.current.Some? then
      var cleaned := Trim(text);
      if cleaned != [] then st.(current := Some(st.current.value.(name := Some(cleaned))))
      else st
    else st
  }

  /** A song worth keeping: it has a non-empty name. */
  predicate HasName(s: Song) {
    s.name.Some? && s.name.value != []
  }

  /** `handle_endtag`. */
  function OnEndTag(st: ParserState, tag: string): (r: ParserState)
    ensures r.inSongList <==> st.inSongList && tag != "ul"
    ensures r.current == if tag == "a" then None else st.current
    ensures r.songLinks == if tag == "a" && st.current.Some? && HasName(st.current.value)
                           then st.songLinks + [st.current.value] else st.songLinks
  {
    var st1 :=
      if tag == "a" && st.current.Some? then
        st.(songLinks := st.songLinks + (if HasName(st.current.value) then [st.current.value] else []),
            current := None)
      else st;
    if tag == "ul" && st1.inSongList then st1.(inSongList := false) else st1
  }

  function Step(st: ParserState, e: Event): Result<ParserState, ParseError> {
    match e
    case StartTag(tag, attrs) => OnStartTag(st, tag, attrs)
    case Data(text) => Ok(OnData(st, text))
    case EndTag(tag) => Ok(OnEndTag(st, tag))
  }

  /** `parser.feed(html)`, given the tokenizer's events in order. */
  function Feed(st: ParserState, events: seq<Event>): Result<ParserState, ParseError>
    decreases |events|
  {
    if events == [] then Ok(st)
    else
      match Step(st, events[0])
      case Err(e) => Err(e)
      case Ok(next) => Feed(next, events[1..])
  }

  /** `get_song_links` after fetching: the collected songs, or nothing when
      the parse raised. */
  function SongLinks(events: seq<Event>): seq<Song> {
    match Feed(Initial, events)
    case Ok(st) => st.songLinks
    case Err(_) => []
  }

  /** A collected or pending song: its link is a song link, and its name,
      when present, is non-empty stripped text. */
  predicate WellFormedSong(s: Song) {
    IsSongHref(s.href) && (s.name.Some? ==> s.name.value != [] && IsTrimmed(s.name.value))
  }

  /** What the parser keeps true: every kept song and the pending one are
      well formed, and every kept song has a name. */
  predicate Valid(st: ParserState) {
    (st.current.Some? ==> WellFormedSong(st.current.value))
    && forall s :: s in st.songLinks ==> WellFormedSong(s) && HasName(s)
  }

  lemma StepKeepsValid(st: ParserState, e: Event)
    requires Valid(st)
    ensures Step(st, e).Ok? ==> Valid(Step(st, e).value)
  {
    match e
    case StartTag(tag, attrs) =>
    case Data(text) =>
      if st.inSongList && st.current.Some? {
        TrimTwice(text);
      }
    case EndTag(tag) =>
  }

  /** Every step keeps the songs already found, in order, and adds at most
      one; only the close of a link adds one. */
  lemma StepAppends(st: ParserState, e: Event)
    ensures Step(st, e).Ok? ==>
              var r := Step(st, e).value;
              |st.songLinks| <= |r.songLinks| <= |st.songLinks| + 1
              && r.songLinks[..|st.songLinks|] == st.songLinks
              && (|r.songLinks| > |st.songLinks| ==>
                    e == EndTag("a") && st.current.Some? && r.songLinks[|st.songLinks|] == st.current.value)
  {
  }

  /** Feeding keeps the invariant and never loses a song. */
  lemma {:induction false} FeedKeepsValid(st: ParserState, events: seq<Event>)
    requires Valid(st)
    ensures Feed(st, events).Ok? ==> Valid(Feed(st, events).value)
    ensures Feed(st, events).Ok? ==> st.songLinks <= Feed(st, events).value.songLinks
    decreases |events|
  {
    if events != [] {
      StepKeepsValid(st, events[0]);
      StepAppends(st, events[0]);
      match Step(st, events[0])
      case Err(_) =>
      case Ok(next) =>
        FeedKeepsValid(next, events[1..]);
    }
  }

  /** Every song `get_song_links` reports has a `/song…` link and a
      non-empty, stripped name. */
  lemma SongLinksAreWellFormed(events: seq<Event>)
    ensures forall s :: s in SongLinks(events) ==> WellFormedSong(s) && HasName(s)
  {
    FeedKeepsValid(Initial, events);
  }

  /** An event that can open the song list: a `<ul>` start tag. */
  predicate OpensList(e: Event) {
    e.StartTag? && e.tag == "ul"
  }

  /** Outside a song list, and with no `<ul>` start tag to open one, the
      parser collects nothing. */
  lemma {:induction false} NoListNoSongs(st: ParserState, events: seq<Event>)
    requires !st.inSongList && st.current.None?
    requires forall i :: 0 <= i < |events| ==> !OpensList(events[i])
    ensures Feed(st, events).Ok?
    ensures Feed(st, events).value.songLinks == st.songLinks
    decreases |events|
  {
    if events != [] {
      var next := Step(st, events[0]);
      assert next.Ok? && !next.value.inSongList && next.value.current.None?;
      assert next.value.songLinks == st.songLinks;
      forall i | 0 <= i < |events[1..]| ensures !OpensList(events[1..][i]) {
        assert events[1..][i] == events[i + 1];
      }
      NoListNoSongs(next.value, events[1..]);
    }
  }

  /** A page without a song list yields no songs. */
  lemma NoListPage(events: seq<Event>)
    requires forall i :: 0 <= i < |events| ==> !OpensList(events[i])
    ensures SongLinks(events) == []
  {
    NoListNoSongs(Initial, events);
  }

  /** A `<ul class>` whose only attribute is a bare `class` makes the parse
      raise, so the page yields no songs at all, whatever came before. */
  lemma ValuelessClassLosesEverything(before: seq<Event>, after: seq<Event>)
    requires Feed(Initial, before).Ok?
    ensures SongLinks(before + [StartTag("ul", [Attr("class", None)])] + after) == []
  {
    var e := StartTag("ul", [Attr("class", None)]);
    FeedAppend(Initial, before, [e] + after);
    assert before + [e] + after == before + ([e] + after);
    var mid := Feed(Initial, before).value;
    assert Step(mid, e).Err?;
    assert ([e] + after)[1..] == after;
  }

  /** Feeding two batches is feeding their concatenation. */
  lemma {:induction false} FeedAppend(st: ParserState, a: seq<Event>, b: seq<Event>)
    ensures Feed(st, a + b) == match Feed(st, a) case Ok(mid) => Feed(mid, b) case Err(e) => Err(e)
    decreases |a|
  {
    if a == [] {
      assert a + b == b;
    } else {
      assert (a + b)[0] == a[0];
      assert (a + b)[1..] == a[1..] + b;
      match Step(st, a[0])
      case Err(_) =>
      case Ok(next) =>
        FeedAppend(next, a[1..], b);
    }
  }

  /** One song inside a marked list is collected with its stripped name. */
  lemma OneSongExample()
    ensures SongLinks([StartTag("ul", [Attr("class", Some("f-hide"))]),
                       StartTag("a", [Attr("href", Some("/song?id=1"))]),
                       Data("  Song A "),
                       EndTag("a"),
                       EndTag("ul")])
            == [Song("/song?id=1", Some("Song A"))]
  {
    OneSongPage("/song?id=1", "  Song A ");
  }

  lemma OneSongPage(href: string, text: string)
    requires href == "/song?id=1" && text == "  Song A "
    ensures SongLinks([StartTag("ul", [Attr("class", Some("f-hide"))]),
                       StartTag("a", [Attr("href", Some(href))]),
                       Data(text),
                       EndTag("a"),
                       EndTag("ul")])
            == [Song(href, Some("Song A"))]
  {
    var cls := "f-hide";
    assert StartsWith(cls, "f-hide");
    var e1 := StartTag("ul", [Attr("class", Some(cls))]);
    var e2 := StartTag("a", [Attr("href", Some(href))]);
    var e3 := Data(text);
    var e4 := EndTag("a");
    var e5 := EndTag("ul");
    var name := SongName(text);
    var s1 := ParserState(true, None, []);
    var s2 := ParserState(true, Some(Song(href, None)), []);
    var s3 := ParserState(true, Some(Song(href, Some(name))), []);
    var s4 := ParserState(true, None, [Song(href, Some(name))]);
    var s5 := ParserState(false, None, [Song(href, Some(name))]);
    assert Step(Initial, e1) == Ok(s1);
    assert StartsWith(href, "/song");
    assert Step(s1, e2) == Ok(s2);
    assert Step(s2, e3) == Ok(s3);
    assert HasName(Song(href, Some(name)));
    assert [] + [Song(href, Some(name))] == [Song(href, Some(name))];
    assert Step(s3, e4) == Ok(s4);
    assert Step(s4, e5) == Ok(s5);
    FeedPath(Initial, s1, s2, s3, s4, s5, e1, e2, e3, e4, e5);
  }

  lemma SongName(text: string) returns (name: string)
    requires text == "  Song A "
    ensures name == "Song A" && Trim(text) == name
  {
    name := "Song A";
    assert text == "  " + name + " ";
    assert name[0] == 'S' && name[|name| - 1] == 'A';
    PaddedTrim(name);
  }

  /** Two spaces before and one after a trimmed name are dropped. */
  lemma PaddedTrim(c: string)
    requires c != [] && c[0] !in Whitespace && c[|c| - 1] !in Whitespace
    ensures Trim("  " + c + " ") == c
  {
    var t := "  " + c + " ";
    PaddedLead(c);
    PaddedTrail(c);
    assert t[2..|t| - 1] == c;
  }

  lemma PaddedLead(c: string)
    requires c != [] && c[0] !in Whitespace
    ensures LeadCount("  " + c + " ", Whitespace) == 2
  {
    var t := "  " + c + " ";
    var t1 := " " + c + " ";
    var t2 := c + " ";
    assert t[0] == ' ' && t[1..] == t1;
    assert t1[0] == ' ' && t1[1..] == t2;
    assert t2[0] == c[0];
    assert LeadCount(t2, Whitespace) == 0;
    assert LeadCount(t1, Whitespace) == 1;
  }

  lemma PaddedTrail(c: string)
    requires c != [] && c[|c| - 1] !in Whitespace
    ensures TrailCount("  " + c + " ", Whitespace) == 1
  {
    var t := "  " + c + " ";
    assert t[..|t| - 1] == "  " + c;
  }

  lemma FeedPath(s0: ParserState, s1: ParserState, s2: ParserState, s3: ParserState, s4: ParserState,
                 s5: ParserState, e1: Event, e2: Event, e3: Event, e4: Event, e5: Event)
    requires Step(s0, e1) == Ok(s1) && Step(s1, e2) == Ok(s2) && Step(s2, e3) == Ok(s3)
    requires Step(s3, e4) == Ok(s4) && Step(s4, e5) == Ok(s5)
    ensures Feed(s0, [e1, e2, e3, e4, e5]) == Ok(s5)
  {
    assert [e5][1..] == [];
    assert Feed(s4, [e5]) == Ok(s5);
    assert [e4, e5][1..] == [e5];
    assert Feed(s3, [e4, e5]) == Ok(s5);
    assert [e3, e4, e5][1..] == [e4, e5];
    assert Feed(s2, [e3, e4, e5]) == Ok(s5);
    assert [e2, e3, e4, e5][1..] == [e3, e4, e5];
    assert Feed(s1, [e2, e3, e4, e5]) == Ok(s5);
    assert [e1, e2, e3, e4, e5][1..] == [e2, e3, e4, e5];
  }
}
