/** From a playlist address to song addresses (Songs_url.py,
    `get_song_links` and `get_songs_url_list`): the address is cleaned of
    its `/#` fragment marker, the page is scanned for songs, and each song
    with a link and a name becomes an absolute song address. */
module SongUrls {
  import opened Wrappers
  import opened PyStr
  import opened SongParser

  const BaseUrl := "https://music.163.com"
  const HashRoute := "/#"

  /** `playlist_url.replace('/#', '')`. */
  function EffectiveUrl(playlistUrl: string): (r: string)
    ensures |r| <= |playlistUrl|
    ensures !Contains(playlistUrl, HashRoute) ==> r == playlistUrl
  {
    ReplaceNoLonger(playlistUrl, HashRoute, "");
    Replace(playlistUrl, HashRoute, "")
  }

  /** Every `/#` goes, scanning left to right: the text before the first
      marker is kept and the scan goes on after it, so
      `a/#b/#c` becomes `abc`. */
  lemma {:induction false} DropsEveryMarker(a: string, b: string)
    requires !Contains(a, HashRoute)
    ensures EffectiveUrl(a + HashRoute + b) == a + EffectiveUrl(b)
    decreases |a|
  {
    if a == [] {
      MarkerFirst(b);
    } else {
      MarkerLater(a, b);
      TailNoMarker(a);
      DropsEveryMarker(a[1..], b);
      assert a + EffectiveUrl(b) == [a[0]] + (a[1..] + EffectiveUrl(b));
    }
  }

  /** An address with one `/#` and none elsewhere loses exactly that marker:
      `https://music.163.com/#/playlist?id=1` becomes
      `https://music.163.com/playlist?id=1`. */
  lemma DropsTheMarker(a: string, b: string)
    requires !Contains(a, HashRoute) && !Contains(b, HashRoute)
    ensures EffectiveUrl(a + HashRoute + b) == a + b
  {
    DropsEveryMarker(a, b);
  }

  /** Two markers both go. */
  lemma TwoMarkersExample()
    ensures EffectiveUrl("a/#b/#c") == "abc"
  {
    NoMarkerOneChar('a');
    NoMarkerOneChar('b');
    NoMarkerOneChar('c');
    DropsEveryMarker("b", "c");
    assert "b" + HashRoute + "c" == "b/#c";
    DropsEveryMarker("a", "b/#c");
    assert "a" + HashRoute + "b/#c" == "a/#b/#c";
  }

  lemma NoMarkerOneChar(c: char)
    ensures !Contains([c], HashRoute)
  {
    assert [c][1..] == [];
  }

  lemma MarkerFirst(b: string)
    ensures EffectiveUrl([] + HashRoute + b) == EffectiveUrl(b)
  {
    var s := HashRoute + b;
    assert [] + HashRoute + b == s;
    assert StartsWith(s, HashRoute);
    assert s[2..] == b;
  }

  lemma MarkerLater(a: string, b: string)
    requires a != [] && !Contains(a, HashRoute)
    ensures EffectiveUrl(a + HashRoute + b) == [a[0]] + EffectiveUrl(a[1..] + HashRoute + b)
  {
    NoMarkerAtFront(a, b);
    TailOfMarked(a, b);
    SkipsFirst(a + HashRoute + b);
  }

  lemma TailOfMarked(a: string, b: string)
    requires a != []
    ensures (a + HashRoute + b)[1..] == a[1..] + HashRoute + b
  {
  }

  lemma TailNoMarker(a: string)
    requires a != [] && !Contains(a, HashRoute)
    ensures !Contains(a[1..], HashRoute)
  {
  }

  lemma SkipsFirst(s: string)
    requires s != [] && !StartsWith(s, HashRoute)
    ensures EffectiveUrl(s) == [s[0]] + EffectiveUrl(s[1..])
  {
  }

  /** A non-empty marker-free prefix keeps the marker off the front. */
  lemma NoMarkerAtFront(a: string, b: string)
    requires a != [] && !Contains(a, HashRoute)
    ensures var s := a + HashRoute + b; s[0] == a[0] && !StartsWith(s, HashRoute)
  {
    var s := a + HashRoute + b;
    if |a| == 1 {
      assert s[..2] == [a[0], '/'];
    } else {
      assert s[..2] == a[..2];
    }
  }

  /** The clean-up is not idempotent: `//##` loses its middle `/#` and
      leaves a new `/#` behind. */
  lemma MarkerCanSurvive()
    ensures EffectiveUrl("//##") == "/#" && Contains(EffectiveUrl("//##"), HashRoute)
  {
    var s := "//##";
    assert s[..2][1] == '/' && HashRoute[1] == '#';
    assert !StartsWith(s, HashRoute);
    assert s[1..] == "/##";
    assert StartsWith(s[1..], HashRoute);
    assert s[1..][2..] == "#";
    assert |"#"| < |HashRoute|;
    assert "#"[1..] == [];
    assert Replace("#", HashRoute, "") == "#";
    assert Replace(s[1..], HashRoute, "") == "#";
    assert Replace(s, HashRoute, "") == [s[0]] + "#";
    assert StartsWith("/#", HashRoute);
  }

  /** Whether `song.get("href") and song.get("name")` holds. */
  predicate Usable(s: Song) {
    s.href != [] && s.name.Some? && s.name.value != []
  }

  /** The loop of `get_songs_url_list`. */
  function SongUrlList(songs: seq<Song>): (r: seq<string>)
    ensures |r| <= |songs|
    ensures forall u :: u in r ==> StartsWith(u, BaseUrl)
  {
    if songs == [] then []
    else (if Usable(songs[0]) then [BaseUrl + songs[0].href] else []) + SongUrlList(songs[1..])
  }

  /** The loop keeps the order of the songs: the addresses of a
      concatenation are the addresses of its parts, concatenated. */
  lemma {:induction false} SongUrlListAppend(a: seq<Song>, b: seq<Song>)
    ensures SongUrlList(a + b) == SongUrlList(a) + SongUrlList(b)
    decreases |a|
  {
    if a == [] {
      assert a + b == b;
    } else {
      assert (a + b)[0] == a[0];
      assert (a + b)[1..] == a[1..] + b;
      SongUrlListAppend(a[1..], b);
      var head := if Usable(a[0]) then [BaseUrl + a[0].href] else [];
      assert SongUrlList(a + b) == head + (SongUrlList(a[1..]) + SongUrlList(b));
      assert SongUrlList(a) == head + SongUrlList(a[1..]);
    }
  }

  /** A song without a link or a name gives no address. */
  lemma UnusableDropped(s: Song)
    requires !Usable(s)
    ensures SongUrlList([s]) == []
  {
    assert [s][1..] == [];
  }

  /** Usable songs each give one address, in order: the base followed by the
      song's link. */
  lemma {:induction false} AllUsableKept(songs: seq<Song>)
    requires forall s :: s in songs ==> Usable(s)
    ensures |SongUrlList(songs)| == |songs|
    ensures forall i :: 0 <= i < |songs| ==> SongUrlList(songs)[i] == BaseUrl + songs[i].href
  {
    if songs != [] {
      assert songs[0] in songs;
      forall s | s in songs[1..] ensures Usable(s) {
        assert s in songs;
      }
      AllUsableKept(songs[1..]);
      var rest := SongUrlList(songs[1..]);
      assert SongUrlList(songs) == [BaseUrl + songs[0].href] + rest;
      forall i | 0 <= i < |songs| ensures SongUrlList(songs)[i] == BaseUrl + songs[i].href {
        if i > 0 {
          assert songs[i] == songs[1..][i - 1];
        }
      }
    }
  }

  /** `get_songs_url_list` after fetching the page: one address per song the
      scanner found. */
  function PlaylistSongUrls(events: seq<Event>): (r: seq<string>)
    ensures |r| == |SongLinks(events)|
    ensures forall i :: 0 <= i < |r| ==> r[i] == BaseUrl + SongLinks(events)[i].href
  {
    var songs := SongLinks(events);
    SongLinksAreWellFormed(events);
    forall s | s in songs ensures Usable(s) {
      assert WellFormedSong(s) && HasName(s);
    }
    AllUsableKept(songs);
    SongUrlList(songs)
  }

  /** Every reported address is a song page: the base, then `/song…`. */
  lemma PlaylistUrlsAreSongPages(events: seq<Event>)
    ensures forall u :: u in PlaylistSongUrls(events) ==> StartsWith(u, BaseUrl + "/song")
  {
    var r := PlaylistSongUrls(events);
    var songs := SongLinks(events);
    SongLinksAreWellFormed(events);
    forall u | u in r ensures StartsWith(u, BaseUrl + "/song") {
      var i :| 0 <= i < |r| && r[i] == u;
      assert songs[i] in songs;
      SongPageUrl(songs[i].href);
    }
  }

  lemma SongPageUrl(h: string)
    requires StartsWith(h, "/song")
    ensures StartsWith(BaseUrl + h, BaseUrl + "/song")
  {
    var p := BaseUrl + "/song";
    assert (BaseUrl + h)[..|p|] == BaseUrl + h[..5];
  }
}
