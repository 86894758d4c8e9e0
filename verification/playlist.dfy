/** The track list of the playlist page, src/renderer/js/playlist.js: the
    search filter over the album's tracks and the lookup that turns a click
    on a filtered row into a position in the full list. `lower` stands for
    `toLowerCase`. */
module Playlist {
  import opened Wrappers
  import opened Strings
  import opened TrackUtils
  import Player

  /** `this.tracks` (what is shown) and `this.originalTracks` (the album). */
  datatype Lists = Lists(tracks: seq<Track>, original: seq<Track>)

  /** The search test: the lower-cased title or artist contains the
      lower-cased query. */
  predicate Matches(t: Track, query: string, lower: string -> string) {
    Contains(lower(t.title), lower(query)) || Contains(lower(t.artist), lower(query))
  }

  /** `originalTracks.filter(...)` with the search test. */
  function Matching(tracks: seq<Track>, query: string, lower: string -> string): (r: seq<Track>)
    ensures forall t :: t in r <==> t in tracks && Matches(t, query, lower)
    ensures |r| <= |tracks|
  {
    if |tracks| == 0 then []
    else if Matches(tracks[0], query, lower) then [tracks[0]] + Matching(tracks[1..], query, lower)
    else Matching(tracks[1..], query, lower)
  }

  /** The filter keeps the album's order: it works piecewise on a
      concatenation. */
  lemma {:induction false} MatchingAppend(a: seq<Track>, b: seq<Track>, query: string, lower: string -> string)
    ensures Matching(a + b, query, lower) == Matching(a, query, lower) + Matching(b, query, lower)
  {
    if |a| > 0 {
      assert (a + b)[1..] == a[1..] + b;
      MatchingAppend(a[1..], b, query, lower);
    } else {
      assert a + b == b;
    }
  }

  /** Filtering what is already filtered changes nothing. */
  lemma {:induction false} MatchingIdempotent(tracks: seq<Track>, query: string, lower: string -> string)
    ensures Matching(Matching(tracks, query, lower), query, lower) == Matching(tracks, query, lower)
  {
    if |tracks| > 0 {
      MatchingIdempotent(tracks[1..], query, lower);
    }
  }

  /** `filterTracks(query)`: an empty query shows the whole album again,
      any other the matching tracks; the album itself is never touched. */
  function FilterTracks(l: Lists, query: string, lower: string -> string): (r: Lists)
    ensures r.original == l.original
    ensures query == "" ==> r.tracks == l.original
    ensures query != "" ==> forall t :: t in r.tracks <==> t in l.original && Matches(t, query, lower)
    ensures |r.tracks| <= |l.original|
  {
    if query == "" then l.(tracks := l.original)
    else l.(tracks := Matching(l.original, query, lower))
  }

  /** `originalTracks.findIndex(t => t.url === url)`. */
  function FindUrl(tracks: seq<Track>, url: string): (r: Option<nat>)
    ensures r.None? <==> forall i :: 0 <= i < |tracks| ==> tracks[i].url != url
    ensures r.Some? ==> r.value < |tracks| && tracks[r.value].url == url
                        && forall j :: 0 <= j < r.value ==> tracks[j].url != url
  {
    if |tracks| == 0 then None
    else if tracks[0].url == url then Some(0)
    else
      match FindUrl(tracks[1..], url)
      case Some(i) =>
        assert forall j :: 1 <= j < i + 1 ==> tracks[j] == tracks[1..][j - 1];
        Some(i + 1)
      case None =>
        assert forall j :: 1 <= j < |tracks| ==> tracks[j] == tracks[1..][j - 1];
        None
  }

  /** The `set-playlist` message: the whole album and where to start. */
  datatype SetPlaylist = SetPlaylist(tracks: seq<Track>, startIndex: nat)

  /** `playTrack(index)` on a shown row: the message is sent only when a
      track of the album has the row's URL, and starts at the first such
      track. */
  function PlayTrack(l: Lists, index: nat): (m: Option<SetPlaylist>)
    requires index < |l.tracks|
    ensures m.None? <==> forall i :: 0 <= i < |l.original| ==> l.original[i].url != l.tracks[index].url
    ensures m.Some? ==> && m.value.tracks == l.original && m.value.startIndex < |l.original|
                        && l.original[m.value.startIndex].url == l.tracks[index].url
  {
    match FindUrl(l.original, l.tracks[index].url)
    case Some(i) => Some(SetPlaylist(l.original, i))
    case None => None
  }

  /** After any filter, every shown row is found in the album, so a click
      always sends a message. */
  lemma ShownRowsPlay(l: Lists, query: string, lower: string -> string, index: nat)
    requires index < |FilterTracks(l, query, lower).tracks|
    ensures PlayTrack(FilterTracks(l, query, lower), index).Some?
  {
    var f := FilterTracks(l, query, lower);
    assert f.tracks[index] in l.original;
  }

  /** The mini player has no `set-playlist` command: the message is an
      unknown command to it and changes nothing. */
  lemma SetPlaylistIgnored(p: Player.Player)
    ensures Player.Step(p, Player.Unknown("set-playlist")) == (p, [])
  {
  }
}
