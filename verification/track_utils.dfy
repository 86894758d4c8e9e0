/** The mapping inside `getArchiveOrgTracks` of
    src/renderer/js/utils/trackUtils.js: from an Archive.org metadata record
    to the list of MP3 tracks the player plays. The fetch itself is left
    out; `lower` stands for `toLowerCase` and `encode` for
    `encodeURIComponent`. */
module TrackUtils {
  import opened Wrappers
  import opened Strings

  /** A track of the list: `{ title, artist, url, filename }`. */
  datatype Track = Track(title: string, artist: string, url: string, filename: string)

  /** An entry of `data.files`; `None` for a missing field. */
  datatype ArchiveFile = ArchiveFile(name: string, title: Option<string>, creator: Option<string>, artist: Option<string>)

  /** The parts of the metadata record the mapping reads: `files`, `d1`,
      `dir` and `metadata.creator`. */
  datatype Metadata = Metadata(files: Option<seq<ArchiveFile>>, d1: Option<string>, dir: Option<string>, creator: Option<string>)

  /** `f.name.toLowerCase().endsWith('.mp3')`. */
  predicate IsMp3(f: ArchiveFile, lower: string -> string) {
    EndsWith(lower(f.name), ".mp3")
  }

  /** `file.title`, or the name with every literal `.mp3` removed and every
      underscore turned into a space. */
  function TitleOf(f: ArchiveFile): (t: string)
    ensures Truthy(f.title) ==> t == f.title.value
    ensures !Truthy(f.title) ==> '_' !in t
    ensures !Truthy(f.title) ==> CharReplaced(ReplaceAll(f.name, ".mp3", ""), '_', ' ', t)
  {
    var stripped := ReplaceAll(f.name, ".mp3", "");
    var fromName := ReplaceAll(stripped, "_", " ");
    assert '_' !in fromName && CharReplaced(stripped, '_', ' ', fromName) by {
      ReplaceCharRemovesIt(stripped, '_', ' ');
      ReplaceCharEach(stripped, '_', ' ');
    }
    Or(f.title, fromName)
  }

  /** A name that ends in `.mp3` and has no other `.mp3` in it loses exactly
      that ending: no suffix of `.mp3` is also a prefix of it, so the
      ending cannot overlap an earlier match. */
  lemma {:induction false} StripExtension(stem: string)
    requires !Contains(stem, ".mp3")
    ensures ReplaceAll(stem + ".mp3", ".mp3", "") == stem
    decreases |stem|
  {
    var s := stem + ".mp3";
    if |stem| == 0 {
      assert s == ".mp3" && s[4..] == [];
    } else {
      assert !StartsWith(stem, ".mp3") && !Contains(stem[1..], ".mp3");
      assert s[..4] != ".mp3" by {
        if |stem| >= 4 {
          assert s[..4] == stem[..4];
        } else {
          assert s[|stem|] == '.' && ".mp3"[|stem|] != '.';
        }
      }
      assert s[1..] == stem[1..] + ".mp3";
      StripExtension(stem[1..]);
      assert stem == [stem[0]] + stem[1..];
    }
  }

  /** Without a title, a file named `stem.mp3` (no other `.mp3` in the
      stem) is titled by its stem, every underscore shown as a space. */
  lemma TitleOfMp3Name(stem: string, title: Option<string>, creator: Option<string>, artist: Option<string>)
    requires !Contains(stem, ".mp3") && !Truthy(title)
    ensures CharReplaced(stem, '_', ' ', TitleOf(ArchiveFile(stem + ".mp3", title, creator, artist)))
  {
    StripExtension(stem);
  }

  /** `file.creator || file.artist || data.metadata?.creator || 'Unknown Artist'`. */
  function ArtistOf(f: ArchiveFile, creator: Option<string>): (a: string)
    ensures a != ""
    ensures Truthy(f.creator) ==> a == f.creator.value
    ensures !Truthy(f.creator) && Truthy(f.artist) ==> a == f.artist.value
    ensures !Truthy(f.creator) && !Truthy(f.artist) && Truthy(creator) ==> a == creator.value
    ensures !Truthy(f.creator) && !Truthy(f.artist) && !Truthy(creator) ==> a == "Unknown Artist"
  {
    Or(f.creator, Or(f.artist, Or(creator, "Unknown Artist")))
  }

  /** The track of one kept file under the base URL. */
  function TrackOf(f: ArchiveFile, base: string, creator: Option<string>, encode: string -> string): Track {
    Track(TitleOf(f), ArtistOf(f, creator), base + encode(f.name), f.name)
  }

  /** `data.files.filter(...)`: the MP3 files, in order. */
  function Mp3Files(files: seq<ArchiveFile>, lower: string -> string): (r: seq<ArchiveFile>)
    ensures forall f :: f in r <==> f in files && IsMp3(f, lower)
    ensures |r| <= |files|
  {
    if |files| == 0 then []
    else if IsMp3(files[0], lower) then [files[0]] + Mp3Files(files[1..], lower)
    else Mp3Files(files[1..], lower)
  }

  /** The filter keeps the order of the list: filtering two lists one after
      the other gives the filtered lists one after the other. */
  lemma {:induction false} Mp3FilesAppend(a: seq<ArchiveFile>, b: seq<ArchiveFile>, lower: string -> string)
    ensures Mp3Files(a + b, lower) == Mp3Files(a, lower) + Mp3Files(b, lower)
  {
    if |a| > 0 {
      assert (a + b)[1..] == a[1..] + b;
      Mp3FilesAppend(a[1..], b, lower);
    } else {
      assert a + b == b;
    }
  }

  /** `mp3Files.map(...)`: one track per file, in the files' order. */
  function MapTracks(files: seq<ArchiveFile>, base: string, creator: Option<string>, encode: string -> string): (r: seq<Track>)
    ensures |r| == |files|
    ensures forall i :: 0 <= i < |files| ==> r[i] == TrackOf(files[i], base, creator, encode)
  {
    if |files| == 0 then []
    else [TrackOf(files[0], base, creator, encode)] + MapTracks(files[1..], base, creator, encode)
  }

  /** `https://${d1}${dir}/`. */
  function BaseUrl(d1: string, dir: string): string {
    "https://" + d1 + dir + "/"
  }

  /** What a successful mapping promises: one track for each MP3 file in
      order, named after the file, under the server's base URL. */
  predicate Listed(m: Metadata, lower: string -> string, encode: string -> string, tracks: seq<Track>)
    requires m.files.Some? && m.d1.Some? && m.dir.Some?
  {
    var kept := Mp3Files(m.files.value, lower);
    && |tracks| == |kept|
    && forall i :: 0 <= i < |tracks| ==>
         && tracks[i].filename == kept[i].name
         && tracks[i].url == BaseUrl(m.d1.value, m.dir.value) + encode(kept[i].name)
         && tracks[i].title == TitleOf(kept[i])
         && tracks[i].artist == ArtistOf(kept[i], m.creator)
  }

  /** The mapping of `getArchiveOrgTracks` once the record has been
      fetched: an error when `files`, `d1` or `dir` is missing or empty
      text, the track list otherwise. */
  function ArchiveTracks(m: Metadata, lower: string -> string, encode: string -> string): (r: Result<seq<Track>, string>)
    ensures r.Failure? <==> m.files.None? || !Truthy(m.d1) || !Truthy(m.dir)
    ensures r.Success? ==> Listed(m, lower, encode, r.value)
  {
    if m.files.None? || !Truthy(m.d1) || !Truthy(m.dir) then Failure("Invalid Archive.org metadata")
    else
      var kept := Mp3Files(m.files.value, lower);
      Success(MapTracks(kept, BaseUrl(m.d1.value, m.dir.value), m.creator, encode))
  }

  /** Every listed track comes from an MP3 file of the record and its URL
      lies under the server's base URL. */
  lemma TracksAreMp3(m: Metadata, lower: string -> string, encode: string -> string)
    requires ArchiveTracks(m, lower, encode).Success?
    ensures var tracks := ArchiveTracks(m, lower, encode).value;
      forall i :: 0 <= i < |tracks| ==>
        && EndsWith(lower(tracks[i].filename), ".mp3")
        && (exists f :: f in m.files.value && f.name == tracks[i].filename)
        && StartsWith(tracks[i].url, BaseUrl(m.d1.value, m.dir.value))
  {
    var tracks := ArchiveTracks(m, lower, encode).value;
    var kept := Mp3Files(m.files.value, lower);
    forall i | 0 <= i < |tracks|
      ensures EndsWith(lower(tracks[i].filename), ".mp3")
      ensures exists f :: f in m.files.value && f.name == tracks[i].filename
      ensures StartsWith(tracks[i].url, BaseUrl(m.d1.value, m.dir.value))
    {
      assert kept[i] in kept;
      var base := BaseUrl(m.d1.value, m.dir.value);
      assert tracks[i].url[..|base|] == base;
    }
  }

  /** The removal of `.mp3` is case-sensitive: an upper-case extension stays
      in the title, a lower-case one goes. */
  lemma TitleExamples()
    ensures TitleOf(ArchiveFile("a_b.mp3", None, None, None)) == "a b"
    ensures TitleOf(ArchiveFile("a_b.MP3", None, None, None)) == "a b.MP3"
  {
    LowerTitle();
    UpperTitle();
  }

  lemma LowerTitle()
    ensures TitleOf(ArchiveFile("a_b.mp3", None, None, None)) == "a b"
  {
    assert ReplaceAll("a_b.mp3", ".mp3", "") == "a_b" by { LowerExtension(); }
    assert ReplaceAll("a_b", "_", " ") == "a b" by { Underscore("a", "b"); }
  }

  lemma UpperTitle()
    ensures TitleOf(ArchiveFile("a_b.MP3", None, None, None)) == "a b.MP3"
  {
    assert ReplaceAll("a_b.MP3", ".mp3", "") == "a_b.MP3" by { UpperExtension(); }
    UpperUnderscore();
  }

  lemma UpperUnderscore()
    ensures ReplaceAll("a_b.MP3", "_", " ") == "a b.MP3"
  {
    var a, b := "a", "b.MP3";
    assert "a_b.MP3" == a + "_" + b;
    assert "a b.MP3" == a + " " + b;
    Underscore(a, b);
  }

  lemma LowerExtension()
    ensures ReplaceAll("a_b.mp3", ".mp3", "") == "a_b"
  {
    assert ReplaceAll(".mp3", ".mp3", "") == "";
    assert ReplaceAll("b.mp3", ".mp3", "") == "b";
    assert ReplaceAll("_b.mp3", ".mp3", "") == "_b";
  }

  lemma UpperExtension()
    ensures ReplaceAll("a_b.MP3", ".mp3", "") == "a_b.MP3"
  {
    assert !Contains("a_b.MP3", ".mp3") by {
      assert !Contains("", ".mp3");
      assert !Contains("3", ".mp3");
      assert !Contains("P3", ".mp3");
      assert !Contains("MP3", ".mp3");
      assert ".MP3"[1] != ".mp3"[1];
      assert !Contains(".MP3", ".mp3");
      assert !Contains("b.MP3", ".mp3");
      assert !Contains("_b.MP3", ".mp3");
    }
    ReplaceAllAbsent("a_b.MP3", ".mp3", "");
  }

  lemma Underscore(a: string, b: string)
    requires '_' !in a && '_' !in b
    ensures ReplaceAll(a + "_" + b, "_", " ") == a + " " + b
  {
    ReplaceCharAbsent(a, '_', " ");
    ReplaceCharAbsent(b, '_', " ");
    assert a + "_" + b == a + ("_" + b);
    ReplaceCharConcat(a, "_" + b, '_', " ");
    assert ("_" + b)[1..] == b;
  }
}
