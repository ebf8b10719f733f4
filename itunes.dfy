/**
  The song-catalog client of the music-duel game: how the JSON answers of the
  catalog's search service are shaped into the records the game uses.

  The HTTP request and the JSON parse are not modelled; their outcome is the
  input `Response`. Every other step of the two operations is: the filter and
  projection of `fetchMusicData`, with its artwork rewrite, and the length
  guard, first-wins de-duplication and cap of `searchArtists`, together with
  the catch-all `try`/`catch` of both, which turns any exception into `[]`.
*/
module ITunes {
  import opened Wrappers
  import opened JsString

  // ---------------------------------------------------------------------------
  // Data model
  // ---------------------------------------------------------------------------

  /**
    One object of the response's `results` array, as far as the client reads
    it. The objects are untyped JSON, so every field may be missing (None).
  */
  datatype Record = Record(
    kind: Option<string>,
    trackId: Option<int>,
    trackName: Option<string>,
    artistId: Option<int>,
    artistName: Option<string>,
    primaryGenreName: Option<string>,
    previewUrl: Option<string>,
    artworkUrl100: Option<string>)

  /** An element of `results`: an object, or `null`/`undefined`, on which any property access throws. */
  datatype Item = Absent | Present(fields: Record)

  /** The outcome of `fetch(...)` followed by `response.json()`. */
  datatype Response =
    | Failed                              // the request or the parse rejected
    | Parsed(results: Option<seq<Item>>)  // the body; None when it has no `results` array

  /** The `Song` record handed to the game. Its first three fields are copied as found, absence included. */
  datatype Song = Song(
    trackId: Option<int>,
    trackName: Option<string>,
    artistName: Option<string>,
    previewUrl: string,
    artworkUrl100: string)

  /** An artist suggestion of `searchArtists`. */
  datatype Artist = Artist(
    artistId: Option<int>,
    artistName: Option<string>,
    primaryGenreName: Option<string>,
    image: Option<string>)

  const SmallArt := "100x100"
  const LargeArt := "600x600"
  /** Queries shorter than this are answered with no suggestions. */
  const MinQueryLength := 2
  /** At most this many suggestions are returned. */
  const MaxArtists := 5

  // ---------------------------------------------------------------------------
  // Reading the results array
  // ---------------------------------------------------------------------------

  /**
    The objects of `results`, or None when an element is null or undefined:
    both operations read a property of every element, which then throws.
  */
  function RecordsOf(items: seq<Item>): (r: Option<seq<Record>>)
    ensures r.Some? <==> forall j :: 0 <= j < |items| ==> items[j].Present?
    ensures r.Some? ==> |r.value| == |items|
    ensures r.Some? ==> forall j :: 0 <= j < |items| ==> r.value[j] == items[j].fields
  {
    if forall j :: 0 <= j < |items| ==> items[j].Present? then
      Some(seq(|items|, j requires 0 <= j < |items| => items[j].fields))
    else
      None
  }

  /** One null element is enough for the reading to fail. */
  lemma RecordsOfAbsent(items: seq<Item>, i: nat)
    requires i < |items| && items[i].Absent?
    ensures RecordsOf(items).None?
  {
  }

  /** Elements that are all objects read as exactly those objects. */
  lemma RecordsOfAll(items: seq<Item>, rs: seq<Record>)
    requires |rs| == |items|
    requires forall j :: 0 <= j < |items| ==> items[j] == Present(rs[j])
    ensures RecordsOf(items) == Some(rs)
  {
    assert RecordsOf(items).value == rs;
  }

  // ---------------------------------------------------------------------------
  // fetchMusicData
  // ---------------------------------------------------------------------------

  /** JavaScript truthiness of a string field: present and not the empty string. */
  predicate Truthy(v: Option<string>) {
    v.Some? && |v.value| > 0
  }

  /** The filter of fetchMusicData: a truthy `previewUrl` and `kind === 'song'`. */
  predicate Playable(r: Record) {
    Truthy(r.previewUrl) && r.kind == Some("song")
  }

  /** `results.filter(...)`: the playable records, in their order. */
  function Playables(rs: seq<Record>): (kept: seq<Record>)
    ensures |kept| <= |rs|
    ensures forall k :: 0 <= k < |kept| ==> Playable(kept[k])
    decreases |rs|
  {
    if rs == [] then []
    else
      var init := Playables(rs[..|rs| - 1]);
      if Playable(rs[|rs| - 1]) then init + [rs[|rs| - 1]] else init
  }

  /** The indices of the playable records of `rs`, in increasing order. */
  ghost function PlayablePositions(rs: seq<Record>): seq<int>
    decreases |rs|
  {
    if rs == [] then []
    else
      var init := PlayablePositions(rs[..|rs| - 1]);
      if Playable(rs[|rs| - 1]) then init + [|rs| - 1] else init
  }

  /**
    Playables keeps exactly the playable records, in their original order: its
    k-th element is the record at the k-th playable position.
  */
  lemma {:induction false} PlayablesByPosition(rs: seq<Record>)
    ensures |Playables(rs)| == |PlayablePositions(rs)|
    ensures forall k :: 0 <= k < |PlayablePositions(rs)| ==>
      0 <= PlayablePositions(rs)[k] < |rs| && Playables(rs)[k] == rs[PlayablePositions(rs)[k]]
    ensures forall k1, k2 :: 0 <= k1 < k2 < |PlayablePositions(rs)| ==>
      PlayablePositions(rs)[k1] < PlayablePositions(rs)[k2]
    ensures forall j :: 0 <= j < |rs| ==> (Playable(rs[j]) <==> j in PlayablePositions(rs))
    decreases |rs|
  {
    if rs != [] {
      var init := rs[..|rs| - 1];
      PlayablesByPosition(init);
      assert forall j :: 0 <= j < |init| ==> init[j] == rs[j];
    }
  }

  /** The artwork URL at 600x600 instead of 100x100: `artworkUrl100.replace('100x100', '600x600')`. */
  function UpscaleArtwork(url: string): string {
    ReplaceFirst(url, SmallArt, LargeArt)
  }

  /**
    The upscaled URL has the same length; it is the URL itself when "100x100"
    does not occur, and otherwise only the first occurrence is rewritten.
  */
  lemma ArtworkRewrite(url: string)
    ensures |UpscaleArtwork(url)| == |url|
    ensures (forall j: nat :: !OccursAt(url, SmallArt, j)) ==> UpscaleArtwork(url) == url
    ensures forall i: nat ::
      OccursAt(url, SmallArt, i) && (forall j: nat :: j < i ==> !OccursAt(url, SmallArt, j)) ==>
        UpscaleArtwork(url) == url[..i] + LargeArt + url[i + |SmallArt|..]
  {
    ReplaceFirstLength(url, SmallArt, LargeArt);
    if forall j: nat :: !OccursAt(url, SmallArt, j) {
      ReplaceFirstAbsent(url, SmallArt, LargeArt);
    }
    forall i: nat | OccursAt(url, SmallArt, i) && (forall j: nat :: j < i ==> !OccursAt(url, SmallArt, j))
      ensures UpscaleArtwork(url) == url[..i] + LargeArt + url[i + |SmallArt|..]
    {
      ReplaceFirstAt(url, SmallArt, LargeArt, i);
    }
  }

  /** A URL carrying the size twice: only the first is rewritten. */
  lemma ArtworkRewriteExample()
    ensures UpscaleArtwork("100x100/100x100bb.jpg") == "600x600/100x100bb.jpg"
  {
    assert OccursAt("100x100/100x100bb.jpg", SmallArt, 0);
  }

  /** `song` is what the `map` of fetchMusicData builds from `r`. */
  ghost predicate CopiedFrom(song: Song, r: Record) {
    && song.trackId == r.trackId
    && song.trackName == r.trackName
    && song.artistName == r.artistName
    && r.previewUrl == Some(song.previewUrl)
    && r.artworkUrl100.Some?
    && song.artworkUrl100 == UpscaleArtwork(r.artworkUrl100.value)
  }

  function SongOf(r: Record): Song
    requires Playable(r) && r.artworkUrl100.Some?
  {
    Song(r.trackId, r.trackName, r.artistName, r.previewUrl.value, UpscaleArtwork(r.artworkUrl100.value))
  }

  /**
    `songs.map(...)` over the playable records: None when one of them lacks
    `artworkUrl100`, since calling `replace` on undefined throws.
  */
  function ToSongs(kept: seq<Record>): (r: Option<seq<Song>>)
    requires forall k :: 0 <= k < |kept| ==> Playable(kept[k])
    ensures r.Some? <==> forall k :: 0 <= k < |kept| ==> kept[k].artworkUrl100.Some?
    ensures r.Some? ==> |r.value| == |kept|
    ensures r.Some? ==> forall k :: 0 <= k < |kept| ==> CopiedFrom(r.value[k], kept[k])
    decreases |kept|
  {
    if kept == [] then Some([])
    else
      var last := kept[|kept| - 1];
      match ToSongs(kept[..|kept| - 1])
      case None => None
      case Some(songs) =>
        if last.artworkUrl100.None? then None else Some(songs + [SongOf(last)])
  }

  /**
    fetchMusicData after the request: the playable records shaped into songs,
    or `[]` when anything on the way throws.
  */
  function FetchMusicData(response: Response): (songs: seq<Song>)
    ensures response.Failed? ==> songs == []
    ensures response.Parsed? && response.results.None? ==> songs == []
    ensures response.Parsed? && response.results.Some? ==> |songs| <= |response.results.value|
  {
    match response
    case Failed => []
    case Parsed(None) => []
    case Parsed(Some(items)) =>
      match RecordsOf(items)
      case None => []
      case Some(rs) =>
        match ToSongs(Playables(rs))
        case None => []
        case Some(songs) => songs
  }

  /** Every song comes from a playable object of `results`, whose fields it copies. */
  lemma FetchMusicDataOrigin(response: Response)
    requires response.Parsed? && response.results.Some?
    ensures var items := response.results.value;
      forall k :: 0 <= k < |FetchMusicData(response)| ==>
        exists j :: 0 <= j < |items| && items[j].Present? && Playable(items[j].fields) &&
          CopiedFrom(FetchMusicData(response)[k], items[j].fields)
  {
    var items := response.results.value;
    var songs := FetchMusicData(response);
    if songs != [] {
      var rs := RecordsOf(items).value;
      PlayablesByPosition(rs);
      var p := PlayablePositions(rs);
      var kept := Playables(rs);
      assert songs == ToSongs(kept).value;
      forall k | 0 <= k < |songs|
        ensures exists j :: (0 <= j < |items| && items[j].Present? && Playable(items[j].fields) &&
                             CopiedFrom(songs[k], items[j].fields))
      {
        var j := p[k];
        assert CopiedFrom(songs[k], kept[k]);
        assert items[j].fields == rs[j] == kept[k];
      }
    }
  }

  /**
    When the call does not throw, the songs correspond one to one, in order, to
    the playable objects of `results`: the k-th song is copied from the object
    at the k-th playable position, and the positions are exactly the playable ones.
  */
  lemma FetchMusicDataExact(response: Response)
    requires response.Parsed? && response.results.Some?
    requires forall j :: 0 <= j < |response.results.value| ==> response.results.value[j].Present?
    requires forall j :: 0 <= j < |response.results.value| && Playable(response.results.value[j].fields) ==>
      response.results.value[j].fields.artworkUrl100.Some?
    ensures var items := response.results.value;
      var p := PlayablePositions(RecordsOf(items).value);
      var songs := FetchMusicData(response);
      && |songs| == |p|
      && (forall k :: 0 <= k < |p| ==> 0 <= p[k] < |items| && CopiedFrom(songs[k], items[p[k]].fields))
      && (forall k1, k2 :: 0 <= k1 < k2 < |p| ==> p[k1] < p[k2])
      && (forall j :: 0 <= j < |items| ==> (Playable(items[j].fields) <==> j in p))
  {
    var items := response.results.value;
    var rs := RecordsOf(items).value;
    PlayablesByPosition(rs);
    var p := PlayablePositions(rs);
    var kept := Playables(rs);
    forall k | 0 <= k < |kept| ensures kept[k].artworkUrl100.Some? {
      assert kept[k] == rs[p[k]] == items[p[k]].fields;
    }
  }

  /** One element of `results` makes the call throw (null, or a playable object without artwork). */
  ghost predicate ThrowsWhileShaping(items: seq<Item>) {
    || (exists j :: 0 <= j < |items| && items[j].Absent?)
    || (exists j :: 0 <= j < |items| && items[j].Present? && Playable(items[j].fields) &&
          items[j].fields.artworkUrl100.None?)
  }

  /** No object of `results` passes the filter. */
  ghost predicate NothingPlayable(items: seq<Item>) {
    forall j :: 0 <= j < |items| && items[j].Present? ==> !Playable(items[j].fields)
  }

  /** Playables(rs) is empty exactly when no record of `rs` is playable. */
  lemma PlayablesEmpty(rs: seq<Record>)
    ensures Playables(rs) == [] <==> forall j :: 0 <= j < |rs| ==> !Playable(rs[j])
  {
    PlayablesByPosition(rs);
    var p := PlayablePositions(rs);
    if Playables(rs) != [] {
      assert Playable(rs[p[0]]);
    }
  }

  /** Every kept record has artwork exactly when every playable record of `rs` has. */
  lemma PlayablesArtwork(rs: seq<Record>)
    ensures (forall k :: 0 <= k < |Playables(rs)| ==> Playables(rs)[k].artworkUrl100.Some?) <==>
      (forall j :: 0 <= j < |rs| && Playable(rs[j]) ==> rs[j].artworkUrl100.Some?)
  {
    PlayablesByPosition(rs);
    var p := PlayablePositions(rs);
    var kept := Playables(rs);
    if forall k :: 0 <= k < |kept| ==> kept[k].artworkUrl100.Some? {
      forall j | 0 <= j < |rs| && Playable(rs[j]) ensures rs[j].artworkUrl100.Some? {
        var k :| 0 <= k < |p| && p[k] == j;
        assert kept[k] == rs[j];
      }
    } else {
      var k :| 0 <= k < |kept| && kept[k].artworkUrl100.None?;
      assert kept[k] == rs[p[k]];
    }
  }

  /**
    fetchMusicData never reports an error; it yields `[]` exactly when the
    request or parse failed, `results` is missing, an element makes the filter
    or the map throw, or nothing passes the filter.
  */
  lemma FetchMusicDataEmpty(response: Response)
    ensures FetchMusicData(response) == [] <==>
      || response.Failed?
      || response.results.None?
      || ThrowsWhileShaping(response.results.value)
      || NothingPlayable(response.results.value)
  {
    if response.Parsed? && response.results.Some? {
      var items := response.results.value;
      if RecordsOf(items).Some? {
        var rs := RecordsOf(items).value;
        assert forall j :: 0 <= j < |items| ==> items[j].fields == rs[j];
        PlayablesEmpty(rs);
        PlayablesArtwork(rs);
      }
    }
  }

  // ---------------------------------------------------------------------------
  // searchArtists
  // ---------------------------------------------------------------------------

  /** The suggestion built from an album record: album art stands in for the artist's image. */
  function ArtistOf(r: Record): Artist {
    Artist(r.artistId, r.artistName, r.primaryGenreName, r.artworkUrl100)
  }

  function NamesOf(d: seq<Artist>): (names: seq<Option<string>>)
    ensures |names| == |d| && forall k :: 0 <= k < |d| ==> names[k] == d[k].artistName
  {
    seq(|d|, k requires 0 <= k < |d| => d[k].artistName)
  }

  /** The artist names that occur in `rs`, absence (undefined) included. */
  function NameSet(rs: seq<Record>): set<Option<string>> {
    set j | 0 <= j < |rs| :: rs[j].artistName
  }

  /**
    First-wins de-duplication by artist name: one suggestion per name, built
    from the first record that carries it, in order of first appearance.
  */
  function FirstWins(rs: seq<Record>): (d: seq<Artist>)
    ensures |d| <= |rs|
    decreases |rs|
  {
    if rs == [] then []
    else
      var init := FirstWins(rs[..|rs| - 1]);
      var last := rs[|rs| - 1];
      if last.artistName in NamesOf(init) then init else init + [ArtistOf(last)]
  }

  /** One more record adds a suggestion exactly when its name is new. */
  lemma FirstWinsSnoc(rs: seq<Record>, r: Record)
    ensures FirstWins(rs + [r]) ==
      if r.artistName in NamesOf(FirstWins(rs)) then FirstWins(rs) else FirstWins(rs) + [ArtistOf(r)]
  {
    assert (rs + [r])[..|rs|] == rs;
  }

  /** Record `j` is the first of `rs` with its artist name. */
  ghost predicate FirstOfName(rs: seq<Record>, j: int) {
    0 <= j < |rs| && forall i :: 0 <= i < j ==> rs[i].artistName != rs[j].artistName
  }

  /** The indices of the first record of each artist name, in increasing order. */
  ghost function FirstPositions(rs: seq<Record>): seq<int>
    decreases |rs|
  {
    if rs == [] then []
    else
      var init := FirstPositions(rs[..|rs| - 1]);
      if FirstOfName(rs, |rs| - 1) then init + [|rs| - 1] else init
  }

  /** FirstWins misses no artist name of `rs` and invents none. */
  lemma {:induction false} FirstWinsNames(rs: seq<Record>)
    ensures forall n :: n in NamesOf(FirstWins(rs)) <==> n in NameSet(rs)
    decreases |rs|
  {
    if rs != [] {
      var init := rs[..|rs| - 1];
      var last := rs[|rs| - 1];
      FirstWinsNames(init);
      assert forall j :: 0 <= j < |init| ==> init[j] == rs[j];
      assert NameSet(rs) == NameSet(init) + {last.artistName};
      var d := FirstWins(init);
      if last.artistName !in NamesOf(d) {
        assert NamesOf(d + [ArtistOf(last)]) == NamesOf(d) + [last.artistName];
      }
    }
  }

  /** Dropping the last record does not change which earlier records come first for their name. */
  lemma FirstOfNamePrefix(rs: seq<Record>)
    requires rs != []
    ensures forall j :: 0 <= j < |rs| - 1 ==> (FirstOfName(rs[..|rs| - 1], j) <==> FirstOfName(rs, j))
  {
    assert forall j :: 0 <= j < |rs| - 1 ==> rs[..|rs| - 1][j] == rs[j];
  }

  /** The last record comes first for its name exactly when FirstWins of the others lacks that name. */
  lemma LastOfName(rs: seq<Record>)
    requires rs != []
    ensures FirstOfName(rs, |rs| - 1) <==> rs[|rs| - 1].artistName !in NamesOf(FirstWins(rs[..|rs| - 1]))
  {
    var init := rs[..|rs| - 1];
    var last := rs[|rs| - 1];
    FirstWinsNames(init);
    if last.artistName in NamesOf(FirstWins(init)) {
      assert last.artistName in NameSet(init);
      var j :| 0 <= j < |init| && init[j].artistName == last.artistName;
      assert rs[j] == init[j];
    } else {
      forall i | 0 <= i < |rs| - 1 ensures rs[i].artistName != last.artistName {
        assert rs[i] == init[i];
        assert rs[i].artistName in NameSet(init);
      }
    }
  }

  /** FirstPositions lists, in increasing order, exactly the indices of first records. */
  lemma {:induction false} FirstPositionsSpec(rs: seq<Record>)
    ensures forall k :: 0 <= k < |FirstPositions(rs)| ==> FirstOfName(rs, FirstPositions(rs)[k])
    ensures forall k1, k2 :: 0 <= k1 < k2 < |FirstPositions(rs)| ==>
      FirstPositions(rs)[k1] < FirstPositions(rs)[k2]
    ensures forall j :: FirstOfName(rs, j) ==> j in FirstPositions(rs)
    decreases |rs|
  {
    if rs != [] {
      FirstPositionsSpec(rs[..|rs| - 1]);
      FirstOfNamePrefix(rs);
    }
  }

  /**
    FirstWins keeps exactly the first record of each name, in order of first
    appearance: its k-th entry is built from the record at the k-th first position.
  */
  lemma {:induction false} FirstWinsByPosition(rs: seq<Record>)
    ensures |FirstWins(rs)| == |FirstPositions(rs)|
    ensures forall k :: 0 <= k < |FirstPositions(rs)| ==>
      0 <= FirstPositions(rs)[k] < |rs| && FirstWins(rs)[k] == ArtistOf(rs[FirstPositions(rs)[k]])
    decreases |rs|
  {
    if rs != [] {
      var init := rs[..|rs| - 1];
      var last := rs[|rs| - 1];
      var p0, d0 := FirstPositions(init), FirstWins(init);
      FirstWinsByPosition(init);
      LastOfName(rs);
      if FirstOfName(rs, |rs| - 1) {
        assert FirstPositions(rs) == p0 + [|rs| - 1];
        assert FirstWins(rs) == d0 + [ArtistOf(last)];
      } else {
        assert FirstPositions(rs) == p0;
        assert FirstWins(rs) == d0;
      }
      forall k | 0 <= k < |p0|
        ensures 0 <= p0[k] < |rs| && FirstWins(rs)[k] == ArtistOf(rs[p0[k]])
      {
        assert rs[p0[k]] == init[p0[k]];
      }
    }
  }

  /** There are as many de-duplicated suggestions as distinct artist names. */
  lemma {:induction false} FirstWinsCount(rs: seq<Record>)
    ensures |FirstWins(rs)| == |NameSet(rs)|
    decreases |rs|
  {
    if rs != [] {
      var init := rs[..|rs| - 1];
      var last := rs[|rs| - 1];
      FirstWinsCount(init);
      FirstWinsNames(init);
      assert forall j :: 0 <= j < |init| ==> init[j] == rs[j];
      assert NameSet(rs) == NameSet(init) + {last.artistName};
    }
  }

  /** Two albums of one artist and one of another: the artist's first album wins. */
  lemma FirstWinsExample(a: Record, b: Record, c: Record)
    requires a.artistName == c.artistName != b.artistName
    ensures FirstWins([a, b, c]) == [ArtistOf(a), ArtistOf(b)]
  {
    FirstWinsSnoc([], a);
    assert [] + [a] == [a];
    FirstWinsSnoc([a], b);
    assert [a] + [b] == [a, b];
    FirstWinsSnoc([a, b], c);
    assert [a, b] + [c] == [a, b, c];
    assert NamesOf([ArtistOf(a), ArtistOf(b)])[0] == c.artistName;
  }

  /** `slice(0, n)`. */
  function Take<T>(xs: seq<T>, n: nat): seq<T> {
    if |xs| <= n then xs else xs[..n]
  }

  /** The de-duplicated list capped at MaxArtists entries. */
  function Suggestions(rs: seq<Record>): (s: seq<Artist>)
    ensures |s| <= MaxArtists
  {
    Take(FirstWins(rs), MaxArtists)
  }

  /**
    The suggestions carry pairwise distinct names; each is built from the first
    record with its name, in order of first appearance; they are a prefix of
    the full de-duplicated list, and all of it when at most MaxArtists distinct
    names occur.
  */
  lemma SuggestionsSpec(rs: seq<Record>)
    ensures var s := Suggestions(rs);
      forall k1, k2 :: 0 <= k1 < k2 < |s| ==> s[k1].artistName != s[k2].artistName
    ensures var s := Suggestions(rs); var p := FirstPositions(rs);
      && |s| <= |p|
      && (forall k :: 0 <= k < |s| ==> FirstOfName(rs, p[k]) && s[k] == ArtistOf(rs[p[k]]))
      && (forall k1, k2 :: 0 <= k1 < k2 < |s| ==> p[k1] < p[k2])
    ensures Suggestions(rs) == FirstWins(rs)[..|Suggestions(rs)|]
    ensures |Suggestions(rs)| == if |NameSet(rs)| <= MaxArtists then |NameSet(rs)| else MaxArtists
    ensures |NameSet(rs)| <= MaxArtists ==> Suggestions(rs) == FirstWins(rs)
  {
    FirstWinsByPosition(rs);
    FirstPositionsSpec(rs);
    FirstWinsCount(rs);
  }

  /**
    A JavaScript `Map` from artist names to suggestions, as its entries in
    insertion order: `has` looks for a key among them, `set` of a new key
    appends an entry, and `values()` lists the values in that order.
  */
  type ArtistMap = seq<(Option<string>, Artist)>

  function MapKeys(m: ArtistMap): (keys: seq<Option<string>>)
    ensures |keys| == |m| && forall k :: 0 <= k < |m| ==> keys[k] == m[k].0
  {
    seq(|m|, k requires 0 <= k < |m| => m[k].0)
  }

  /** `Array.from(m.values())`. */
  function MapValues(m: ArtistMap): (values: seq<Artist>)
    ensures |values| == |m| && forall k :: 0 <= k < |m| ==> values[k] == m[k].1
  {
    seq(|m|, k requires 0 <= k < |m| => m[k].1)
  }

  /** The Map built from the suggestions `d`, keyed by their artist names. */
  ghost predicate MapMirrors(m: ArtistMap, d: seq<Artist>) {
    MapKeys(m) == NamesOf(d) && MapValues(m) == d
  }

  /** `m.set(a.artistName, a)` for a name the Map lacks appends `a` to the mirrored list. */
  lemma MapMirrorsSet(m: ArtistMap, d: seq<Artist>, a: Artist)
    requires MapMirrors(m, d)
    ensures MapMirrors(m + [(a.artistName, a)], d + [a])
  {
    assert MapKeys(m + [(a.artistName, a)]) == MapKeys(m) + [a.artistName];
    assert MapValues(m + [(a.artistName, a)]) == MapValues(m) + [a];
    assert NamesOf(d + [a]) == NamesOf(d) + [a.artistName];
  }

  /**
    The `forEach` of searchArtists over its `Map`: `ok` is false when an
    element of `results` is null or undefined, so that reading its
    `artistName` throws; otherwise `values` is the Map's values in insertion
    order, the first-wins list of the records.
  */
  method DedupByName(items: seq<Item>) returns (ok: bool, values: seq<Artist>)
    ensures ok <==> RecordsOf(items).Some?
    ensures ok ==> values == FirstWins(RecordsOf(items).value)
  {
    var uniqueArtists: ArtistMap := [];
    ghost var recs: seq<Record> := [];
    var i := 0;
    while i < |items|
      invariant 0 <= i <= |items|
      invariant |recs| == i
      invariant forall j :: 0 <= j < i ==> items[j] == Present(recs[j])
      invariant MapMirrors(uniqueArtists, FirstWins(recs))
    {
      if items[i].Absent? {
        RecordsOfAbsent(items, i);
        return false, [];
      }
      var r := items[i].fields;
      ghost var d := FirstWins(recs);
      FirstWinsSnoc(recs, r);
      if r.artistName !in MapKeys(uniqueArtists) {
        MapMirrorsSet(uniqueArtists, d, ArtistOf(r));
        uniqueArtists := uniqueArtists + [(r.artistName, ArtistOf(r))];
      }
      recs := recs + [r];
      i := i + 1;
    }
    RecordsOfAll(items, recs);
    ok := true;
    values := MapValues(uniqueArtists);
  }

  /**
    searchArtists after the request: a query shorter than MinQueryLength gets
    `[]` whatever the catalog would answer; a failed request or parse, a body
    without `results` or a null element of it gets `[]`; otherwise the answer
    is the capped first-wins list.
  */
  method SearchArtists(query: string, response: Response) returns (artists: seq<Artist>)
    ensures |query| < MinQueryLength ==> artists == []
    ensures response.Failed? ==> artists == []
    ensures response.Parsed? && response.results.None? ==> artists == []
    ensures response.Parsed? && response.results.Some? && RecordsOf(response.results.value).None? ==>
      artists == []
    ensures (|query| >= MinQueryLength && response.Parsed? && response.results.Some? &&
             RecordsOf(response.results.value).Some?) ==>
        artists == Suggestions(RecordsOf(response.results.value).value)
  {
    if |query| < MinQueryLength {
      return [];
    }
    if response.Failed? || response.results.None? {
      return [];
    }
    var ok, values := DedupByName(response.results.value);
    if !ok {
      return [];
    }
    artists := Take(values, MaxArtists);
  }

}
