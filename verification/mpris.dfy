/** The pure part of the media-bus client (src/mpris_mediaplayer2.rs): the
    track record, how it is read out of a player's `Metadata` dictionary,
    which bus names are media players, and when a player counts as playing.
    The bus calls themselves are not modelled; their answers are inputs. */
module MprisMediaPlayer2 {
  import opened Common
  import opened Text

  /** Every media player's well-known bus name starts with this. */
  const BUS_PREFIX: string := "org.mpris.MediaPlayer2."

  /** The playback status a player reports while it plays. */
  const PLAYING: string := "Playing"

  const ARTIST_KEY: string := "xesam:artist"
  const TITLE_KEY: string := "xesam:title"
  const ALBUM_KEY: string := "xesam:album"

  /** The track record; compared field by field (`#[derive(PartialEq)]`). */
  datatype PlayerMetadata = PlayerMetadata(artist: string, title: string, album: string)

  /** `PlayerMetadata::new()`: all three fields empty. */
  const EMPTY_METADATA: PlayerMetadata := PlayerMetadata("", "", "")

  /** Equality of records is equality of all three fields. */
  lemma MetadataEquality(a: PlayerMetadata, b: PlayerMetadata)
    ensures a == b <==> a.artist == b.artist && a.title == b.title && a.album == b.album
  {
  }

  /** A value of the `Metadata` dictionary, as far as the program looks at it:
      a string, something `as_iter` can walk (an array), or anything else. */
  datatype Value = Str(s: string) | Container(items: seq<Value>) | Other

  /** `as_str().unwrap()` on a value that is not a string panics. */
  datatype MetadataError = NotAString(key: string)

  /** The artist text built from an array: each artist followed by one space,
      appended in order to an initially empty string. */
  function JoinArtists(items: seq<Value>): (r: Result<string, MetadataError>)
    ensures r.Success? <==> forall i :: 0 <= i < |items| ==> items[i].Str?
  {
    if |items| == 0 then Success("")
    else
      match JoinArtists(items[..|items| - 1])
      case Failure(e) => Failure(e)
      case Success(init) =>
        match items[|items| - 1]
        case Str(a) => Success(init + a + " ")
        case _ => Failure(NotAString(ARTIST_KEY))
  }

  /** Joining a concatenation of arrays concatenates the joined texts. */
  lemma {:induction false} JoinArtistsAppend(a: seq<Value>, b: seq<Value>)
    requires JoinArtists(a).Success? && JoinArtists(b).Success?
    ensures JoinArtists(a + b) == Success(JoinArtists(a).value + JoinArtists(b).value)
    decreases |b|
  {
    if |b| == 0 {
      assert a + b == a;
      assert JoinArtists(b) == Success("");
      assert JoinArtists(a).value + "" == JoinArtists(a).value;
    } else {
      var b' := b[..|b| - 1];
      assert (a + b)[..|a + b| - 1] == a + b';
      assert (a + b)[|a + b| - 1] == b[|b| - 1];
      assert JoinArtists(b').Success?;
      assert forall i :: 0 <= i < |a + b| ==> (a + b)[i].Str? by {
        forall i | 0 <= i < |a + b| ensures (a + b)[i].Str? {
          if i < |a| { assert (a + b)[i] == a[i]; } else { assert (a + b)[i] == b[i - |a|]; }
        }
      }
      JoinArtistsAppend(a, b');
      var x := b[|b| - 1].s;
      assert JoinArtists(b).value == JoinArtists(b').value + x + " ";
      assert JoinArtists(a + b).value == JoinArtists(a + b').value + x + " ";
      var ja, jb' := JoinArtists(a).value, JoinArtists(b').value;
      assert JoinArtists(a + b').value == ja + jb';
      assert (ja + jb') + x + " " == ja + (jb' + x + " ");
      assert JoinArtists(a + b).Success?;
    }
  }

  /** Two artists "X" and "Y" become `X Y ` (trailing space included). */
  lemma JoinTwoArtists()
    ensures JoinArtists([Str("X"), Str("Y")]) == Success("X Y ")
  {
    assert [Str("X"), Str("Y")][..1] == [Str("X")];
    assert [Str("X")][..0] == [];
    assert JoinArtists([]) == Success("");
    assert "" + "X" + " " == "X ";
    assert JoinArtists([Str("X")]) == Success("X ");
    assert "X " + "Y" + " " == "X Y ";
  }

  /** The artist field: an array is joined, a plain string is taken verbatim,
      anything else is an error. */
  function ArtistOf(v: Value): Result<string, MetadataError> {
    match v
    case Container(items) => JoinArtists(items)
    case Str(s) => Success(s)
    case Other => Failure(NotAString(ARTIST_KEY))
  }

  /** The title and album fields must be strings. */
  function StringOf(v: Value, key: string): Result<string, MetadataError> {
    match v
    case Str(s) => Success(s)
    case _ => Failure(NotAString(key))
  }

  /** Every key the program reads has a value of the shape it expects. */
  predicate WellShaped(m: map<string, Value>) {
    && (ARTIST_KEY in m ==> ArtistOf(m[ARTIST_KEY]).Success?)
    && (TITLE_KEY in m ==> m[TITLE_KEY].Str?)
    && (ALBUM_KEY in m ==> m[ALBUM_KEY].Str?)
  }

  /** The fields `update_metadata_of_player` fills in from a fetched
      `Metadata` dictionary, starting from the empty record. */
  function ExtractMetadata(m: map<string, Value>): (r: Result<PlayerMetadata, MetadataError>)
    ensures r.Success? <==> WellShaped(m)
    ensures r.Success? ==> r.value.artist == (if ARTIST_KEY in m then ArtistOf(m[ARTIST_KEY]).value else "")
    ensures r.Success? ==> r.value.title == (if TITLE_KEY in m then m[TITLE_KEY].s else "")
    ensures r.Success? ==> r.value.album == (if ALBUM_KEY in m then m[ALBUM_KEY].s else "")
  {
    var artist :- if ARTIST_KEY in m then ArtistOf(m[ARTIST_KEY]) else Success("");
    var title :- if TITLE_KEY in m then StringOf(m[TITLE_KEY], TITLE_KEY) else Success("");
    var album :- if ALBUM_KEY in m then StringOf(m[ALBUM_KEY], ALBUM_KEY) else Success("");
    Success(PlayerMetadata(artist, title, album))
  }

  /** A dictionary with none of the three keys yields the empty record. */
  lemma ExtractEmpty()
    ensures ExtractMetadata(map[]) == Success(EMPTY_METADATA)
  {
  }

  /** A scalar artist string is taken as it is, even when it is empty or
      ends without a space. */
  lemma ExtractScalarArtist(m: map<string, Value>, a: string)
    requires WellShaped(m)
    ensures ExtractMetadata(m[ARTIST_KEY := Str(a)]).Success?
    ensures ExtractMetadata(m[ARTIST_KEY := Str(a)]).value.artist == a
  {
    assert WellShaped(m[ARTIST_KEY := Str(a)]);
  }

  /** A title or album that is not a string makes the whole extraction fail,
      whatever the other keys hold. */
  lemma ExtractNonStringFails(m: map<string, Value>, key: string, v: Value)
    requires key == TITLE_KEY || key == ALBUM_KEY
    requires !v.Str?
    ensures ExtractMetadata(m[key := v]).Failure?
  {
  }

  /** The name `get_media_players` keeps for a bus name, if any. */
  function PlayerOf(name: string): seq<string> {
    if Contains(name, BUS_PREFIX) then [RemoveAll(name, BUS_PREFIX)] else []
  }

  /** `get_media_players` after `ListNames`: in order, the names containing
      the MPRIS prefix, with every occurrence of the prefix removed. */
  function FilterPlayers(names: seq<string>): (players: seq<string>)
    ensures |players| <= |names|
    ensures forall p :: p in players ==>
              exists n :: n in names && Contains(n, BUS_PREFIX) && p == RemoveAll(n, BUS_PREFIX)
    ensures forall n :: n in names && Contains(n, BUS_PREFIX) ==> RemoveAll(n, BUS_PREFIX) in players
  {
    if |names| == 0 then []
    else
      var init := names[..|names| - 1];
      var last := names[|names| - 1];
      assert forall n :: n in names ==> n in init || n == last;
      assert forall n :: n in init ==> n in names;
      assert last in names;
      FilterPlayers(init) + PlayerOf(last)
  }

  /** Filtering is done name by name: it distributes over concatenation,
      so the players keep the order of the names they come from. */
  lemma {:induction false} FilterPlayersAppend(a: seq<string>, b: seq<string>)
    ensures FilterPlayers(a + b) == FilterPlayers(a) + FilterPlayers(b)
    decreases |b|
  {
    if |b| == 0 {
      assert a + b == a;
    } else {
      var b' := b[..|b| - 1];
      assert (a + b)[..|a + b| - 1] == a + b';
      FilterPlayersAppend(a, b');
    }
  }

  /** The bus name the program addresses for a player. */
  function BusName(player: string): string {
    BUS_PREFIX + player
  }

  /** For a bus name that is the prefix followed by text free of it, the
      player name is that text, and addressing it reaches the same bus name. */
  lemma PlayerNameRoundTrip(x: string)
    requires !Contains(x, BUS_PREFIX)
    ensures FilterPlayers([BusName(x)]) == [x]
    ensures BusName(FilterPlayers([BusName(x)])[0]) == BusName(x)
  {
    RemoveAllLeading(BUS_PREFIX, x);
    assert IsPrefix(BUS_PREFIX, BusName(x));
    ContainsPrefix(BusName(x), BUS_PREFIX);
    assert [BusName(x)][..0] == [];
  }

  /** `get_media_player_playback_status`: playing exactly when the reported
      status is `Playing`. */
  predicate IsPlaying(status: string) {
    status == PLAYING
  }

  /** Only the exact, capitalised word counts: paused, stopped or
      differently spelled statuses are not playing. */
  lemma IsPlayingExamples()
    ensures IsPlaying("Playing")
    ensures !IsPlaying("Paused") && !IsPlaying("Stopped")
    ensures !IsPlaying("playing") && !IsPlaying("Playing ")
  {
  }
}
