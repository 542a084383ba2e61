/** The status line written to `now_playing.txt` (src/environment.rs). The
    file handle is replaced by its content: a write replaces the whole
    content with the formatted line. */
module Environment {
  import opened Text
  import opened MprisMediaPlayer2

  /** The display flags of the configuration the working environment holds. */
  datatype DisplayFlags = DisplayFlags(artist: bool, title: bool, album: bool)

  /** Every field shown. */
  const ALL_SHOWN: DisplayFlags := DisplayFlags(true, true, true)

  /** Five spaces end every non-empty line, so that scrolling status bars
      leave a gap before the text repeats. */
  const PADDING: string := "     "

  /** A field takes part in the line when it is non-empty and its flag is on. */
  predicate Shown(field: string, flag: bool) {
    field != "" && flag
  }

  function ArtistPart(m: PlayerMetadata, f: DisplayFlags): string {
    if Shown(m.artist, f.artist) then m.artist else ""
  }

  function TitlePart(m: PlayerMetadata, f: DisplayFlags): string {
    if Shown(m.title, f.title) then " - \"" + m.title + "\"" else ""
  }

  function AlbumPart(m: PlayerMetadata, f: DisplayFlags): string {
    if Shown(m.album, f.album) then " [" + m.album + "]" else ""
  }

  /** The status line by its grammar: `[artist][ - "title"][ [album]]`
      followed by the padding, or nothing at all when no part is present. */
  function StatusLine(m: PlayerMetadata, f: DisplayFlags): (r: string)
    ensures r == "" <==> !Shown(m.artist, f.artist) && !Shown(m.title, f.title) && !Shown(m.album, f.album)
    ensures r != "" ==> |r| > |PADDING| && r[|r| - |PADDING|..] == PADDING
  {
    var parts := ArtistPart(m, f) + TitlePart(m, f) + AlbumPart(m, f);
    if |parts| > 0 then parts + PADDING else ""
  }

  /** `write_to_now_playing_file` as written: the line is built by successive
      reassignments, then the file is truncated and the line written, so the
      previous content does not matter. */
  method WriteToNowPlayingFile(previous: string, m: PlayerMetadata, f: DisplayFlags) returns (content: string)
    ensures content == StatusLine(m, f)
    ensures content == "" || (|content| > |PADDING| && content[|content| - |PADDING|..] == PADDING)
  {
    var line := "";
    if m.artist != "" && f.artist {
      line := m.artist;
    }
    assert line == ArtistPart(m, f);
    if m.title != "" && f.title {
      line := line + " - \"" + m.title + "\"";
    }
    assert line == ArtistPart(m, f) + TitlePart(m, f);
    if m.album != "" && f.album {
      line := line + " [" + m.album + "]";
    }
    assert line == ArtistPart(m, f) + TitlePart(m, f) + AlbumPart(m, f);
    if |line| > 0 {
      line := line + PADDING;
      assert line[|line| - |PADDING|..] == PADDING;
    }
    content := line;
  }

  /** All three fields shown: `A - "B" [C]` and the padding. */
  lemma StatusLineAllFields()
    ensures StatusLine(PlayerMetadata("A", "B", "C"), ALL_SHOWN) == "A - \"B\" [C]     "
  {
  }

  /** Only an artist: the artist and the padding, with no dash or bracket. */
  lemma StatusLineArtistOnly()
    ensures StatusLine(PlayerMetadata("A", "", ""), ALL_SHOWN) == "A     "
  {
  }

  /** Nothing to show: the file is emptied. */
  lemma StatusLineEmpty(f: DisplayFlags)
    ensures StatusLine(EMPTY_METADATA, f) == ""
  {
  }

  /** With artist and title shown, the line starts with the artist, then the
      separator, then the quoted title. */
  lemma StatusLineArtistBeforeTitle(m: PlayerMetadata, f: DisplayFlags)
    requires Shown(m.artist, f.artist) && Shown(m.title, f.title)
    ensures IsPrefix(m.artist + " - \"" + m.title + "\"", StatusLine(m, f))
  {
    var head := m.artist + " - \"" + m.title + "\"";
    var rest := AlbumPart(m, f) + PADDING;
    assert ArtistPart(m, f) + TitlePart(m, f) == head;
    assert StatusLine(m, f) == (head + AlbumPart(m, f)) + PADDING;
    assert (head + AlbumPart(m, f)) + PADDING == head + rest;
    assert (head + rest)[..|head|] == head;
  }

  /** Without a shown artist, a shown title still brings its separator: the
      line starts with ` - "`. */
  lemma StatusLineTitleWithoutArtist(m: PlayerMetadata, f: DisplayFlags)
    requires !Shown(m.artist, f.artist) && Shown(m.title, f.title)
    ensures IsPrefix(" - \"" + m.title + "\"", StatusLine(m, f))
  {
    var t := " - \"" + m.title + "\"";
    var r := StatusLine(m, f);
    var rest := AlbumPart(m, f) + PADDING;
    assert ArtistPart(m, f) == "";
    assert TitlePart(m, f) == t;
    assert r == ("" + t + AlbumPart(m, f)) + PADDING;
    assert ("" + t + AlbumPart(m, f)) + PADDING == t + rest;
    assert (t + rest)[..|t|] == t;
  }

  /** A shown album is the last part, written ` [album]`, just before the padding. */
  lemma StatusLineAlbumLast(m: PlayerMetadata, f: DisplayFlags)
    requires Shown(m.album, f.album)
    ensures var r := StatusLine(m, f);
            var tail := " [" + m.album + "]" + PADDING;
            |tail| <= |r| && r[|r| - |tail|..] == tail
  {
    var r := StatusLine(m, f);
    var tail := " [" + m.album + "]" + PADDING;
    var head := ArtistPart(m, f) + TitlePart(m, f);
    var album := " [" + m.album + "]";
    assert AlbumPart(m, f) == album;
    assert r == (head + album) + PADDING;
    assert (head + album) + PADDING == head + tail;
    assert (head + tail)[|head|..] == tail;
  }

  /** The record as the line sees it: hidden fields read as empty. */
  function Visible(m: PlayerMetadata, f: DisplayFlags): PlayerMetadata {
    PlayerMetadata(
      if f.artist then m.artist else "",
      if f.title then m.title else "",
      if f.album then m.album else "")
  }

  /** Hiding a field is the same as emptying it, so the line depends only on
      the visible record: a hidden or empty field can change without
      changing the line. */
  lemma StatusLineOnlyVisible(m: PlayerMetadata, m': PlayerMetadata, f: DisplayFlags)
    requires Visible(m, f) == Visible(m', f)
    ensures StatusLine(m, f) == StatusLine(Visible(m, f), ALL_SHOWN)
    ensures StatusLine(m, f) == StatusLine(m', f)
  {
  }
}
