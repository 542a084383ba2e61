# 1lt_nowplaying in Dafny

1lt_nowplaying watches the session bus for MPRIS media players. It writes
the track of the first player that is playing to `now_playing.txt`, where a
status bar can scroll it. It also contains an HTTP responder that serves
the current track as JSON together with a few whitelisted page files. This
project models the decision-making of the program as pure functions over
immutable data, and proves what each piece promises:

- `common.dfy` (`Common`): `Option`, `Result`, bytes and 64-bit unsigned
  integers.
- `text.dfy` (`Text`): the Rust standard-library string operations the
  program relies on. These are `contains`, `replace(p, "")`, decimal
  `to_string`, `parse::<u64>` (an optional `+` is accepted),
  `parse::<bool>`, and `as_bytes` as an explicit UTF-8 encoder.
- `mpris.dfy` (`MprisMediaPlayer2`): the track record
  (`PlayerMetadata`). It covers how the record is read out of a player's
  `Metadata` dictionary, which bus names are players, and when a status
  means "playing".
- `environment.dfy` (`Environment`): the status line written to
  `now_playing.txt`. The file is modelled as its content.
- `nowplaying.dfy` (`NowPlaying`): one iteration of the polling loop. It is
  a step function from (last emitted record, file content) and the bus
  answers of that iteration to the new state. It also returns the file
  writes made and the bus calls issued, in order.
- `config.dfy` (`Config`): the defaults, and the merge of a config file's
  groups over them. It also covers the groups written when there is no
  file yet, and proves that they read back to the defaults.
- `web_display.dfy` (`WebDisplay`): the port check, the draining of the
  mailbox, and one HTTP exchange: routing on the request line,
  whitelisted files, and response framing. A response parser is included
  as the framing's inverse.

Bus answers, the file system, `HOME` and the parsed config file are inputs.
Panics are `Failure` results.

## Model

| member | source | states |
|---|---|---|
| `Text.RemoveAllLeading` | src/mpris_mediaplayer2.rs:74-75 | removing every occurrence of the MPRIS prefix from "prefix + x", where x does not contain the prefix, gives exactly x |
| `Text.ParseU64ToString` | src/config.rs:101-102 | any u64 written in decimal parses back to the same u64 |
| `Text.ParseBoolToString` | src/config.rs:89-90 | a bool written with `format!` parses back to the same bool |
| `Text.Utf8Length` | src/web_display.rs:110-112 | a string's byte length is at least its character count, and equal to it exactly when the string is ASCII, so Content-Length counts bytes and not characters |
| `MprisMediaPlayer2.MetadataEquality` | src/mpris_mediaplayer2.rs:5-10 | two records are equal exactly when artist, title and album are all equal |
| `MprisMediaPlayer2.JoinArtists` | src/mpris_mediaplayer2.rs:33-38 | joining an artist array succeeds exactly when every element is a string |
| `MprisMediaPlayer2.JoinArtistsAppend` | src/mpris_mediaplayer2.rs:33-38 | joining a concatenation of arrays gives the concatenation of the joined texts: each artist in order, each followed by one space |
| `MprisMediaPlayer2.JoinTwoArtists` | src/mpris_mediaplayer2.rs:33-38 | ["X", "Y"] becomes `X Y ` with a trailing space |
| `MprisMediaPlayer2.ExtractMetadata` | src/mpris_mediaplayer2.rs:30-58 | extraction succeeds exactly when every key present has the expected shape; each field is its key's value, or empty when the key is missing |
| `MprisMediaPlayer2.ExtractEmpty` | src/mpris_mediaplayer2.rs:13-19 | a dictionary without the three keys gives the empty record |
| `MprisMediaPlayer2.ExtractScalarArtist` | src/mpris_mediaplayer2.rs:39-43 | a scalar artist string is used verbatim |
| `MprisMediaPlayer2.ExtractNonStringFails` | src/mpris_mediaplayer2.rs:46-58 | a title or album that is not a string makes the extraction fail, whatever else the dictionary holds |
| `MprisMediaPlayer2.FilterPlayers` | src/mpris_mediaplayer2.rs:72-77 | the player list is no longer than the name list; every player is a containing name with the prefix removed; every containing name yields its player |
| `MprisMediaPlayer2.FilterPlayersAppend` | src/mpris_mediaplayer2.rs:73-77 | filtering works name by name and keeps listing order: it distributes over concatenation |
| `MprisMediaPlayer2.PlayerNameRoundTrip` | src/mpris_mediaplayer2.rs:84 | for the bus name "prefix + x", the player name is x, and prefixing x again reaches the same bus name |
| `MprisMediaPlayer2.IsPlayingExamples` | src/mpris_mediaplayer2.rs:92-96 | only the exact status `Playing` counts as playing |
| `Environment.StatusLine` | src/environment.rs:54-66 | the line is empty exactly when no field is both non-empty and shown; a non-empty line is longer than the padding and ends with exactly the five spaces |
| `Environment.WriteToNowPlayingFile` | src/environment.rs:53-71 | the file's whole content becomes the status line, whatever it held before; a non-empty line ends in the five-space padding |
| `Environment.StatusLineAllFields` | src/environment.rs:54-66 | "A", "B", "C" all shown give `A - "B" [C]` followed by five spaces |
| `Environment.StatusLineArtistOnly` | src/environment.rs:64-66 | only an artist "A" gives `A` followed by five spaces |
| `Environment.StatusLineEmpty` | src/environment.rs:54-66 | the empty record gives the empty line under any flags |
| `Environment.StatusLineArtistBeforeTitle` | src/environment.rs:55-60 | with artist and title both shown, the line starts with the artist, the separator ` - ` and the quoted title, in that order |
| `Environment.StatusLineTitleWithoutArtist` | src/environment.rs:58-60 | without a shown artist, a shown title still brings its separator, so the line starts with ` - "title"` |
| `Environment.StatusLineAlbumLast` | src/environment.rs:61-66 | a shown album is the last part, written ` [album]` just before the padding |
| `Environment.StatusLineOnlyVisible` | src/environment.rs:55-63 | the line depends only on the shown fields: records that agree on them give the same line |
| `NowPlaying.Select` | src/nowplaying.rs:40-46 | the walk finds no player exactly when every status query answers something other than `Playing`; a selected player is the first playing one; a failing status query comes after only non-playing players |
| `NowPlaying.SelectFirstPlaying` | src/nowplaying.rs:40-46 | the first playing player is selected, whatever the later players would answer |
| `NowPlaying.Tick` | src/nowplaying.rs:38-84 | a failed listing fails the iteration; at most one write happens; the state changes exactly when a write happens; a write changes the last record, and the file then shows that record's line |
| `NowPlaying.RunTick` | src/nowplaying.rs:38-84 | the loop body as written, with its `break` and its panics, computes the same outcome as the step function |
| `NowPlaying.InitialStateConsistent` | src/nowplaying.rs:35 | the loop starts from the empty record, and the empty file shows it |
| `NowPlaying.TickPreservesConsistency` | src/nowplaying.rs:52-78 | after every successful iteration the file shows the last emitted record |
| `NowPlaying.TickSelectsFirstPlaying` | src/nowplaying.rs:40-80 | the first playing player's record is the one used, and no player after it is queried; nothing is written when the record equals the last one; otherwise its line is written once and it becomes the last record |
| `NowPlaying.TickNonePlaying` | src/nowplaying.rs:81-84 | when no player is playing, every status is queried, nothing is written and the state is kept |
| `NowPlaying.TickStatusFailure` | src/nowplaying.rs:41-44 | a failed status query before any playing player fails the iteration, naming that player |
| `NowPlaying.TickMetadataFailure` | src/nowplaying.rs:46-51 | when the first playing player's metadata cannot be fetched, or its dictionary has the wrong shape, the iteration fails naming that player (and the shape error) |
| `NowPlaying.TickTwiceWritesOnce` | src/nowplaying.rs:52-78 | two iterations with the same bus answers write at most once; the second writes nothing |
| `NowPlaying.TickRecordIgnoresFlags` | src/nowplaying.rs:55-74 | the flags only shape the file's text: success, bus calls, number of writes and the kept record are the same under any flags |
| `Config.GetAttribute` | src/config.rs:85-88 | a key is found exactly when some attribute has that name, and the value found belongs to such an attribute |
| `Config.GetAttributeFirst` | src/config.rs:85-88 | the first attribute with the name is the one found |
| `Config.MergeGeneral` | src/config.rs:84-105 | a `general` group succeeds exactly when every present display value is `true`/`false` and any sleep value is a u64; present keys override their fields and absent keys keep them; port, public and web files are untouched |
| `Config.MergeWebFiles` | src/config.rs:106-115 | a `web_files` group replaces the list only while it still equals the default list, otherwise it appends; in both cases it adds the `web_file` attributes in file order; no other field changes |
| `Config.WebFileValues` | src/config.rs:110-114 | the collected values come exactly from attributes whose names contain `web_file`, and every such attribute contributes |
| `Config.WebFileValuesAppend` | src/config.rs:110-114 | collecting distributes over concatenation of the attribute list, so values keep file order and each matching attribute contributes exactly one entry |
| `Config.MergeGroup` | src/config.rs:83-116 | a group with any other name changes nothing, and only a `general` group can fail |
| `Config.MergeGroups` | src/config.rs:83-117 | merging any groups keeps port and public |
| `Config.ReadConfig` | src/config.rs:69-119 | without a file the defaults stand, provided they hold the three page files the written default file indexes, and otherwise reading fails; an unreadable file is a failure; any result keeps the default port and public |
| `Config.ConfigNewWithoutFile` | src/config.rs:23-49 | without a config file: all fields shown, 1000 ms, port 9500, not public, the three page files, and `now_playing.txt` in the work directory |
| `Config.GeneralRoundTrip` | src/config.rs:125-132 | the written `general` group, merged over the settings it was written from, leaves them unchanged |
| `Config.WebFilesRoundTrip` | src/config.rs:133-136 | the written `web_files` group lists the first three web files in order |
| `Config.WebGroupRoundTrip` | src/config.rs:133-136 | merged over settings with three web files, the written `web_files` group leaves them unchanged |
| `Config.DefaultConfigRoundTrip` | src/config.rs:122-136 | the groups written for settings with three web files read back over those settings to exactly those settings |
| `Config.MergeGroupsPair` | src/config.rs:83-116 | two groups that each leave the settings unchanged leave them unchanged together |
| `Config.WebFilesGroupsAccumulate` | src/config.rs:106-115 | a second `web_files` group appends to the first group's list instead of replacing it |
| `Config.SecondStartMatchesFirst` | src/config.rs:71-74 | the file written at the first start reads back, at the next start, to the settings the first start used |
| `WebDisplay.New` | src/web_display.rs:18-28 | a port is accepted exactly when it parses as a u64 that is 80 or in 1024..65535; the not-a-number error occurs exactly when it does not parse |
| `WebDisplay.NewDecimalPort` | src/web_display.rs:19-25 | a decimal port of any size is accepted exactly when it is 80 or in 1024..65535 |
| `WebDisplay.NewAcceptedPorts` | src/web_display.rs:19-25 | "9500", "+8080" and "80" are accepted |
| `WebDisplay.NewRefusedPorts` | src/web_display.rs:19-25 | "81" and "65536" are out of range; "" and "-1" are not numbers |
| `WebDisplay.Drain` | src/web_display.rs:122-127 | draining yields the last pending value, or the cached value when nothing is pending |
| `WebDisplay.DrainSplit` | src/web_display.rs:122-127 | draining in two steps equals one drain of everything |
| `WebDisplay.DrainCoalesces` | src/web_display.rs:122-127 | three values sent before one drain yield the third, and a second drain with nothing new yields it again |
| `WebDisplay.ParseSerialize` | src/web_display.rs:110-113 | a client reading the written bytes recovers the status and the exact body, because Content-Length is the body's byte count |
| `WebDisplay.RequestLineInjective` | src/web_display.rs:97 | different whitelisted paths are matched by different request lines |
| `WebDisplay.FirstRequestServesEmpty` | src/web_display.rs:36 | a now-playing request before anything was sent keeps the starting empty snapshot and serves `{"nowplaying": {"title": "", "artist": ""}}` |
| `WebDisplay.NowplayingJsonWithAlbum` | src/web_display.rs:86-89 | with an album the body is `{"nowplaying": {"title": "T [A]", "artist": "R"}}` |
| `WebDisplay.NowplayingJsonWithoutAlbum` | src/web_display.rs:90-93 | without an album the title stands alone: `{"nowplaying": {"title": "B", "artist": "A"}}` |
| `WebDisplay.NowplayingJsonUnescaped` | src/web_display.rs:90-93 | a quote in the title is copied unescaped into the body |
| `WebDisplay.ServeWhitelisted` | src/web_display.rs:96-103 | a line matches no whitelist entry exactly when no entry's request line equals it; a match serves that path's file, or 404 with an empty body when the file cannot be opened |
| `WebDisplay.HandleHttpRequest` | src/web_display.rs:45-120 | no request line: nothing is written and the state is kept. The now-playing line drains the mailbox and answers 200 with the JSON. Any other line keeps the snapshot and the mailbox; it gets the file for a whitelisted path, otherwise 403 with an empty body |
| `WebDisplay.NowplayingRouteFirst` | src/web_display.rs:83-95 | the now-playing route wins even when `/nowplaying` is whitelisted too |
| `WebDisplay.WhitelistedFile` | src/web_display.rs:129-139 | a whitelisted file is read from the work directory's `web_display` directory; the reply reads back as 200 with exactly its bytes, or as 404 with an empty body when it cannot be opened |
| `WebDisplay.ForbiddenLine` | src/web_display.rs:104-106 | any other line reads back as 403 with an empty body and leaves the snapshot and the mailbox alone |
| `WebDisplay.NowplayingReply` | src/web_display.rs:84-93 | the now-playing reply reads back as 200 with the UTF-8 of the JSON for the newest value sent |

## Left out

- D-Bus sessions, proxies, five-second timeouts and property fetches
  (src/mpris_mediaplayer2.rs:22-28, 66-69, 83-89) are foreign library
  calls. Their answers are the `Bus` input, keyed by the full bus name the
  program addresses. Every transport failure is the single `BusError`.
- The dictionary values are reduced to string, array or other. How
  `as_iter` treats the other variant types of the D-Bus library is not
  modelled. A string is taken verbatim, an array is joined, and anything
  else is an error.
- The infinite loop and `thread::sleep` (src/nowplaying.rs:37, 85) are not
  modelled. One iteration is modelled, and the interval is a millisecond
  number in the settings.
- Console output (`println!`, the licence banners in src/main.rs) is
  cosmetic and not modelled.
- Failures to truncate, seek or write `now_playing.txt`
  (src/environment.rs:68-70) are I/O errors and not modelled. A write
  always replaces the content.
- Creating the work directory and `now_playing.txt`
  (src/environment.rs:22-41) is file-system I/O. The loop's initial state
  is the freshly truncated, empty file.
- The TCP listener, accept loop, socket reads and writes are not modelled
  (src/web_display.rs:30-46, 114-117). The listener is hard-wired to
  `127.0.0.1:9500`, so the checked `port` and the `public` flag have no
  effect. The request line is an input with its line terminator already
  removed, and `None` stands for a missing or unreadable line. A failed
  socket write is a panic that is not modelled.
- `main` never starts the HTTP responder (src/main.rs:14-19), and the
  polling loop never sends into the mailbox. The model therefore has no
  producer for the mailbox: the pending values are an input of the
  responder.
- The mutex around the mailbox receiver (src/web_display.rs:123) is
  concurrency and not modelled. The pending values are a plain sequence.
- `NowplayingData` is imported from `nowplaying.rs`, which does not define
  it. It is modelled from the three fields `web_display.rs` uses.
- Errors from `read_to_end` are ignored by the program
  (src/web_display.rs:138). The model serves the whole file.
- The commented-out routing block (src/web_display.rs:56-78) is dead code
  and not modelled.
- Looking up `HOME` (src/config.rs:52-55, 145-149) is environment access.
  `HOME` is a parameter. The case where it is missing, with its panic or
  its error-text path, is not modelled.
- Creating the config directory, checking whether the config file exists,
  and the `config_1lt` reader and writer are file-system I/O and a foreign
  library (src/config.rs:56-66, 76-79, 123-140). The file is `Missing`,
  `Unreadable` or its parsed groups. `ConfigAttribute::new` validation and a
  failed write are not modelled.
- Config.GetAttribute: the `config_1lt` library is not part of this model.
  `get_config_attribute` is taken to return the first attribute with the
  given name.
- Config.MergeGroups: its contract states only that port and public are
  kept. The effect of each group is stated on `Config.MergeGroup`,
  `Config.MergeGeneral` and `Config.MergeWebFiles`, and the effect of
  particular group sequences on `Config.MergeGroupsPair` and
  `Config.WebFilesGroupsAccumulate`.
- Config.DefaultConfigRoundTrip: stated for settings with exactly three web
  files, as the defaults have. With more files the written group keeps
  only the first three, so the settings would not read back unchanged.
- `sleep_duration` is kept in whole milliseconds as a u64, where the
  program holds a `Duration`. `as_millis` of a duration built from
  milliseconds gives the same number back.
