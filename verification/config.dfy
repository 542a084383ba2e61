/** The program's settings (src/config.rs): the defaults of `Config::new`,
    how the groups of an existing config file override them in
    `read_config`, and the groups `write_default_config` writes when there
    is no file yet. The file itself is replaced by its parsed groups. */
module Config {
  import opened Common
  import opened Text

  /** The settings. `sleepMs` is the polling interval in milliseconds. */
  datatype Config = Config(
    nowplayingPath: string,
    displayArtist: bool,
    displayAlbum: bool,
    displayTitle: bool,
    sleepMs: u64,
    port: string,
    webFiles: seq<string>,
    public: bool)

  const DEFAULT_SLEEP_MS: u64 := 1000
  const DEFAULT_PORT: string := "9500"
  const DEFAULT_WEB_FILES: seq<string> := ["/nowplaying.html", "/nowplaying.css", "/nowplaying.js"]

  /** `get_default_work_directory`, given the value of `HOME`. */
  function DefaultWorkDirectory(home: string): string {
    home + "/.local/share/1lt_software/1lt_nowplaying/"
  }

  /** The defaults `Config::new` starts from. */
  function Defaults(home: string): Config {
    Config(
      DefaultWorkDirectory(home) + "now_playing.txt",
      true, true, true,
      DEFAULT_SLEEP_MS,
      DEFAULT_PORT,
      DEFAULT_WEB_FILES,
      false)
  }

  /** One `name = value` line of a config group. */
  datatype Attribute = Attribute(name: string, value: string)

  /** A named group of attributes, in file order. */
  datatype Group = Group(name: string, attributes: seq<Attribute>)

  /** The config file: absent, present but unreadable, or read into groups. */
  datatype ConfigFile = Missing | Unreadable | Present(groups: seq<Group>)

  /** The failures that end the program while reading or writing settings. */
  datatype ConfigError =
    | FileUnreadable
    | NotABool(key: string, value: string)
    | NotAU64(value: string)
    | TooFewWebFiles

  const GENERAL: string := "general"
  const WEB_FILES: string := "web_files"
  const WEB_FILE_MARK: string := "web_file"

  /** `get_config_attribute`: the value of the first attribute with that name. */
  function GetAttribute(attrs: seq<Attribute>, key: string): (r: Option<string>)
    ensures r.None? <==> forall i :: 0 <= i < |attrs| ==> attrs[i].name != key
    ensures r.Some? ==> Attribute(key, r.value) in attrs
  {
    if |attrs| == 0 then None
    else if attrs[0].name == key then Some(attrs[0].value)
    else GetAttribute(attrs[1..], key)
  }

  /** The first attribute with the name is the one found, whatever follows. */
  lemma {:induction false} GetAttributeFirst(attrs: seq<Attribute>, key: string, i: nat)
    requires i < |attrs| && attrs[i].name == key
    requires forall j :: 0 <= j < i ==> attrs[j].name != key
    ensures GetAttribute(attrs, key) == Some(attrs[i].value)
    decreases i
  {
    if i > 0 {
      GetAttributeFirst(attrs[1..], key, i - 1);
    }
  }

  /** A display flag: overridden by a present attribute, which must read
      `true` or `false`. */
  function BoolSetting(attrs: seq<Attribute>, key: string, prior: bool): (r: Result<bool, ConfigError>)
    ensures r.Success? <==> BoolAcceptable(attrs, key)
    ensures r.Success? ==> r.value == BoolOverride(attrs, key, prior)
  {
    match GetAttribute(attrs, key)
    case None => Success(prior)
    case Some(v) =>
      match ParseBool(v)
      case Some(b) => Success(b)
      case None => Failure(NotABool(key, v))
  }

  /** The polling interval: overridden by a present attribute, which must be
      a `u64` number of milliseconds. */
  function SleepSetting(attrs: seq<Attribute>, prior: u64): (r: Result<u64, ConfigError>)
    ensures r.Success? <==> (GetAttribute(attrs, "sleep_duration").Some? ==> ParseU64(GetAttribute(attrs, "sleep_duration").value).Some?)
    ensures r.Success? && GetAttribute(attrs, "sleep_duration").Some? ==>
              Some(r.value) == ParseU64(GetAttribute(attrs, "sleep_duration").value)
    ensures r.Success? && GetAttribute(attrs, "sleep_duration").None? ==> r.value == prior
  {
    match GetAttribute(attrs, "sleep_duration")
    case None => Success(prior)
    case Some(v) =>
      match ParseU64(v)
      case Some(n) => Success(n)
      case None => Failure(NotAU64(v))
  }

  /** The key is absent, or present with `true` or `false`. */
  predicate BoolAcceptable(attrs: seq<Attribute>, key: string) {
    GetAttribute(attrs, key).Some? ==> GetAttribute(attrs, key).value in {"true", "false"}
  }

  /** The value a present key sets, or the prior value. */
  function StringOverride(attrs: seq<Attribute>, key: string, prior: string): string {
    match GetAttribute(attrs, key)
    case Some(v) => v
    case None => prior
  }

  function BoolOverride(attrs: seq<Attribute>, key: string, prior: bool): bool {
    match GetAttribute(attrs, key)
    case Some(v) => v == "true"
    case None => prior
  }

  /** A `general` group: path, display flags and interval are overridden by
      the attributes present; `port` and `public` are not read. */
  function MergeGeneral(c: Config, attrs: seq<Attribute>): (r: Result<Config, ConfigError>)
    ensures r.Success? <==>
              && BoolAcceptable(attrs, "display_artist")
              && BoolAcceptable(attrs, "display_album")
              && BoolAcceptable(attrs, "display_title")
              && (GetAttribute(attrs, "sleep_duration").Some? ==> ParseU64(GetAttribute(attrs, "sleep_duration").value).Some?)
    ensures r.Success? ==>
              && r.value.nowplayingPath == StringOverride(attrs, "nowplaying_path", c.nowplayingPath)
              && r.value.displayArtist == BoolOverride(attrs, "display_artist", c.displayArtist)
              && r.value.displayAlbum == BoolOverride(attrs, "display_album", c.displayAlbum)
              && r.value.displayTitle == BoolOverride(attrs, "display_title", c.displayTitle)
              && r.value.port == c.port
              && r.value.public == c.public
              && r.value.webFiles == c.webFiles
    ensures r.Success? && GetAttribute(attrs, "sleep_duration").Some? ==>
              Some(r.value.sleepMs) == ParseU64(GetAttribute(attrs, "sleep_duration").value)
    ensures r.Success? && GetAttribute(attrs, "sleep_duration").None? ==> r.value.sleepMs == c.sleepMs
  {
    var path := StringOverride(attrs, "nowplaying_path", c.nowplayingPath);
    var artist :- BoolSetting(attrs, "display_artist", c.displayArtist);
    var album :- BoolSetting(attrs, "display_album", c.displayAlbum);
    var title :- BoolSetting(attrs, "display_title", c.displayTitle);
    var sleep :- SleepSetting(attrs, c.sleepMs);
    Success(c.(nowplayingPath := path, displayArtist := artist, displayAlbum := album,
               displayTitle := title, sleepMs := sleep))
  }

  /** The values of the attributes whose names contain `web_file`, in order. */
  function WebFileValues(attrs: seq<Attribute>): (files: seq<string>)
    ensures |files| <= |attrs|
    ensures forall v :: v in files ==>
              exists a :: a in attrs && Contains(a.name, WEB_FILE_MARK) && a.value == v
    ensures forall a :: a in attrs && Contains(a.name, WEB_FILE_MARK) ==> a.value in files
  {
    if |attrs| == 0 then []
    else
      var init := attrs[..|attrs| - 1];
      var last := attrs[|attrs| - 1];
      assert forall a :: a in attrs ==> a in init || a == last;
      assert forall a :: a in init ==> a in attrs;
      assert last in attrs;
      WebFileValues(init) + (if Contains(last.name, WEB_FILE_MARK) then [last.value] else [])
  }

  /** Collecting is done attribute by attribute: it distributes over
      concatenation, so the values keep file order, one per matching
      attribute. */
  lemma {:induction false} WebFileValuesAppend(a: seq<Attribute>, b: seq<Attribute>)
    ensures WebFileValues(a + b) == WebFileValues(a) + WebFileValues(b)
    decreases |b|
  {
    if |b| == 0 {
      assert a + b == a;
    } else {
      var b' := b[..|b| - 1];
      assert (a + b)[..|a + b| - 1] == a + b';
      WebFileValuesAppend(a, b');
    }
  }

  /** A `web_files` group: the list is emptied only while it still equals the
      default list, then the group's web files are appended. */
  function MergeWebFiles(c: Config, defaults: Config, attrs: seq<Attribute>): (r: Config)
    ensures r == c.(webFiles := r.webFiles)
    ensures c.webFiles == defaults.webFiles ==> r.webFiles == WebFileValues(attrs)
    ensures c.webFiles != defaults.webFiles ==> r.webFiles == c.webFiles + WebFileValues(attrs)
  {
    var kept := if c.webFiles == defaults.webFiles then [] else c.webFiles;
    c.(webFiles := kept + WebFileValues(attrs))
  }

  /** One group of the file; groups with other names change nothing. */
  function MergeGroup(c: Config, defaults: Config, g: Group): (r: Result<Config, ConfigError>)
    ensures g.name != GENERAL && g.name != WEB_FILES ==> r == Success(c)
    ensures g.name != GENERAL ==> r.Success?
  {
    if g.name == GENERAL then MergeGeneral(c, g.attributes)
    else if g.name == WEB_FILES then Success(MergeWebFiles(c, defaults, g.attributes))
    else Success(c)
  }

  /** The loop of `read_config` over the groups in file order; the first
      malformed value ends it. */
  function MergeGroups(c: Config, defaults: Config, groups: seq<Group>): (r: Result<Config, ConfigError>)
    ensures r.Success? ==> r.value.port == c.port && r.value.public == c.public
    decreases |groups|
  {
    if |groups| == 0 then Success(c)
    else
      var c' :- MergeGroup(c, defaults, groups[0]);
      MergeGroups(c', defaults, groups[1..])
  }

  /** A second `web_files` group adds to what the first one set instead of
      replacing it, unless the first set exactly the default list. */
  lemma WebFilesGroupsAccumulate(defaults: Config, a1: seq<Attribute>, a2: seq<Attribute>)
    requires WebFileValues(a1) != defaults.webFiles
    ensures MergeGroups(defaults, defaults, [Group(WEB_FILES, a1), Group(WEB_FILES, a2)])
            == Success(defaults.(webFiles := WebFileValues(a1) + WebFileValues(a2)))
  {
    var g1, g2 := Group(WEB_FILES, a1), Group(WEB_FILES, a2);
    var c1 := MergeWebFiles(defaults, defaults, a1);
    var c2 := MergeWebFiles(c1, defaults, a2);
    assert [g1, g2][1..] == [g2];
    assert [g2][1..] == [];
    assert MergeGroups(c1, defaults, [g2]) == Success(c2);
    assert MergeGroups(defaults, defaults, [g1, g2]) == MergeGroups(c1, defaults, [g2]);
  }

  /** `read_config`: without a file the defaults stand; an unreadable file
      ends the program; otherwise the groups are merged into the defaults.
      `port` and `public` always keep their defaults. */
  function ReadConfig(file: ConfigFile, defaults: Config): (r: Result<Config, ConfigError>)
    ensures file.Missing? && |defaults.webFiles| >= 3 ==> r == Success(defaults)
    ensures file.Missing? && |defaults.webFiles| < 3 ==> r == Failure(TooFewWebFiles)
    ensures file.Unreadable? ==> r.Failure?
    ensures r.Success? ==> r.value.port == defaults.port && r.value.public == defaults.public
  {
    match file
    case Missing =>
      var _ :- DefaultConfigGroups(defaults);
      Success(defaults)
    case Unreadable => Failure(FileUnreadable)
    case Present(groups) => MergeGroups(defaults, defaults, groups)
  }

  /** `Config::new` for a given `HOME` and config file. */
  function ConfigNew(home: string, file: ConfigFile): Result<Config, ConfigError> {
    ReadConfig(file, Defaults(home))
  }

  /** Without a config file the settings are the defaults: all fields shown,
      one second between polls, port 9500, loopback only, the three page
      files, and the status file in the default work directory. */
  lemma ConfigNewWithoutFile(home: string)
    ensures ConfigNew(home, Missing).Success?
    ensures var c := ConfigNew(home, Missing).value;
            && c.displayArtist && c.displayAlbum && c.displayTitle
            && c.sleepMs == 1000
            && c.port == "9500"
            && !c.public
            && c.webFiles == ["/nowplaying.html", "/nowplaying.css", "/nowplaying.js"]
            && c.nowplayingPath == DefaultWorkDirectory(home) + "now_playing.txt"
  {
  }

  /** The groups `write_default_config` writes for the given settings; the
      program indexes the first three web files, so fewer is an error. */
  function DefaultConfigGroups(c: Config): Result<seq<Group>, ConfigError> {
    if |c.webFiles| < 3 then Failure(TooFewWebFiles)
    else
      Success([Group(GENERAL, GeneralAttributes(c)), Group(WEB_FILES, WebFileAttributes(c))])
  }

  /** The `general` group written for some settings. */
  function GeneralAttributes(c: Config): seq<Attribute> {
    [ Attribute("nowplaying_path", c.nowplayingPath),
      Attribute("display_artist", BoolToString(c.displayArtist)),
      Attribute("display_album", BoolToString(c.displayAlbum)),
      Attribute("display_title", BoolToString(c.displayTitle)),
      Attribute("sleep_duration", NatToString(c.sleepMs)),
      Attribute("port", c.port),
      Attribute("public", BoolToString(c.public)) ]
  }

  /** The `web_files` group written for some settings. */
  function WebFileAttributes(c: Config): seq<Attribute>
    requires |c.webFiles| >= 3
  {
    [ Attribute("web_file0", c.webFiles[0]),
      Attribute("web_file1", c.webFiles[1]),
      Attribute("web_file2", c.webFiles[2]) ]
  }

  /** The written `general` group reads back to the settings it came from. */
  lemma GeneralRoundTrip(c: Config)
    ensures MergeGeneral(c, GeneralAttributes(c)) == Success(c)
  {
    var attrs := GeneralAttributes(c);
    GeneralPathRoundTrip(c);
    GeneralFlagRoundTrip(c, "display_artist", 1, c.displayArtist);
    GeneralFlagRoundTrip(c, "display_album", 2, c.displayAlbum);
    GeneralFlagRoundTrip(c, "display_title", 3, c.displayTitle);
    GeneralSleepRoundTrip(c);
  }

  lemma GeneralPathRoundTrip(c: Config)
    ensures StringOverride(GeneralAttributes(c), "nowplaying_path", c.nowplayingPath) == c.nowplayingPath
  {
    GetAttributeFirst(GeneralAttributes(c), "nowplaying_path", 0);
  }

  lemma GeneralFlagRoundTrip(c: Config, key: string, i: nat, b: bool)
    requires 1 <= i <= 3
    requires GeneralAttributes(c)[i] == Attribute(key, BoolToString(b))
    ensures BoolSetting(GeneralAttributes(c), key, b) == Success(b)
  {
    var attrs := GeneralAttributes(c);
    assert forall j :: 0 <= j < i ==> attrs[j].name != key;
    GetAttributeFirst(attrs, key, i);
    ParseBoolToString(b);
  }

  lemma GeneralSleepRoundTrip(c: Config)
    ensures SleepSetting(GeneralAttributes(c), c.sleepMs) == Success(c.sleepMs)
  {
    GetAttributeFirst(GeneralAttributes(c), "sleep_duration", 4);
    ParseU64ToString(c.sleepMs);
  }

  /** The written `web_files` group lists the first three web files. */
  lemma WebFilesRoundTrip(c: Config)
    requires |c.webFiles| >= 3
    ensures WebFileValues(WebFileAttributes(c)) == c.webFiles[..3]
  {
    var web := WebFileAttributes(c);
    assert IsPrefix(WEB_FILE_MARK, "web_file0");
    assert IsPrefix(WEB_FILE_MARK, "web_file1");
    assert IsPrefix(WEB_FILE_MARK, "web_file2");
    assert web[..2][..1] == [web[0]];
    assert web[..2] == [web[0], web[1]];
    assert [web[0]][..0] == [];
  }

  /** Reading back the groups written for settings with three web files,
      over those same settings, reproduces them exactly. */
  lemma DefaultConfigRoundTrip(c: Config)
    requires |c.webFiles| == 3
    ensures DefaultConfigGroups(c).Success?
    ensures MergeGroups(c, c, DefaultConfigGroups(c).value) == Success(c)
  {
    var general := Group(GENERAL, GeneralAttributes(c));
    var web := Group(WEB_FILES, WebFileAttributes(c));
    assert DefaultConfigGroups(c).value == [general, web];
    GeneralRoundTrip(c);
    WebGroupRoundTrip(c);
    MergeGroupsPair(c, c, general, web);
  }

  /** The written `web_files` group, merged over settings with exactly three
      web files, leaves them as they are. */
  lemma WebGroupRoundTrip(c: Config)
    requires |c.webFiles| == 3
    ensures MergeGroup(c, c, Group(WEB_FILES, WebFileAttributes(c))) == Success(c)
  {
    var attrs := WebFileAttributes(c);
    WebFilesRoundTrip(c);
    assert c.webFiles[..3] == c.webFiles;
    assert MergeWebFiles(c, c, attrs) == c.(webFiles := [] + WebFileValues(attrs));
    assert [] + WebFileValues(attrs) == c.webFiles;
  }

  /** Two groups that each leave the settings unchanged leave them unchanged together. */
  lemma MergeGroupsPair(c: Config, defaults: Config, g1: Group, g2: Group)
    requires MergeGroup(c, defaults, g1) == Success(c)
    requires MergeGroup(c, defaults, g2) == Success(c)
    ensures MergeGroups(c, defaults, [g1, g2]) == Success(c)
  {
    assert [g2][1..] == [];
    assert MergeGroups(c, defaults, [g2]) == MergeGroups(c, defaults, []);
    assert [g1, g2][1..] == [g2];
    assert MergeGroups(c, defaults, [g1, g2]) == MergeGroups(c, defaults, [g2]);
  }

  /** The first start writes a file that later starts read back to the very
      settings the first start used. */
  lemma SecondStartMatchesFirst(home: string)
    ensures DefaultConfigGroups(Defaults(home)).Success?
    ensures ConfigNew(home, Present(DefaultConfigGroups(Defaults(home)).value)) == ConfigNew(home, Missing)
  {
    DefaultConfigRoundTrip(Defaults(home));
  }
}
