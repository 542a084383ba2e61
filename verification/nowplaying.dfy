/** One iteration of the polling loop of `Service::now_playing`
    (src/nowplaying.rs). The loop's state is the last emitted record and the
    content of the status file; the bus answers of one iteration are an
    input; the iteration reports the file writes it made and the bus calls
    it issued, in order. */
module NowPlaying {
  import opened Common
  import opened MprisMediaPlayer2
  import opened Environment

  /** A transport failure of a bus call (no session, no such name, timeout). */
  datatype BusError = BusError

  /** What the session bus answers during one iteration: the registered
      names, and, for each bus name, its playback status and its metadata. */
  datatype Bus = Bus(
    listNames: Result<seq<string>, BusError>,
    playbackStatus: string -> Result<string, BusError>,
    metadata: string -> Result<map<string, Value>, BusError>)

  /** The bus calls an iteration issues. */
  datatype BusCall = ListNames | GetPlaybackStatus(busName: string) | GetMetadata(busName: string)

  /** The failures that end the loop (each is a panic in the program). */
  datatype TickError =
    | ListingFailed
    | StatusFailed(player: string)
    | MetadataFailed(player: string)
    | MetadataMalformed(player: string, cause: MetadataError)

  /** The last emitted record and the content of `now_playing.txt`. */
  datatype LoopState = LoopState(last: PlayerMetadata, file: string)

  /** Before the first iteration: the empty record, and the file that
      `File::create` has just truncated. */
  const INITIAL_STATE: LoopState := LoopState(EMPTY_METADATA, "")

  /** The outcome of one successful iteration. */
  datatype TickResult = TickResult(state: LoopState, writes: seq<string>, calls: seq<BusCall>)

  /** The status queries for a run of players, in order. */
  function StatusCalls(players: seq<string>): seq<BusCall> {
    seq(|players|, i requires 0 <= i < |players| => GetPlaybackStatus(BusName(players[i])))
  }

  lemma StatusCallsAppend(players: seq<string>, player: string)
    ensures StatusCalls(players + [player]) == StatusCalls(players) + [GetPlaybackStatus(BusName(player))]
  {
  }

  /** The player answered its status query with something other than `Playing`. */
  predicate NotPlaying(bus: Bus, player: string) {
    var status := bus.playbackStatus(BusName(player));
    status.Success? && !IsPlaying(status.value)
  }

  /** The player reported `Playing`. */
  predicate Playing(bus: Bus, player: string) {
    bus.playbackStatus(BusName(player)) == Success(PLAYING)
  }

  /** Player `k` is the first one, in listing order, that is playing. */
  predicate FirstPlaying(bus: Bus, players: seq<string>, k: nat) {
    && k < |players|
    && Playing(bus, players[k])
    && forall j :: 0 <= j < k ==> NotPlaying(bus, players[j])
  }

  /** Where the walk over the players stops. */
  datatype Selection = NonePlaying | Selected(index: nat) | StatusError(index: nat)

  /** The walk over the players in listing order: it stops at the first one
      that is playing or whose status query fails. */
  function Select(bus: Bus, players: seq<string>): (sel: Selection)
    ensures sel.NonePlaying? <==> forall j :: 0 <= j < |players| ==> NotPlaying(bus, players[j])
    ensures sel.Selected? ==> FirstPlaying(bus, players, sel.index)
    ensures sel.StatusError? ==> sel.index < |players|
    ensures sel.StatusError? ==> bus.playbackStatus(BusName(players[sel.index])).Failure?
    ensures sel.StatusError? ==> forall j :: 0 <= j < sel.index ==> NotPlaying(bus, players[j])
  {
    if |players| == 0 then NonePlaying
    else
      match bus.playbackStatus(BusName(players[0]))
      case Failure(_) => StatusError(0)
      case Success(status) =>
        if IsPlaying(status) then Selected(0)
        else
          match Select(bus, players[1..])
          case NonePlaying => NonePlaying
          case Selected(k) => Selected(k + 1)
          case StatusError(k) => StatusError(k + 1)
  }

  /** The walk stops at the first playing player whatever the players after
      it would answer. */
  lemma SelectFirstPlaying(bus: Bus, players: seq<string>, k: nat)
    requires FirstPlaying(bus, players, k)
    ensures Select(bus, players) == Selected(k)
  {
  }

  /** One iteration: list the players, take the first playing one, fetch
      its metadata, and write the status file only when the record differs
      from the last emitted one. */
  function Tick(s: LoopState, bus: Bus, flags: DisplayFlags): (r: Result<TickResult, TickError>)
    ensures bus.listNames.Failure? ==> r == Failure(ListingFailed)
    ensures r.Success? ==> |r.value.writes| <= 1
    ensures r.Success? ==> (r.value.writes == [] <==> r.value.state == s)
    ensures r.Success? && r.value.writes != [] ==>
              && r.value.state.last != s.last
              && r.value.writes == [r.value.state.file]
              && r.value.state.file == StatusLine(r.value.state.last, flags)
  {
    match bus.listNames
    case Failure(_) => Failure(ListingFailed)
    case Success(names) =>
      var players := FilterPlayers(names);
      match Select(bus, players)
      case NonePlaying => Success(TickResult(s, [], [ListNames] + StatusCalls(players)))
      case StatusError(k) => Failure(StatusFailed(players[k]))
      case Selected(k) =>
        var player := players[k];
        match bus.metadata(BusName(player))
        case Failure(_) => Failure(MetadataFailed(player))
        case Success(dict) =>
          match ExtractMetadata(dict)
          case Failure(e) => Failure(MetadataMalformed(player, e))
          case Success(m) =>
            var calls := [ListNames] + StatusCalls(players[..k + 1]) + [GetMetadata(BusName(player))];
            if m == s.last then Success(TickResult(s, [], calls))
            else
              var line := StatusLine(m, flags);
              Success(TickResult(LoopState(m, line), [line], calls))
  }

  /** The loop body as written: a `for` over the players that breaks after
      the first playing one, panicking on any failed bus call. */
  method RunTick(s: LoopState, bus: Bus, flags: DisplayFlags) returns (r: Result<TickResult, TickError>)
    ensures r == Tick(s, bus, flags)
  {
    if bus.listNames.Failure? {
      return Failure(ListingFailed);
    }
    var players := FilterPlayers(bus.listNames.value);
    var calls := [ListNames];
    var i := 0;
    while i < |players|
      invariant 0 <= i <= |players|
      invariant forall j :: 0 <= j < i ==> NotPlaying(bus, players[j])
      invariant calls == [ListNames] + StatusCalls(players[..i])
    {
      var player := players[i];
      calls := calls + [GetPlaybackStatus(BusName(player))];
      assert players[..i + 1] == players[..i] + [player];
      StatusCallsAppend(players[..i], player);
      var status := bus.playbackStatus(BusName(player));
      if status.Failure? {
        return Failure(StatusFailed(player));
      }
      if IsPlaying(status.value) {
        SelectFirstPlaying(bus, players, i);
        calls := calls + [GetMetadata(BusName(player))];
        var dict := bus.metadata(BusName(player));
        if dict.Failure? {
          return Failure(MetadataFailed(player));
        }
        var m := ExtractMetadata(dict.value);
        if m.Failure? {
          return Failure(MetadataMalformed(player, m.error));
        }
        if s.last != m.value {
          var line := WriteToNowPlayingFile(s.file, m.value, flags);
          return Success(TickResult(LoopState(m.value, line), [line], calls));
        }
        assert calls == [ListNames] + StatusCalls(players[..i + 1]) + [GetMetadata(BusName(player))];
        assert Tick(s, bus, flags) == Success(TickResult(s, [], calls));
        return Success(TickResult(s, [], calls));
      }
      i := i + 1;
    }
    assert players[..i] == players;
    return Success(TickResult(s, [], calls));
  }

  /** The file shows the last emitted record. */
  predicate Consistent(s: LoopState, flags: DisplayFlags) {
    s.file == StatusLine(s.last, flags)
  }

  /** The loop starts consistent: the empty record formats to the empty file. */
  lemma InitialStateConsistent(flags: DisplayFlags)
    ensures INITIAL_STATE.last == PlayerMetadata("", "", "")
    ensures Consistent(INITIAL_STATE, flags)
  {
    StatusLineEmpty(flags);
  }

  /** Every successful iteration keeps the file showing the last emitted
      record; in particular the file is not cleared when playback stops. */
  lemma TickPreservesConsistency(s: LoopState, bus: Bus, flags: DisplayFlags)
    requires Consistent(s, flags)
    requires Tick(s, bus, flags).Success?
    ensures Consistent(Tick(s, bus, flags).value.state, flags)
  {
  }

  /** The first playing player in listing order is the one whose record is
      taken; the players after it are not queried; a write happens exactly
      when its record differs from the last emitted one, and then it writes
      that record's line and makes it the last emitted one. */
  lemma TickSelectsFirstPlaying(s: LoopState, bus: Bus, flags: DisplayFlags, k: nat, m: PlayerMetadata)
    requires bus.listNames.Success?
    requires FirstPlaying(bus, FilterPlayers(bus.listNames.value), k)
    requires var player := FilterPlayers(bus.listNames.value)[k];
             && bus.metadata(BusName(player)).Success?
             && ExtractMetadata(bus.metadata(BusName(player)).value) == Success(m)
    ensures var players := FilterPlayers(bus.listNames.value);
            var r := Tick(s, bus, flags);
            && r.Success?
            && r.value.calls == [ListNames] + StatusCalls(players[..k + 1]) + [GetMetadata(BusName(players[k]))]
            && (m == s.last ==> r.value.writes == [] && r.value.state == s)
            && (m != s.last ==> r.value.writes == [StatusLine(m, flags)] && r.value.state.last == m)
  {
    var players := FilterPlayers(bus.listNames.value);
    SelectFirstPlaying(bus, players, k);
    var player := players[k];
    var calls := [ListNames] + StatusCalls(players[..k + 1]) + [GetMetadata(BusName(player))];
    var r := Tick(s, bus, flags);
    if m == s.last {
      assert r == Success(TickResult(s, [], calls));
    } else {
      assert r == Success(TickResult(LoopState(m, StatusLine(m, flags)), [StatusLine(m, flags)], calls));
    }
  }

  /** When no player is playing, the iteration queries every player's status,
      writes nothing and keeps its state. */
  lemma TickNonePlaying(s: LoopState, bus: Bus, flags: DisplayFlags)
    requires bus.listNames.Success?
    requires forall p :: p in FilterPlayers(bus.listNames.value) ==> NotPlaying(bus, p)
    ensures Tick(s, bus, flags)
            == Success(TickResult(s, [], [ListNames] + StatusCalls(FilterPlayers(bus.listNames.value))))
  {
    var players := FilterPlayers(bus.listNames.value);
    assert forall j :: 0 <= j < |players| ==> NotPlaying(bus, players[j]) by {
      forall j | 0 <= j < |players| ensures NotPlaying(bus, players[j]) {
        assert players[j] in players;
      }
    }
  }

  /** A failed status query before any playing player ends the loop. */
  lemma TickStatusFailure(s: LoopState, bus: Bus, flags: DisplayFlags, k: nat)
    requires bus.listNames.Success?
    requires var players := FilterPlayers(bus.listNames.value);
             && k < |players|
             && bus.playbackStatus(BusName(players[k])).Failure?
             && forall j :: 0 <= j < k ==> NotPlaying(bus, players[j])
    ensures Tick(s, bus, flags) == Failure(StatusFailed(FilterPlayers(bus.listNames.value)[k]))
  {
  }

  /** A failed metadata fetch of the selected player, or a fetched dictionary
      of the wrong shape, ends the loop, naming that player. */
  lemma TickMetadataFailure(s: LoopState, bus: Bus, flags: DisplayFlags, k: nat)
    requires bus.listNames.Success?
    requires FirstPlaying(bus, FilterPlayers(bus.listNames.value), k)
    ensures var player := FilterPlayers(bus.listNames.value)[k];
            var dict := bus.metadata(BusName(player));
            && (dict.Failure? ==> Tick(s, bus, flags) == Failure(MetadataFailed(player)))
            && (dict.Success? && ExtractMetadata(dict.value).Failure? ==>
                  Tick(s, bus, flags) == Failure(MetadataMalformed(player, ExtractMetadata(dict.value).error)))
  {
    SelectFirstPlaying(bus, FilterPlayers(bus.listNames.value), k);
  }

  /** Two iterations in a row with the same bus answers write at most once:
      the second finds the record it would write already emitted. */
  lemma {:induction false} TickTwiceWritesOnce(s: LoopState, bus: Bus, flags: DisplayFlags)
    requires Tick(s, bus, flags).Success?
    ensures var t := Tick(s, bus, flags).value;
            Tick(t.state, bus, flags).Success?
            && Tick(t.state, bus, flags).value.writes == []
            && Tick(t.state, bus, flags).value.state == t.state
  {
    var t := Tick(s, bus, flags).value;
    var players := FilterPlayers(bus.listNames.value);
    var sel := Select(bus, players);
    if sel.Selected? {
      var dict := bus.metadata(BusName(players[sel.index])).value;
      var m := ExtractMetadata(dict).value;
      assert t.state.last == m;
    }
  }

  /** The display flags only shape the file's text: whether the iteration
      succeeds, which bus calls it makes, whether it writes, and the record
      it compares and keeps are the same under any flags. */
  lemma TickRecordIgnoresFlags(s: LoopState, bus: Bus, f1: DisplayFlags, f2: DisplayFlags)
    ensures Tick(s, bus, f1).Success? <==> Tick(s, bus, f2).Success?
    ensures Tick(s, bus, f1).Success? ==>
              && Tick(s, bus, f1).value.state.last == Tick(s, bus, f2).value.state.last
              && |Tick(s, bus, f1).value.writes| == |Tick(s, bus, f2).value.writes|
              && Tick(s, bus, f1).value.calls == Tick(s, bus, f2).value.calls
  {
  }
}
