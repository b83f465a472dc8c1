/**
 Music queue admission of the bot's audio manager: the per-guild music
 manager registry (get-or-create), the queue-size cap and the override that
 bypasses it, the playlist rule (one track when playlists are not allowed,
 otherwise every track within the duration limit), the maximum-duration
 text, the random pick from a cached playlist, and the voice-channel check.

 The audio player library, Lavalink and Discord are replaced by inputs: the
 outcome of loading an item, whether a URL is valid and trusted, the
 member's voice state, and the random draw.
 */
module AudioManager {
  import opened Base

  datatype Track = Track(uri: string, title: string, durationMillis: int)

  /** A loaded playlist; `selectedTrack` is the track the link pointed at, if any. */
  datatype Playlist = Playlist(tracks: seq<Track>, selectedTrack: Option<Track>)

  /** One guild's music state: the scheduler's queue and the track the player
      was last told to play directly. */
  datatype GuildMusic = GuildMusic(queue: seq<Track>, nowPlaying: Option<Track>)

  /** The guild's music settings. */
  datatype MusicConfig = MusicConfig(
    allowPlaylists: bool,
    hasMaxSecondRestriction: bool,
    maxSeconds: int,
    musicGuildId: Option<string>)   // the configured music voice channel

  /* ====================================================================== */
  /* Per-guild manager registry                                              */
  /* ====================================================================== */

  const FreshMusic: GuildMusic := GuildMusic([], None)

  /** `getGuildAudioPlayer`: the stored manager of the guild, or a fresh one,
      which is then stored; no other guild's entry changes. */
  function GetGuildAudioPlayer(managers: map<int, GuildMusic>, guildId: int): (r: (map<int, GuildMusic>, GuildMusic))
    ensures guildId in r.0 && r.0[guildId] == r.1
    ensures guildId in managers ==> r.0 == managers && r.1 == managers[guildId]
    ensures guildId !in managers ==> r.1 == FreshMusic
    ensures r.0.Keys == managers.Keys + {guildId}
    ensures forall g :: g in managers && g != guildId ==> r.0[g] == managers[g]
  {
    if guildId in managers then (managers, managers[guildId])
    else (managers[guildId := FreshMusic], FreshMusic)
  }

  /** Asking twice is asking once: the second call returns the manager the
      first one stored and leaves the registry as the first call left it. */
  lemma GetGuildAudioPlayerIdempotent(managers: map<int, GuildMusic>, guildId: int)
    ensures var (m1, g1) := GetGuildAudioPlayer(managers, guildId);
            GetGuildAudioPlayer(m1, guildId) == (m1, g1)
  {
  }

  /* ====================================================================== */
  /* Playing and queueing                                                    */
  /* ====================================================================== */

  /** How many more tracks a non-forced `play` will enqueue: a queue holding
      more than `maxTracks` accepts nothing, otherwise tracks are accepted
      until it holds `maxTracks + 1`. */
  function Room(queueSize: nat, maxTracks: nat): nat
  {
    if queueSize > maxTracks then 0 else maxTracks + 1 - queueSize
  }

  /** `play`: a forced track goes straight to the player; otherwise the track is
      enqueued only while the queue is not above `maxTracks`. */
  function Play(m: GuildMusic, track: Track, override: bool, maxTracks: nat): (r: GuildMusic)
    ensures override ==> r.queue == m.queue && r.nowPlaying == Some(track)
    ensures !override && |m.queue| <= maxTracks ==> r == m.(queue := m.queue + [track])
    ensures !override && |m.queue| > maxTracks ==> r == m
    ensures !override ==> |r.queue| <= if |m.queue| > maxTracks then |m.queue| else maxTracks + 1
  {
    if override then m.(nowPlaying := Some(track))
    else if |m.queue| > maxTracks then m
    else m.(queue := m.queue + [track])
  }

  /** Playing a list of tracks one after the other. */
  function PlayAll(m: GuildMusic, tracks: seq<Track>, override: bool, maxTracks: nat): GuildMusic
  {
    if |tracks| == 0 then m
    else Play(PlayAll(m, tracks[..|tracks| - 1], override, maxTracks), tracks[|tracks| - 1], override, maxTracks)
  }

  function MinNat(a: nat, b: nat): nat { if a <= b then a else b }

  /** Without override, playing several tracks enqueues exactly the first ones
      that fit: the queue grows by a prefix of the list as long as the room
      allows, and the player is left alone. */
  lemma {:induction false} PlayAllQueues(m: GuildMusic, tracks: seq<Track>, maxTracks: nat)
    ensures PlayAll(m, tracks, false, maxTracks)
         == m.(queue := m.queue + tracks[..MinNat(|tracks|, Room(|m.queue|, maxTracks))])
  {
    if |tracks| > 0 {
      var init := tracks[..|tracks| - 1];
      PlayAllQueues(m, init, maxTracks);
      var k := MinNat(|init|, Room(|m.queue|, maxTracks));
      assert init[..k] == tracks[..k];
      if k < |init| || |m.queue| + k > maxTracks {
        assert MinNat(|tracks|, Room(|m.queue|, maxTracks)) == k;
      } else {
        assert MinNat(|tracks|, Room(|m.queue|, maxTracks)) == k + 1;
        assert tracks[..k + 1] == tracks[..k] + [tracks[|tracks| - 1]];
      }
    }
  }

  /** With override, playing several tracks leaves the queue alone and the
      player on the last of them. */
  lemma {:induction false} PlayAllForced(m: GuildMusic, tracks: seq<Track>, maxTracks: nat)
    ensures PlayAll(m, tracks, true, maxTracks).queue == m.queue
    ensures PlayAll(m, tracks, true, maxTracks).nowPlaying
         == if |tracks| == 0 then m.nowPlaying else Some(tracks[|tracks| - 1])
  {
    if |tracks| > 0 {
      PlayAllForced(m, tracks[..|tracks| - 1], maxTracks);
    }
  }

  /* ====================================================================== */
  /* Playlists                                                               */
  /* ====================================================================== */

  /** Whether the duration limit rejects a track (`maxSeconds` converted to
      milliseconds). */
  predicate OverLimit(t: Track, cfg: MusicConfig)
  {
    cfg.hasMaxSecondRestriction && t.durationMillis > cfg.maxSeconds * 1000
  }

  /** The tracks of a list that the duration limit lets through, in order. */
  function WithinLimit(tracks: seq<Track>, cfg: MusicConfig): (r: seq<Track>)
    ensures |r| <= |tracks|
  {
    if |tracks| == 0 then []
    else
      var init := WithinLimit(tracks[..|tracks| - 1], cfg);
      if OverLimit(tracks[|tracks| - 1], cfg) then init else init + [tracks[|tracks| - 1]]
  }

  /** A track is kept iff it is in the list and within the limit. */
  lemma {:induction false} WithinLimitMembers(tracks: seq<Track>, cfg: MusicConfig)
    ensures forall t :: t in WithinLimit(tracks, cfg) <==> t in tracks && !OverLimit(t, cfg)
  {
    if |tracks| > 0 {
      var init := tracks[..|tracks| - 1];
      var last := tracks[|tracks| - 1];
      WithinLimitMembers(init, cfg);
      assert tracks == init + [last];
      assert forall t :: t in tracks <==> t in init || t == last;
    }
  }

  lemma WithinLimitSnoc(tracks: seq<Track>, t: Track, cfg: MusicConfig)
    ensures WithinLimit(tracks + [t], cfg) == WithinLimit(tracks, cfg) + (if OverLimit(t, cfg) then [] else [t])
  {
    assert (tracks + [t])[..|tracks|] == tracks;
  }

  lemma PlayAllSnoc(m: GuildMusic, tracks: seq<Track>, t: Track, override: bool, maxTracks: nat)
    ensures PlayAll(m, tracks + [t], override, maxTracks) == Play(PlayAll(m, tracks, override, maxTracks), t, override, maxTracks)
  {
    assert (tracks + [t])[..|tracks|] == tracks;
  }

  /** One more track of the playlist loop: skipped when over the limit, played otherwise. */
  lemma PlayWithinLimitSnoc(m: GuildMusic, tracks: seq<Track>, t: Track, cfg: MusicConfig, override: bool, maxTracks: nat)
    ensures |WithinLimit(tracks + [t], cfg)| == |WithinLimit(tracks, cfg)| + (if OverLimit(t, cfg) then 0 else 1)
    ensures PlayAll(m, WithinLimit(tracks + [t], cfg), override, maxTracks)
         == if OverLimit(t, cfg) then PlayAll(m, WithinLimit(tracks, cfg), override, maxTracks)
            else Play(PlayAll(m, WithinLimit(tracks, cfg), override, maxTracks), t, override, maxTracks)
  {
    WithinLimitSnoc(tracks, t, cfg);
    if !OverLimit(t, cfg) {
      PlayAllSnoc(m, WithinLimit(tracks, cfg), t, override, maxTracks);
    }
  }

  /** Feedback sent to the channel. */
  datatype Feedback =
    | TrackAdded(title: string)
    | PlaylistAdded(total: nat)
    | PlaylistAddedIgnored(total: nat, ignored: nat)
    | MaxDuration(limit: string)
    | NotFound(url: string)
    | LoadError(message: string)
    | VoiceRefused(reply: VoiceReply)

  datatype PlaylistOutcome =
    | PlaylistPlayed(music: GuildMusic, feedback: Feedback)
    | EmptyPlaylistFailure   // `tracks[0]` of an empty playlist throws

  /** The loop of `playPlaylist` when playlists are taken: skip and count every
      track over the limit, play the others in order. */
  method PlayTracksWithinLimit(m: GuildMusic, tracks: seq<Track>, cfg: MusicConfig, override: bool, maxTracks: nat)
    returns (music: GuildMusic, ignored: nat)
    ensures music == PlayAll(m, WithinLimit(tracks, cfg), override, maxTracks)
    ensures ignored == |tracks| - |WithinLimit(tracks, cfg)|
  {
    music := m;
    ignored := 0;
    var i := 0;
    ghost var accepted: seq<Track> := [];
    while i < |tracks|
      invariant 0 <= i <= |tracks|
      invariant accepted == WithinLimit(tracks[..i], cfg)
      invariant music == PlayAll(m, accepted, override, maxTracks)
      invariant ignored == i - |accepted|
    {
      var track := tracks[i];
      assert tracks[..i + 1] == tracks[..i] + [track];
      PlayWithinLimitSnoc(m, tracks[..i], track, cfg, override, maxTracks);
      if OverLimit(track, cfg) {
        ignored := ignored + 1;
      } else {
        music := Play(music, track, override, maxTracks);
      }
      accepted := WithinLimit(tracks[..i + 1], cfg);
      i := i + 1;
    }
    assert tracks[..|tracks|] == tracks;
  }

  /** `playPlaylist`. When playlists are not allowed and the call is not forced,
      exactly one track is played: the selected one, else the first (and an
      empty playlist without selection fails); the duration limit is not
      applied to it. Otherwise every track within the limit is played, and
      the summary reports the playlist size, plus the ignored count when some
      track was over the limit. */
  method PlayPlaylist(m: GuildMusic, playlist: Playlist, cfg: MusicConfig, override: bool, maxTracks: nat)
    returns (out: PlaylistOutcome)
    ensures out.EmptyPlaylistFailure? <==>
              !cfg.allowPlaylists && !override && playlist.selectedTrack.None? && |playlist.tracks| == 0
    ensures !cfg.allowPlaylists && !override && out.PlaylistPlayed? ==>
              var chosen := if playlist.selectedTrack.Some? then playlist.selectedTrack.value else playlist.tracks[0];
              out == PlaylistPlayed(Play(m, chosen, false, maxTracks), TrackAdded(chosen.title))
    ensures (cfg.allowPlaylists || override) ==>
              var accepted := WithinLimit(playlist.tracks, cfg);
              var ignored := |playlist.tracks| - |accepted|;
              && out.PlaylistPlayed?
              && out.music == PlayAll(m, accepted, override, maxTracks)
              && (ignored == 0 ==> out.feedback == PlaylistAdded(|playlist.tracks|))
              && (ignored > 0 ==> out.feedback == PlaylistAddedIgnored(|playlist.tracks|, ignored))
  {
    if !cfg.allowPlaylists && !override {
      if playlist.selectedTrack.None? && |playlist.tracks| == 0 {
        return EmptyPlaylistFailure;
      }
      var track := if playlist.selectedTrack.Some? then playlist.selectedTrack.value else playlist.tracks[0];
      return PlaylistPlayed(Play(m, track, override, maxTracks), TrackAdded(track.title));
    }
    var music, ignored := PlayTracksWithinLimit(m, playlist.tracks, cfg, override, maxTracks);
    if ignored == 0 {
      out := PlaylistPlayed(music, PlaylistAdded(|playlist.tracks|));
    } else {
      out := PlaylistPlayed(music, PlaylistAddedIgnored(|playlist.tracks|, ignored));
    }
  }

  /* ====================================================================== */
  /* Maximum-duration text                                                   */
  /* ====================================================================== */

  /** Java's `/` on `int`, which truncates toward zero. */
  function JavaDiv(a: int, b: int): int
    requires b > 0
  {
    if a >= 0 then a / b else -((-a) / b)
  }

  /** Java's `%` on `int`: the remainder takes the sign of the dividend. */
  function JavaRem(a: int, b: int): int
    requires b > 0
  {
    a - b * JavaDiv(a, b)
  }

  /** `String.format("%02d", x)`: at least two characters, zero-padded. */
  function Pad2(x: int): (s: string)
    ensures |s| >= 2
    ensures 0 <= x < 100 ==> |s| == 2 && IsDigit(s[0]) && IsDigit(s[1])
  {
    if x < 0 then "-" + Decimal(-x)
    else if x < 10 then "0" + Decimal(x)
    else Decimal(x)
  }

  /** Reads back a non-negative number written by `Pad2`. */
  lemma Pad2Reads(x: nat)
    ensures ParseDecimal(Pad2(x)) == x
  {
    ParseDecimalOfDecimal(x);
    if x < 10 {
      var s := "0" + Decimal(x);
      assert s[..|s| - 1] == "0";
      assert ParseDecimal("0") == 0 by {
        assert "0"[..0] == "";
      }
    }
  }

  /** The limit text exactly as written in `loadAndPlay`: minutes modulo 60,
      then seconds. */
  function MaxDurationTextAsWritten(maxSeconds: int): (s: string)
    ensures maxSeconds >= 0 ==> |s| == 5 && s[2] == ':'
    ensures maxSeconds >= 0 ==> Split(s, ':') == [Pad2((maxSeconds / 60) % 60), Pad2(maxSeconds % 60)]
  {
    var mm := JavaRem(JavaDiv(maxSeconds, 60), 60);
    var ss := JavaRem(maxSeconds, 60);
    DurationSplits(mm, ss);
    if maxSeconds >= 0 then
      JavaDivNonNegative(maxSeconds, 60);
      JavaDivNonNegative(maxSeconds / 60, 60);
      Pad2(mm) + ":" + Pad2(ss)
    else
      Pad2(mm) + ":" + Pad2(ss)
  }

  lemma DurationSplits(mm: int, ss: int)
    ensures ':' !in Pad2(mm) && ':' !in Pad2(ss)
    ensures Split(Pad2(mm) + ":" + Pad2(ss), ':') == [Pad2(mm), Pad2(ss)]
  {
    assert ':' !in Decimal(if mm < 0 then -mm else mm);
    assert ':' !in Decimal(if ss < 0 then -ss else ss);
    assert ':' !in Pad2(mm) && ':' !in Pad2(ss);
    SplitJoin([Pad2(mm), Pad2(ss)], ':');
    assert Join([Pad2(mm), Pad2(ss)], ":") == Pad2(mm) + ":" + Pad2(ss);
  }

  /** As written, whole hours vanish from the text: a limit one hour longer
      reads the same. */
  lemma MaxDurationTextDropsHours(maxSeconds: nat)
    ensures MaxDurationTextAsWritten(maxSeconds + 3600) == MaxDurationTextAsWritten(maxSeconds)
  {
    var q := maxSeconds / 60;
    assert maxSeconds + 3600 == 60 * (q + 60) + maxSeconds % 60;
    assert JavaDiv(maxSeconds + 3600, 60) == q + 60;
    assert JavaRem(maxSeconds + 3600, 60) == JavaRem(maxSeconds, 60);
    assert JavaRem(q + 60, 60) == JavaRem(q, 60);
  }

  /** On non-negative operands Java's division agrees with Dafny's. */
  lemma JavaDivNonNegative(a: nat, b: int)
    requires b > 0
    ensures JavaDiv(a, b) == a / b && JavaRem(a, b) == a % b
  {
  }

  /** A concrete input: a one-hour limit is announced as "00:00". */
  lemma OneHourLimitReadsZero()
    ensures MaxDurationTextAsWritten(3600) == "00:00"
  {
    assert Decimal(0) == "0";
  }

  /** The limit text as evidently intended: total minutes, then seconds. */
  function MaxDurationText(maxSeconds: int): (s: string)
    ensures maxSeconds >= 0 ==> Split(s, ':') == [Pad2(maxSeconds / 60), Pad2(maxSeconds % 60)]
    ensures 0 <= maxSeconds < 3600 ==> s == MaxDurationTextAsWritten(maxSeconds)
  {
    var mm := JavaDiv(maxSeconds, 60);
    var ss := JavaRem(maxSeconds, 60);
    DurationSplits(mm, ss);
    if maxSeconds >= 0 then
      JavaDivNonNegative(maxSeconds, 60);
      JavaDivNonNegative(mm, 60);
      assert maxSeconds < 3600 ==> mm % 60 == mm;
      Pad2(mm) + ":" + Pad2(ss)
    else
      Pad2(mm) + ":" + Pad2(ss)
  }

  /** The intended text always reads back as the configured limit. */
  lemma MaxDurationTextReadsBack(maxSeconds: nat)
    ensures var parts := Split(MaxDurationText(maxSeconds), ':');
            |parts| == 2 && ParseDecimal(parts[0]) * 60 + ParseDecimal(parts[1]) == maxSeconds
  {
    Pad2Reads(maxSeconds / 60);
    Pad2Reads(maxSeconds % 60);
  }

  /* ====================================================================== */
  /* Loading with feedback                                                   */
  /* ====================================================================== */

  /** What the audio player library answered for an item. */
  datatype LoadResult =
    | TrackLoaded(track: Track)
    | PlaylistLoaded(playlist: Playlist)
    | NoMatches
    | LoadFailed(message: string)

  /** The audio manager's own state. */
  datatype AudioState = AudioState(managers: map<int, GuildMusic>, playlistCache: map<string, Playlist>)

  /** Everything `loadAndPlay` learns from outside. */
  datatype LoadEnv = LoadEnv(
    cfg: MusicConfig,
    maxTracks: nat,                   // the bot's queue cap
    voice: VoiceState,                // the invoking member's voice state
    voiceChannels: map<string, string>, // the guild's voice channels, id to name
    isValidUrl: bool,                 // whether the item is a URL
    isTrusted: bool,                  // whether the URL's host is trusted
    loaded: LoadResult,               // the player library's answer
    searchResults: seq<string>)       // video ids a search for the item finds

  datatype LoadOutcome = LoadOutcome(
    state: AudioState,
    feedback: seq<Feedback>,
    retry: Option<string>,         // the video id `loadAndPlay` is launched again with
    failed: bool)                  // a playlist without tracks made `playPlaylist` throw

  /** Whether the voice-channel check is skipped or passes. */
  predicate VoicePasses(alreadyChecked: bool, env: LoadEnv)
  {
    alreadyChecked || CheckVoiceChannelState(env.voice, env.cfg.musicGuildId, env.voiceChannels).0
  }

  /** The guild's manager as `getGuildAudioPlayer` hands it out. */
  function ManagerOf(st: AudioState, guildId: int): GuildMusic
  {
    GetGuildAudioPlayer(st.managers, guildId).1
  }

  /** The registry once `getGuildAudioPlayer` has run. */
  function RegistryOf(st: AudioState, guildId: int): AudioState
  {
    st.(managers := GetGuildAudioPlayer(st.managers, guildId).0)
  }

  /** Whether the item reaches the player library: the voice check, the queue
      cap, the playlist cache and the trusted-host check all let it through. */
  predicate ReachesLoader(st: AudioState, guildId: int, trackUrl: string, alreadyChecked: bool, override: bool, env: LoadEnv)
  {
    && VoicePasses(alreadyChecked, env)
    && (override || |ManagerOf(st, guildId).queue| <= env.maxTracks)
    && trackUrl !in st.playlistCache
    && !(env.isValidUrl && !env.isTrusted)
  }

  /** The part of `loadAndPlay` after the playlist cache: the trusted-host
      check, then the player library's answer for the item, for a guild whose
      manager is `music` and that passed the queue cap. */
  method LoadFromPlayer(st: AudioState, guildId: int, music: GuildMusic, trackUrl: string,
                        alreadyChecked: bool, override: bool, env: LoadEnv)
    returns (out: LoadOutcome)
    requires guildId in st.managers && st.managers[guildId] == music
    requires !override ==> |music.queue| <= env.maxTracks
    ensures out.state.managers.Keys == st.managers.Keys
    ensures forall g :: g in st.managers && g != guildId ==> out.state.managers[g] == st.managers[g]
    ensures !override ==> |out.state.managers[guildId].queue| <= env.maxTracks + 1
    ensures override ==> out.state.managers[guildId].queue == music.queue
    // an untrusted URL is reported as not found and nothing is queued
    ensures env.isValidUrl && !env.isTrusted ==> out == LoadOutcome(st, [NotFound(trackUrl)], None, false)
    // a single track over the duration limit is refused with the limit text as written
    ensures (!(env.isValidUrl && !env.isTrusted) && env.loaded.TrackLoaded? && OverLimit(env.loaded.track, env.cfg)) ==>
              out == LoadOutcome(st, [MaxDuration(MaxDurationTextAsWritten(env.cfg.maxSeconds))], None, false)
    // a single track within the limit is announced and played
    ensures (!(env.isValidUrl && !env.isTrusted) && env.loaded.TrackLoaded? && !OverLimit(env.loaded.track, env.cfg)) ==>
              && out.feedback == [TrackAdded(env.loaded.track.title)]
              && out.state.managers[guildId] == Play(music, env.loaded.track, override, env.maxTracks)
    // no match: one search retry on the first attempt, otherwise not found
    ensures (!(env.isValidUrl && !env.isTrusted) && env.loaded.NoMatches?) ==>
              && (out.retry.Some? <==> !alreadyChecked && |env.searchResults| > 0)
              && (out.retry.Some? ==> out.retry.value == env.searchResults[0] && out.feedback == [])
              && (out.retry.None? ==> out.feedback == [NotFound(trackUrl)])
              && out.state == st
    ensures (!(env.isValidUrl && !env.isTrusted) && env.loaded.LoadFailed?) ==>
              out == LoadOutcome(st, [LoadError(env.loaded.message)], None, false)
    // a loaded playlist is cached under the item and played
    ensures (!(env.isValidUrl && !env.isTrusted) && env.loaded.PlaylistLoaded?) ==>
              && out.state.playlistCache == st.playlistCache[trackUrl := env.loaded.playlist]
              && PlaysPlaylist(st.(playlistCache := st.playlistCache[trackUrl := env.loaded.playlist]), out,
                               guildId, music, env.loaded.playlist, override, env)
    ensures out.retry.Some? ==> !alreadyChecked && env.loaded.NoMatches? && out.feedback == []
  {
    if env.isValidUrl && !env.isTrusted {
      return LoadOutcome(st, [NotFound(trackUrl)], None, false);
    }
    match env.loaded {
      case TrackLoaded(track) =>
        if OverLimit(track, env.cfg) {
          out := LoadOutcome(st, [MaxDuration(MaxDurationTextAsWritten(env.cfg.maxSeconds))], None, false);
        } else {
          var music' := Play(music, track, override, env.maxTracks);
          out := LoadOutcome(st.(managers := st.managers[guildId := music']), [TrackAdded(track.title)], None, false);
        }
      case PlaylistLoaded(playlist) =>
        var st2 := st.(playlistCache := st.playlistCache[trackUrl := playlist]);
        out := PlaylistStep(st2, guildId, music, playlist, override, env);
      case NoMatches =>
        if !alreadyChecked && |env.searchResults| > 0 {
          out := LoadOutcome(st, [], Some(env.searchResults[0]), false);
        } else {
          out := LoadOutcome(st, [NotFound(trackUrl)], None, false);
        }
      case LoadFailed(message) =>
        out := LoadOutcome(st, [LoadError(message)], None, false);
    }
  }

  /** The part of `loadAndPlay` after the voice check and the queue cap: a
      cached playlist is played again, anything else goes to the player. */
  method LoadAdmitted(st: AudioState, guildId: int, music: GuildMusic, trackUrl: string,
                      alreadyChecked: bool, override: bool, env: LoadEnv)
    returns (out: LoadOutcome)
    requires guildId in st.managers && st.managers[guildId] == music
    requires !override ==> |music.queue| <= env.maxTracks
    ensures out.state.managers.Keys == st.managers.Keys
    ensures forall g :: g in st.managers && g != guildId ==> out.state.managers[g] == st.managers[g]
    ensures !override ==> |out.state.managers[guildId].queue| <= env.maxTracks + 1
    ensures override ==> out.state.managers[guildId].queue == music.queue
    // a cached playlist is played again without asking the player library
    ensures trackUrl in st.playlistCache ==>
              && out.state.playlistCache == st.playlistCache && out.retry.None?
              && (out.failed <==> !env.cfg.allowPlaylists && !override && st.playlistCache[trackUrl].selectedTrack.None?
                                  && |st.playlistCache[trackUrl].tracks| == 0)
              && PlaysPlaylist(st, out, guildId, music, st.playlistCache[trackUrl], override, env)
    ensures (trackUrl !in st.playlistCache && env.isValidUrl && !env.isTrusted) ==>
              out == LoadOutcome(st, [NotFound(trackUrl)], None, false)
    ensures (ReachesPlayer(st, trackUrl, env) && env.loaded.TrackLoaded? && OverLimit(env.loaded.track, env.cfg)) ==>
              out == LoadOutcome(st, [MaxDuration(MaxDurationTextAsWritten(env.cfg.maxSeconds))], None, false)
    ensures (ReachesPlayer(st, trackUrl, env) && env.loaded.TrackLoaded? && !OverLimit(env.loaded.track, env.cfg)) ==>
              && out.feedback == [TrackAdded(env.loaded.track.title)]
              && out.state.managers[guildId] == Play(music, env.loaded.track, override, env.maxTracks)
    ensures (ReachesPlayer(st, trackUrl, env) && env.loaded.NoMatches?) ==>
              && (out.retry.Some? <==> !alreadyChecked && |env.searchResults| > 0)
              && (out.retry.Some? ==> out.retry.value == env.searchResults[0] && out.feedback == [])
              && (out.retry.None? ==> out.feedback == [NotFound(trackUrl)])
              && out.state == st
    ensures (ReachesPlayer(st, trackUrl, env) && env.loaded.LoadFailed?) ==>
              out == LoadOutcome(st, [LoadError(env.loaded.message)], None, false)
    ensures (ReachesPlayer(st, trackUrl, env) && env.loaded.PlaylistLoaded?) ==>
              && out.state.playlistCache == st.playlistCache[trackUrl := env.loaded.playlist]
              && PlaysPlaylist(st.(playlistCache := st.playlistCache[trackUrl := env.loaded.playlist]), out,
                               guildId, music, env.loaded.playlist, override, env)
    ensures out.retry.Some? ==> !alreadyChecked && env.loaded.NoMatches? && out.feedback == []
  {
    if trackUrl in st.playlistCache {
      out := PlaylistStep(st, guildId, music, st.playlistCache[trackUrl], override, env);
    } else {
      out := LoadFromPlayer(st, guildId, music, trackUrl, alreadyChecked, override, env);
    }
  }

  /** The item is not a cached playlist and passes the trusted-host check. */
  predicate ReachesPlayer(st: AudioState, trackUrl: string, env: LoadEnv)
  {
    trackUrl !in st.playlistCache && !(env.isValidUrl && !env.isTrusted)
  }

  /** `loadAndPlay(trackUrl, alreadyChecked, override)` for one guild. */
  method LoadAndPlay(st: AudioState, guildId: int, trackUrl: string, alreadyChecked: bool, override: bool, env: LoadEnv)
    returns (out: LoadOutcome)
    // a failed voice check answers with its reply and touches nothing
    ensures !VoicePasses(alreadyChecked, env) ==>
              out == LoadOutcome(st, [VoiceRefused(CheckVoiceChannelState(env.voice, env.cfg.musicGuildId, env.voiceChannels).1.value)], None, false)
    // the registry: get-or-create for this guild, no other guild changes
    ensures VoicePasses(alreadyChecked, env) ==> out.state.managers.Keys == st.managers.Keys + {guildId}
    ensures forall g :: g in st.managers && g != guildId ==> g in out.state.managers && out.state.managers[g] == st.managers[g]
    // the queue invariant, for a stored or a freshly created manager
    ensures guildId in out.state.managers && !override ==>
              |out.state.managers[guildId].queue| <= Bound(|ManagerOf(st, guildId).queue|, env.maxTracks)
    ensures guildId in out.state.managers && override ==>
              out.state.managers[guildId].queue == ManagerOf(st, guildId).queue
    // the queue cap refuses silently
    ensures VoicePasses(alreadyChecked, env) && !override && |ManagerOf(st, guildId).queue| > env.maxTracks ==>
              out == LoadOutcome(RegistryOf(st, guildId), [], None, false)
    // an untrusted URL is reported as not found and nothing is queued
    ensures (&& VoicePasses(alreadyChecked, env) && (override || |ManagerOf(st, guildId).queue| <= env.maxTracks)
             && trackUrl !in st.playlistCache && env.isValidUrl && !env.isTrusted) ==>
              out == LoadOutcome(RegistryOf(st, guildId), [NotFound(trackUrl)], None, false)
    // a single track over the duration limit is refused with the limit text as written
    ensures (ReachesLoader(st, guildId, trackUrl, alreadyChecked, override, env)
             && env.loaded.TrackLoaded? && OverLimit(env.loaded.track, env.cfg)) ==>
              out == LoadOutcome(RegistryOf(st, guildId), [MaxDuration(MaxDurationTextAsWritten(env.cfg.maxSeconds))], None, false)
    // a single track within the limit is announced and played
    ensures (ReachesLoader(st, guildId, trackUrl, alreadyChecked, override, env)
             && env.loaded.TrackLoaded? && !OverLimit(env.loaded.track, env.cfg)) ==>
              && out.feedback == [TrackAdded(env.loaded.track.title)]
              && out.state.managers[guildId] == Play(ManagerOf(st, guildId), env.loaded.track, override, env.maxTracks)
    // no match: one search retry on the first attempt, otherwise not found
    ensures (ReachesLoader(st, guildId, trackUrl, alreadyChecked, override, env) && env.loaded.NoMatches?) ==>
              && (out.retry.Some? <==> !alreadyChecked && |env.searchResults| > 0)
              && (out.retry.Some? ==> out.retry.value == env.searchResults[0] && out.feedback == [])
              && (out.retry.None? ==> out.feedback == [NotFound(trackUrl)])
              && out.state == RegistryOf(st, guildId)
    ensures (ReachesLoader(st, guildId, trackUrl, alreadyChecked, override, env) && env.loaded.LoadFailed?) ==>
              out == LoadOutcome(RegistryOf(st, guildId), [LoadError(env.loaded.message)], None, false)
    // a cached playlist is played again without asking the player library
    ensures (&& VoicePasses(alreadyChecked, env) && (override || |ManagerOf(st, guildId).queue| <= env.maxTracks)
             && trackUrl in st.playlistCache) ==>
              && out.state.playlistCache == st.playlistCache && out.retry.None?
              && (out.failed <==> !env.cfg.allowPlaylists && !override && st.playlistCache[trackUrl].selectedTrack.None?
                                  && |st.playlistCache[trackUrl].tracks| == 0)
              && PlaysPlaylist(RegistryOf(st, guildId), out, guildId, ManagerOf(st, guildId), st.playlistCache[trackUrl], override, env)
    // a loaded playlist is cached under the item and played
    ensures (ReachesLoader(st, guildId, trackUrl, alreadyChecked, override, env) && env.loaded.PlaylistLoaded?) ==>
              && out.state.playlistCache == st.playlistCache[trackUrl := env.loaded.playlist]
              && PlaysPlaylist(RegistryOf(st, guildId).(playlistCache := st.playlistCache[trackUrl := env.loaded.playlist]), out,
                               guildId, ManagerOf(st, guildId), env.loaded.playlist, override, env)
    ensures out.retry.Some? ==> !alreadyChecked && env.loaded.NoMatches? && out.feedback == []
  {
    var check := CheckVoiceChannelState(env.voice, env.cfg.musicGuildId, env.voiceChannels);
    if !alreadyChecked && !check.0 {
      return LoadOutcome(st, [VoiceRefused(check.1.value)], None, false);
    }
    var st1 := RegistryOf(st, guildId);
    var music := ManagerOf(st, guildId);
    if !override && |music.queue| > env.maxTracks {
      return LoadOutcome(st1, [], None, false);
    }
    out := LoadAdmitted(st1, guildId, music, trackUrl, alreadyChecked, override, env);
    assert ReachesPlayer(st1, trackUrl, env) <==> trackUrl !in st.playlistCache && !(env.isValidUrl && !env.isTrusted);
  }

  /** The largest queue a non-forced load can leave behind. */
  function Bound(queueSize: nat, maxTracks: nat): nat
  {
    if queueSize > maxTracks then queueSize else maxTracks + 1
  }

  lemma PlayAllBound(m: GuildMusic, tracks: seq<Track>, maxTracks: nat)
    ensures |PlayAll(m, tracks, false, maxTracks).queue| <= Bound(|m.queue|, maxTracks)
  {
    PlayAllQueues(m, tracks, maxTracks);
  }

  /** What playing `playlist` on the guild whose manager is `music` leaves in
      `out`, starting from `st`: the failure of an empty playlist changes
      nothing and says nothing; when playlists are taken every track within
      the limit is played and the summary sent; otherwise the chosen track is
      played and announced. */
  predicate PlaysPlaylist(st: AudioState, out: LoadOutcome, guildId: int, music: GuildMusic, playlist: Playlist,
                          override: bool, env: LoadEnv)
  {
    var accepted := WithinLimit(playlist.tracks, env.cfg);
    var ignored := |playlist.tracks| - |accepted|;
    && guildId in out.state.managers
    && (out.failed <==> !env.cfg.allowPlaylists && !override && playlist.selectedTrack.None? && |playlist.tracks| == 0)
    && (out.failed ==> out.state == st && out.feedback == [])
    && ((env.cfg.allowPlaylists || override) ==>
          && out.state.managers[guildId] == PlayAll(music, accepted, override, env.maxTracks)
          && (ignored == 0 ==> out.feedback == [PlaylistAdded(|playlist.tracks|)])
          && (ignored > 0 ==> out.feedback == [PlaylistAddedIgnored(|playlist.tracks|, ignored)]))
    && ((!env.cfg.allowPlaylists && !override && !out.failed) ==>
          var chosen := if playlist.selectedTrack.Some? then playlist.selectedTrack.value else playlist.tracks[0];
          && out.state.managers[guildId] == Play(music, chosen, false, env.maxTracks)
          && out.feedback == [TrackAdded(chosen.title)])
  }

  /** Plays a playlist into the guild's manager and records the result. */
  method PlaylistStep(st: AudioState, guildId: int, music: GuildMusic, playlist: Playlist, override: bool, env: LoadEnv)
    returns (out: LoadOutcome)
    requires guildId in st.managers && st.managers[guildId] == music
    requires !override ==> |music.queue| <= env.maxTracks
    ensures out.state.managers.Keys == st.managers.Keys
    ensures forall g :: g in st.managers && g != guildId ==> out.state.managers[g] == st.managers[g]
    ensures !override ==> |out.state.managers[guildId].queue| <= env.maxTracks + 1
    ensures override ==> out.state.managers[guildId].queue == music.queue
    ensures out.retry.None?
    ensures out.state.playlistCache == st.playlistCache
    ensures out.failed <==> !env.cfg.allowPlaylists && !override && playlist.selectedTrack.None? && |playlist.tracks| == 0
    ensures PlaysPlaylist(st, out, guildId, music, playlist, override, env)
  {
    var result := PlayPlaylist(music, playlist, env.cfg, override, env.maxTracks);
    match result {
      case EmptyPlaylistFailure =>
        out := LoadOutcome(st, [], None, true);
      case PlaylistPlayed(music', feedback) =>
        if env.cfg.allowPlaylists || override {
          if override {
            PlayAllForced(music, WithinLimit(playlist.tracks, env.cfg), env.maxTracks);
          } else {
            PlayAllBound(music, WithinLimit(playlist.tracks, env.cfg), env.maxTracks);
          }
        }
        out := LoadOutcome(st.(managers := st.managers[guildId := music']), [feedback], None, false);
    }
  }

  /* ====================================================================== */
  /* Loading without feedback                                                */
  /* ====================================================================== */

  /** The index `Random.nextInt(0, size)` stands for, drawn from `draw`. */
  function PickIndex(size: nat, draw: int): (i: nat)
    requires size > 0
    ensures i < size
  {
    draw % size
  }

  datatype NoFeedbackOutcome =
    | Reload(state: AudioState, uri: string)   // load again with a random track of the playlist
    | Settled(state: AudioState)
    | RandomRangeFailure(state: AudioState)    // `nextInt(0, 0)` of an empty playlist throws

  /** `loadAndPlayNoFeedback`: a cached playlist picks one of its tracks at
      random and loads that; an untrusted URL or a failed load does nothing; a
      loaded track is queued without override and without the duration limit. */
  function LoadAndPlayNoFeedback(st: AudioState, guildId: int, trackUrl: string, env: LoadEnv, draw: int): (r: NoFeedbackOutcome)
    ensures trackUrl in st.playlistCache && |st.playlistCache[trackUrl].tracks| > 0 ==>
              && r.Reload? && r.uri in UrisOf(st.playlistCache[trackUrl].tracks)
              && r.state == st.(managers := GetGuildAudioPlayer(st.managers, guildId).0)
    ensures trackUrl in st.playlistCache && |st.playlistCache[trackUrl].tracks| == 0 ==>
              r == RandomRangeFailure(st.(managers := GetGuildAudioPlayer(st.managers, guildId).0))
    ensures trackUrl !in st.playlistCache && env.isValidUrl && !env.isTrusted ==>
              r == Settled(st.(managers := GetGuildAudioPlayer(st.managers, guildId).0))
    ensures (trackUrl !in st.playlistCache && !(env.isValidUrl && !env.isTrusted) && env.loaded.TrackLoaded?) ==>
              r.Settled? && r.state.playlistCache == st.playlistCache &&
              guildId in r.state.managers && r.state.managers[guildId] == Play(GetGuildAudioPlayer(st.managers, guildId).1, env.loaded.track, false, env.maxTracks)
    ensures (trackUrl !in st.playlistCache && !(env.isValidUrl && !env.isTrusted) && env.loaded.PlaylistLoaded?) ==>
              r.state.playlistCache == st.playlistCache[trackUrl := env.loaded.playlist] &&
              r.state.managers == GetGuildAudioPlayer(st.managers, guildId).0 &&
              (|env.loaded.playlist.tracks| > 0 ==> r.Reload? && r.uri in UrisOf(env.loaded.playlist.tracks)) &&
              (|env.loaded.playlist.tracks| == 0 ==> r.RandomRangeFailure?)
    ensures (trackUrl !in st.playlistCache && !(env.isValidUrl && !env.isTrusted) && (env.loaded.NoMatches? || env.loaded.LoadFailed?)) ==>
              r == Settled(st.(managers := GetGuildAudioPlayer(st.managers, guildId).0))
    ensures r.state.managers.Keys == st.managers.Keys + {guildId}
    ensures forall g :: g in st.managers && g != guildId ==> r.state.managers[g] == st.managers[g]
    ensures |r.state.managers[guildId].queue| <= Bound(|GetGuildAudioPlayer(st.managers, guildId).1.queue|, env.maxTracks)
  {
    var (managers, music) := GetGuildAudioPlayer(st.managers, guildId);
    var st1 := st.(managers := managers);
    if trackUrl in st.playlistCache then
      var tracks := st.playlistCache[trackUrl].tracks;
      if |tracks| == 0 then RandomRangeFailure(st1)
      else
        var i := PickIndex(|tracks|, draw);
        assert tracks[i].uri == UrisOf(tracks)[i];
        Reload(st1, tracks[i].uri)
    else if env.isValidUrl && !env.isTrusted then Settled(st1)
    else match env.loaded
      case TrackLoaded(track) =>
        Settled(st1.(managers := managers[guildId := Play(music, track, false, env.maxTracks)]))
      case PlaylistLoaded(playlist) =>
        var st2 := st1.(playlistCache := st1.playlistCache[trackUrl := playlist]);
        if |playlist.tracks| == 0 then RandomRangeFailure(st2)
        else
          var i := PickIndex(|playlist.tracks|, draw);
          Reload(st2, playlist.tracks[i].uri)
      case NoMatches => Settled(st1)
      case LoadFailed(_) => Settled(st1)
  }

  function UrisOf(tracks: seq<Track>): (r: seq<string>)
    ensures |r| == |tracks|
    ensures forall i :: 0 <= i < |tracks| ==> r[i] == tracks[i].uri
  {
    if |tracks| == 0 then [] else [tracks[0].uri] + UrisOf(tracks[1..])
  }

  /* ====================================================================== */
  /* Voice-channel check                                                     */
  /* ====================================================================== */

  /** The member's voice state as JDA reports it. */
  datatype VoiceState =
    | NoVoiceState             // `voiceState` is null
    | NotConnected             // not in any voice channel
    | ConnectedTo(channelId: string)

  datatype VoiceReply = InvalidChannel | NotInMusicChannel(channelName: string)

  /** `checkVoiceChannelState`: passes when the member's voice channel id
      equals the configured music channel id, where both sides may be null
      (a member without voice state passes when no channel is configured);
      a member known to be in no channel never passes. On failure the reply
      names the configured channel when it exists in the guild. */
  function CheckVoiceChannelState(vs: VoiceState, musicGuildId: Option<string>, voiceChannels: map<string, string>)
    : (r: (bool, Option<VoiceReply>))
    ensures r.0 <==> (vs.ConnectedTo? && musicGuildId == Some(vs.channelId)) || (vs.NoVoiceState? && musicGuildId.None?)
    ensures r.0 <==> r.1.None?
    ensures r.1.Some? && r.1.value.NotInMusicChannel? <==>
              !r.0 && musicGuildId.Some? && musicGuildId.value in voiceChannels
    ensures r.1 == Some(NotInMusicChannel(if musicGuildId.Some? && musicGuildId.value in voiceChannels then voiceChannels[musicGuildId.value] else ""))
              || r.1 == Some(InvalidChannel) || r.1.None?
  {
    var inVoiceChannelIsFalse := vs.NotConnected?;
    var channelId: Option<string> := if vs.ConnectedTo? then Some(vs.channelId) else None;
    if inVoiceChannelIsFalse || channelId != musicGuildId then
      if musicGuildId.None? then (false, Some(InvalidChannel))
      else if musicGuildId.value in voiceChannels then (false, Some(NotInMusicChannel(voiceChannels[musicGuildId.value])))
      else (false, Some(InvalidChannel))
    else (true, None)
  }

  /** The check read per configuration: with a music channel configured, only
      a member connected to exactly that channel passes; without one, only a
      member without any voice state passes, and every refusal says the
      channel is invalid. */
  lemma VoiceCheckByConfiguredChannel(vs: VoiceState, musicGuildId: Option<string>, voiceChannels: map<string, string>)
    ensures musicGuildId.Some? ==>
              (CheckVoiceChannelState(vs, musicGuildId, voiceChannels).0 <==> vs == ConnectedTo(musicGuildId.value))
    ensures musicGuildId.None? ==>
              (CheckVoiceChannelState(vs, musicGuildId, voiceChannels).0 <==> vs == NoVoiceState)
    ensures musicGuildId.None? && vs != NoVoiceState ==>
              CheckVoiceChannelState(vs, musicGuildId, voiceChannels).1 == Some(InvalidChannel)
  {
  }
}
