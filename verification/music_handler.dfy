/**
 `MusicHandler`: cleaning of the command text, the routing decision of
 `handle_music_command`, and the choices `play_local_music` and
 `play_net_music` make before any audio is fetched or decoded.

 The outside world enters as values: a `World` holds what one command
 observes (whether the music directory exists, two clock readings, the
 directory enumeration), and `Oracles` holds the library behaviour left
 abstract (the `\w` character class, `str.lower`, difflib's ratio).
 */
module MusicHandler {
  import opened Options
  import opened Text
  import Paths
  import opened SongName
  import opened Matching
  import opened Catalog

  /** The handler's settings: the music directory (absolute), the generic
      command phrases, the allowed extensions and the refresh interval in seconds. */
  datatype Config = Config(musicDir: string, commands: seq<string>, musicExt: seq<string>, refreshTime: real)

  /** The command phrases used when the configuration has no `music` section. */
  const DefaultCommands: seq<string> :=
    ["来一首歌", "唱一首歌", "播放音乐", "来点音乐", "背景音乐", "放首歌",
     "播放歌曲", "来点背景音乐", "我想听歌", "我要听歌", "放点音乐"]

  /** The default allowed extensions and refresh interval. */
  const DefaultExt: seq<string> := [".mp3", ".wav", ".p3"]
  const DefaultRefreshTime: real := 60.0

  /** The `music` section of the configuration; a missing key is None. */
  datatype MusicSection = MusicSection(musicDir: Option<string>, commands: Option<seq<string>>,
                                       musicExt: Option<seq<string>>, refreshTime: Option<real>)

  /** The value of an optional key, or its default. */
  function GetOr<T>(v: Option<T>, fallback: T): T {
    match v
    case Some(x) => x
    case None => fallback
  }

  /** The handler's settings built from an optional `music` section.
      `absPath` stands for `os.path.abspath` and is applied to the
      configured or default directory "./music". */
  function ConfigOf(section: Option<MusicSection>, absPath: string -> string): Config {
    match section
    case None => Config(absPath("./music"), DefaultCommands, DefaultExt, DefaultRefreshTime)
    case Some(m) =>
      Config(absPath(GetOr(m.musicDir, "./music")), GetOr(m.commands, []),
             GetOr(m.musicExt, DefaultExt), GetOr(m.refreshTime, DefaultRefreshTime))
  }

  /** In a `music` section, a key that is set is used as given, and a
      missing directory, extension list or interval takes the same value as
      when there is no section at all. Missing command phrases are the
      exception: they become an empty list, so no generic phrase is
      recognised, whereas without a section eleven phrases are. */
  lemma MissingKeysTakeDefaults(m: MusicSection, absPath: string -> string, text: string)
    ensures var cfg := ConfigOf(Some(m), absPath);
            var none := ConfigOf(None, absPath);
            && (m.musicDir.None? ==> cfg.musicDir == none.musicDir)
            && (m.musicExt.None? ==> cfg.musicExt == none.musicExt)
            && (m.refreshTime.None? ==> cfg.refreshTime == none.refreshTime)
            && (m.commands.None? ==> !AnyCommandIn(cfg.commands, text))
            && (m.musicDir.Some? ==> cfg.musicDir == absPath(m.musicDir.value))
            && (m.musicExt.Some? ==> cfg.musicExt == m.musicExt.value)
            && (m.refreshTime.Some? ==> cfg.refreshTime == m.refreshTime.value)
            && (m.commands.Some? ==> cfg.commands == m.commands.value)
            && |none.commands| == 11
  {
  }

  /** The catalog the constructor scans: every kept entry, stamped with the clock after the scan. */
  function InitialSnapshot(cfg: Config, o: Oracles, entries: seq<Entry>, stamp: real): (snap: Snapshot)
    ensures forall f :: f in snap.files ==> exists e :: e in entries && Keep(e, cfg.musicExt, o.lower) && e.relPath == f
    ensures forall e :: e in entries && Keep(e, cfg.musicExt, o.lower) ==> e.relPath in snap.files
    ensures snap.scanTime == stamp
  {
    Snapshot(MusicFiles(entries, cfg.musicExt, o.lower), stamp)
  }

  /** Library behaviour the model does not define: membership in `\w`,
      `str.lower`, and the similarity ratio. */
  datatype Oracles = Oracles(isWord: char -> bool, lower: string -> string, ratio: Ratio)

  /** What one command observes: whether the music directory exists, the
      clock when staleness is tested, the enumeration a rescan would see,
      and the clock after the rescan. */
  datatype World = World(dirExists: bool, now: real, entries: seq<Entry>, stamp: real)

  /** The decision of `handle_music_command`: play a catalog file, look a song
      up on the network (by name, or a fallback title when None), or return
      False so another handler can take the text. */
  datatype Outcome = PlayLocal(file: string) | PlayNet(song: Option<string>) | NotHandled

  /** The boolean `handle_music_command` returns. */
  predicate Handled(o: Outcome) {
    !o.NotHandled?
  }

  /** The routing decision together with the catalog state it leaves behind. */
  datatype Step = Step(outcome: Outcome, snapshot: Snapshot)

  /** A character survives the pattern `[^\w\s]` being deleted. */
  predicate Kept(c: char, isWord: char -> bool) {
    isWord(c) || IsSpace(c)
  }

  /** `re.sub(r'[^\w\s]', '', s)`: delete every character that is neither a
      word character nor whitespace. */
  function RemovePunctuation(s: string, isWord: char -> bool): (r: string)
    ensures |r| <= |s|
    ensures forall i :: 0 <= i < |r| ==> Kept(r[i], isWord)
    ensures forall i :: 0 <= i < |s| && Kept(s[i], isWord) ==> s[i] in r
    ensures forall c :: c in r ==> c in s
    ensures (forall i :: 0 <= i < |s| ==> Kept(s[i], isWord)) ==> r == s
    decreases |s|
  {
    if |s| == 0 then ""
    else
      var rest := RemovePunctuation(s[1..], isWord);
      assert forall i :: 1 <= i < |s| ==> s[i] == s[1..][i - 1];
      if Kept(s[0], isWord) then [s[0]] + rest else rest
  }

  /** Removing punctuation works character by character: the result for a
      concatenation is the concatenation of the results. */
  lemma {:induction false} RemovePunctuationAppend(s: string, t: string, isWord: char -> bool)
    ensures RemovePunctuation(s + t, isWord) == RemovePunctuation(s, isWord) + RemovePunctuation(t, isWord)
    decreases |s|
  {
    if |s| == 0 {
      assert s + t == t;
    } else {
      assert (s + t)[0] == s[0];
      assert (s + t)[1..] == s[1..] + t;
      RemovePunctuationAppend(s[1..], t, isWord);
    }
  }

  /** A single character is kept exactly when it is a word or whitespace
      character. With RemovePunctuationAppend this fixes the result: the
      kept characters of the input, in order and with their multiplicity. */
  lemma RemovePunctuationChar(c: char, isWord: char -> bool)
    ensures RemovePunctuation([c], isWord) == if Kept(c, isWord) then [c] else []
  {
  }

  /** The cleaned command text: punctuation removed, then stripped. */
  function Clean(text: string, isWord: char -> bool): (r: string)
    ensures forall i :: 0 <= i < |r| ==> Kept(r[i], isWord)
    ensures Trimmed(r)
    ensures exists a: nat :: Surrounds(RemovePunctuation(text, isWord), a, r)
  {
    var removed := RemovePunctuation(text, isWord);
    var r := Strip(removed);
    assert forall i :: 0 <= i < |r| ==> Kept(r[i], isWord) by {
      var a: nat :| Surrounds(removed, a, r);
      assert forall i :: 0 <= i < |r| ==> r[i] == removed[a + i];
    }
    r
  }

  /** Cleaning a cleaned text changes nothing. */
  lemma CleanIdempotent(text: string, isWord: char -> bool)
    ensures Clean(Clean(text, isWord), isWord) == Clean(text, isWord)
  {
    var c := Clean(text, isWord);
    assert forall i :: 0 <= i < |c| ==> Kept(c[i], isWord);
    var removed := RemovePunctuation(c, isWord);
    assert removed == c;
    assert c[0..|c|] == c;
    assert Surrounds(c, 0, c);
    StripUnique(c, 0, c);
    assert Strip(removed) == c;
  }

  /** A text made only of word characters, without whitespace at its ends, is its own cleaned form. */
  lemma CleanOfWords(text: string, isWord: char -> bool)
    requires forall i :: 0 <= i < |text| ==> isWord(text[i])
    requires Trimmed(text)
    ensures Clean(text, isWord) == text
  {
    StripTrimmed(text);
  }

  /** Some command phrase occurs in the text (`any(cmd in text for cmd in commands)`). */
  predicate AnyCommandIn(commands: seq<string>, text: string) {
    exists i :: 0 <= i < |commands| && In(commands[i], text)
  }

  /** `any(...)` tries the phrases in order: it is false on an empty list,
      and otherwise holds exactly when the first phrase occurs or some later one does. */
  lemma {:induction false} AnyCommandInFirst(commands: seq<string>, text: string)
    ensures |commands| == 0 ==> !AnyCommandIn(commands, text)
    ensures |commands| > 0 ==>
              (AnyCommandIn(commands, text) <==> In(commands[0], text) || AnyCommandIn(commands[1..], text))
  {
    if |commands| > 0 {
      if AnyCommandIn(commands, text) && !In(commands[0], text) {
        var i :| 0 <= i < |commands| && In(commands[i], text);
        assert commands[1..][i - 1] == commands[i];
      }
      if AnyCommandIn(commands[1..], text) {
        var i :| 0 <= i < |commands[1..]| && In(commands[1..][i], text);
        assert commands[i + 1] == commands[1..][i];
      }
    }
  }

  /** The cleaned text yields a non-empty hint (`if potential_song:`). */
  predicate HasHint(clean: string) {
    var h := ExtractSongName(clean);
    h.Some? && h.value != ""
  }

  /** The catalog after the staleness check of one command. */
  function Refreshed(cfg: Config, o: Oracles, snap: Snapshot, w: World): Snapshot {
    Refresh(snap, w.now, cfg.refreshTime, MusicFiles(w.entries, cfg.musicExt, o.lower), w.stamp)
  }

  /** `handle_music_command`. When the music directory exists, the catalog is
      refreshed if stale and a non-empty hint is looked up in it: a match
      (a non-empty path) is played locally and a miss is looked up on the
      network under the hint. Otherwise a generic command phrase in the text
      starts network playback of a fallback title, and anything else is
      left to other handlers. */
  function HandleMusicCommand(cfg: Config, o: Oracles, snap: Snapshot, w: World, text: string): (st: Step)
    ensures !w.dirExists ==> st.snapshot == snap
    ensures w.dirExists && Stale(snap, w.now, cfg.refreshTime) ==>
              st.snapshot == Snapshot(MusicFiles(w.entries, cfg.musicExt, o.lower), w.stamp)
    ensures w.dirExists && !Stale(snap, w.now, cfg.refreshTime) ==> st.snapshot == snap
    ensures st.outcome.PlayLocal? ==>
              var h := ExtractSongName(Clean(text, o.isWord));
              && w.dirExists && h.Some? && h.value != ""
              && st.outcome.file != "" && st.outcome.file in st.snapshot.files
              && Score(o.ratio, h.value, st.outcome.file) > Threshold
              && forall f :: f in st.snapshot.files ==> Score(o.ratio, h.value, f) <= Score(o.ratio, h.value, st.outcome.file)
    ensures st.outcome.PlayNet? && st.outcome.song.Some? ==>
              && w.dirExists && st.outcome.song.value != ""
              && ExtractSongName(Clean(text, o.isWord)) == st.outcome.song
    ensures st.outcome == PlayNet(None) ==> AnyCommandIn(cfg.commands, Clean(text, o.isWord))
    ensures !Handled(st.outcome) <==>
              !(w.dirExists && HasHint(Clean(text, o.isWord))) && !AnyCommandIn(cfg.commands, Clean(text, o.isWord))
  {
    var clean := Clean(text, o.isWord);
    if w.dirExists then
      var snap' := Refreshed(cfg, o, snap, w);
      var hint := ExtractSongName(clean);
      if hint.Some? && hint.value != "" then
        match FindBestMatch(o.ratio, hint.value, snap'.files)
        case Some(m) =>
          if m != "" then
            MatchIsBest(o.ratio, hint.value, snap'.files);
            Step(PlayLocal(m), snap')
          else Step(PlayNet(Some(hint.value)), snap')
        case None => Step(PlayNet(Some(hint.value)), snap')
      else if AnyCommandIn(cfg.commands, clean) then Step(PlayNet(None), snap')
      else Step(NotHandled, snap')
    else if AnyCommandIn(cfg.commands, clean) then Step(PlayNet(None), snap)
    else Step(NotHandled, snap)
  }

  /** The four routes, each given by the inputs that select it. */
  lemma RouteCases(cfg: Config, o: Oracles, snap: Snapshot, w: World, text: string)
    ensures var clean := Clean(text, o.isWord);
            var out := HandleMusicCommand(cfg, o, snap, w, text).outcome;
            var files := HandleMusicCommand(cfg, o, snap, w, text).snapshot.files;
            && (w.dirExists && HasHint(clean) ==>
                  var hint := ExtractSongName(clean).value;
                  var m := FindBestMatch(o.ratio, hint, files);
                  && (m.Some? && m.value != "" ==> out == PlayLocal(m.value))
                  && (m.None? ==> out == PlayNet(Some(hint)))
                  && (m == Some("") ==> out == PlayNet(Some(hint))))
            && (!(w.dirExists && HasHint(clean)) && AnyCommandIn(cfg.commands, clean) ==> out == PlayNet(None))
            && (!(w.dirExists && HasHint(clean)) && !AnyCommandIn(cfg.commands, clean) ==> out == NotHandled)
  {
  }

  /** Without the music directory, neither the hint, the catalog nor the
      ratio is consulted: only the command phrases decide, and the catalog is
      left as it was. */
  lemma MissingDirectoryIgnoresCatalog(cfg: Config, o1: Oracles, o2: Oracles, snap1: Snapshot, snap2: Snapshot,
                                       w1: World, w2: World, text: string)
    requires !w1.dirExists && !w2.dirExists
    requires o1.isWord == o2.isWord
    ensures HandleMusicCommand(cfg, o1, snap1, w1, text).outcome == HandleMusicCommand(cfg, o2, snap2, w2, text).outcome
    ensures HandleMusicCommand(cfg, o1, snap1, w1, text).outcome.PlayLocal? == false
  {
  }

  /** An empty hint (a keyword at the end of the text) is not looked up; the
      text falls through to the command-phrase check. */
  lemma EmptyHintFallsThrough(cfg: Config, o: Oracles, snap: Snapshot, w: World, text: string)
    ensures ExtractSongName(Clean(text, o.isWord)) == Some("") ==>
              HandleMusicCommand(cfg, o, snap, w, text).outcome
              == if AnyCommandIn(cfg.commands, Clean(text, o.isWord)) then PlayNet(None) else NotHandled
  {
  }

  /** How a local file is turned into frames: read as a pre-packetized ".p3"
      file, or transcoded from a waveform file. */
  datatype Decoder = P3Decoder | Transcoder

  /** The decoder for a path: a case-sensitive `endswith(".p3")`. */
  function DecoderFor(path: string): Decoder {
    if EndsWith(path, ".p3") then P3Decoder else Transcoder
  }

  /** The decoder chosen for the joined path is the one the file name alone selects. */
  lemma DecoderByName(musicDir: string, name: string)
    ensures DecoderFor(Paths.Join(musicDir, name)) == DecoderFor(name)
    ensures DecoderFor(name) == P3Decoder <==> EndsWith(name, ".p3")
  {
    Paths.JoinKeepsP3(musicDir, name);
  }

  /** What `play_local_music` hands on: the path to decode, the decoder, the
      title queued with the frames, and the "now playing" announcement. */
  datatype Playback = Playback(path: string, decoder: Decoder, title: string, announcement: string)

  /** The "now playing" text for a title. */
  function NowPlaying(title: string): string {
    "正在播放" + title
  }

  /** The playback of the catalog file `title` under `musicDir`, if that path exists. */
  function PlaybackOf(musicDir: string, title: string, pathExists: string -> bool): (p: Option<Playback>)
    ensures p.Some? <==> pathExists(Paths.Join(musicDir, title))
    ensures p.Some? ==> p.value.title == title && p.value.path == Paths.Join(musicDir, title)
    ensures p.Some? ==> (p.value.decoder == P3Decoder <==> EndsWith(title, ".p3"))
  {
    var path := Paths.Join(musicDir, title);
    Paths.JoinKeepsP3(musicDir, title);
    if pathExists(path) then Some(Playback(path, DecoderFor(path), title, NowPlaying(title))) else None
  }

  /** The result of `play_local_music`: the playback, if any, and the catalog state. */
  datatype LocalStep = LocalStep(playback: Option<Playback>, snapshot: Snapshot)

  /** `play_local_music`. With a named file, that file is played if its path
      exists. With none (an empty name), the catalog is refreshed if stale and
      a file is picked from it (`pick` stands for `random.choice`). Nothing is
      played when the music directory is missing or the catalog is empty. */
  function PlayLocalMusic(cfg: Config, o: Oracles, snap: Snapshot, w: World, specific: string,
                          pathExists: string -> bool, pick: nat): (r: LocalStep)
    ensures !w.dirExists ==> r.playback.None? && r.snapshot == snap
    ensures specific != "" ==> r.snapshot == snap
    ensures specific != "" && w.dirExists ==> (r.playback.Some? <==> pathExists(Paths.Join(cfg.musicDir, specific)))
    ensures r.playback.Some? && specific != "" ==> r.playback.value.title == specific
    ensures r.playback.Some? && specific == "" ==> r.playback.value.title in r.snapshot.files
    ensures w.dirExists && specific == "" ==> r.snapshot == Refreshed(cfg, o, snap, w)
    ensures w.dirExists && specific == "" && |r.snapshot.files| == 0 ==> r.playback.None?
    ensures w.dirExists && specific == "" && |r.snapshot.files| > 0 ==>
              var chosen := r.snapshot.files[pick % |r.snapshot.files|];
              && (r.playback.Some? <==> pathExists(Paths.Join(cfg.musicDir, chosen)))
              && (r.playback.Some? ==> r.playback.value.title == chosen)
    ensures r.playback.Some? ==> && pathExists(r.playback.value.path)
                                 && r.playback.value.path == Paths.Join(cfg.musicDir, r.playback.value.title)
                                 && (r.playback.value.decoder == P3Decoder <==> EndsWith(r.playback.value.title, ".p3"))
                                 && r.playback.value.announcement == NowPlaying(r.playback.value.title)
  {
    if !w.dirExists then LocalStep(None, snap)
    else if specific != "" then LocalStep(PlaybackOf(cfg.musicDir, specific, pathExists), snap)
    else
      var snap' := Refreshed(cfg, o, snap, w);
      if |snap'.files| == 0 then LocalStep(None, snap')
      else
        var chosen := snap'.files[pick % |snap'.files|];
        LocalStep(PlaybackOf(cfg.musicDir, chosen, pathExists), snap')
  }

  /** The fallback titles `play_net_music` picks from when it is given no name. */
  const FallbackPlaylist: seq<string> :=
    ["卜卦", "土坡上的狗尾草", "没关系", "一点", "越来越不懂", "特别的人", "唯一", "舍得", "平凡日子里的挣扎"]

  /** The title `play_net_music` looks up: the given name, or a fallback title
      (`pick` stands for `random.choice`). */
  function NetSongTitle(song: Option<string>, pick: nat): (title: string)
    ensures song.Some? ==> title == song.value
    ensures song.None? ==> title in FallbackPlaylist
  {
    match song
    case Some(name) => name
    case None => FallbackPlaylist[pick % |FallbackPlaylist|]
  }

  /** A local hit of the router is played from that very file, without a
      second rescan, when its path exists; the decoder follows its suffix. */
  lemma LocalHitPlays(cfg: Config, o: Oracles, snap: Snapshot, w: World, text: string,
                      pathExists: string -> bool, pick: nat)
    ensures var st := HandleMusicCommand(cfg, o, snap, w, text);
            st.outcome.PlayLocal? ==>
            var file := st.outcome.file;
            var r := PlayLocalMusic(cfg, o, st.snapshot, w, file, pathExists, pick);
            && r.snapshot == st.snapshot
            && (r.playback.Some? <==> pathExists(Paths.Join(cfg.musicDir, file)))
            && (r.playback.Some? ==>
                  && r.playback.value.title == file
                  && (r.playback.value.decoder == P3Decoder <==> EndsWith(file, ".p3")))
  {
  }
}
