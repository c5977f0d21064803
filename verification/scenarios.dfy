/**
 Concrete cases of hint extraction, base names and routing, worked out on
 the model.
 */
module Scenarios {
  import opened Options
  import opened Text
  import Paths
  import opened SongName
  import opened Matching
  import opened Catalog
  import opened MusicHandler

  /** "put on a song by Jay Chou": the hint is the text after "放". */
  lemma HintAfterKeyword(text: string)
    requires text == "放一首周杰伦的歌"
    ensures ExtractSongName(text) == Some("一首周杰伦的歌")
  {
    var rest := text[1..];
    assert rest == "一首周杰伦的歌";
    NotInByFirstChar("听", text);
    NotInByFirstChar("播放", text);
    FindByFirstChar(text, "放", 0);
    assert FirstPresent(text, Keywords, 2);
    NotInByFirstChar("放", rest);
    assert Split(rest, "放") == [rest];
    ExtractTrimmedSegment(text, 2, rest);
  }

  /** "听" is tried before "放" although it appears later in the text. */
  lemma KeywordListOrderWins(text: string)
    requires text == "放一首听海"
    ensures ExtractSongName(text) == Some("海")
  {
    var rest := text[4..];
    assert rest == "海";
    FindByFirstChar(text, "听", 3);
    assert FirstPresent(text, Keywords, 0);
    NotInByFirstChar("听", rest);
    assert Split(rest, "听") == [rest];
    ExtractTrimmedSegment(text, 0, rest);
  }

  /** Only the text up to the keyword's second occurrence is kept. */
  lemma HintStopsAtSecondOccurrence(text: string)
    requires text == "听歌听海"
    ensures ExtractSongName(text) == Some("歌")
  {
    var rest := text[1..];
    assert rest == "歌听海";
    FindByFirstChar(text, "听", 0);
    assert FirstPresent(text, Keywords, 0);
    FindByFirstChar(rest, "听", 1);
    var song := Split(rest, "听")[0];
    assert song == "歌";
    ExtractTrimmedSegment(text, 0, song);
  }

  /** A keyword at the very end yields an empty hint, not None. */
  lemma KeywordAtEndGivesEmptyHint(text: string)
    requires text == "我想听"
    ensures ExtractSongName(text) == Some("")
  {
    var rest := text[3..];
    assert rest == "";
    FindByFirstChar(text, "听", 2);
    assert FirstPresent(text, Keywords, 0);
    assert Split(rest, "听") == [rest];
    ExtractTrimmedSegment(text, 0, rest);
  }

  /** Directory prefixes stay in the base name; a leading dot is not an extension. */
  lemma BaseNames()
    ensures Paths.BaseName("周杰伦/晴天.mp3") == "周杰伦/晴天"
    ensures Paths.SplitExt(".p3") == (".p3", "")
  {
    var p := "周杰伦/晴天.mp3";
    assert p[3] == '/' && forall j :: 3 < j < |p| ==> p[j] != '/';
    assert Paths.RFind(p, '/') == 3;
    assert p[6] == '.' && forall j :: 6 < j < |p| ==> p[j] != '.';
    assert Paths.RFind(p, '.') == 6;
    assert p[4] != '.';
    assert Paths.RFind(".p3", '/') == -1;
    assert Paths.RFind(".p3", '.') == 0;
  }

  /** A catalog holding only "卜卦.mp3" has no match for "小幸运" when the two
      names score at most the threshold. */
  lemma NoCloseEntry(ratio: Ratio, hint: string, files: seq<string>)
    requires hint == "小幸运" && files == ["卜卦.mp3"]
    requires ratio(hint, "卜卦") <= Threshold
    ensures FindBestMatch(ratio, hint, files) == None
  {
    var p := files[0];
    assert p[2] == '.' && forall j :: 2 < j < |p| ==> p[j] != '.';
    assert Paths.RFind(p, '.') == 2;
    assert Paths.RFind(p, '/') == -1;
    assert p[0] != '.';
    assert Paths.BaseName(p) == "卜卦";
  }

  /** "play 小幸运" against that catalog: the hint misses locally and is
      looked up on the network under its own name. */
  lemma MissFallsToNetwork(cfg: Config, o: Oracles, snap: Snapshot, w: World, text: string)
    requires text == "播放小幸运"
    requires forall i :: 0 <= i < |text| ==> o.isWord(text[i])
    requires w.dirExists && !Stale(snap, w.now, cfg.refreshTime)
    requires snap.files == ["卜卦.mp3"]
    requires o.ratio("小幸运", "卜卦") <= Threshold
    ensures HandleMusicCommand(cfg, o, snap, w, text).outcome == PlayNet(Some("小幸运"))
  {
    CleanOfWords(text, o.isWord);
    HintAfterPlay(text);
    var st := HandleMusicCommand(cfg, o, snap, w, text);
    assert st.snapshot == snap;
    NoCloseEntry(o.ratio, "小幸运", snap.files);
    RouteCases(cfg, o, snap, w, text);
  }

  /** "play 小幸运": "听" is absent, "播放" ("play") is present, and the hint is the rest of the text. */
  lemma HintAfterPlay(text: string)
    requires text == "播放小幸运"
    ensures ExtractSongName(text) == Some("小幸运")
  {
    var rest := text[2..];
    assert rest == "小幸运";
    NotInByFirstChar("听", text);
    FindByFirstChar(text, "播放", 0);
    assert FirstPresent(text, Keywords, 1);
    NotInByFirstChar("播放", rest);
    assert Split(rest, "播放") == [rest];
    ExtractTrimmedSegment(text, 1, rest);
  }

  /** "来一首歌" ("give me a song") has no hint but is a default command
      phrase, so a fallback title is looked up on the network whether or not
      the music directory exists. */
  lemma GenericPhraseFallsBack(cfg: Config, o: Oracles, snap: Snapshot, w: World, text: string, pick: nat)
    requires text == "来一首歌"
    requires cfg.commands == DefaultCommands
    requires forall i :: 0 <= i < |text| ==> o.isWord(text[i])
    ensures HandleMusicCommand(cfg, o, snap, w, text).outcome == PlayNet(None)
    ensures NetSongTitle(None, pick) in FallbackPlaylist
  {
    CleanOfWords(text, o.isWord);
    NoKeyword(text);
    DefaultPhraseFound(text);
    RouteCases(cfg, o, snap, w, text);
  }

  /** "来一首歌" holds none of the trigger keywords. */
  lemma NoKeyword(text: string)
    requires text == "来一首歌"
    ensures ExtractSongName(text).None?
  {
    NotInByFirstChar("听", text);
    NotInByFirstChar("播放", text);
    NotInByFirstChar("放", text);
    NotInByFirstChar("唱", text);
  }

  /** "来一首歌" is the first default command phrase. */
  lemma DefaultPhraseFound(text: string)
    requires text == "来一首歌"
    ensures AnyCommandIn(DefaultCommands, text)
  {
    var cmd := DefaultCommands[0];
    assert cmd == text;
    FindByFirstChar(text, cmd, 0);
  }

  /** The catalog filter lower-cases the suffix but the decoder test does
      not: a file "x.P3" is catalogued under the default extensions, yet is
      handed to the transcoder rather than the packet decoder. */
  lemma UpperCaseP3IsTranscoded(musicDir: string, lower: string -> string, e: Entry)
    requires e == Entry("x.P3", true, ".P3")
    requires lower(".P3") == ".p3"
    ensures Keep(e, DefaultExt, lower)
    ensures e.relPath in MusicFiles([e], DefaultExt, lower)
    ensures DecoderFor(Paths.Join(musicDir, e.relPath)) == Transcoder
  {
    assert DefaultExt[2] == ".p3";
    DecoderByName(musicDir, e.relPath);
    assert e.relPath[1..] != ".p3";
  }
}
