# Music command handler: a Dafny model

This project models how the voice assistant's music handler decides what a spoken "play music" command means. The handler is `core/handle/musicHandler.py`, and the model covers its pure decision logic:

- **Cleaning.** Punctuation is removed from the transcribed text, which is then stripped (`re.sub(r'[^\w\s]', '', text).strip()`).
- **Hint extraction.** `_extract_song_name` tries the keywords "听", "播放", "放", "唱" ("listen", "play", "put on", "sing") in list order. For the first one present, it returns the stripped second part of `text.split(keyword)`.
- **Best match.** `_find_best_match` is a running-maximum scan over the catalog. It scores each entry by difflib's ratio of the hint and the entry's path without its extension. It keeps a strictly better entry only when that entry scores strictly above 0.4.
- **Catalog.** `get_music_files` keeps the enumerated entries that are files and whose lower-cased suffix is an allowed extension. `handle_music_command` rescans when more than `refresh_time` seconds have passed.
- **Routing.** When the music directory exists and there is a non-empty hint, the handler plays the local match, or looks the hint up on the network when there is no match. Otherwise, a generic command phrase in the text starts network playback of a fallback title. Anything else returns False, and another handler may take the text.
- **Playback choices.** `play_local_music` builds a path with `os.path.join` and picks the decoder: ".p3" files are read as packets and everything else is transcoded. `play_net_music` picks the title it looks up.

The outside world enters as values:

- A `World` holds what one command observes: whether the music directory exists, the two clock readings (the staleness test at line 100 and the new scan time at line 103), and the directory enumeration a rescan sees.
- Library behaviour with large or unspecified tables is a parameter, bundled in `Oracles`: the `\w` character class, `str.lower`, and difflib's ratio. Whitespace (`str.isspace`, `\s`, `str.strip`) is defined concretely from CPython's whitespace table.

Modules: `Text` (substring search, `split`, `strip`, `endswith`), `Paths` (`splitext`, `join`), `SongName`, `Matching`, `Catalog`, `MusicHandler`, and `Scenarios` (worked cases).

Three details of the code shape the model:

- **The hint.** `text.split(keyword)[1]` stops at the keyword's second occurrence, so the hint is not the whole tail after the first occurrence. For example, "听歌听海" gives "歌".
- **Similarity.** The ratio is only ever called as ratio(hint, base name), so nothing here assumes it is symmetric.
- **Network lookup.** Only `get_music_url_adapter_2` is called (line 175). It is left out (see below).

## Model

| member | source | states |
|---|---|---|
| `Text.Find` | core/handle/musicHandler.py:25 | `keyword in text`: the result is the first index where the keyword occurs, and None exactly when it occurs nowhere |
| `Text.Split` | core/handle/musicHandler.py:26-27 | `text.split(keyword)` has more than one part exactly when the keyword is in the text, so the `len(parts) > 1` test is always true there; no part contains the keyword |
| `Text.In` | core/handle/musicHandler.py:25 | Python's `k in s`: whether the first-occurrence search finds the keyword |
| `Text.InIff` | core/handle/musicHandler.py:25 | `k in s` holds exactly when the keyword occurs at some index of the text |
| `Text.SplitJoin` | core/handle/musicHandler.py:26 | joining the parts of a split with the separator gives back the original text |
| `Text.SplitSecondPart` | core/handle/musicHandler.py:26-28 | `parts[1]` is the text strictly between the first and the second occurrence of the separator, or up to the end when it occurs once |
| `Text.IsSpace` | core/handle/musicHandler.py:95 | the characters CPython's `str.isspace` accepts, which `strip()` removes and `\s` matches |
| `Text.Strip` | core/handle/musicHandler.py:28 | `strip()` leaves a window of the text with no whitespace at either end and only whitespace outside it |
| `Text.StripUnique` | core/handle/musicHandler.py:95 | that window is unique: any trimmed window with only whitespace around it is the result of `strip()` |
| `SongName.ExtractWith` | core/handle/musicHandler.py:22-29 | the extraction loop returns None exactly when no keyword of the list occurs in the text |
| `SongName.ExtractWithFirst` | core/handle/musicHandler.py:24-28 | the first keyword in list order that is present decides the hint, even an empty one, and later keywords are never tried |
| `SongName.ExtractSongName` | core/handle/musicHandler.py:22-29 | `_extract_song_name` returns None exactly when none of "听", "播放", "放", "唱" is in the text |
| `SongName.ExtractSegment` | core/handle/musicHandler.py:24-28 | with k the first listed keyword present, the hint is the stripped text strictly between the first and second occurrences of k, or up to the end of the text |
| `Paths.RFind` | core/handle/musicHandler.py:38 | `str.rfind` inside `splitext`: -1 or an index holding the character, with no later index holding it |
| `Paths.SplitExt` | core/handle/musicHandler.py:38 | `os.path.splitext`: root plus extension is the path; the extension starts at the last '.' of the last component and holds no other '.' or '/'; with no extension, every dot of the last component has only dots before it |
| `Paths.Join` | core/handle/musicHandler.py:133-149 | `os.path.join`: the result ends with the file name; an absolute name replaces the directory; otherwise the directory comes first, and a '/' is inserted after it exactly when it is non-empty and does not already end with one |
| `Paths.BaseName` | core/handle/musicHandler.py:38 | `os.path.splitext(music_file)[0]`, the root part of SplitExt |
| `Paths.EndsWithJoin` | core/handle/musicHandler.py:133 | joining the music directory in front of a file name does not change which slash-free suffixes the path ends with |
| `Paths.JoinKeepsP3` | core/handle/musicHandler.py:158 | the `.endswith(".p3")` test on the joined path gives the same answer as on the file name |
| `Text.EndsWith` | core/handle/musicHandler.py:158 | Python's `s.endswith(suffix)` |
| `Text.EndsWithIff` | core/handle/musicHandler.py:158 | `s.endswith(suffix)` holds exactly when the text is some text followed by the suffix |
| `Matching.Score` | core/handle/musicHandler.py:38-39 | the ratio of the hint and the entry's base name, in that argument order |
| `Matching.ScanStep` | core/handle/musicHandler.py:39-42 | one loop iteration keeps the invariant: with no best yet, the highest ratio is 0 and nothing scored above 0.4; otherwise the best is the first entry of maximal score above 0.4 |
| `Matching.Scan` | core/handle/musicHandler.py:34-42 | after the loop, the state satisfies that invariant for the whole list |
| `Matching.FindBestMatch` | core/handle/musicHandler.py:32-43 | None only when no entry's ratio exceeds 0.4; otherwise an element of the list above 0.4 that scores at least as high as every entry and strictly higher than every earlier entry (ties go to the earliest) |
| `Matching.NoMatchIffNoneAbove` | core/handle/musicHandler.py:37-43 | there is no match exactly when no entry's ratio exceeds 0.4 |
| `Matching.FirstBestUnique` | core/handle/musicHandler.py:40 | at most one index satisfies that description, so it fixes the result |
| `Matching.MatchIsBest` | core/handle/musicHandler.py:37-43 | a returned match is a catalog member with ratio above 0.4 and the maximum ratio over the catalog |
| `Catalog.Keep` | core/handle/musicHandler.py:54-58 | an entry is kept when it is a file and its lower-cased suffix is one of the allowed extensions |
| `Catalog.KeepBySuffix` | core/handle/musicHandler.py:54-58 | a congruence fact: keeping does not depend on the path, and suffixes that lower-case alike are treated alike |
| `Catalog.MusicFiles` | core/handle/musicHandler.py:50-62 | every catalogued path belongs to an entry that is a file with an allowed lower-cased suffix, and every such entry's path is catalogued |
| `Catalog.MusicFilesInOrder` | core/handle/musicHandler.py:52-61 | the catalog is an order-preserving subsequence of the enumerated paths |
| `Catalog.Stale` | core/handle/musicHandler.py:100 | the catalog is stale when more than `refresh_time` seconds have passed since the last scan |
| `Catalog.StaleMonotone` | core/handle/musicHandler.py:100 | a monotonicity fact: a stale catalog stays stale while the clock moves forward |
| `Catalog.Refresh` | core/handle/musicHandler.py:100-103 | the file list is replaced and the scan time becomes the new clock reading exactly when more than `refresh_time` seconds have passed; otherwise nothing changes |
| `Catalog.RefreshSettles` | core/handle/musicHandler.py:99-104 | for a non-negative `refresh_time` and a clock that does not run backwards (the new scan time is not before the staleness reading), a just-refreshed catalog is not stale again at that instant, so two commands at one instant rescan at most once |
| `MusicHandler.ConfigOf` | core/handle/musicHandler.py:69-86 | definition: the settings from an optional `music` section, each key read with its default, and the built-in defaults when the section is absent |
| `MusicHandler.MissingKeysTakeDefaults` | core/handle/musicHandler.py:69-86 | for every section: a set key is used as given; a missing directory, extension list or interval equals its value without a section; missing phrases become an empty list that recognises no text, while without a section there are eleven |
| `MusicHandler.InitialSnapshot` | core/handle/musicHandler.py:88-90 | the constructor's catalog holds exactly the paths of the kept entries, stamped with the clock after the scan |
| `MusicHandler.Kept` | core/handle/musicHandler.py:95 | a character outside the class `[^\w\s]`: a word or whitespace character |
| `MusicHandler.RemovePunctuation` | core/handle/musicHandler.py:95 | every character of the result is a word or whitespace character; every such character of the input survives; text made only of them is unchanged |
| `MusicHandler.RemovePunctuationAppend` | core/handle/musicHandler.py:95 | removing punctuation from a concatenation gives the concatenation of the results, so it works character by character |
| `MusicHandler.RemovePunctuationChar` | core/handle/musicHandler.py:95 | a single character is kept exactly when it is a word or whitespace character; with the previous row, the result is the kept characters of the input, in order and with their multiplicity |
| `MusicHandler.Clean` | core/handle/musicHandler.py:95 | the cleaned text holds only word or whitespace characters and has no whitespace at either end |
| `MusicHandler.CleanIdempotent` | core/handle/musicHandler.py:95 | cleaning a cleaned text leaves it unchanged |
| `MusicHandler.CleanOfWords` | core/handle/musicHandler.py:95 | a text made only of word characters, with no whitespace at either end, is its own cleaned form |
| `MusicHandler.AnyCommandIn` | core/handle/musicHandler.py:118 | `any(cmd in clean_text for cmd in commands)` |
| `MusicHandler.AnyCommandInFirst` | core/handle/musicHandler.py:118 | `any` over the phrases is false for an empty list, and otherwise holds exactly when the first phrase occurs or `any` holds over the rest |
| `MusicHandler.HasHint` | core/handle/musicHandler.py:106-107 | the truthiness test `if potential_song:`: a hint exists and is not empty |
| `MusicHandler.Refreshed` | core/handle/musicHandler.py:100-103 | the catalog after the staleness test, with a rescan of the enumerated entries when it is due |
| `MusicHandler.Handled` | core/handle/musicHandler.py:112-122 | the boolean the handler returns: True for every outcome except the fall-through |
| `MusicHandler.HandleMusicCommand` | core/handle/musicHandler.py:93-122 | local play only of a non-empty catalog member that scores above 0.4 and at least as high as every entry, for a non-empty hint; net play by name only with the directory present and exactly the extracted hint; net play without a name only when a command phrase is in the cleaned text; False exactly when neither applies; the catalog changes only through a due rescan |
| `MusicHandler.RouteCases` | core/handle/musicHandler.py:99-122 | each route given by its inputs: a match plays locally, a miss (or an empty-path match) goes to the network with the hint, no hint falls to the command-phrase check, and otherwise False |
| `MusicHandler.MissingDirectoryIgnoresCatalog` | core/handle/musicHandler.py:99-122 | without the music directory, the catalog, the enumeration and the ratio do not affect the outcome, and nothing is played locally |
| `MusicHandler.EmptyHintFallsThrough` | core/handle/musicHandler.py:106-122 | an empty hint is not looked up; the outcome is decided by the command phrases alone |
| `MusicHandler.PlaybackOf` | core/handle/musicHandler.py:133-162 | a file is played only if its joined path exists; the queued title is the file name; the ".p3" packet decoder is chosen exactly when the file name ends with ".p3" |
| `MusicHandler.DecoderFor` | core/handle/musicHandler.py:158-161 | the packet decoder for a path ending in ".p3", the transcoder otherwise |
| `MusicHandler.DecoderByName` | core/handle/musicHandler.py:158-161 | the decoder chosen for the joined path is the one the file name alone selects: the packet decoder exactly when the name ends with ".p3" |
| `MusicHandler.NowPlaying` | core/handle/musicHandler.py:153 | the announcement "正在播放" followed by the title |
| `MusicHandler.PlayLocalMusic` | core/handle/musicHandler.py:124-162 | nothing is played without the directory. A named file is played exactly when its path exists, and the catalog is left alone. Without a name, the catalog is refreshed if stale; nothing is played when it is empty; otherwise the file at the chosen index is played exactly when its path exists |
| `MusicHandler.LocalHitPlays` | core/handle/musicHandler.py:108-162 | a local hit of the router is played from that very file, without another rescan, when its path exists, with the decoder its suffix selects |
| `MusicHandler.NetSongTitle` | core/handle/musicHandler.py:168-173 | the network lookup uses the given name, or a title from the built-in fallback list when none is given |
| `Scenarios.HintAfterKeyword` | core/handle/musicHandler.py:24-28 | "放一首周杰伦的歌" gives the hint "一首周杰伦的歌" |
| `Scenarios.KeywordListOrderWins` | core/handle/musicHandler.py:24-28 | "放一首听海" gives "海": "听" is tried first although "放" comes first in the text |
| `Scenarios.HintStopsAtSecondOccurrence` | core/handle/musicHandler.py:26-28 | "听歌听海" gives "歌", not the whole tail |
| `Scenarios.KeywordAtEndGivesEmptyHint` | core/handle/musicHandler.py:25-28 | "我想听" gives the empty hint, not None |
| `Scenarios.BaseNames` | core/handle/musicHandler.py:38 | "周杰伦/晴天.mp3" has base name "周杰伦/晴天", so directory prefixes are scored; ".p3" has no extension |
| `Scenarios.NoCloseEntry` | core/handle/musicHandler.py:32-43 | the catalog ["卜卦.mp3"] has no match for "小幸运" when their ratio is at most 0.4 |
| `Scenarios.MissFallsToNetwork` | core/handle/musicHandler.py:106-115 | "播放小幸运" against that catalog goes to the network under the name "小幸运" |
| `Scenarios.UpperCaseP3IsTranscoded` | core/handle/musicHandler.py:158 | a file "x.P3" passes the lower-cased suffix test of line 56 and is catalogued, yet the case-sensitive test of line 158 hands it to the transcoder rather than the packet decoder |
| `Scenarios.HintAfterPlay` | core/handle/musicHandler.py:24-28 | "播放小幸运" gives the hint "小幸运" |
| `Scenarios.NoKeyword` | core/handle/musicHandler.py:24-29 | "来一首歌" holds none of the four keywords, so no hint is extracted |
| `Scenarios.DefaultPhraseFound` | core/handle/musicHandler.py:118 | "来一首歌" contains a default command phrase |
| `Scenarios.GenericPhraseFallsBack` | core/handle/musicHandler.py:117-120 | "来一首歌" with the default command phrases goes to the network with a fallback title, whether or not the directory exists |

## Left out

- Network adapters (`get_music_url_adapter_1`, `get_music_url_adapter_2`): these are HTTP scraping of third-party sites. Only `get_music_url_adapter_2` is ever called. A network outcome is modelled only up to the title it looks up.
- Download to the shared `song.mp3` cache: this is streaming I/O, and two sessions race on the same file.
- Side effects on the session: `send_stt_message`, the `conn` fields, the decoders, and the `audio_play_queue`. These are foreign calls. `PlaybackOf` only records what would be handed to them.
- Decode failures and the surrounding `try`/`except`: exceptions from foreign code are not modelled.
- Filesystem, clock and existence checks: `rglob`, `is_file`, `Path.suffix`, `os.path.exists` and `time.time` are readings carried in `World`, or in the `pathExists` parameter.
- `random.choice`: modelled as a `pick` index taken modulo the list length, so any member can be chosen.
- Library tables: difflib's ratio, the `\w` class and `str.lower` are parameters. A real ratio lies in [0, 1], but no property here depends on that.
- Configuration: the parsing of the configuration file is left out; `ConfigOf` starts from the `music` section as a value. `os.path.abspath` is a parameter. `music_cache_dir` belongs to the download cache, which is left out.
- Floating point: difflib's ratio and the `time.time()` readings are Python floats, modelled as exact reals. Rounding in `time.time() - self.scan_time` (line 100) is not modelled, and `Threshold` is the exact real 0.4, not the float nearest to it that line 40 compares against.
- Paths follow POSIX `posixpath`. The Windows flavour of `splitext` and `join` is not modelled.
- Concurrency: one handler instance is shared across sessions, but the model treats each command as one sequential step.
- MusicHandler.LocalHitPlays: uses the same directory-existence reading for the router and for `play_local_music`. The source checks the directory a second time (line 127), and the directory could disappear in between.
- MusicHandler.PlayLocalMusic: in the branch with no file name, the rescan uses the clock readings of the `World` it is given, not fresh ones.
