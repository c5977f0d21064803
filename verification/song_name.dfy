/**
 Extraction of a song-name hint from cleaned command text
 (`_extract_song_name`). Trigger keywords are tried in their list order,
 not in the order they appear in the text; the first one present decides
 the result, which is the stripped second part of splitting the text on
 that keyword.
 */
module SongName {
  import opened Options
  import opened Text

  /** The trigger keywords "listen", "play", "put on", "sing", in the order they are tried. */
  const Keywords: seq<string> := ["听", "播放", "放", "唱"]

  /** Every keyword is non-empty, so splitting on it is defined. */
  predicate NonEmptyKeywords(keywords: seq<string>) {
    forall m :: 0 <= m < |keywords| ==> |keywords[m]| > 0
  }

  /** `keywords[j]` occurs in `text` and no keyword listed before it does. */
  predicate FirstPresent(text: string, keywords: seq<string>, j: int) {
    && 0 <= j < |keywords|
    && In(keywords[j], text)
    && forall m :: 0 <= m < j ==> !In(keywords[m], text)
  }

  /** The hint for `text` under the keyword list `keywords`. */
  function ExtractWith(text: string, keywords: seq<string>): (r: Option<string>)
    requires NonEmptyKeywords(keywords)
    ensures r.None? <==> forall m :: 0 <= m < |keywords| ==> !In(keywords[m], text)
    decreases |keywords|
  {
    if |keywords| == 0 then None
    else if In(keywords[0], text) then
      var parts := Split(text, keywords[0]);
      // `len(parts) > 1` always holds once the keyword is in the text.
      if |parts| > 1 then Some(Strip(parts[1]))
      else
        assert false; None
    else
      ExtractWith(text, keywords[1..])
  }

  /** The first keyword present decides the hint: it is the stripped second
      part of the text split on that keyword, and later keywords are never
      tried, even when that part is empty. */
  lemma {:induction false} ExtractWithFirst(text: string, keywords: seq<string>, j: int)
    requires NonEmptyKeywords(keywords)
    requires FirstPresent(text, keywords, j)
    ensures ExtractWith(text, keywords) == Some(Strip(Split(text, keywords[j])[1]))
    decreases j
  {
    if j > 0 {
      assert !In(keywords[0], text);
      assert FirstPresent(text, keywords[1..], j - 1);
      ExtractWithFirst(text, keywords[1..], j - 1);
    }
  }

  /** `_extract_song_name`: the hint for cleaned command text, or None. */
  function ExtractSongName(text: string): (r: Option<string>)
    ensures r.None? <==> forall m :: 0 <= m < |Keywords| ==> !In(Keywords[m], text)
  {
    ExtractWith(text, Keywords)
  }

  /** With `Keywords[j]` the first listed keyword present, the hint is the
      stripped text strictly between its first and second occurrence, or up
      to the end of the text when it occurs once. */
  lemma ExtractSegment(text: string, j: int, start: nat)
    requires FirstPresent(text, Keywords, j)
    requires start == Find(text, Keywords[j]).value + |Keywords[j]|
    ensures exists e: nat :: SegmentEnd(text, Keywords[j], start, e) && ExtractSongName(text) == Some(Strip(text[start..e]))
  {
    ExtractWithFirst(text, Keywords, j);
    SplitSecondPart(text, Keywords[j], start);
  }

  /** The hint when the segment after the first keyword present has no
      whitespace at either end: the segment itself. */
  lemma ExtractTrimmedSegment(text: string, j: int, song: string)
    requires FirstPresent(text, Keywords, j)
    requires Split(text, Keywords[j])[1] == song
    requires Trimmed(song)
    ensures ExtractSongName(text) == Some(song)
  {
    ExtractWithFirst(text, Keywords, j);
    StripTrimmed(song);
  }
}
