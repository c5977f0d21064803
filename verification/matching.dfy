/**
 Selection of the catalog entry that best matches a hint (`_find_best_match`).
 The similarity measure, difflib's `SequenceMatcher(None, hint, name).ratio()`,
 is left abstract: it is a parameter, and nothing here assumes it is
 symmetric or bounded.
 */
module Matching {
  import opened Options
  import Paths

  /** The similarity of a hint (first argument) and a base name (second). */
  type Ratio = (string, string) -> real

  /** A match must score strictly above this. */
  const Threshold: real := 0.4

  /** The score of a catalog entry: the ratio of the hint and the entry's path without its extension. */
  function Score(ratio: Ratio, hint: string, file: string): real {
    ratio(hint, Paths.BaseName(file))
  }

  /** `files[i]` is the entry the scan must pick: above the threshold, scoring
      at least as high as every entry, and strictly higher than every entry
      before it. */
  ghost predicate IsFirstBest(ratio: Ratio, hint: string, files: seq<string>, i: int) {
    && 0 <= i < |files|
    && Score(ratio, hint, files[i]) > Threshold
    && (forall j :: 0 <= j < |files| ==> Score(ratio, hint, files[j]) <= Score(ratio, hint, files[i]))
    && (forall j :: 0 <= j < i ==> Score(ratio, hint, files[j]) < Score(ratio, hint, files[i]))
  }

  /** No entry scores above the threshold. */
  ghost predicate NoneAbove(ratio: Ratio, hint: string, files: seq<string>) {
    forall j :: 0 <= j < |files| ==> Score(ratio, hint, files[j]) <= Threshold
  }

  /** What the running-maximum loop knows after visiting `files`: with no
      best entry yet, the highest ratio is still 0 and nothing scored above
      the threshold; otherwise the best entry is the first best one and the
      highest ratio is its score. */
  ghost predicate ScanInvariant(ratio: Ratio, hint: string, files: seq<string>, st: (Option<string>, real)) {
    match st.0
    case None => st.1 == 0.0 && NoneAbove(ratio, hint, files)
    case Some(best) => exists i :: IsFirstBest(ratio, hint, files, i) && files[i] == best && st.1 == Score(ratio, hint, files[i])
  }

  /** One iteration of the loop body keeps the invariant. */
  lemma ScanStep(ratio: Ratio, hint: string, files: seq<string>, st: (Option<string>, real))
    requires |files| > 0
    requires ScanInvariant(ratio, hint, files[..|files| - 1], st)
    ensures var last := files[|files| - 1];
            var r := Score(ratio, hint, last);
            ScanInvariant(ratio, hint, files, if r > st.1 && r > Threshold then (Some(last), r) else st)
  {
    var prefix := files[..|files| - 1];
    var r := Score(ratio, hint, files[|files| - 1]);
    if r > st.1 && r > Threshold {
      NewBest(ratio, hint, files, prefix, st.1);
    } else if st.0.Some? {
      var i :| IsFirstBest(ratio, hint, prefix, i) && prefix[i] == st.0.value && st.1 == Score(ratio, hint, prefix[i]);
      KeepBest(ratio, hint, files, i);
    } else {
      assert forall j :: 0 <= j < |files| - 1 ==> files[j] == prefix[j];
    }
  }

  /** An entry that beats the highest ratio so far, which bounds every earlier entry, is the first best. */
  lemma NewBest(ratio: Ratio, hint: string, files: seq<string>, prefix: seq<string>, highest: real)
    requires |files| > 0 && prefix == files[..|files| - 1]
    requires forall j :: 0 <= j < |prefix| ==> Score(ratio, hint, prefix[j]) <= highest || Score(ratio, hint, prefix[j]) <= Threshold
    requires Score(ratio, hint, files[|files| - 1]) > highest
    requires Score(ratio, hint, files[|files| - 1]) > Threshold
    ensures IsFirstBest(ratio, hint, files, |files| - 1)
  {
    assert forall j :: 0 <= j < |prefix| ==> files[j] == prefix[j];
  }

  /** The first best of the visited entries stays the first best when the next entry does not beat it. */
  lemma KeepBest(ratio: Ratio, hint: string, files: seq<string>, i: int)
    requires |files| > 0
    requires IsFirstBest(ratio, hint, files[..|files| - 1], i)
    requires Score(ratio, hint, files[|files| - 1]) <= Score(ratio, hint, files[..|files| - 1][i])
    ensures IsFirstBest(ratio, hint, files, i)
  {
    assert forall j :: 0 <= j < |files| - 1 ==> files[j] == files[..|files| - 1][j];
  }

  /** The state of the running-maximum loop after it has visited all of
      `files`: the best entry so far and the highest ratio so far. */
  function Scan(ratio: Ratio, hint: string, files: seq<string>): (st: (Option<string>, real))
    ensures ScanInvariant(ratio, hint, files, st)
    decreases |files|
  {
    if |files| == 0 then (None, 0.0)
    else
      var st := Scan(ratio, hint, files[..|files| - 1]);
      var last := files[|files| - 1];
      var r := Score(ratio, hint, last);
      ScanStep(ratio, hint, files, st);
      if r > st.1 && r > Threshold then (Some(last), r) else st
  }

  /** `_find_best_match`: the entry with the highest score above the
      threshold, the earliest one among ties, or None when no entry scores
      above the threshold. */
  function FindBestMatch(ratio: Ratio, hint: string, files: seq<string>): (r: Option<string>)
    ensures match r
            case None => NoneAbove(ratio, hint, files)
            case Some(m) => exists i :: IsFirstBest(ratio, hint, files, i) && files[i] == m
  {
    Scan(ratio, hint, files).0
  }

  /** There is no match exactly when no entry scores above the threshold. */
  lemma NoMatchIffNoneAbove(ratio: Ratio, hint: string, files: seq<string>)
    ensures FindBestMatch(ratio, hint, files).None? <==> NoneAbove(ratio, hint, files)
  {
  }

  /** At most one entry is the first best, so the contract of FindBestMatch
      pins its result down completely. */
  lemma FirstBestUnique(ratio: Ratio, hint: string, files: seq<string>, i: int, i': int)
    requires IsFirstBest(ratio, hint, files, i)
    requires IsFirstBest(ratio, hint, files, i')
    ensures i == i'
  {
  }

  /** A match is a member of the catalog scoring above the threshold and at
      least as high as every other member. */
  lemma MatchIsBest(ratio: Ratio, hint: string, files: seq<string>)
    requires FindBestMatch(ratio, hint, files).Some?
    ensures var m := FindBestMatch(ratio, hint, files).value;
            && m in files
            && Score(ratio, hint, m) > Threshold
            && forall f :: f in files ==> Score(ratio, hint, f) <= Score(ratio, hint, m)
  {
  }
}
