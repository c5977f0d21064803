/**
 Python string operations the music handler relies on: whitespace,
 substring search (`in`, `str.find`), `str.split` with a separator,
 `str.strip()` and `str.endswith`.
 */
module Text {
  import opened Options

  /** The code points for which CPython's `str.isspace()` holds. The same
      table backs `str.strip()` and the `\s` class of `re` on str patterns. */
  predicate IsSpace(c: char) {
    || '\t' <= c <= '\r'
    || '\U{1C}' <= c <= '\U{1F}'
    || c == ' '
    || c == '\U{85}'
    || c == '\U{A0}'
    || c == '\U{1680}'
    || '\U{2000}' <= c <= '\U{200A}'
    || c == '\U{2028}'
    || c == '\U{2029}'
    || c == '\U{202F}'
    || c == '\U{205F}'
    || c == '\U{3000}'
  }

  /** `k` occurs in `s` starting at index `i`. */
  predicate OccursAt(s: string, k: string, i: nat) {
    i + |k| <= |s| && s[i..i + |k|] == k
  }

  /** Occurrences in `s` past its first character are the occurrences in `s[1..]`, shifted. */
  lemma OccursShift(s: string, k: string)
    requires |s| > 0
    ensures forall j: nat :: 0 < j ==> (OccursAt(s, k, j) <==> OccursAt(s[1..], k, j - 1))
    ensures forall j: nat :: OccursAt(s[1..], k, j) ==> OccursAt(s, k, j + 1)
  {
    forall j: nat | 0 < j
      ensures OccursAt(s, k, j) <==> OccursAt(s[1..], k, j - 1)
    {
      if j + |k| <= |s| {
        assert s[1..][j - 1..j - 1 + |k|] == s[j..j + |k|];
      }
    }
  }

  /** The first occurrence of `k` in `s`: Python's `s.find(k)`, with None for -1. */
  function Find(s: string, k: string): (r: Option<nat>)
    ensures r.Some? ==> OccursAt(s, k, r.value)
    ensures r.Some? ==> forall j: nat :: j < r.value ==> !OccursAt(s, k, j)
    ensures r.None? ==> forall j: nat :: !OccursAt(s, k, j)
    decreases |s|
  {
    if |s| < |k| then None
    else if s[..|k|] == k then Some(0)
    else
      OccursShift(s, k);
      match Find(s[1..], k)
      case None => None
      case Some(j) => Some(j + 1)
  }

  /** Python's `k in s` on strings. */
  predicate In(k: string, s: string) {
    Find(s, k).Some?
  }

  /** `k in s` holds exactly when `k` occurs at some index of `s`. */
  lemma InIff(k: string, s: string)
    ensures In(k, s) <==> exists i: nat :: OccursAt(s, k, i)
  {
  }

  /** An occurrence of `sep` inside a prefix of `s` is an occurrence in `s`. */
  lemma OccursInPrefix(s: string, sep: string, i: nat, j: nat)
    requires i <= |s|
    requires OccursAt(s[..i], sep, j)
    ensures OccursAt(s, sep, j)
  {
    assert s[..i][j..j + |sep|] == s[j..j + |sep|];
  }

  /** Python's `s.split(sep)` for a non-empty separator. */
  function Split(s: string, sep: string): (parts: seq<string>)
    requires |sep| > 0
    ensures |parts| >= 1
    ensures |parts| > 1 <==> In(sep, s)
    ensures forall m :: 0 <= m < |parts| ==> !In(sep, parts[m])
    decreases |s|
  {
    match Find(s, sep)
    case None => [s]
    case Some(i) =>
      var head := s[..i];
      assert !In(sep, head) by {
        forall j: nat ensures !OccursAt(head, sep, j) {
          if OccursAt(head, sep, j) {
            OccursInPrefix(s, sep, i, j);
          }
        }
      }
      [head] + Split(s[i + |sep|..], sep)
  }

  /** Python's `sep.join(parts)`. */
  function JoinWith(parts: seq<string>, sep: string): string
    decreases |parts|
  {
    if |parts| == 0 then ""
    else if |parts| == 1 then parts[0]
    else parts[0] + sep + JoinWith(parts[1..], sep)
  }

  /** Splitting and joining back with the same separator gives the original text. */
  lemma {:induction false} SplitJoin(s: string, sep: string)
    requires |sep| > 0
    ensures JoinWith(Split(s, sep), sep) == s
    decreases |s|
  {
    match Find(s, sep)
    case None =>
    case Some(i) =>
      var rest := s[i + |sep|..];
      SplitJoin(rest, sep);
      var tail := Split(rest, sep);
      assert Split(s, sep) == [s[..i]] + tail;
      assert JoinWith(Split(s, sep), sep) == s[..i] + sep + JoinWith(tail, sep);
      assert s == s[..i] + s[i..i + |sep|] + rest;
  }

  /** `e` ends the segment of `s` that starts at `start`: the next occurrence
      of `k` at or after `start`, or the end of `s` if there is none. */
  ghost predicate SegmentEnd(s: string, k: string, start: nat, e: nat) {
    && start <= e <= |s|
    && (e == |s| || OccursAt(s, k, e))
    && forall m: nat :: start <= m < e ==> !OccursAt(s, k, m)
  }

  /** An occurrence of `k` in a suffix of `s` is an occurrence in `s`, shifted. */
  lemma OccursInSuffix(s: string, k: string, start: nat, j: nat)
    requires start <= |s|
    ensures OccursAt(s[start..], k, j) <==> OccursAt(s, k, start + j)
  {
    if start + j + |k| <= |s| {
      assert s[start..][j..j + |k|] == s[start + j..start + j + |k|];
    }
  }

  /** The second part of a split is the text strictly between the first and
      the second occurrence of the separator, or up to the end of the text
      when the separator occurs once. */
  lemma SplitSecondPart(s: string, sep: string, start: nat)
    requires |sep| > 0
    requires Find(s, sep).Some? && start == Find(s, sep).value + |sep|
    ensures exists e: nat :: SegmentEnd(s, sep, start, e) && Split(s, sep)[1] == s[start..e]
  {
    var rest := s[start..];
    assert Split(s, sep)[1] == Split(rest, sep)[0];
    var e := SuffixSegmentEnd(s, sep, start);
    assert Split(rest, sep)[0] == s[start..e];
  }

  /** The end of the segment starting at `start`, found by searching the suffix from there. */
  lemma SuffixSegmentEnd(s: string, sep: string, start: nat) returns (e: nat)
    requires |sep| > 0
    requires start <= |s|
    ensures SegmentEnd(s, sep, start, e)
    ensures Split(s[start..], sep)[0] == s[start..e]
  {
    var rest := s[start..];
    forall m: nat | start <= m ensures OccursAt(s, sep, m) <==> OccursAt(rest, sep, m - start) {
      OccursInSuffix(s, sep, start, m - start);
    }
    match Find(rest, sep)
    case None =>
      e := |s|;
    case Some(j) =>
      assert rest[..j] == s[start..start + j];
      e := start + j;
  }

  /** Python's `s.lstrip()`. */
  function StripLeft(s: string): (r: string)
    ensures |r| <= |s| && r == s[|s| - |r|..]
    ensures forall i :: 0 <= i < |s| - |r| ==> IsSpace(s[i])
    ensures |r| > 0 ==> !IsSpace(r[0])
    decreases |s|
  {
    if |s| > 0 && IsSpace(s[0]) then StripLeft(s[1..]) else s
  }

  /** Python's `s.rstrip()`. */
  function StripRight(s: string): (r: string)
    ensures |r| <= |s| && r == s[..|r|]
    ensures forall i :: |r| <= i < |s| ==> IsSpace(s[i])
    ensures |r| > 0 ==> !IsSpace(r[|r| - 1])
    decreases |s|
  {
    if |s| > 0 && IsSpace(s[|s| - 1]) then StripRight(s[..|s| - 1]) else s
  }

  /** Neither end of `s` is whitespace. */
  predicate Trimmed(s: string) {
    |s| == 0 || (!IsSpace(s[0]) && !IsSpace(s[|s| - 1]))
  }

  /** `r` sits at index `a` of `s` with only whitespace before and after it. */
  ghost predicate Surrounds(s: string, a: nat, r: string) {
    && a + |r| <= |s|
    && s[a..a + |r|] == r
    && (forall i :: 0 <= i < a ==> IsSpace(s[i]))
    && (forall i :: a + |r| <= i < |s| ==> IsSpace(s[i]))
  }

  /** Taking leading whitespace off `s` (giving `left`) and then trailing
      whitespace off `left` (giving `r`) leaves a trimmed window of `s`. */
  lemma StripWindow(s: string, left: string, r: string)
    requires |left| <= |s| && left == s[|s| - |left|..]
    requires forall i :: 0 <= i < |s| - |left| ==> IsSpace(s[i])
    requires |left| > 0 ==> !IsSpace(left[0])
    requires |r| <= |left| && r == left[..|r|]
    requires forall i :: |r| <= i < |left| ==> IsSpace(left[i])
    requires |r| > 0 ==> !IsSpace(r[|r| - 1])
    ensures Surrounds(s, |s| - |left|, r)
    ensures Trimmed(r)
  {
    var a := |s| - |left|;
    assert s[a..a + |r|] == r;
    assert forall i :: a + |r| <= i < |s| ==> s[i] == left[i - a];
  }

  /** Python's `s.strip()`. */
  function Strip(s: string): (r: string)
    ensures Trimmed(r)
    ensures exists a: nat :: Surrounds(s, a, r)
  {
    var left := StripLeft(s);
    var r := StripRight(left);
    StripWindow(s, left, r);
    r
  }

  /** Strip is the only trimmed window of `s` with nothing but whitespace around it. */
  lemma StripUnique(s: string, a: nat, r: string)
    requires Trimmed(r)
    requires Surrounds(s, a, r)
    ensures Strip(s) == r
  {
    var left := StripLeft(s);
    var b := |s| - |left|;
    if |r| > 0 {
      assert s[a] == r[0];
      assert left[..|r|] == r;
    }
  }

  /** `k` is not in `s` when its first character is not. */
  lemma NotInByFirstChar(k: string, s: string)
    requires |k| > 0
    requires forall i :: 0 <= i < |s| ==> s[i] != k[0]
    ensures !In(k, s)
  {
    forall i: nat ensures !OccursAt(s, k, i) {
      if i + |k| <= |s| {
        assert s[i..i + |k|][0] == s[i];
      }
    }
  }

  /** An occurrence of `k` is the first one when no earlier character is
      the first character of `k`. */
  lemma FindByFirstChar(s: string, k: string, i: nat)
    requires |k| > 0
    requires OccursAt(s, k, i)
    requires forall j :: 0 <= j < i ==> s[j] != k[0]
    ensures Find(s, k) == Some(i)
  {
    var f := Find(s, k).value;
    assert s[f..f + |k|][0] == k[0];
  }

  /** A text without whitespace at either end is its own strip. */
  lemma StripTrimmed(s: string)
    requires Trimmed(s)
    ensures Strip(s) == s
  {
    assert s[0..|s|] == s;
    StripUnique(s, 0, s);
  }

  /** Python's `s.endswith(suffix)`. */
  predicate EndsWith(s: string, suffix: string) {
    |suffix| <= |s| && s[|s| - |suffix|..] == suffix
  }

  /** `s.endswith(suffix)` holds exactly when `s` is some text followed by `suffix`. */
  lemma EndsWithIff(s: string, suffix: string)
    ensures EndsWith(s, suffix) <==> exists p :: p + suffix == s
  {
    if EndsWith(s, suffix) {
      assert s[..|s| - |suffix|] + suffix == s;
    }
    forall p | p + suffix == s
      ensures EndsWith(s, suffix)
    {
      assert s[|s| - |suffix|..] == suffix;
    }
  }
}
