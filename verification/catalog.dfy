/**
 The local music catalog: the extension filter of
 `MusicManager.get_music_files` applied to an enumeration of the music
 directory, and the time-based rescan that replaces the handler's list.
 */
module Catalog {

  /** One path yielded by the recursive enumeration of the music directory:
      its path relative to that directory, whether it is a regular file, and
      its suffix as `pathlib` reports it (e.g. ".MP3"). */
  datatype Entry = Entry(relPath: string, isFile: bool, suffix: string)

  /** An entry is catalogued when it is a file whose lower-cased suffix is one
      of the allowed extensions (exact string membership). */
  predicate Keep(e: Entry, musicExt: seq<string>, lower: string -> string) {
    e.isFile && lower(e.suffix) in musicExt
  }

  /** Whether an entry is kept depends only on its being a file and on the
      lower-cased suffix: its path plays no part, and two suffixes that
      lower-case alike (".MP3" and ".mp3") are treated alike. */
  lemma KeepBySuffix(e1: Entry, e2: Entry, musicExt: seq<string>, lower: string -> string)
    requires e1.isFile == e2.isFile && lower(e1.suffix) == lower(e2.suffix)
    ensures Keep(e1, musicExt, lower) == Keep(e2, musicExt, lower)
  {
  }

  /** The relative paths of `entries`, in order. */
  function RelPaths(entries: seq<Entry>): (ps: seq<string>)
    ensures |ps| == |entries|
    ensures forall i :: 0 <= i < |entries| ==> ps[i] == entries[i].relPath
  {
    seq(|entries|, i requires 0 <= i < |entries| => entries[i].relPath)
  }

  /** `get_music_files`: the relative paths of the kept entries, in enumeration order. */
  function MusicFiles(entries: seq<Entry>, musicExt: seq<string>, lower: string -> string): (files: seq<string>)
    ensures |files| <= |entries|
    ensures forall f :: f in files ==> exists e :: e in entries && Keep(e, musicExt, lower) && e.relPath == f
    ensures forall e :: e in entries && Keep(e, musicExt, lower) ==> e.relPath in files
    decreases |entries|
  {
    if |entries| == 0 then []
    else
      var e := entries[0];
      var rest := MusicFiles(entries[1..], musicExt, lower);
      assert forall x :: x in entries[1..] ==> x in entries;
      if Keep(e, musicExt, lower) then [e.relPath] + rest else rest
  }

  /** `a` is `b` with some elements left out and the rest in their order. */
  ghost predicate IsSubsequence(a: seq<string>, b: seq<string>)
    decreases |b|
  {
    if |a| == 0 then true
    else if |b| == 0 then false
    else (a[0] == b[0] && IsSubsequence(a[1..], b[1..])) || IsSubsequence(a, b[1..])
  }

  /** The catalog keeps the enumeration's order: it is a subsequence of the enumerated paths. */
  lemma {:induction false} MusicFilesInOrder(entries: seq<Entry>, musicExt: seq<string>, lower: string -> string)
    ensures IsSubsequence(MusicFiles(entries, musicExt, lower), RelPaths(entries))
    decreases |entries|
  {
    if |entries| > 0 {
      var files := MusicFiles(entries, musicExt, lower);
      var rest := MusicFiles(entries[1..], musicExt, lower);
      MusicFilesInOrder(entries[1..], musicExt, lower);
      assert RelPaths(entries)[1..] == RelPaths(entries[1..]);
      if Keep(entries[0], musicExt, lower) {
        assert files[1..] == rest;
      } else {
        assert files == rest;
        if |files| > 0 {
          assert IsSubsequence(files, RelPaths(entries)[1..]);
        }
      }
    }
  }

  /** The handler's catalog state: the file list and the time it was scanned. */
  datatype Snapshot = Snapshot(files: seq<string>, scanTime: real)

  /** The catalog is stale when more than `refreshTime` seconds have passed since the scan. */
  predicate Stale(snap: Snapshot, now: real, refreshTime: real) {
    now - snap.scanTime > refreshTime
  }

  /** A stale catalog stays stale while the clock moves forward. */
  lemma StaleMonotone(snap: Snapshot, now: real, later: real, refreshTime: real)
    requires now <= later
    ensures Stale(snap, now, refreshTime) ==> Stale(snap, later, refreshTime)
  {
  }

  /** The refresh step of `handle_music_command`: `now` is the clock reading
      the staleness test uses, `rescanned` the file list a rescan yields, and
      `stamp` the clock reading taken after the rescan. */
  function Refresh(snap: Snapshot, now: real, refreshTime: real, rescanned: seq<string>, stamp: real): (snap': Snapshot)
    ensures Stale(snap, now, refreshTime) ==> snap'.files == rescanned && snap'.scanTime == stamp
    ensures !Stale(snap, now, refreshTime) ==> snap' == snap
  {
    if Stale(snap, now, refreshTime) then Snapshot(rescanned, stamp) else snap
  }

  /** A snapshot that was just refreshed is not stale again at the same
      instant, so two commands at one instant rescan at most once (given a
      non-negative interval and a clock that does not run backwards). */
  lemma RefreshSettles(snap: Snapshot, now: real, refreshTime: real, rescanned: seq<string>, stamp: real, again: seq<string>, stamp2: real)
    requires refreshTime >= 0.0
    requires stamp >= now
    ensures var snap' := Refresh(snap, now, refreshTime, rescanned, stamp);
            Refresh(snap', now, refreshTime, again, stamp2) == snap'
  {
  }
}
