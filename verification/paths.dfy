/**
 The two `os.path` operations the handler applies to catalog entries:
 `splitext`, which gives the base name a hint is scored against, and
 `join`, which builds the path handed to the decoder. Both follow the
 POSIX flavour (`posixpath`), where the separator is '/'.
 */
module Paths {
  import opened Text

  /** Index of the last `c` in `s`, or -1 when there is none (Python's `s.rfind(c)`). */
  function RFind(s: string, c: char): (r: int)
    ensures -1 <= r < |s|
    ensures r >= 0 ==> s[r] == c
    ensures forall j :: r < j < |s| ==> s[j] != c
    decreases |s|
  {
    if |s| == 0 then -1
    else if s[|s| - 1] == c then |s| - 1
    else RFind(s[..|s| - 1], c)
  }

  /** `os.path.splitext(p)`: the root and the extension. The extension starts
      at the last '.' of the last path component, unless everything before
      that dot in the component is dots too (a hidden file such as ".bashrc"
      has no extension). */
  function SplitExt(p: string): (r: (string, string))
    ensures r.0 + r.1 == p
    ensures r.1 != "" ==> r.1[0] == '.' && forall j :: 1 <= j < |r.1| ==> r.1[j] != '.' && r.1[j] != '/'
    ensures r.1 != "" ==> r.1[0] != '/' && exists j :: 0 <= j < |r.0| && r.0[j] != '.' && forall m :: j <= m < |r.0| ==> r.0[m] != '/'
    ensures r.1 == "" ==> forall d, j :: RFind(p, '/') < j < d < |p| && p[d] == '.' ==> p[j] == '.'
  {
    var sepIndex := RFind(p, '/');
    var dotIndex := RFind(p, '.');
    if dotIndex > sepIndex && exists j :: sepIndex < j < dotIndex && p[j] != '.' then
      (p[..dotIndex], p[dotIndex..])
    else
      (p, "")
  }

  /** The base name a catalog entry is scored by: its path without the extension. */
  function BaseName(p: string): string {
    SplitExt(p).0
  }

  /** `os.path.join(a, b)`: an absolute `b` replaces `a`; otherwise the two are
      joined with a '/' unless `a` is empty or already ends with one. */
  function Join(a: string, b: string): (r: string)
    ensures EndsWith(r, b)
    ensures |b| > 0 && b[0] == '/' ==> r == b
    ensures (|b| == 0 || b[0] != '/') ==> r[..|r| - |b|] == a || r[..|r| - |b|] == a + "/"
    ensures (|b| == 0 || b[0] != '/') ==> (r[..|r| - |b|] == a + "/" <==> |a| > 0 && a[|a| - 1] != '/')
  {
    if |b| > 0 && b[0] == '/' then b
    else if |a| == 0 || a[|a| - 1] == '/' then a + b
    else a + "/" + b
  }

  /** When `a` is not dropped, a '/' sits just before `b` in the joined path. */
  lemma JoinSlashBefore(a: string, b: string)
    requires Join(a, b) != b
    ensures |Join(a, b)| > |b|
    ensures Join(a, b)[|Join(a, b)| - |b| - 1] == '/'
    ensures Join(a, b)[|Join(a, b)| - |b|..] == b
  {
  }

  /** Joining a directory in front of a path does not change which
      slash-free suffixes the path ends with. */
  lemma EndsWithJoin(a: string, b: string, x: string)
    requires forall i :: 0 <= i < |x| ==> x[i] != '/'
    ensures EndsWith(Join(a, b), x) <==> EndsWith(b, x)
  {
    var r := Join(a, b);
    if r != b {
      JoinSlashBefore(a, b);
      // A suffix `x` longer than `b` would contain that '/'.
      if |x| <= |b| {
        assert r[|r| - |x|..] == b[|b| - |x|..];
      }
    }
  }

  /** The ".p3" test gives the same answer on a joined path as on the joined file name. */
  lemma JoinKeepsP3(a: string, b: string)
    ensures EndsWith(Join(a, b), ".p3") <==> EndsWith(b, ".p3")
  {
    var x := ".p3";
    assert forall i :: 0 <= i < |x| ==> x[i] != '/';
    EndsWithJoin(a, b, x);
  }
}
