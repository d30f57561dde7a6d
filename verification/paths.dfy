/**
 The two path helpers file_organizer.py relies on, with the semantics of
 Python's `posixpath`: `os.path.splitext` (line 67) and `os.path.join`
 (lines 58, 72, 106, 112). `posixpath`'s own source is not among the
 modelled files; `SplitExt` and `Join` follow its documented behaviour.
 */
module Paths {

  /** `s.rfind(c)`: the last index holding `c`, or -1. */
  function RFind(s: string, c: char): (r: int)
    ensures -1 <= r < |s|
    ensures r >= 0 ==> s[r] == c
    ensures forall k :: r < k < |s| ==> s[k] != c
  {
    if s == [] then -1
    else if s[|s| - 1] == c then |s| - 1
    else RFind(s[..|s| - 1], c)
  }

  /** `filename.startswith('.')` */
  predicate IsHidden(name: string) {
    |name| > 0 && name[0] == '.'
  }

  /** A single directory entry name, as `os.walk` lists it: no `/`. */
  predicate IsEntryName(name: string) {
    '/' !in name
  }

  datatype Parts = Parts(stem: string, ext: string)

  /** Some character in `p[lo..hi]` is not a dot. */
  predicate HasNonDot(p: string, lo: int, hi: int)
    requires 0 <= lo && hi <= |p|
  {
    exists k :: lo <= k < hi && p[k] != '.'
  }

  /** `os.path.splitext(p)`: the extension starts at the last dot of the
      last path component, unless everything before that dot in the
      component is dots (so `.bashrc` and `..` have no extension). */
  function SplitExt(p: string): Parts {
    var sepIndex := RFind(p, '/');
    var dotIndex := RFind(p, '.');
    if dotIndex > sepIndex && HasNonDot(p, sepIndex + 1, dotIndex) then
      Parts(p[..dotIndex], p[dotIndex..])
    else
      Parts(p, [])
  }

  /** The two parts put back together give the path, and the extension is
      empty or a single dot followed by neither a dot nor a `/`. */
  lemma SplitExtParts(p: string)
    ensures var r := SplitExt(p);
      && r.stem + r.ext == p
      && (r.ext == [] || (r.ext[0] == '.' && '.' !in r.ext[1..] && '/' !in r.ext))
  {
    var sepIndex := RFind(p, '/');
    var dotIndex := RFind(p, '.');
    if dotIndex > sepIndex && HasNonDot(p, sepIndex + 1, dotIndex) {
      assert p[..dotIndex] + p[dotIndex..] == p;
    } else {
      assert p + [] == p;
    }
  }

  /** For an entry name that is not hidden this is the familiar rule: the
      extension is empty exactly when the name has no dot, and otherwise it
      is the suffix from the last dot (the shape `SplitExt` guarantees). */
  lemma SplitExtOfVisibleEntry(name: string)
    requires IsEntryName(name) && !IsHidden(name)
    ensures SplitExt(name).ext == [] <==> '.' !in name
    ensures '.' in name ==> SplitExt(name).ext == name[RFind(name, '.')..]
  {
    var dotIndex := RFind(name, '.');
    assert RFind(name, '/') == -1;
    if '.' in name {
      assert dotIndex >= 0;
      assert dotIndex > 0 && name[0] != '.';
      assert HasNonDot(name, 0, dotIndex);
    }
  }

  /** Splitting a non-empty stem with no `.` and no `/`, followed by an
      empty or extension-shaped suffix, gives the two back. */
  lemma SplitExtOfJoin(stem: string, ext: string)
    requires stem != [] && '.' !in stem && '/' !in stem
    requires ext == [] || (ext[0] == '.' && '.' !in ext[1..] && '/' !in ext)
    ensures SplitExt(stem + ext) == Parts(stem, ext)
  {
    var p := stem + ext;
    assert forall k :: 0 <= k < |stem| ==> p[k] == stem[k];
    assert forall k :: |stem| <= k < |p| ==> p[k] == ext[k - |stem|];
    assert '/' !in p;
    assert RFind(p, '/') == -1;
    if ext == [] {
      assert p == stem;
      assert RFind(p, '.') == -1;
    } else {
      assert p[|stem|] == '.';
      assert forall k :: |stem| < k < |p| ==> p[k] == ext[1..][k - |stem| - 1];
      assert RFind(p, '.') == |stem|;
      assert HasNonDot(p, 0, |stem|) by { assert p[0] == stem[0] != '.'; }
      assert p[..|stem|] == stem;
      assert p[|stem|..] == ext;
    }
  }

  /** A name whose only dot leads it has no extension. */
  lemma SplitExtDotfile(name: string)
    requires IsEntryName(name) && IsHidden(name) && '.' !in name[1..]
    ensures SplitExt(name) == Parts(name, [])
  {
    assert forall k :: 0 < k < |name| ==> name[k] == name[1..][k - 1];
    assert RFind(name, '.') == 0;
    assert RFind(name, '/') == -1;
  }

  /** `os.path.join(a, b)` for two components. */
  function Join(a: string, b: string): string {
    if |b| > 0 && b[0] == '/' then b
    else if a == [] || a[|a| - 1] == '/' then a + b
    else a + "/" + b
  }

  /** The joined path ends with `b`; an absolute `b` replaces `a`, and
      otherwise the joined path is `a` followed by `b`, with exactly one `/`
      inserted between them when `a` is non-empty and does not already end
      in one. A directory `a` joined with an entry name `b` splits back at
      its last `/` into `a` and `b`: the destination of a move is the file
      `b` inside `a`. */
  lemma JoinShape(a: string, b: string)
    ensures var r := Join(a, b);
      && |b| <= |r| && r[|r| - |b|..] == b
      && (|b| > 0 && b[0] == '/' ==> r == b)
      && (!(|b| > 0 && b[0] == '/') ==> |a| <= |r| && r[..|a|] == a)
      && (!(|b| > 0 && b[0] == '/') && a != [] && a[|a| - 1] != '/' ==> r == a + ("/" + b))
      && (!(|b| > 0 && b[0] == '/') && (a == [] || a[|a| - 1] == '/') ==> r == a + b)
      && (b != [] && '/' !in b && a != [] && a[|a| - 1] != '/' ==>
            RFind(r, '/') == |a| && r[..RFind(r, '/')] == a && r[RFind(r, '/') + 1..] == b)
  {
    var r := Join(a, b);
    if !(|b| > 0 && b[0] == '/') && a != [] && a[|a| - 1] != '/' {
      assert r == a + ("/" + b);
    }
    if b != [] && '/' !in b && a != [] && a[|a| - 1] != '/' {
      JoinSplitsBack(a, b);
    }
  }

  /** A directory `a` joined with an entry name `b` splits back at its last
      `/` into `a` and `b`. */
  lemma JoinSplitsBack(a: string, b: string)
    requires a != [] && a[|a| - 1] != '/'
    requires b != [] && '/' !in b
    ensures var r := Join(a, b);
      RFind(r, '/') == |a| && r[..|a|] == a && r[|a| + 1..] == b
  {
    var r := Join(a, b);
    assert r == a + "/" + b;
    assert r[|a|] == '/';
    forall k | |a| < k < |r|
      ensures r[k] != '/'
    {
      assert r[k] == b[k - |a| - 1];
    }
  }
}
