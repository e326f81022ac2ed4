/** The POSIX path helpers the launcher and the postprocessing library use:
    `os.path.join` (two arguments), `os.path.basename` and `os.path.splitext`. */
module Paths {

  /** The position of the last `c` in `s`, or -1 (`str.rfind`). */
  function LastIndex(s: string, c: char): (r: int)
    ensures -1 <= r < |s|
    ensures r >= 0 ==> s[r] == c
    ensures forall j :: r < j < |s| ==> s[j] != c
    decreases |s|
  {
    if |s| == 0 then -1
    else if s[|s| - 1] == c then |s| - 1
    else LastIndex(s[..|s| - 1], c)
  }

  lemma AfterLast(s: string, c: char)
    ensures c !in s[LastIndex(s, c) + 1..]
  {
    var i := LastIndex(s, c);
    var t := s[i + 1..];
    forall k | 0 <= k < |t|
      ensures t[k] != c
    {
      assert t[k] == s[i + 1 + k];
    }
  }

  /** `os.path.join(a, b)`: an absolute `b` replaces `a`; otherwise a `/` is
      inserted unless `a` is empty or already ends with one. */
  function PathJoin(a: string, b: string): string
  {
    if |b| > 0 && b[0] == '/' then b
    else if |a| == 0 || a[|a| - 1] == '/' then a + b
    else a + "/" + b
  }

  /** `os.path.basename(p)`: what follows the last `/`. */
  function BaseName(p: string): (b: string)
    ensures '/' !in b
    ensures |b| <= |p| && b == p[|p| - |b|..]
  {
    var i := LastIndex(p, '/');
    AfterLast(p, '/');
    var b := p[i + 1..];
    assert |p| - |b| == i + 1;
    b
  }

  /** `os.path.splitext(p)`: the extension is the part from the last `.` of the
      base name on, unless every character before that dot in the base name is
      itself a dot (a hidden file such as `.bashrc` has no extension). */
  function SplitExt(p: string): (r: (string, string))
    ensures r.0 + r.1 == p
  {
    var sep := LastIndex(p, '/');
    var dot := LastIndex(p, '.');
    if dot > sep && exists i :: sep + 1 <= i < dot && p[i] != '.' then (p[..dot], p[dot..])
    else (p, "")
  }

  /** The extension `SplitExt` splits off is the last one of the base name, and
      it is split off exactly when the base name has a dot preceded by some
      character other than a dot. */
  lemma SplitExtSpec(p: string)
    ensures var ext := SplitExt(p).1;
      && (ext != "" ==> ext[0] == '.' && '.' !in ext[1..] && '/' !in ext)
      && (ext != "" <==> HasExtension(p))
  {
    if SplitExt(p).1 != "" {
      ExtensionShape(p);
      ExtensionFound(p);
    } else {
      NoExtension(p);
    }
  }

  lemma ExtensionShape(p: string)
    requires SplitExt(p).1 != ""
    ensures var ext := SplitExt(p).1;
      ext[0] == '.' && '.' !in ext[1..] && '/' !in ext
  {
    var dot := LastIndex(p, '.');
    var ext := p[dot..];
    assert SplitExt(p).1 == ext;
    forall k | 0 <= k < |ext|
      ensures ext[k] == p[dot + k]
      ensures k > 0 ==> ext[k] != '.'
    {
    }
    var tail := ext[1..];
    forall k | 0 <= k < |tail|
      ensures tail[k] != '.'
    {
      assert tail[k] == ext[k + 1];
    }
  }

  lemma ExtensionFound(p: string)
    requires SplitExt(p).1 != ""
    ensures HasExtension(p)
  {
    var sep := LastIndex(p, '/');
    var dot := LastIndex(p, '.');
    var i :| sep + 1 <= i < dot && p[i] != '.';
    assert DotAfter(p, i, dot);
  }

  /** The base name of `p` has a dot at `j` preceded by a non-dot at `i`. */
  predicate DotAfter(p: string, i: int, j: int)
  {
    LastIndex(p, '/') < i < j < |p| && p[i] != '.' && p[j] == '.'
  }

  ghost predicate HasExtension(p: string)
  {
    exists i, j :: DotAfter(p, i, j)
  }

  lemma NoExtension(p: string)
    requires SplitExt(p).1 == ""
    ensures !HasExtension(p)
  {
  }

  /** The root `SplitExt` leaves of a name without `/` has no `/` either. */
  lemma RootOfPlainName(p: string)
    requires '/' !in p
    ensures '/' !in SplitExt(p).0
  {
    var root := SplitExt(p).0;
    assert root == p[..|root|];
    forall i | 0 <= i < |root|
      ensures root[i] != '/'
    {
      assert root[i] == p[i];
    }
  }

  /** What `os.path.join(dir, name)` puts in front of a relative name. */
  function DirPrefix(dir: string): string
  {
    if |dir| == 0 || dir[|dir| - 1] == '/' then dir else dir + "/"
  }

  /** No `c` from position `k` on puts the last `c` before `k`. */
  lemma LastIndexBefore(s: string, c: char, k: int)
    requires 0 <= k
    requires forall j :: k <= j < |s| ==> s[j] != c
    ensures LastIndex(s, c) < k
  {
    var r := LastIndex(s, c);
    assert r >= 0 ==> s[r] == c;
  }

  lemma JoinAsPrefix(dir: string, name: string)
    requires '/' !in name
    ensures PathJoin(dir, name) == DirPrefix(dir) + name
  {
  }

  /** A name without `/` joined under a folder is the base name of the result. */
  lemma BaseNameOfJoin(dir: string, name: string)
    requires '/' !in name
    ensures BaseName(PathJoin(dir, name)) == name
  {
    var p := PathJoin(dir, name);
    var pre := DirPrefix(dir);
    JoinAsPrefix(dir, name);
    forall j | |pre| <= j < |p|
      ensures p[j] != '/'
    {
      assert p[j] == name[j - |pre|];
    }
    LastIndexBefore(p, '/', |pre|);
    if |pre| > 0 {
      assert p[|pre| - 1] == '/';
    }
    assert LastIndex(p, '/') == |pre| - 1;
    assert p[|pre|..] == name;
  }
}
