/**
 Path strings: `bvfs_parent_dir`, `bvfs_basename_dir` and `split_path_and_file`.

 `ParentDir` and `Basename` are the specification functions on strings; the methods below
 them edit or scan a NUL-terminated buffer the way the C code does. The rest of the module is the
 theory of ancestors that the directory cache rests on.
 */
module PathNames {

  // ----- Characters

  /** The Unix build: only '/' separates path components. */
  predicate IsPathSeparator(c: char) {
    c == '/'
  }

  predicate IsAlpha(c: char) {
    'a' <= c <= 'z' || 'A' <= c <= 'Z'
  }

  /** `c:/`, the root of a Windows drive. */
  predicate IsWindowsRoot(s: string) {
    |s| == 3 && IsAlpha(s[0]) && s[1] == ':' && s[2] == '/'
  }

  // ----- NUL-terminated buffers

  function StrLen(b: seq<char>): (n: nat)
    requires '\0' in b
    ensures n < |b| && b[n] == '\0' && '\0' !in b[..n]
  {
    if b[0] == '\0' then 0 else
      assert b == [b[0]] + b[1..];
      var n := 1 + StrLen(b[1..]);
      assert b[..n] == [b[0]] + b[1..][..n - 1];
      n
  }

  /** The string a buffer holds: everything before its first NUL. */
  function Text(b: seq<char>): (s: string)
    requires '\0' in b
    ensures '\0' !in s && |s| < |b| && b[..|s|] == s && b[|s|] == '\0'
  {
    b[..StrLen(b)]
  }

  lemma {:induction false} TextIs(b: seq<char>, n: nat)
    requires n < |b| && b[n] == '\0' && '\0' !in b[..n]
    ensures '\0' in b && Text(b) == b[..n]
  {
    assert b[n] in b;
    var m := StrLen(b);
    forall k | 0 <= k < n ensures b[k] != '\0' { assert b[..n][k] == b[k]; }
    forall k | 0 <= k < m ensures b[k] != '\0' { assert b[..m][k] == b[k]; }
  }

  // ----- Parent directory

  function DropTrailingSlash(s: string): string {
    if |s| > 0 && s[|s| - 1] == '/' then s[..|s| - 1] else s
  }

  /** The longest prefix ending in a separator; the first character when there is none. */
  function UpToLastSlash(s: string): (r: string)
    requires s != ""
    ensures r != "" && r <= s
  {
    if |s| == 1 || IsPathSeparator(s[|s| - 1]) then s else UpToLastSlash(s[..|s| - 1])
  }

  function ParentDir(s: string): (r: string)
    ensures r <= s
  {
    if IsWindowsRoot(s) then ""
    else if |s| <= 1 then DropTrailingSlash(s)
    else UpToLastSlash(DropTrailingSlash(s))
  }

  lemma {:induction false} UpToLastSlashAt(s: string, i: nat)
    requires i < |s|
    requires i == 0 || IsPathSeparator(s[i])
    requires forall k :: i < k < |s| ==> !IsPathSeparator(s[k])
    ensures UpToLastSlash(s) == s[..i + 1]
  {
    if |s| == 1 || IsPathSeparator(s[|s| - 1]) {
      assert s[..i + 1] == s;
    } else if i == |s| - 1 {
    } else {
      UpToLastSlashAt(s[..|s| - 1], i);
      assert s[..|s| - 1][..i + 1] == s[..i + 1];
    }
  }

  /** Ends the string at n. */
  method Truncate(path: array<char>, n: nat)
    requires '\0' in path[..] && n <= |Text(path[..])|
    modifies path
    ensures '\0' in path[..] && Text(path[..]) == old(Text(path[..]))[..n]
  {
    ghost var s := Text(path[..]);
    path[n] := '\0';
    assert path[..][..n] == s[..n];
    TextIs(path[..], n);
  }

  /** The backward scan: where the last separator is, or 0. */
  method ScanBack(path: array<char>, len: nat) returns (p: nat)
    requires '\0' in path[..] && 0 < |Text(path[..])| <= len + 1 && len <= |Text(path[..])|
    ensures p < |Text(path[..])| && UpToLastSlash(Text(path[..])) == Text(path[..])[..p + 1]
  {
    ghost var t := Text(path[..]);
    p := len;
    while p > 0 && !IsPathSeparator(path[p])
      invariant p <= len
      invariant forall k :: p < k < |t| ==> !IsPathSeparator(t[k])
    {
      p := p - 1;
    }
    UpToLastSlashAt(t, p);
  }

  /** `bvfs_parent_dir`: truncates the string in its own buffer. */
  method ParentDirInPlace(path: array<char>)
    requires '\0' in path[..]
    modifies path
    ensures '\0' in path[..] && Text(path[..]) == ParentDir(old(Text(path[..])))
  {
    ghost var s := Text(path[..]);
    var len := StrLen(path[..]) - 1;
    if len == 2 && IsAlpha(path[0]) && path[1] == ':' && path[2] == '/' {
      len := 0;
      Truncate(path, 0);
    }
    if len >= 0 && path[len] == '/' {
      Truncate(path, len);
    }
    if len > 0 {
      assert Text(path[..]) == DropTrailingSlash(s);
      var p := ScanBack(path, len);
      Truncate(path, p + 1);
    }
  }

  /** The parent is strictly shorter except for a lone character other than '/', its own parent. */
  lemma {:induction false} ParentDirShorter(s: string)
    ensures ParentDir(s) == s <==> s == "" || (|s| == 1 && s != "/")
    ensures ParentDir(s) != s ==> |ParentDir(s)| < |s|
  {
    if |s| > 1 && !IsWindowsRoot(s) {
      var t := DropTrailingSlash(s);
      if t == s {
        assert UpToLastSlash(s) == UpToLastSlash(s[..|s| - 1]);
      }
    }
  }

  // ----- Base name

  /** Where the base name starts. */
  function BasenameStart(s: string): (r: nat)
    requires s != ""
    ensures r <= |s|
  {
    var t := DropTrailingSlash(s);
    if |t| <= 1 then 0
    else
      var d := UpToLastSlash(t);
      if IsPathSeparator(d[|d| - 1]) then |d| else 0
  }

  function Basename(s: string): string
    requires s != ""
  {
    s[BasenameStart(s)..]
  }

  /** The base name is the last component, with its separator if the path ends in one; but `//` is left whole. */
  lemma {:induction false} BasenameIsLastComponent(s: string, p: nat)
    requires s != "" && s != "//"
    ensures p == BasenameStart(s) <==>
            p < |s| && (p == 0 || s[p - 1] == '/') && forall k :: p <= k < |s| - 1 ==> s[k] != '/'
  {
    var t := DropTrailingSlash(s);
    if |t| > 1 {
      var d := UpToLastSlash(t);
      LastSlashIn(t);
      if IsPathSeparator(d[|d| - 1]) {
        assert t[|d| - 1] == '/';
      }
      forall k | |d| <= k < |t| ensures !IsPathSeparator(t[k]) {
        NoSlashAfter(t, k);
      }
    }
  }

  /** `bvfs_basename_dir`: returns a pointer into the string, here an index. */
  method BasenameDir(path: string) returns (p: nat)
    requires path != ""
    ensures p == BasenameStart(path)
  {
    var len := |path| - 1;
    if path[len] == '/' {
      len := len - 1;
    }
    p := 0;
    if len > 0 {
      ghost var t := DropTrailingSlash(path);
      p := len;
      while p > 0 && !IsPathSeparator(path[p])
        invariant 0 <= p <= len
        invariant forall k :: p < k < |t| ==> !IsPathSeparator(t[k])
      {
        p := p - 1;
      }
      UpToLastSlashAt(t, p);
      if path[p] == '/' {
        p := p + 1;
      }
    }
  }

  /** Parent and base name cut a path in two exactly when it is a root or keeps a separator. */
  lemma {:induction false} ParentPlusBasename(s: string)
    requires s != ""
    ensures ParentDir(s) + Basename(s) == s <==>
            s == "/" || (|s| == 3 && ('a' <= s[0] <= 'z' || 'A' <= s[0] <= 'Z') && s[1] == ':' && s[2] == '/') ||
            (|DropTrailingSlash(s)| >= 2 && '/' in DropTrailingSlash(s))
  {
    var t := DropTrailingSlash(s);
    if |t| >= 2 && !IsWindowsRoot(s) {
      LastSlashIn(t);
      var d := UpToLastSlash(t);
      assert d <= s;
      if IsPathSeparator(d[|d| - 1]) {
        assert d + s[|d|..] == s;
      }
    }
    if IsWindowsRoot(s) {
      assert UpToLastSlash(t) == t[..1] by { UpToLastSlashAt(t, 0); }
    }
  }

  lemma {:induction false} LastSlashIn(s: string)
    requires s != ""
    ensures var d := UpToLastSlash(s); IsPathSeparator(d[|d| - 1]) <==> '/' in s
  {
    if |s| > 1 && !IsPathSeparator(s[|s| - 1]) {
      LastSlashIn(s[..|s| - 1]);
      assert s == s[..|s| - 1] + [s[|s| - 1]];
    }
  }

  // ----- Path and file parts of a full name

  /** `split_path_and_file`: the path keeps its last separator; without one all of it is path. */
  method SplitPathAndFile(afname: string) returns (path: string, fname: string)
    ensures path + fname == afname
    ensures '/' in afname ==> path != "" && path[|path| - 1] == '/' && '/' !in fname
    ensures '/' !in afname ==> fname == ""
    ensures path == PathPart(afname) && fname == FilePart(afname)
  {
    var p, f := 0, 0;
    while p < |afname|
      invariant 0 <= f <= p <= |afname|
      invariant f < |afname|  || f == 0
      invariant '/' in afname[..p] ==> f < p && IsPathSeparator(afname[f])
      invariant forall k :: f < k < p ==> !IsPathSeparator(afname[k])
      invariant f > 0 ==> IsPathSeparator(afname[f])
    {
      if IsPathSeparator(afname[p]) {
        f := p;
      }
      p := p + 1;
    }
    assert afname[..p] == afname;
    if f < |afname| && IsPathSeparator(afname[f]) {
      f := f + 1;
      UpToLastSlashAt(afname, f - 1);
    } else {
      f := p;
    }
    fname := if p - f > 0 then afname[f..p] else "";
    path := if f > 0 then afname[..f] else "";
  }

  function PathPart(s: string): string {
    if '/' in s then UpToLastSlash(s) else s
  }

  function FilePart(s: string): string {
    s[|PathPart(s)|..]
  }

  // ----- Ancestors

  /** A directory and everything reached from it by taking parents. */
  function Ancestors(s: string): (r: set<string>)
    ensures s in r
    decreases |s|
  {
    ParentDirShorter(s);
    if ParentDir(s) == s then {s} else {s} + Ancestors(ParentDir(s))
  }

  lemma {:induction false} AncestorsClosed(s: string, a: string)
    requires a in Ancestors(s)
    ensures ParentDir(a) in Ancestors(s)
    ensures a <= s
    decreases |s|
  {
    ParentDirShorter(s);
    if a != s {
      AncestorsClosed(ParentDir(s), a);
    }
  }

  lemma {:induction false} AncestorsTransitive(s: string, a: string, b: string)
    requires a in Ancestors(s) && b in Ancestors(a)
    ensures b in Ancestors(s)
    decreases |s|
  {
    ParentDirShorter(s);
    if a != s {
      AncestorsTransitive(ParentDir(s), a, b);
    }
  }

  /** An ancestor other than the directory itself is reached through one of its children. */
  lemma {:induction false} AncestorsStep(s: string, a: string)
    requires a in Ancestors(s) && a != s
    ensures exists c :: c in Ancestors(s) && c != a && ParentDir(c) == a
    decreases |s|
  {
    ParentDirShorter(s);
    if ParentDir(s) != a {
      AncestorsStep(ParentDir(s), a);
      var c :| c in Ancestors(ParentDir(s)) && c != a && ParentDir(c) == a;
      assert c in Ancestors(s);
    }
  }

  /** Ancestors of one directory form a chain: the shorter is an ancestor of the longer. */
  lemma {:induction false} AncestorsChain(s: string, a: string, b: string)
    requires a in Ancestors(s) && b in Ancestors(s)
    requires |b| <= |a|
    ensures b in Ancestors(a)
    decreases |s|
  {
    ParentDirShorter(s);
    if a != s {
      AncestorsClosed(ParentDir(s), a);
      AncestorsChain(ParentDir(s), a, b);
    }
  }

  predicate IsRooted(s: string) {
    s == "" || s[0] == '/' || (|s| >= 3 && ('a' <= s[0] <= 'z' || 'A' <= s[0] <= 'Z') && s[1] == ':' && s[2] == '/')
  }

  /** Walking up ends in the empty root exactly for rooted paths. */
  lemma {:induction false} ReachesRootIffRooted(s: string)
    ensures "" in Ancestors(s) <==> IsRooted(s)
    decreases |s|
  {
    ParentDirShorter(s);
    var p := ParentDir(s);
    if p != s {
      ReachesRootIffRooted(p);
      if IsWindowsRoot(s) {
        assert s[..3] == s;
      } else if |s| > 1 {
        assert p == UpToLastSlash(DropTrailingSlash(s)) && p[0] == s[0];
        if |s| >= 3 && IsWindowsRoot(s[..3]) {
          KeepsDriveRoot(DropTrailingSlash(s));
        }
        if |p| >= 3 {
          assert p[..3] == s[..3];
        }
      }
    }
  }

  lemma {:induction false} KeepsDriveRoot(t: string)
    requires |t| >= 3 && IsWindowsRoot(t[..3])
    ensures |UpToLastSlash(t)| >= 3
  {
    if |t| > 3 && !IsPathSeparator(t[|t| - 1]) {
      assert t[..|t| - 1][..3] == t[..3];
      KeepsDriveRoot(t[..|t| - 1]);
    }
  }

  /** `/a/b/` or `c:/a/`: rooted, and ends in a separator. */
  predicate IsRootedDir(s: string) {
    s != "" && s[|s| - 1] == '/' && IsRooted(s)
  }

  predicate IsDirPrefix(q: string, s: string) {
    q <= s && (q == "" || q[|q| - 1] == '/')
  }

  /** On rooted directories the parent is the longest proper directory prefix. */
  lemma {:induction false} ParentIsLongestDirPrefix(s: string, q: string)
    requires IsRootedDir(s)
    ensures IsDirPrefix(ParentDir(s), s) && ParentDir(s) != s
    ensures ParentDir(s) == "" || IsRootedDir(ParentDir(s))
    ensures IsDirPrefix(q, s) && q != s ==> |q| <= |ParentDir(s)|
  {
    ParentDirShorter(s);
    if |s| > 1 && !IsWindowsRoot(s) {
      var t := DropTrailingSlash(s);
      LastSlashIn(t);
      var d := UpToLastSlash(t);
      if s[0] == '/' {
        assert t[0] == '/';
      } else {
        assert t[2] == s[..3][2] == '/';
        KeepsDriveRoot(t) by { assert t[..3] == s[..3]; }
        assert d[..3] == s[..3];
      }
      assert '/' in t;
      assert d[|d| - 1] == '/';
      if IsDirPrefix(q, s) && q != s && |q| > |d| {
        NoSlashAfter(t, |q| - 1);
      }
    } else if IsWindowsRoot(s) {
      assert s[0] != '/' && s[1] != '/';
    }
  }

  lemma {:induction false} NoSlashAfter(s: string, k: nat)
    requires s != "" && |UpToLastSlash(s)| <= k < |s|
    ensures !IsPathSeparator(s[k])
  {
    if k < |s| - 1 {
      NoSlashAfter(s[..|s| - 1], k);
    }
  }

  /** A proper directory prefix is one of the parent. */
  lemma {:induction false} PrefixOfParent(s: string, q: string)
    requires IsRootedDir(s) && q != s
    ensures IsDirPrefix(q, s) <==> IsDirPrefix(q, ParentDir(s))
    ensures |ParentDir(s)| < |s| && (ParentDir(s) == "" || IsRootedDir(ParentDir(s)))
  {
    ParentIsLongestDirPrefix(s, q);
    if IsDirPrefix(q, s) {
      assert q == s[..|q|] && ParentDir(s) == s[..|ParentDir(s)|];
    }
  }

  lemma {:induction false} AncestorsUnfold(s: string)
    requires ParentDir(s) != s
    ensures Ancestors(s) == {s} + Ancestors(ParentDir(s))
  {
  }

  /** On rooted directories "ancestor" means "directory prefix", so a prefix scan finds a subtree. */
  lemma {:induction false} AncestorIffDirPrefix(s: string, q: string)
    requires IsRootedDir(s)
    ensures q in Ancestors(s) <==> IsDirPrefix(q, s)
    decreases |s|
  {
    if q != s {
      PrefixOfParent(s, q);
      AncestorsUnfold(s);
      if ParentDir(s) == "" {
        assert Ancestors("") == {""};
      } else {
        AncestorIffDirPrefix(ParentDir(s), q);
      }
    }
  }
}
