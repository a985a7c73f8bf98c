/**
 The LIKE pattern that `compute_restore_list` builds for a directory, and what it matches under
 LIKE ... ESCAPE (section 8.5 of ISO/IEC 9075-2).
 */
module LikePattern {
  import opened PathNames

  /** The escape character of the query. */
  const ESCAPE := '\\'

  predicate IsSpecial(c: char) {
    c == '%' || c == '_' || c == '\\'
  }

  /** LIKE with an escape character: '%' stands for any string, '_' for any character. */
  ghost predicate Like(pattern: string, s: string)
    decreases |pattern|
  {
    if pattern == "" then s == ""
    else if pattern[0] == ESCAPE then
      |pattern| >= 2 && s != "" && s[0] == pattern[1] && Like(pattern[2..], s[1..])
    else if pattern[0] == '%' then exists k :: 0 <= k <= |s| && Like(pattern[1..], s[k..])
    else s != "" && (pattern[0] == '_' || pattern[0] == s[0]) && Like(pattern[1..], s[1..])
  }

  /** A directory with its special characters escaped. */
  function Escaped(dir: string): (r: string)
    ensures |dir| <= |r| <= 2 * |dir|
  {
    if dir == "" then "" else
      var (front, c) := (dir[..|dir| - 1], dir[|dir| - 1]);
      Escaped(front) + EscapedChar(c)
  }

  function PatternOf(dir: string): string {
    Escaped(dir) + "%"
  }

  lemma {:induction false} EscapedStep(dir: string, n: nat)
    requires n < |dir|
    ensures Escaped(dir[..n + 1]) == Escaped(dir[..n]) + EscapedChar(dir[n])
  {
    assert dir[..n + 1][..n] == dir[..n];
  }

  /** The loop body: one character, escaped if it is special. */
  method PutEscaped(tmp: array<char>, p: nat, c: char) returns (next: nat)
    requires p + 2 <= tmp.Length
    modifies tmp
    ensures next == p + |EscapedChar(c)| && tmp[..next] == old(tmp[..p]) + EscapedChar(c)
  {
    next := p;
    if c == '%' || c == '_' || c == '\\' {
      tmp[next] := '\\';
      next := next + 1;
    }
    tmp[next] := c;
    next := next + 1;
  }

  /** The copy loop of `compute_restore_list`; the buffer holds twice the length, and a NUL. */
  method BuildPattern(tmp2: string, tmp: array<char>) returns (pattern: string)
    requires tmp.Length >= (|tmp2| + 1) * 2
    modifies tmp
    ensures pattern == PatternOf(tmp2)
  {
    var p := 0;
    for s := 0 to |tmp2|
      invariant 0 <= p <= 2 * s && tmp[..p] == Escaped(tmp2[..s])
    {
      EscapedStep(tmp2, s);
      p := PutEscaped(tmp, p, tmp2[s]);
    }
    assert tmp2[..|tmp2|] == tmp2;
    tmp[p] := '\0';
    pattern := tmp[..p] + "%";
  }

  function EscapedChar(c: char): string {
    if IsSpecial(c) then [ESCAPE, c] else [c]
  }

  lemma {:induction false} EscapedFront(c: char, dir: string)
    ensures Escaped([c] + dir) == EscapedChar(c) + Escaped(dir)
    decreases |dir|
  {
    if dir == "" {
      assert ([c] + dir)[..0] == "";
    } else {
      var (front, last) := (dir[..|dir| - 1], dir[|dir| - 1]);
      EscapedFront(c, front);
      var (whole, e, f, l) := ([c] + dir, EscapedChar(c), Escaped(front), EscapedChar(last));
      assert whole[..|dir|] == [c] + front && whole[|dir|] == last;
      assert Escaped(whole) == (e + f) + l;
      assert (e + f) + l == e + (f + l);
    }
  }

  lemma {:induction false} PercentMatchesAll(s: string)
    ensures Like("%", s)
  {
    assert "%"[1..] == "" && s[|s|..] == "";
    assert Like("%"[1..], s[|s|..]);
  }

  /** The pattern matches exactly the strings that begin with the directory. */
  lemma {:induction false} PatternMatchesPrefix(dir: string, s: string)
    ensures Like(PatternOf(dir), s) <==> dir <= s
    decreases |dir|
  {
    if dir == "" {
      assert PatternOf(dir) == "%";
      PercentMatchesAll(s);
    } else {
      var (c, rest) := (dir[0], dir[1..]);
      assert dir == [c] + rest;
      EscapedFront(c, rest);
      var lead := EscapedChar(c);
      assert PatternOf(dir) == lead + PatternOf(rest);
      assert (lead + PatternOf(rest))[|lead|..] == PatternOf(rest);
      if s != "" {
        PatternMatchesPrefix(rest, s[1..]);
        assert dir <= s <==> c == s[0] && rest <= s[1..];
      }
    }
  }

  /** Among rooted directories the pattern selects the subtree of the directory. */
  lemma {:induction false} PatternSelectsSubtree(dir: string, s: string)
    requires IsRootedDir(dir) && IsRootedDir(s)
    ensures Like(PatternOf(dir), s) <==> dir in Ancestors(s)
  {
    PatternMatchesPrefix(dir, s);
    AncestorIffDirPrefix(s, dir);
  }
}
