/**
 When the intervals of `add_findex` can come to overlap. A false gap is a place where one interval ends
 and the next starts right after it. Which side of it an index joins depends on the shape of the tree,
 so an index added again beside a false gap may stretch one interval into the other. The module proves
 this condition exact, first for one step and then, in terms of the stream alone, for whole runs.
 */
module FalseGaps {
  import opened FileIndexTree

  predicate EndsAt(s: seq<Interval>, x: int) {
    exists i :: 0 <= i < |s| && s[i].hi == x
  }

  predicate StartsAt(s: seq<Interval>, x: int) {
    exists i :: 0 <= i < |s| && s[i].lo == x
  }

  /** One interval ends at x and another starts right after. */
  predicate FalseGap(s: seq<Interval>, x: int) {
    EndsAt(s, x) && StartsAt(s, x + 1)
  }

  /** f is on one side of a false gap. */
  predicate AtFalseGap(s: seq<Interval>, f: int) {
    FalseGap(s, f) || FalseGap(s, f - 1)
  }

  /** One interval holds both x and the index after it. */
  predicate Spans(s: seq<Interval>, x: int) {
    exists i :: 0 <= i < |s| && s[i].lo <= x && x + 1 <= s[i].hi
  }

  // ----- The node of a tree and what lies on either side

  lemma {:induction false} EndsConcat(a: seq<Interval>, n: Interval, b: seq<Interval>, x: int)
    ensures EndsAt(a + [n] + b, x) <==> EndsAt(a, x) || n.hi == x || EndsAt(b, x)
  {
    var s := a + [n] + b;
    assert s[|a|] == n;
    assert forall i :: |a| < i < |s| ==> s[i] == b[i - |a| - 1];
    if i :| 0 <= i < |a| && a[i].hi == x {
      assert s[i].hi == x;
    }
    if i :| 0 <= i < |b| && b[i].hi == x {
      assert s[|a| + 1 + i].hi == x;
    }
  }

  lemma {:induction false} StartsConcat(a: seq<Interval>, n: Interval, b: seq<Interval>, x: int)
    ensures StartsAt(a + [n] + b, x) <==> StartsAt(a, x) || n.lo == x || StartsAt(b, x)
  {
    var s := a + [n] + b;
    assert s[|a|] == n;
    assert forall i :: |a| < i < |s| ==> s[i] == b[i - |a| - 1];
    if i :| 0 <= i < |a| && a[i].lo == x {
      assert s[i].lo == x;
    }
    if i :| 0 <= i < |b| && b[i].lo == x {
      assert s[|a| + 1 + i].lo == x;
    }
  }

  lemma {:induction false} SpansConcat(a: seq<Interval>, n: Interval, b: seq<Interval>, x: int)
    ensures Spans(a + [n] + b, x) <==> Spans(a, x) || (n.lo <= x && x + 1 <= n.hi) || Spans(b, x)
  {
    var s := a + [n] + b;
    assert s[|a|] == n;
    assert forall i :: |a| < i < |s| ==> s[i] == b[i - |a| - 1];
    if i :| 0 <= i < |a| && a[i].lo <= x && x + 1 <= a[i].hi {
      assert s[i] == a[i];
    }
    if i :| 0 <= i < |b| && b[i].lo <= x && x + 1 <= b[i].hi {
      assert s[|a| + 1 + i] == b[i];
    }
  }

  /** Left of a node everything is smaller, right of it greater. */
  lemma {:induction false} Sides(a: seq<Interval>, n: Interval, b: seq<Interval>, x: int)
    requires Increasing(a + [n] + b)
    ensures Increasing(a) && n.lo <= n.hi && Increasing(b)
    ensures EndsAt(a, x) || StartsAt(a, x) || Covers(a, x) ==> x < n.lo
    ensures EndsAt(b, x) || StartsAt(b, x) || Covers(b, x) ==> n.hi < x
  {
    IncreasingParts(a, n, b);
  }

  // ----- One step

  /** An index covered already, and at no false gap, changes nothing. */
  lemma {:induction false} CoveredIsKept(t: Tree<Interval>, f: int)
    requires Increasing(InOrder(t)) && Covers(InOrder(t), f) && !AtFalseGap(InOrder(t), f)
    ensures AddIndex(t, f) == t
  {
    if t.Node? {
      var (l, n, r) := (InOrder(t.left), t.item, InOrder(t.right));
      Sides(l, n, r, f);
      CoversConcat(l, n, r, f);
      GapsOfParts(l, n, r, f);
      if f < n.lo {
        if f == n.lo - 1 {
          LastCovered(l, n, r, f);
        }
        CoveredIsKept(t.left, f);
      } else if n.hi < f {
        if f == n.hi + 1 {
          FirstCovered(l, n, r, f);
        }
        CoveredIsKept(t.right, f);
      }
    }
  }

  lemma {:induction false} GapsOfParts(l: seq<Interval>, n: Interval, r: seq<Interval>, f: int)
    ensures AtFalseGap(l, f) || AtFalseGap(r, f) ==> AtFalseGap(l + [n] + r, f)
  {
    EndsConcat(l, n, r, f);
    EndsConcat(l, n, r, f - 1);
    StartsConcat(l, n, r, f);
    StartsConcat(l, n, r, f + 1);
  }

  /** If the index just before a node is covered, there is a false gap between. */
  lemma {:induction false} LastCovered(l: seq<Interval>, n: Interval, r: seq<Interval>, f: int)
    requires Increasing(l + [n] + r) && Covers(l, f) && f == n.lo - 1
    ensures FalseGap(l + [n] + r, f)
  {
    IncreasingParts(l, n, r);
    var i :| 0 <= i < |l| && l[i].lo <= f <= l[i].hi;
    assert l[i].hi == f;
    EndsConcat(l, n, r, f);
    StartsConcat(l, n, r, f + 1);
  }

  lemma {:induction false} FirstCovered(l: seq<Interval>, n: Interval, r: seq<Interval>, f: int)
    requires Increasing(l + [n] + r) && Covers(r, f) && f == n.hi + 1
    ensures FalseGap(l + [n] + r, f - 1)
  {
    IncreasingParts(l, n, r);
    var i :| 0 <= i < |r| && r[i].lo <= f <= r[i].hi;
    assert r[i].lo == f;
    EndsConcat(l, n, r, f - 1);
    StartsConcat(l, n, r, f);
  }

  /** A tree without left branches. */
  function Spine(s: seq<Interval>): (t: Tree<Interval>)
    ensures InOrder(t) == s
  {
    if s == [] then Leaf else
      assert s == [] + [s[0]] + s[1..];
      Node(Leaf, s[0], Spine(s[1..]))
  }

  /** In some shape the interval at k is on top, and takes the index if it compares equal. */
  lemma {:induction false} RootIsExtended(s: seq<Interval>, k: nat, f: int) returns (t: Tree<Interval>)
    requires k < |s| && Compare(Interval(f, f), s[k]) == 0
    ensures InOrder(t) == s && InOrder(AddIndex(t, f)) == s[k := Extended(f, s[k])]
  {
    t := Node(Spine(s[..k]), s[k], Spine(s[k + 1..]));
    assert s == s[..k] + [s[k]] + s[k + 1..];
    assert s[..k] + [Extended(f, s[k])] + s[k + 1..] == s[k := Extended(f, s[k])];
  }

  /** Stretching one of two neighbours without room between makes them overlap. */
  lemma {:induction false} StretchOverlaps(s: seq<Interval>, i: nat, k: nat, x: int)
    requires i < k < |s| && s[i].hi == x && s[k].lo == x + 1
    ensures !Increasing(s[k := Interval(x, s[k].hi)]) && !Increasing(s[i := Interval(s[i].lo, x + 1)])
  {
    var (u, v) := (s[k := Interval(x, s[k].hi)], s[i := Interval(s[i].lo, x + 1)]);
    assert u[i].hi >= u[k].lo && v[i].hi >= v[k].lo;
  }

  /** At a false gap some shape makes two intervals overlap. */
  lemma {:induction false} GapBreaks(s: seq<Interval>, f: int) returns (t: Tree<Interval>)
    requires Increasing(s) && AtFalseGap(s, f)
    ensures InOrder(t) == s && !Increasing(InOrder(AddIndex(t, f)))
  {
    var x := if FalseGap(s, f) then f else f - 1;
    var i :| 0 <= i < |s| && s[i].hi == x;
    var k :| 0 <= k < |s| && s[k].lo == x + 1;
    assert s[i].lo <= s[i].hi && s[k].lo <= s[k].hi && i < k;
    StretchOverlaps(s, i, k, x);
    var top := if f == x then k else i;
    t := RootIsExtended(s, top, f);
  }

  /** One more index keeps the intervals apart in every shape exactly when it is at no false gap. */
  lemma {:induction false} StepKeepsIncreasingIff(s: seq<Interval>, f: int)
    requires Increasing(s)
    ensures (forall t :: InOrder(t) == s ==> Increasing(InOrder(AddIndex(t, f)))) <==> !AtFalseGap(s, f)
  {
    if AtFalseGap(s, f) {
      var t := GapBreaks(s, f);
    } else {
      forall t | InOrder(t) == s ensures Increasing(InOrder(AddIndex(t, f))) {
        if Covers(s, f) {
          CoveredIsKept(t, f);
        } else {
          AddKeepsIncreasing(t, f);
        }
      }
    }
  }

  // ----- What a step does to ends, starts and overlaps

  /** Only the new index becomes an end or a start. */
  lemma {:induction false} NewEnds(t: Tree<Interval>, f: int, x: int)
    requires x != f
    ensures EndsAt(InOrder(AddIndex(t, f)), x) ==> EndsAt(InOrder(t), x)
    ensures StartsAt(InOrder(AddIndex(t, f)), x) ==> StartsAt(InOrder(t), x)
  {
    var u := AddIndex(t, f);
    EndsConcat(InOrder(u.left), u.item, InOrder(u.right), x);
    StartsConcat(InOrder(u.left), u.item, InOrder(u.right), x);
    if t.Node? {
      EndsConcat(InOrder(t.left), t.item, InOrder(t.right), x);
      StartsConcat(InOrder(t.left), t.item, InOrder(t.right), x);
      NewEnds(t.left, f, x);
      NewEnds(t.right, f, x);
    }
  }

  /** An end or a start moves only when the new index joins it; then one interval spans the place. */
  lemma {:induction false} OldEnds(t: Tree<Interval>, f: int, x: int)
    requires Proper(InOrder(t))
    ensures EndsAt(InOrder(t), x) ==> EndsAt(InOrder(AddIndex(t, f)), x) || (f == x + 1 && Spans(InOrder(AddIndex(t, f)), x))
    ensures StartsAt(InOrder(t), x + 1) ==> StartsAt(InOrder(AddIndex(t, f)), x + 1) || (f == x && Spans(InOrder(AddIndex(t, f)), x))
  {
    if t.Node? {
      var u := AddIndex(t, f);
      ProperConcat(InOrder(t.left), t.item, InOrder(t.right));
      EndsConcat(InOrder(t.left), t.item, InOrder(t.right), x);
      StartsConcat(InOrder(t.left), t.item, InOrder(t.right), x + 1);
      EndsConcat(InOrder(u.left), u.item, InOrder(u.right), x);
      StartsConcat(InOrder(u.left), u.item, InOrder(u.right), x + 1);
      SpansConcat(InOrder(u.left), u.item, InOrder(u.right), x);
      OldEnds(t.left, f, x);
      OldEnds(t.right, f, x);
    }
  }

  /** While the intervals stay apart a false gap stays. */
  lemma {:induction false} GapStays(t: Tree<Interval>, f: int, x: int)
    requires Increasing(InOrder(t)) && FalseGap(InOrder(t), x) && Increasing(InOrder(AddIndex(t, f)))
    ensures FalseGap(InOrder(AddIndex(t, f)), x)
  {
    OldEnds(t, f, x);
    if Spans(InOrder(AddIndex(t, f)), x) {
      SpannedAlone(InOrder(AddIndex(t, f)), x);
    }
  }

  lemma {:induction false} SpannedAlone(s: seq<Interval>, x: int)
    requires Increasing(s) && Spans(s, x)
    ensures !EndsAt(s, x) && !StartsAt(s, x + 1)
  {
  }

  /** An index that meets one interval only joins it, whatever the shape. */
  lemma {:induction false} JoinsStart(t: Tree<Interval>, f: int)
    requires Increasing(InOrder(t)) && !Covers(InOrder(t), f) && !Covers(InOrder(t), f - 1)
    ensures !StartsAt(InOrder(AddIndex(t, f)), f + 1)
  {
    var u := AddIndex(t, f);
    StartsConcat(InOrder(u.left), u.item, InOrder(u.right), f + 1);
    if t.Node? {
      var (l, n, r) := (InOrder(t.left), t.item, InOrder(t.right));
      Sides(l, n, r, f + 1);
      CoversConcat(l, n, r, f);
      CoversConcat(l, n, r, f - 1);
      var c := Compare(Interval(f, f), n);
      if c < 0 {
        JoinsStart(t.left, f);
      } else if c > 0 {
        JoinsStart(t.right, f);
      }
    }
  }

  lemma {:induction false} JoinsEnd(t: Tree<Interval>, f: int)
    requires Increasing(InOrder(t)) && !Covers(InOrder(t), f) && !Covers(InOrder(t), f + 1)
    ensures !EndsAt(InOrder(AddIndex(t, f)), f - 1)
  {
    var u := AddIndex(t, f);
    EndsConcat(InOrder(u.left), u.item, InOrder(u.right), f - 1);
    if t.Node? {
      var (l, n, r) := (InOrder(t.left), t.item, InOrder(t.right));
      Sides(l, n, r, f - 1);
      CoversConcat(l, n, r, f);
      CoversConcat(l, n, r, f + 1);
      var c := Compare(Interval(f, f), n);
      if c < 0 {
        JoinsEnd(t.left, f);
      } else if c > 0 {
        JoinsEnd(t.right, f);
      }
    }
  }

  lemma {:induction false} EndsAreCovered(s: seq<Interval>, x: int)
    requires Proper(s) && (EndsAt(s, x) || StartsAt(s, x))
    ensures Covers(s, x)
  {
  }

  /** A new index makes a false gap only where it bridges two intervals. */
  lemma {:induction false} NewGapIsBridged(t: Tree<Interval>, f: int, x: int)
    requires Increasing(InOrder(t)) && !Covers(InOrder(t), f) && FalseGap(InOrder(AddIndex(t, f)), x)
    ensures FalseGap(InOrder(t), x) || ((x == f || x + 1 == f) && Covers(InOrder(t), f - 1) && Covers(InOrder(t), f + 1))
  {
    var s := InOrder(t);
    if x == f {
      NewEnds(t, f, f + 1);
      EndsAreCovered(s, f + 1);
      if !Covers(s, f - 1) {
        JoinsStart(t, f);
      }
    } else if x + 1 == f {
      NewEnds(t, f, f - 1);
      EndsAreCovered(s, f - 1);
      if !Covers(s, f + 1) {
        JoinsEnd(t, f);
      }
    } else {
      NewEnds(t, f, x);
      NewEnds(t, f, x + 1);
    }
  }

  /** An overlap never goes away. */
  lemma {:induction false} OverlapStays(t: Tree<Interval>, f: int)
    requires Proper(InOrder(t)) && Increasing(InOrder(AddIndex(t, f)))
    ensures Increasing(InOrder(t))
  {
    if t.Node? {
      var u := AddIndex(t, f);
      ProperConcat(InOrder(t.left), t.item, InOrder(t.right));
      IncreasingConcat(InOrder(u.left), u.item, InOrder(u.right));
      IncreasingConcat(InOrder(t.left), t.item, InOrder(t.right));
      var c := Compare(Interval(f, f), t.item);
      if c < 0 {
        OverlapStays(t.left, f);
        BelowBefore(t.left, f, t.item.lo);
      } else if c > 0 {
        OverlapStays(t.right, f);
        AboveBefore(t.right, f, t.item.hi);
      }
    }
  }

  lemma {:induction false} BelowBefore(t: Tree<Interval>, f: int, high: int)
    requires Below(InOrder(AddIndex(t, f)), high)
    ensures Below(InOrder(t), high)
  {
    if t.Node? {
      var u := AddIndex(t, f);
      BelowConcat(InOrder(t.left), t.item, InOrder(t.right), high);
      BelowConcat(InOrder(u.left), u.item, InOrder(u.right), high);
      if u.left != t.left {
        BelowBefore(t.left, f, high);
      }
      if u.right != t.right {
        BelowBefore(t.right, f, high);
      }
    }
  }

  lemma {:induction false} AboveBefore(t: Tree<Interval>, f: int, low: int)
    requires Above(low, InOrder(AddIndex(t, f)))
    ensures Above(low, InOrder(t))
  {
    if t.Node? {
      var u := AddIndex(t, f);
      AboveConcat(InOrder(t.left), t.item, InOrder(t.right), low);
      AboveConcat(InOrder(u.left), u.item, InOrder(u.right), low);
      if u.left != t.left {
        AboveBefore(t.left, f, low);
      }
      if u.right != t.right {
        AboveBefore(t.right, f, low);
      }
    }
  }

  // ----- Runs

  /** Some run over the stream, with reshaping at will, ends with this list. */
  ghost predicate Reaches(stream: seq<int>, s: seq<Interval>) {
    exists trees :: IsRun(trees, stream) && InOrder(trees[|stream|]) == s
  }

  lemma {:induction false} ReachesStep(stream: seq<int>, t: Tree<Interval>, f: int)
    requires Reaches(stream, InOrder(t))
    ensures Reaches(stream + [f], InOrder(AddSigned(t, f)))
  {
    var trees :| IsRun(trees, stream) && InOrder(trees[|stream|]) == InOrder(t);
    var more := trees[..|stream|] + [t, AddSigned(t, f)];
    forall k | 0 <= k <= |stream| ensures InOrder(more[k + 1]) == InOrder(AddSigned(more[k], (stream + [f])[k])) {
    }
    assert IsRun(more, stream + [f]);
  }

  lemma {:induction false} ReachesBack(stream: seq<int>, s: seq<Interval>) returns (t: Tree<Interval>)
    requires stream != [] && Reaches(stream, s)
    ensures Reaches(stream[..|stream| - 1], InOrder(t)) && s == InOrder(AddSigned(t, stream[|stream| - 1]))
  {
    var n := |stream| - 1;
    var trees :| IsRun(trees, stream) && InOrder(trees[|stream|]) == s;
    t := trees[n];
    assert IsRun(trees[..n + 1], stream[..n]) && InOrder(trees[..n + 1][n]) == InOrder(t);
  }

  lemma {:induction false} ReachedCovers(stream: seq<int>, s: seq<Interval>, x: int)
    requires Reaches(stream, s)
    ensures Proper(s) && (Covers(s, x) <==> Added(stream, x))
  {
    var trees :| IsRun(trees, stream) && InOrder(trees[|stream|]) == s;
    RunCoversExactly(trees, stream, x);
  }

  /** Step i adds a new index between two old ones. */
  predicate Bridges(stream: seq<int>, i: nat) {
    && i < |stream| && stream[i] != 0
    && !Added(stream[..i], Abs(stream[i]))
    && Added(stream[..i], Abs(stream[i]) - 1) && Added(stream[..i], Abs(stream[i]) + 1)
  }

  /** Step k adds again the bridging index of step i, or one beside it. */
  predicate ReturnsTo(stream: seq<int>, i: nat, k: nat) {
    Bridges(stream, i) && i < k < |stream| && stream[k] != 0 && -1 <= Abs(stream[k]) - Abs(stream[i]) <= 1
  }

  ghost predicate Returns(stream: seq<int>) {
    exists i: nat, k: nat :: ReturnsTo(stream, i, k)
  }

  lemma {:induction false} PrefixReturns(stream: seq<int>, n: nat, i: nat, k: nat)
    requires n <= |stream|
    ensures i < n ==> (Bridges(stream[..n], i) <==> Bridges(stream, i))
    ensures ReturnsTo(stream[..n], i, k) ==> ReturnsTo(stream, i, k)
  {
    if i < n {
      assert stream[..n][..i] == stream[..i];
    }
  }

  /** A false gap at x was made by a bridging step at x or x + 1. */
  ghost predicate IsBridged(stream: seq<int>, x: int) {
    exists i: nat :: Bridges(stream, i) && (Abs(stream[i]) == x || Abs(stream[i]) == x + 1)
  }

  ghost predicate GapsAreBridged(stream: seq<int>, s: seq<Interval>) {
    Increasing(s) && forall x {:trigger FalseGap(s, x)} :: FalseGap(s, x) ==> IsBridged(stream, x)
  }

  lemma {:induction false} BridgedLater(stream: seq<int>, n: nat, x: int)
    requires n <= |stream| && IsBridged(stream[..n], x)
    ensures IsBridged(stream, x)
  {
    var i: nat :| Bridges(stream[..n], i) && (Abs(stream[..n][i]) == x || Abs(stream[..n][i]) == x + 1);
    PrefixReturns(stream, n, i, i);
  }

  /** Without a return the last index was not added at a false gap. */
  lemma {:induction false} NotAtGap(stream: seq<int>, s: seq<Interval>, n: nat)
    requires |stream| == n + 1 && !Returns(stream) && GapsAreBridged(stream[..n], s) && stream[n] != 0
    ensures !AtFalseGap(s, Abs(stream[n]))
  {
    var f := Abs(stream[n]);
    if AtFalseGap(s, f) {
      var x := if FalseGap(s, f) then f else f - 1;
      assert FalseGap(s, x);
      var i: nat :| Bridges(stream[..n], i) && (Abs(stream[..n][i]) == x || Abs(stream[..n][i]) == x + 1);
      PrefixReturns(stream, n, i, n);
      assert ReturnsTo(stream, i, n);
    }
  }

  lemma {:induction false} GapsStayBridged(stream: seq<int>, t: Tree<Interval>, n: nat)
    requires |stream| == n + 1 && !Returns(stream) && stream[n] != 0
    requires Reaches(stream[..n], InOrder(t)) && GapsAreBridged(stream[..n], InOrder(t))
    ensures GapsAreBridged(stream, InOrder(AddIndex(t, Abs(stream[n]))))
  {
    var (s, f) := (InOrder(t), Abs(stream[n]));
    var u := InOrder(AddIndex(t, f));
    NotAtGap(stream, s, n);
    StepKeepsIncreasingIff(s, f);
    forall x | FalseGap(u, x) ensures IsBridged(stream, x) {
      if Covers(s, f) {
        CoveredIsKept(t, f);
        BridgedLater(stream, n, x);
      } else {
        NewGapIsBridged(t, f, x);
        if FalseGap(s, x) {
          BridgedLater(stream, n, x);
        } else {
          ReachedCovers(stream[..n], s, f);
          ReachedCovers(stream[..n], s, f - 1);
          ReachedCovers(stream[..n], s, f + 1);
          assert Bridges(stream, n);
        }
      }
    }
  }

  lemma {:induction false} NoReturnNoOverlap(stream: seq<int>, s: seq<Interval>)
    requires Reaches(stream, s) && !Returns(stream)
    ensures GapsAreBridged(stream, s)
    decreases |stream|
  {
    if stream == [] {
      assert s == [];
    } else {
      var n := |stream| - 1;
      var t := ReachesBack(stream, s);
      forall i: nat, k: nat ensures !ReturnsTo(stream[..n], i, k) {
        PrefixReturns(stream, n, i, k);
      }
      NoReturnNoOverlap(stream[..n], InOrder(t));
      if stream[n] == 0 {
        forall x | FalseGap(s, x) ensures IsBridged(stream, x) {
          BridgedLater(stream, n, x);
        }
      } else {
        GapsStayBridged(stream, t, n);
      }
    }
  }

  // ----- A return makes some run overlap

  ghost predicate CanOverlap(stream: seq<int>) {
    exists s :: Reaches(stream, s) && !Increasing(s)
  }

  ghost predicate CanHaveGap(stream: seq<int>, x: int) {
    exists s :: Reaches(stream, s) && Increasing(s) && FalseGap(s, x)
  }

  lemma {:induction false} PrefixStep(stream: seq<int>, n: nat)
    requires n < |stream|
    ensures stream[..n + 1] == stream[..n] + [stream[n]]
  {
  }

  lemma {:induction false} SomeListIsReached(stream: seq<int>) returns (s: seq<Interval>)
    ensures Reaches(stream, s)
    decreases |stream|
  {
    if stream == [] {
      s := [];
      assert IsRun([Leaf], stream);
    } else {
      var n := |stream| - 1;
      var before := SomeListIsReached(stream[..n]);
      ReachesStep(stream[..n], Spine(before), stream[n]);
      PrefixStep(stream, n);
      assert stream[..n + 1] == stream;
      s := InOrder(AddSigned(Spine(before), stream[n]));
    }
  }

  lemma {:induction false} OverlapReachesEnd(stream: seq<int>, n: nat)
    requires n <= |stream| && CanOverlap(stream[..n])
    ensures CanOverlap(stream)
    decreases |stream| - n
  {
    if n == |stream| {
      assert stream[..n] == stream;
    } else {
      var s :| Reaches(stream[..n], s) && !Increasing(s);
      var t := Spine(s);
      ReachesStep(stream[..n], t, stream[n]);
      PrefixStep(stream, n);
      ReachedCovers(stream[..n], s, 0);
      if stream[n] != 0 && Increasing(InOrder(AddSigned(t, stream[n]))) {
        OverlapStays(t, Abs(stream[n]));
      }
      assert Reaches(stream[..n + 1], InOrder(AddSigned(t, stream[n])));
      OverlapReachesEnd(stream, n + 1);
    }
  }

  /** A false gap stays up to any later step, if nothing overlaps before. */
  lemma {:induction false} GapReaches(stream: seq<int>, n: nat, k: nat, x: int)
    requires n <= k <= |stream| && CanHaveGap(stream[..n], x)
    ensures CanOverlap(stream) || CanHaveGap(stream[..k], x)
    decreases k - n
  {
    if n < k {
      var s :| Reaches(stream[..n], s) && Increasing(s) && FalseGap(s, x);
      var t := Spine(s);
      var u := InOrder(AddSigned(t, stream[n]));
      ReachesStep(stream[..n], t, stream[n]);
      PrefixStep(stream, n);
      assert Reaches(stream[..n + 1], u);
      if !Increasing(u) {
        OverlapReachesEnd(stream, n + 1);
      } else {
        if stream[n] != 0 {
          GapStays(t, Abs(stream[n]), x);
        }
        GapReaches(stream, n + 1, k, x);
      }
    }
  }

  lemma {:induction false} StretchLeavesGap(s: seq<Interval>, i: nat, k: nat, f: int)
    requires i < |s| && k < |s| && i != k && s[i].hi == f - 1 && s[k].lo == f + 1
    ensures FalseGap(s[i := Interval(s[i].lo, f)], f) && FalseGap(s[k := Interval(f, s[k].hi)], f - 1)
  {
    var (u, v) := (s[i := Interval(s[i].lo, f)], s[k := Interval(f, s[k].hi)]);
    assert u[i].hi == f && u[k].lo == f + 1 && v[i].hi == f - 1 && v[k].lo == f;
  }

  /** A bridging index leaves a false gap on the side that the shape decides. */
  lemma {:induction false} BridgeLeavesGap(s: seq<Interval>, f: int, x: int) returns (t: Tree<Interval>)
    requires Increasing(s) && !Covers(s, f) && Covers(s, f - 1) && Covers(s, f + 1) && (x == f || x + 1 == f)
    ensures InOrder(t) == s && Increasing(InOrder(AddIndex(t, f))) && FalseGap(InOrder(AddIndex(t, f)), x)
  {
    var i :| 0 <= i < |s| && s[i].lo <= f - 1 <= s[i].hi;
    var k :| 0 <= k < |s| && s[k].lo <= f + 1 <= s[k].hi;
    assert s[i].hi == f - 1 && s[k].lo == f + 1;
    var top := if x == f then i else k;
    t := RootIsExtended(s, top, f);
    AddKeepsIncreasing(t, f);
    StretchLeavesGap(s, i, k, f);
  }

  /** After the bridging step i there can be a false gap beside the index that step k adds again. */
  lemma {:induction false} GapAfterBridge(stream: seq<int>, i: nat, k: nat) returns (x: int)
    requires ReturnsTo(stream, i, k)
    ensures Abs(stream[k]) == x || Abs(stream[k]) == x + 1
    ensures CanOverlap(stream) || CanHaveGap(stream[..i + 1], x)
  {
    var f := Abs(stream[i]);
    x := if Abs(stream[k]) == f - 1 then f - 1 else f;
    var s := SomeListIsReached(stream[..i]);
    ReachedCovers(stream[..i], s, f);
    ReachedCovers(stream[..i], s, f - 1);
    ReachedCovers(stream[..i], s, f + 1);
    if Increasing(s) {
      var t := BridgeLeavesGap(s, f, x);
      ReachesStep(stream[..i], t, stream[i]);
      PrefixStep(stream, i);
      assert Reaches(stream[..i + 1], InOrder(AddIndex(t, f)));
    } else {
      OverlapReachesEnd(stream, i);
    }
  }

  lemma {:induction false} ReturnOverlaps(stream: seq<int>, i: nat, k: nat)
    requires ReturnsTo(stream, i, k)
    ensures CanOverlap(stream)
  {
    var x := GapAfterBridge(stream, i, k);
    if !CanOverlap(stream) {
      GapReaches(stream, i + 1, k, x);
      var s :| Reaches(stream[..k], s) && Increasing(s) && FalseGap(s, x);
      var t := GapBreaks(s, Abs(stream[k]));
      ReachesStep(stream[..k], t, stream[k]);
      PrefixStep(stream, k);
      assert Reaches(stream[..k + 1], InOrder(AddSigned(t, stream[k])));
      OverlapReachesEnd(stream, k + 1);
    }
  }

  /**
   The intervals stay disjoint and ascending in every run over the stream exactly when no index that
   bridged two others is added again, nor one beside it.
   */
  lemma {:induction false} AlwaysIncreasingIff(stream: seq<int>)
    ensures (forall s :: Reaches(stream, s) ==> Increasing(s)) <==> !Returns(stream)
  {
    if i: nat, k: nat :| ReturnsTo(stream, i, k) {
      ReturnOverlaps(stream, i, k);
    } else {
      forall s | Reaches(stream, s) ensures Increasing(s) {
        NoReturnNoOverlap(stream, s);
      }
    }
  }

  /** Without any rebalancing, 1, 3, 2 and then 3 again leave the intervals 1-3 and 3-3. */
  lemma {:induction false} RepeatOverlaps()
    ensures Returns([1, 3, 2, 3]) && Reaches([1, 3, 2, 3], [Interval(1, 3), Interval(3, 3)])
    ensures !Increasing([Interval(1, 3), Interval(3, 3)])
  {
    var t1 := Node(Leaf, Interval(1, 1), Leaf);
    var t2 := Node(Leaf, Interval(1, 1), Node(Leaf, Interval(3, 3), Leaf));
    var t3 := Node(Leaf, Interval(1, 2), Node(Leaf, Interval(3, 3), Leaf));
    var t4 := Node(Leaf, Interval(1, 3), Node(Leaf, Interval(3, 3), Leaf));
    assert InOrder(t4) == [Interval(1, 3), Interval(3, 3)];
    assert IsRun([Leaf, t1, t2, t3, t4], [1, 3, 2, 3]);
    var stream := [1, 3, 2, 3];
    assert stream[..2] == [1, 3] && Abs(stream[..2][0]) == 1 && Abs(stream[..2][1]) == 3;
    assert ReturnsTo(stream, 2, 3);
    var s := [Interval(1, 3), Interval(3, 3)];
    assert s[0].hi >= s[1].lo;
  }
}
