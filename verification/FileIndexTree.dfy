/**
 The file indexes selected for a restore, kept as intervals in a search tree: `search_fi`, `add_findex`.

 The comparator calls an index next to an interval equal to it, so which node an index joins depends
 on the shape of the tree, and rebalancing may change the shape at any time. The first half works on
 trees of values and proves what holds for every shape; the class in the second half is the tree of
 nodes that is edited in place, with the spare node it keeps for the next insertion.
 */
module FileIndexTree {

  /** findex and findex2 */
  datatype Interval = Interval(lo: int, hi: int)

  datatype Tree<T> = Leaf | Node(left: Tree<T>, item: T, right: Tree<T>)

  function InOrder<T>(t: Tree<T>): seq<T> {
    match t
    case Leaf => []
    case Node(l, x, r) => InOrder(l) + [x] + InOrder(r)
  }

  /** `search_fi`: negative, zero or positive. */
  function Compare(f1: Interval, f2: Interval): int {
    if f1.lo == f2.lo - 1 then 0
    else if f1.hi == f2.hi + 1 then 0
    else if f1.lo >= f2.lo && f1.hi <= f2.hi then 0
    else if f1.lo > f2.lo then 1 else -1
  }

  /** The node an index was found to belong to, extended to hold it. */
  function Extended(f: int, n: Interval): Interval {
    if f == n.hi + 1 then Interval(n.lo, f)
    else if f == n.lo - 1 then Interval(f, n.hi)
    else n
  }

  /** Search, then extend the node found or link a new leaf. */
  function AddIndex(t: Tree<Interval>, f: int): Tree<Interval> {
    match t
    case Leaf => Node(Leaf, Interval(f, f), Leaf)
    case Node(l, n, r) =>
      var c := Compare(Interval(f, f), n);
      if c < 0 then Node(AddIndex(l, f), n, r)
      else if c > 0 then Node(l, n, AddIndex(r, f))
      else Node(l, Extended(f, n), r)
  }

  function Abs(f: int): nat {
    if f < 0 then -f else f
  }

  /** `add_findex` on values: zero is a dummy directory, a sign is dropped. */
  function AddSigned(t: Tree<Interval>, findex: int): Tree<Interval> {
    if findex == 0 then t else AddIndex(t, Abs(findex))
  }

  // ----- What a list of intervals means

  predicate Proper(s: seq<Interval>) {
    forall i :: 0 <= i < |s| ==> s[i].lo <= s[i].hi
  }

  predicate Covers(s: seq<Interval>, x: int) {
    exists i :: 0 <= i < |s| && s[i].lo <= x <= s[i].hi
  }

  /** Disjoint and in ascending order; two intervals may be adjacent (a false gap). */
  predicate Increasing(s: seq<Interval>) {
    Proper(s) && forall i, k :: 0 <= i < k < |s| ==> s[i].hi < s[k].lo
  }

  /** Increasing, and never adjacent. */
  predicate Canonical(s: seq<Interval>) {
    Proper(s) && forall i, k :: 0 <= i < k < |s| ==> s[i].hi + 1 < s[k].lo
  }

  // ----- The covered set is exact, whatever the shape

  lemma {:induction false} CoversConcat(a: seq<Interval>, n: Interval, b: seq<Interval>, x: int)
    ensures Covers(a + [n] + b, x) <==> Covers(a, x) || n.lo <= x <= n.hi || Covers(b, x)
  {
    var s := a + [n] + b;
    if i :| 0 <= i < |a| && a[i].lo <= x <= a[i].hi {
      assert s[i] == a[i];
    }
    if n.lo <= x <= n.hi {
      assert s[|a|] == n;
    }
    if i :| 0 <= i < |b| && b[i].lo <= x <= b[i].hi {
      assert s[|a| + 1 + i] == b[i];
    }
    if i :| 0 <= i < |s| && s[i].lo <= x <= s[i].hi {
      assert i < |a| ==> s[i] == a[i];
      assert i > |a| ==> s[i] == b[i - |a| - 1];
    }
  }

  lemma {:induction false} ProperConcat(a: seq<Interval>, n: Interval, b: seq<Interval>)
    ensures Proper(a + [n] + b) <==> Proper(a) && n.lo <= n.hi && Proper(b)
  {
    var s := a + [n] + b;
    if Proper(s) {
      forall i | 0 <= i < |a| ensures a[i].lo <= a[i].hi { assert s[i] == a[i]; }
      forall i | 0 <= i < |b| ensures b[i].lo <= b[i].hi { assert s[|a| + 1 + i] == b[i]; }
      assert s[|a|] == n;
    }
  }

  lemma {:induction false} AddCovers(t: Tree<Interval>, f: int, x: int)
    requires Proper(InOrder(t))
    ensures Proper(InOrder(AddIndex(t, f)))
    ensures Covers(InOrder(AddIndex(t, f)), x) <==> Covers(InOrder(t), x) || x == f
  {
    match t
    case Leaf =>
      assert InOrder(AddIndex(t, f)) == [Interval(f, f)];
      assert InOrder(AddIndex(t, f))[0] == Interval(f, f);
    case Node(l, n, r) =>
      ProperConcat(InOrder(l), n, InOrder(r));
      CoversConcat(InOrder(l), n, InOrder(r), x);
      AddCovers(l, f, x);
      AddCovers(r, f, x);
      var u := AddIndex(t, f);
      ProperConcat(InOrder(u.left), u.item, InOrder(u.right));
      CoversConcat(InOrder(u.left), u.item, InOrder(u.right), x);
  }

  // ----- Distinct indexes keep the intervals disjoint and ascending

  predicate Below(s: seq<Interval>, high: int) {
    forall i :: 0 <= i < |s| ==> s[i].hi < high
  }

  predicate Above(low: int, s: seq<Interval>) {
    forall i :: 0 <= i < |s| ==> low < s[i].lo
  }

  lemma {:induction false} IncreasingParts(a: seq<Interval>, n: Interval, b: seq<Interval>)
    requires Increasing(a + [n] + b)
    ensures Increasing(a) && n.lo <= n.hi && Increasing(b) && Below(a, n.lo) && Above(n.hi, b)
  {
    var s := a + [n] + b;
    ProperConcat(a, n, b);
    assert s[|a|] == n;
    forall i, k | 0 <= i < k < |a| ensures a[i].hi < a[k].lo { assert s[i].hi < s[k].lo; }
    forall i, k | 0 <= i < k < |b| ensures b[i].hi < b[k].lo { assert s[|a| + 1 + i].hi < s[|a| + 1 + k].lo; }
    forall i | 0 <= i < |a| ensures a[i].hi < n.lo { assert s[i].hi < s[|a|].lo; }
    forall i | 0 <= i < |b| ensures n.hi < b[i].lo { assert s[|a|].hi < s[|a| + 1 + i].lo; }
  }

  lemma {:induction false} IncreasingJoin(a: seq<Interval>, n: Interval, b: seq<Interval>)
    requires Increasing(a) && n.lo <= n.hi && Increasing(b) && Below(a, n.lo) && Above(n.hi, b)
    ensures Increasing(a + [n] + b)
  {
    var s := a + [n] + b;
    ProperConcat(a, n, b);
    assert s[|a|] == n;
    forall i, k | 0 <= i < k < |s| ensures s[i].hi < s[k].lo {
      if i < |a| {
        assert s[i] == a[i];
        assert k > |a| ==> s[k] == b[k - |a| - 1];
      } else {
        assert s[k] == b[k - |a| - 1];
        assert i > |a| ==> s[i] == b[i - |a| - 1];
      }
    }
  }

  lemma {:induction false} IncreasingConcat(a: seq<Interval>, n: Interval, b: seq<Interval>)
    ensures Increasing(a + [n] + b) <==>
            Increasing(a) && n.lo <= n.hi && Increasing(b) && Below(a, n.lo) && Above(n.hi, b)
  {
    if Increasing(a + [n] + b) {
      IncreasingParts(a, n, b);
    }
    if Increasing(a) && n.lo <= n.hi && Increasing(b) && Below(a, n.lo) && Above(n.hi, b) {
      IncreasingJoin(a, n, b);
    }
  }

  lemma {:induction false} BelowConcat(a: seq<Interval>, n: Interval, b: seq<Interval>, high: int)
    ensures Below(a + [n] + b, high) <==> Below(a, high) && n.hi < high && Below(b, high)
  {
    var s := a + [n] + b;
    assert s[|a|] == n;
    assert forall i :: 0 <= i < |a| ==> s[i] == a[i];
    assert forall i :: 0 <= i < |b| ==> s[|a| + 1 + i] == b[i];
    if Below(s, high) {
      forall i | 0 <= i < |b| ensures b[i].hi < high { assert s[|a| + 1 + i].hi < high; }
      forall i | 0 <= i < |a| ensures a[i].hi < high { assert s[i].hi < high; }
    }
  }

  lemma {:induction false} AboveConcat(a: seq<Interval>, n: Interval, b: seq<Interval>, low: int)
    ensures Above(low, a + [n] + b) <==> Above(low, a) && low < n.lo && Above(low, b)
  {
    var s := a + [n] + b;
    assert s[|a|] == n;
    assert forall i :: 0 <= i < |a| ==> s[i] == a[i];
    assert forall i :: 0 <= i < |b| ==> s[|a| + 1 + i] == b[i];
    if Above(low, s) {
      forall i | 0 <= i < |b| ensures low < b[i].lo { assert low < s[|a| + 1 + i].lo; }
      forall i | 0 <= i < |a| ensures low < a[i].lo { assert low < s[i].lo; }
    }
  }

  /** A new index never reaches beyond bounds that hold it and the old intervals. */
  lemma {:induction false} AddStaysBelow(t: Tree<Interval>, f: int, high: int)
    requires Below(InOrder(t), high) && f < high
    ensures Below(InOrder(AddIndex(t, f)), high)
  {
    if t.Node? {
      var u := AddIndex(t, f);
      BelowConcat(InOrder(t.left), t.item, InOrder(t.right), high);
      BelowConcat(InOrder(u.left), u.item, InOrder(u.right), high);
      AddStaysBelow(t.left, f, high);
      AddStaysBelow(t.right, f, high);
    }
  }

  lemma {:induction false} AddStaysAbove(t: Tree<Interval>, f: int, low: int)
    requires Above(low, InOrder(t)) && low < f
    ensures Above(low, InOrder(AddIndex(t, f)))
  {
    if t.Node? {
      var u := AddIndex(t, f);
      AboveConcat(InOrder(t.left), t.item, InOrder(t.right), low);
      AboveConcat(InOrder(u.left), u.item, InOrder(u.right), low);
      AddStaysAbove(t.left, f, low);
      AddStaysAbove(t.right, f, low);
    }
  }

  /** An index not covered yet keeps the intervals disjoint and ascending. */
  lemma {:induction false} AddKeepsIncreasing(t: Tree<Interval>, f: int)
    requires Increasing(InOrder(t)) && !Covers(InOrder(t), f)
    ensures Increasing(InOrder(AddIndex(t, f)))
  {
    if t.Node? {
      var (l, n, r, u) := (t.left, t.item, t.right, AddIndex(t, f));
      IncreasingConcat(InOrder(l), n, InOrder(r));
      CoversConcat(InOrder(l), n, InOrder(r), f);
      IncreasingConcat(InOrder(u.left), u.item, InOrder(u.right));
      var c := Compare(Interval(f, f), n);
      if c < 0 {
        AddKeepsIncreasing(l, f);
        AddStaysBelow(l, f, n.lo);
      } else if c > 0 {
        AddKeepsIncreasing(r, f);
        AddStaysAbove(r, f, n.hi);
      } else if f == n.hi + 1 {
        forall i | 0 <= i < |InOrder(r)| ensures f < InOrder(r)[i].lo {
          assert InOrder(r)[i].lo == f ==> Covers(InOrder(r), f);
        }
      } else {
        forall i | 0 <= i < |InOrder(l)| ensures InOrder(l)[i].hi < f {
          assert InOrder(l)[i].hi == f ==> Covers(InOrder(l), f);
        }
      }
    }
  }

  // ----- A non-decreasing stream gives the same canonical list for every shape

  /** Appending an index that is not smaller than any held: repeat, extend the last interval, or start one. */
  function AppendIndex(s: seq<Interval>, f: int): seq<Interval> {
    if s == [] then [Interval(f, f)]
    else
      var last := s[|s| - 1];
      if f <= last.hi then s
      else if f == last.hi + 1 then s[..|s| - 1] + [Interval(last.lo, f)]
      else s + [Interval(f, f)]
  }

  lemma {:induction false} AddIsAppend(t: Tree<Interval>, f: int)
    requires Canonical(InOrder(t)) && Below(InOrder(t), f + 1)
    ensures InOrder(AddIndex(t, f)) == AppendIndex(InOrder(t), f)
  {
    if t.Node? {
      var (l, n, r) := (t.left, t.item, t.right);
      var s := InOrder(t);
      var at := |InOrder(l)|;
      assert s[at] == n;
      BelowConcat(InOrder(l), n, InOrder(r), f + 1);
      var c := Compare(Interval(f, f), n);
      if r == Leaf {
        assert s == InOrder(l) + [n];
      } else {
        assert s[at + 1] == InOrder(r)[0] && InOrder(r) != [];
        assert n.hi + 1 < s[at + 1].lo <= s[at + 1].hi <= f;
        assert c > 0;
        CanonicalTail(InOrder(l), n, InOrder(r));
        AddIsAppend(r, f);
        AppendToTail(InOrder(l) + [n], InOrder(r), f);
      }
      if r == Leaf && c > 0 {
        assert InOrder(AddIndex(t, f)) == InOrder(l) + [n] + [Interval(f, f)];
      }
    }
  }

  lemma {:induction false} CanonicalTail(a: seq<Interval>, n: Interval, b: seq<Interval>)
    requires Canonical(a + [n] + b)
    ensures Canonical(b)
  {
    var s := a + [n] + b;
    assert forall i :: 0 <= i < |b| ==> s[|a| + 1 + i] == b[i];
    forall i, k | 0 <= i < k < |b| ensures b[i].hi + 1 < b[k].lo {
      assert s[|a| + 1 + i].hi + 1 < s[|a| + 1 + k].lo;
    }
    forall i | 0 <= i < |b| ensures b[i].lo <= b[i].hi {
      assert s[|a| + 1 + i].lo <= s[|a| + 1 + i].hi;
    }
  }

  lemma {:induction false} AppendToTail(a: seq<Interval>, b: seq<Interval>, f: int)
    requires b != []
    ensures AppendIndex(a + b, f) == a + AppendIndex(b, f)
  {
    assert (a + b)[|a + b| - 1] == b[|b| - 1];
    assert (a + b)[..|a + b| - 1] == a + b[..|b| - 1];
  }

  lemma {:induction false} AppendIsCanonical(s: seq<Interval>, f: int)
    requires Canonical(s) && Below(s, f + 1)
    ensures Canonical(AppendIndex(s, f)) && Below(AppendIndex(s, f), f + 1)
  {
  }

  // ----- Runs

  /** Trees after each step; between two steps the tree may be given any shape with the same in-order list. */
  ghost predicate IsRun(trees: seq<Tree<Interval>>, stream: seq<int>) {
    && |trees| == |stream| + 1
    && InOrder(trees[0]) == []
    && forall k :: 0 <= k < |stream| ==> InOrder(trees[k + 1]) == InOrder(AddSigned(trees[k], stream[k]))
  }

  predicate Added(stream: seq<int>, x: int) {
    x > 0 && exists k :: 0 <= k < |stream| && (stream[k] == x || stream[k] == -x)
  }

  /** After any run the intervals cover exactly the non-zero absolute indexes of the stream. */
  lemma {:induction false} RunCoversExactly(trees: seq<Tree<Interval>>, stream: seq<int>, x: int)
    requires IsRun(trees, stream)
    ensures Proper(InOrder(trees[|stream|]))
    ensures Covers(InOrder(trees[|stream|]), x) <==> Added(stream, x)
    decreases |stream|
  {
    if stream != [] {
      var n := |stream| - 1;
      RunCoversExactly(trees[..n + 1], stream[..n], x);
      if stream[n] != 0 {
        AddCovers(trees[n], Abs(stream[n]), x);
      }
      assert Added(stream, x) <==> Added(stream[..n], x) || (stream[n] != 0 && Abs(stream[n]) == x) by {
        if Added(stream, x) {
          var k :| 0 <= k < |stream| && (stream[k] == x || stream[k] == -x);
          assert k < n ==> stream[..n][k] == stream[k];
        }
        if k :| 0 <= k < n && (stream[..n][k] == x || stream[..n][k] == -x) {
          assert stream[k] == stream[..n][k];
        }
      }
      CoversSame(trees[n + 1], AddSigned(trees[n], stream[n]), x);
    }
  }

  lemma {:induction false} CoversSame(t: Tree<Interval>, u: Tree<Interval>, x: int)
    requires InOrder(t) == InOrder(u)
    ensures Covers(InOrder(t), x) <==> Covers(InOrder(u), x)
    ensures Proper(InOrder(t)) <==> Proper(InOrder(u))
  {
  }

  /** No index is added twice, signs aside; zeros do not count. */
  predicate Distinct(stream: seq<int>) {
    forall i, k :: 0 <= i < k < |stream| && stream[i] != 0 ==> stream[i] != stream[k] && stream[i] != -stream[k]
  }

  lemma {:induction false} DistinctRunIsIncreasing(trees: seq<Tree<Interval>>, stream: seq<int>)
    requires IsRun(trees, stream) && Distinct(stream)
    ensures Increasing(InOrder(trees[|stream|]))
    decreases |stream|
  {
    if stream != [] {
      var n := |stream| - 1;
      DistinctRunIsIncreasing(trees[..n + 1], stream[..n]);
      if stream[n] != 0 {
        RunCoversExactly(trees[..n + 1], stream[..n], Abs(stream[n]));
        assert trees[..n + 1][n] == trees[n];
        assert !Added(stream[..n], Abs(stream[n])) by {
          if k :| 0 <= k < n && (stream[..n][k] == stream[n] || stream[..n][k] == -stream[n]) {
            assert stream[k] == stream[..n][k];
          }
        }
        AddKeepsIncreasing(trees[n], Abs(stream[n]));
      }
    }
  }

  /** The absolute indexes never go down; zeros do not count. */
  predicate NonDecreasing(stream: seq<int>) {
    forall i, k :: 0 <= i < k < |stream| && stream[k] != 0 ==> Abs(stream[i]) <= Abs(stream[k])
  }

  /** The list a non-decreasing stream builds. */
  function Runs(stream: seq<int>): seq<Interval> {
    if stream == [] then []
    else
      var n := |stream| - 1;
      if stream[n] == 0 then Runs(stream[..n]) else AppendIndex(Runs(stream[..n]), Abs(stream[n]))
  }

  lemma {:induction false} RunsBelow(stream: seq<int>, high: int)
    requires forall k :: 0 <= k < |stream| ==> Abs(stream[k]) <= high
    ensures Below(Runs(stream), high + 1)
    decreases |stream|
  {
    if stream != [] {
      var n := |stream| - 1;
      RunsBelow(stream[..n], high);
    }
  }

  /** Then the list is canonical, and the same for every shape the trees took. */
  lemma {:induction false} NonDecreasingRunIsCanonical(trees: seq<Tree<Interval>>, stream: seq<int>)
    requires IsRun(trees, stream) && NonDecreasing(stream)
    ensures InOrder(trees[|stream|]) == Runs(stream) && Canonical(Runs(stream))
    decreases |stream|
  {
    if stream != [] {
      var n := |stream| - 1;
      NonDecreasingRunIsCanonical(trees[..n + 1], stream[..n]);
      if stream[n] != 0 {
        RunsBelow(stream[..n], Abs(stream[n]));
        AddIsAppend(trees[n], Abs(stream[n]));
        AppendIsCanonical(Runs(stream[..n]), Abs(stream[n]));
      }
    }
  }

  // ----- The tree of nodes

  /** RBSR_FINDEX */
  class Findex {
    var findex: int
    var findex2: int

    constructor ()
      ensures findex == 0 && findex2 == 0
    {
      findex, findex2 := 0, 0;
    }

    function Value(): Interval
      reads this
    {
      Interval(findex, findex2)
    }
  }

  function Items(t: Tree<Findex>): set<Findex> {
    match t
    case Leaf => {}
    case Node(l, x, r) => Items(l) + {x} + Items(r)
  }

  /** No node occurs twice. */
  predicate Unshared(t: Tree<Findex>) {
    t.Node? ==> t.item !in Items(t.left) + Items(t.right) && Items(t.left) !! Items(t.right) &&
                Unshared(t.left) && Unshared(t.right)
  }

  /** The intervals held by the nodes, in the shape of the tree. */
  function View(t: Tree<Findex>): Tree<Interval>
    reads Items(t)
  {
    match t
    case Leaf => Leaf
    case Node(l, x, r) => Node(View(l), x.Value(), View(r))
  }

  /** The node that compares equal on the search path, if any. */
  function Search(t: Tree<Findex>, f: Interval): (r: set<Findex>)
    reads Items(t)
    ensures r <= Items(t)
  {
    match t
    case Leaf => {}
    case Node(l, x, r) =>
      var c := Compare(f, x.Value());
      if c < 0 then Search(l, f) else if c > 0 then Search(r, f) else {x}
  }

  /** The tree with a new leaf at the end of the search path. */
  function Linked(t: Tree<Findex>, fi: Findex): Tree<Findex>
    reads Items(t), fi
  {
    match t
    case Leaf => Node(Leaf, fi, Leaf)
    case Node(l, x, r) =>
      if Compare(fi.Value(), x.Value()) < 0 then Node(Linked(l, fi), x, r) else Node(l, x, Linked(r, fi))
  }

  lemma {:induction false} LinkedIsAdd(t: Tree<Findex>, fi: Findex, f: int)
    requires Unshared(t) && fi !in Items(t) && fi.Value() == Interval(f, f) && Search(t, fi.Value()) == {}
    ensures Items(Linked(t, fi)) == Items(t) + {fi} && Unshared(Linked(t, fi))
    ensures View(Linked(t, fi)) == AddIndex(View(t), f)
  {
    if t.Node? {
      if Compare(fi.Value(), t.item.Value()) < 0 {
        LinkedIsAdd(t.left, fi, f);
      } else {
        LinkedIsAdd(t.right, fi, f);
      }
    }
  }

  /** The same view with the contents of the nodes given by a map. */
  function ViewOf(t: Tree<Findex>, vals: map<Findex, Interval>): Tree<Interval>
    requires Items(t) <= vals.Keys
  {
    match t
    case Leaf => Leaf
    case Node(l, x, r) => Node(ViewOf(l, vals), vals[x], ViewOf(r, vals))
  }

  lemma {:induction false} ViewIsViewOf(t: Tree<Findex>, vals: map<Findex, Interval>)
    requires Items(t) <= vals.Keys && forall x :: x in Items(t) ==> vals[x] == x.Value()
    ensures View(t) == ViewOf(t, vals)
  {
    if t.Node? {
      ViewIsViewOf(t.left, vals);
      ViewIsViewOf(t.right, vals);
    }
  }

  /** The search reads only the contents of the nodes. */
  function SearchOf(t: Tree<Findex>, vals: map<Findex, Interval>, f: Interval): (r: set<Findex>)
    requires Items(t) <= vals.Keys
    ensures r <= Items(t)
  {
    match t
    case Leaf => {}
    case Node(l, x, r) =>
      var c := Compare(f, vals[x]);
      if c < 0 then SearchOf(l, vals, f) else if c > 0 then SearchOf(r, vals, f) else {x}
  }

  lemma {:induction false} SearchIsSearchOf(t: Tree<Findex>, vals: map<Findex, Interval>, f: Interval)
    requires Items(t) <= vals.Keys && forall x :: x in Items(t) ==> vals[x] == x.Value()
    ensures Search(t, f) == SearchOf(t, vals, f)
  {
    if t.Node? {
      SearchIsSearchOf(t.left, vals, f);
      SearchIsSearchOf(t.right, vals, f);
    }
  }

  lemma {:induction false} ViewOfElsewhere(t: Tree<Findex>, vals: map<Findex, Interval>, nfi: Findex, n: Interval)
    requires Items(t) <= vals.Keys && nfi !in Items(t)
    ensures ViewOf(t, vals[nfi := n]) == ViewOf(t, vals)
  {
    if t.Node? {
      ViewOfElsewhere(t.left, vals, nfi, n);
      ViewOfElsewhere(t.right, vals, nfi, n);
    }
  }

  /** Extending the node found, and no other, is what adding to the value tree does. */
  lemma {:induction false} ExtendedIsAdd(t: Tree<Findex>, vals: map<Findex, Interval>, nfi: Findex, f: int)
    requires Unshared(t) && Items(t) <= vals.Keys && SearchOf(t, vals, Interval(f, f)) == {nfi}
    ensures nfi in vals && ViewOf(t, vals[nfi := Extended(f, vals[nfi])]) == AddIndex(ViewOf(t, vals), f)
  {
    assert nfi in SearchOf(t, vals, Interval(f, f));
    var c := Compare(Interval(f, f), vals[t.item]);
    var n := Extended(f, vals[nfi]);
    if c < 0 {
      ExtendedIsAdd(t.left, vals, nfi, f);
      ViewOfElsewhere(t.right, vals, nfi, n);
    } else if c > 0 {
      ExtendedIsAdd(t.right, vals, nfi, f);
      ViewOfElsewhere(t.left, vals, nfi, n);
    } else {
      assert nfi == t.item;
      ViewOfElsewhere(t.left, vals, nfi, n);
      ViewOfElsewhere(t.right, vals, nfi, n);
    }
  }

  /** RBSR: the tree of one job, and the node kept for the next insertion. */
  class Bsr {
    var fiList: Tree<Findex>
    var spare: Findex?        // m_fi
    ghost var nodes: set<Findex>

    /** Nodes are not shared, and the spare is not one of them. */
    ghost predicate Valid()
      reads this
    {
      Unshared(fiList) && nodes == Items(fiList) && spare !in nodes
    }

    constructor ()
      ensures Valid() && fiList == Leaf && spare == null
    {
      fiList, spare, nodes := Leaf, null, {};
    }

    /** `rblist::insert` up to the balancing: the equal node found on the search path, or the new leaf. */
    method Insert(fi: Findex, ghost f: int) returns (nfi: Findex)
      requires Unshared(fiList) && fi !in Items(fiList) && fi.Value() == Interval(f, f)
      modifies this`fiList
      ensures Search(old(fiList), Interval(f, f)) == {} ==> nfi == fi && fiList == Linked(old(fiList), fi)
      ensures Search(old(fiList), Interval(f, f)) != {} ==> Search(old(fiList), Interval(f, f)) == {nfi} && fiList == old(fiList)
    {
      var x := fiList;
      while x.Node?
        invariant Search(fiList, fi.Value()) == Search(x, fi.Value())
        decreases x
      {
        var comp := Compare(fi.Value(), x.item.Value());
        if comp < 0 {
          x := x.left;
        } else if comp > 0 {
          x := x.right;
        } else {
          return x.item;
        }
      }
      fiList := Linked(fiList, fi);
      return fi;
    }

    /** The spare node, or a new one that becomes the spare, set to one index. */
    method TakeSpare(findex: int) returns (fi: Findex)
      requires Valid()
      modifies this`spare, spare
      ensures Valid() && spare == fi && (if old(spare) != null then fi == old(spare) else fresh(fi)) && fi !in Items(fiList)
      ensures fi.Value() == Interval(findex, findex)
      ensures forall x :: x in Items(fiList) ==> x.Value() == old(x.Value())
    {
      if spare != null {
        fi := spare;
      } else {
        fi := new Findex();
        spare := fi;
      }
      fi.findex, fi.findex2 := findex, findex;
    }

    /** The branches that extend the node found. */
    method Extend(nfi: Findex, findex: int)
      modifies nfi
      ensures nfi.Value() == Extended(findex, old(nfi.Value()))
    {
      if findex == nfi.findex2 + 1 {
        nfi.findex2 := findex;
      } else if findex == nfi.findex - 1 {
        nfi.findex := findex;
      }
    }

    /** `add_findex` for the record of the job. */
    method AddFindex(signed: int)
      requires Valid()
      modifies this, nodes, spare
      ensures Valid()
      ensures View(fiList) == AddSigned(old(View(fiList)), signed)
      ensures fresh(nodes - old(nodes) - {old(spare)}) && (spare != old(spare) && spare != null ==> fresh(spare))
      ensures old(spare) != null ==> nodes <= old(nodes) + {old(spare)} && (spare == null || spare == old(spare))
    {
      if signed == 0 {
        return;
      }
      var findex := if signed < 0 then -signed else signed;
      ghost var t := fiList;
      ghost var vals := map x | x in nodes :: x.Value();
      ViewIsViewOf(t, vals);
      var fi := TakeSpare(findex);
      ViewIsViewOf(t, vals);
      InsertOrExtend(fi, findex, vals);
    }

    /** Inserts the spare node, or extends the node found equal to it. */
    method InsertOrExtend(fi: Findex, findex: int, ghost vals: map<Findex, Interval>)
      requires Valid() && spare == fi && fi.Value() == Interval(findex, findex)
      requires vals.Keys == nodes && forall x :: x in nodes ==> vals[x] == x.Value()
      modifies this, nodes
      ensures Valid() && View(fiList) == AddIndex(ViewOf(old(fiList), vals), findex)
      ensures nodes <= old(nodes) + {fi} && (spare == fi || spare == null)
    {
      ghost var t := fiList;
      ViewIsViewOf(t, vals);
      var nfi := Insert(fi, findex);
      if nfi != fi {
        ExtendFound(nfi, findex, vals);
      } else {
        LinkedIsAdd(t, fi, findex);
        spare, nodes := null, nodes + {fi};
      }
    }

    /** An equal node was found: it alone is extended. */
    method ExtendFound(nfi: Findex, findex: int, ghost vals: map<Findex, Interval>)
      requires Valid() && vals.Keys == nodes && forall x :: x in nodes ==> vals[x] == x.Value()
      requires Search(fiList, Interval(findex, findex)) == {nfi}
      modifies nodes
      ensures Valid() && fiList == old(fiList) && View(fiList) == AddIndex(ViewOf(fiList, vals), findex)
    {
      assert nfi in Search(fiList, Interval(findex, findex));
      SearchIsSearchOf(fiList, vals, Interval(findex, findex));
      ExtendedIsAdd(fiList, vals, nfi, findex);
      Extend(nfi, findex);
      ViewIsViewOf(fiList, vals[nfi := Extended(findex, vals[nfi])]);
    }

    /** Rebalancing: any shape that keeps the in-order sequence of nodes. */
    method Rebalance(shape: Tree<Findex>)
      requires Valid() && InOrder(shape) == InOrder(fiList) && Unshared(shape)
      modifies this`fiList
      ensures Valid() && fiList == shape && InOrder(View(fiList)) == InOrder(old(View(fiList)))
    {
      SameItems(shape, fiList);
      SameIntervals(shape, fiList);
      fiList := shape;
    }
  }

  lemma {:induction false} ItemsInOrder(t: Tree<Findex>)
    ensures Items(t) == set x | x in InOrder(t)
  {
    if t.Node? {
      ItemsInOrder(t.left);
      ItemsInOrder(t.right);
    }
  }

  lemma {:induction false} SameItems(a: Tree<Findex>, b: Tree<Findex>)
    requires InOrder(a) == InOrder(b)
    ensures Items(a) == Items(b)
  {
    ItemsInOrder(a);
    ItemsInOrder(b);
  }

  function ValuesOf(s: seq<Findex>): seq<Interval>
    reads s
  {
    if s == [] then [] else [s[0].Value()] + ValuesOf(s[1..])
  }

  lemma {:induction false} ValuesConcat(a: seq<Findex>, b: seq<Findex>)
    ensures ValuesOf(a + b) == ValuesOf(a) + ValuesOf(b)
    decreases |a|
  {
    if a == [] {
      assert a + b == b;
    } else {
      ValuesConcat(a[1..], b);
      assert (a + b)[1..] == a[1..] + b;
    }
  }

  lemma {:induction false} ViewInOrder(t: Tree<Findex>)
    ensures InOrder(View(t)) == ValuesOf(InOrder(t))
  {
    if t.Node? {
      ViewInOrder(t.left);
      ViewInOrder(t.right);
      ValuesConcat(InOrder(t.left) + [t.item], InOrder(t.right));
      ValuesConcat(InOrder(t.left), [t.item]);
      assert ValuesOf([t.item]) == [t.item.Value()];
    }
  }

  /** Trees with the same nodes in order hold the same list of intervals, whatever their shapes. */
  lemma {:induction false} SameIntervals(a: Tree<Findex>, b: Tree<Findex>)
    requires InOrder(a) == InOrder(b)
    ensures InOrder(View(a)) == InOrder(View(b))
  {
    ViewInOrder(a);
    ViewInOrder(b);
  }
}
