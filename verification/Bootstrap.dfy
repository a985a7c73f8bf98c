/**
 Writing and scanning bootstrap records: `write_findex`, `is_volume_selected`, `write_bsr_item`,
 `scan_findex` and `scan_bsr_item`, over the in-order list of the intervals of one job.
 */
module Bootstrap {
  import opened FileIndexTree

  // ----- Canonical lists

  lemma {:induction false} CoversAppend(s: seq<Interval>, n: Interval, x: int)
    ensures Covers(s + [n], x) <==> Covers(s, x) || n.lo <= x <= n.hi
  {
    CoversConcat(s, n, [], x);
    assert s + [n] + [] == s + [n];
    assert !Covers([], x);
  }

  /** Past the first interval the rest of the list covers what is left. */
  lemma {:induction false} TailCovers(a: seq<Interval>, x: int)
    requires Canonical(a) && a != []
    ensures Canonical(a[1..])
    ensures Covers(a[1..], x) <==> Covers(a, x) && a[0].hi < x
  {
    assert [] + [a[0]] + a[1..] == a;
    CanonicalTail([], a[0], a[1..]);
    CoversConcat([], a[0], a[1..], x);
    assert !Covers([], x);
    assert forall i :: 0 <= i < |a| - 1 ==> a[1..][i] == a[i + 1];
  }

  lemma {:induction false} FirstInterval(a: seq<Interval>, b: seq<Interval>)
    requires Canonical(a) && Canonical(b) && a != [] && b != [] && forall x :: Covers(a, x) <==> Covers(b, x)
    ensures b[0].lo <= a[0].lo && a[0].hi <= b[0].hi
  {
    assert Covers(a, a[0].lo) && Covers(b, b[0].lo);
    var i :| 0 <= i < |b| && b[i].lo <= a[0].lo <= b[i].hi;
    assert b[0].lo <= b[i].lo;
    var k :| 0 <= k < |a| && a[k].lo <= b[0].lo <= a[k].hi;
    assert a[0].lo <= a[k].lo;
    assert b[0].hi < a[0].hi ==> Covers(a, b[0].hi + 1);
    GapAfterFirst(b);
  }

  lemma {:induction false} GapAfterFirst(b: seq<Interval>)
    requires Canonical(b) && b != []
    ensures !Covers(b, b[0].hi + 1)
  {
  }

  /** A set has one canonical list. */
  lemma {:induction false} CanonicalIsUnique(a: seq<Interval>, b: seq<Interval>)
    requires Canonical(a) && Canonical(b) && forall x :: Covers(a, x) <==> Covers(b, x)
    ensures a == b
    decreases |a|
  {
    assert a != [] ==> Covers(a, a[0].lo);
    assert b != [] ==> Covers(b, b[0].lo);
    if a != [] && b != [] {
      FirstInterval(a, b);
      FirstInterval(b, a);
      forall x ensures Covers(a[1..], x) <==> Covers(b[1..], x) {
        TailCovers(a, x);
        TailCovers(b, x);
      }
      TailCovers(a, 0);
      TailCovers(b, 0);
      CanonicalIsUnique(a[1..], b[1..]);
      assert a == [a[0]] + a[1..] && b == [b[0]] + b[1..];
    }
  }

  // ----- Sizes

  function Size(s: seq<Interval>): int {
    if s == [] then 0 else Size(s[..|s| - 1]) + s[|s| - 1].hi - s[|s| - 1].lo + 1
  }

  lemma {:induction false} SizePositive(s: seq<Interval>)
    requires Proper(s)
    ensures Size(s) >= 0 && (Size(s) > 0 <==> s != []) && (s != [] ==> Covers(s, s[0].lo))
  {
    if s != [] {
      SizePositive(s[..|s| - 1]);
    }
  }

  /** The selected indexes inside a record. */
  ghost function Selected(s: seq<Interval>, first: int, last: int): set<int> {
    set x | first <= x <= last && Covers(s, x)
  }

  function Range(lo: int, hi: int): (r: set<int>)
    ensures forall x :: x in r <==> lo <= x <= hi
    decreases hi - lo
  {
    if hi < lo then {} else Range(lo, hi - 1) + {hi}
  }

  lemma {:induction false} RangeSize(lo: int, hi: int)
    requires lo <= hi + 1
    ensures |Range(lo, hi)| == hi - lo + 1
    decreases hi + 1 - lo
  {
    if lo <= hi {
      RangeSize(lo, hi - 1);
      assert Range(lo, hi) == Range(lo, hi - 1) + {hi} && hi !in Range(lo, hi - 1);
    } else {
      assert Range(lo, hi) == {};
    }
  }

  /** Without overlaps the size of a list is the size of the set it covers. */
  lemma {:induction false} SizeIsCardinality(s: seq<Interval>, first: int, last: int)
    requires Increasing(s) && forall x :: Covers(s, x) ==> first <= x <= last
    ensures Size(s) == |Selected(s, first, last)|
    decreases |s|
  {
    if s == [] {
      assert Selected(s, first, last) == {};
    } else {
      var (front, n) := (s[..|s| - 1], s[|s| - 1]);
      assert s == front + [n];
      LastIsApart(front, n, first, last);
      SizeIsCardinality(front, first, last);
      RangeSize(n.lo, n.hi);
    }
  }

  lemma {:induction false} LastIsApart(front: seq<Interval>, n: Interval, first: int, last: int)
    requires Increasing(front + [n]) && forall x :: Covers(front + [n], x) ==> first <= x <= last
    ensures Increasing(front) && forall x :: Covers(front, x) ==> first <= x <= last
    ensures n.lo <= n.hi && Selected(front + [n], first, last) == Selected(front, first, last) + Range(n.lo, n.hi)
    ensures Selected(front, first, last) !! Range(n.lo, n.hi)
  {
    IncreasingConcat(front, n, []);
    assert front + [n] + [] == front + [n];
    forall x ensures Covers(front + [n], x) <==> Covers(front, x) || n.lo <= x <= n.hi {
      CoversAppend(front, n, x);
    }
    var (whole, part) := (Selected(front + [n], first, last), Selected(front, first, last));
    forall x ensures x in whole <==> x in part || x in Range(n.lo, n.hi) {
      assert Covers(front + [n], x) ==> first <= x <= last;
    }
    forall x | x in part ensures x !in Range(n.lo, n.hi) {
      assert Covers(front, x);
    }
  }

  // ----- write_findex and is_volume_selected

  /** The test of the source: an end inside the record, or the record strictly inside. */
  predicate Overlaps(lo: int, hi: int, first: int, last: int) {
    || (lo >= first && lo <= last)
    || (hi >= first && hi <= last)
    || (lo < first && hi > last)
  }

  /** The inner loop: merges the intervals that follow one another without a gap. */
  method MergeFrom(s: seq<Interval>, i: nat) returns (next: nat, findex2: int)
    requires Proper(s) && i < |s|
    ensures i < next <= |s| && findex2 == s[next - 1].hi && s[i].lo <= findex2
    ensures next < |s| ==> s[next].lo != findex2 + 1
    ensures forall x :: Covers(s[..next], x) <==> Covers(s[..i], x) || s[i].lo <= x <= findex2
    ensures next < |s| && Increasing(s) ==> s[i].lo <= findex2 && findex2 + 1 < s[next].lo
  {
    findex2 := s[i].hi;
    next := i + 1;
    assert s[i..next] == [] + [s[i]];
    forall x ensures Covers(s[i..next], x) <==> s[i].lo <= x <= findex2 { CoversAppend([], s[i], x); }
    while next < |s| && s[next].lo == findex2 + 1
      invariant i < next <= |s| && findex2 == s[next - 1].hi && s[i].lo <= findex2
      invariant forall x :: Covers(s[i..next], x) <==> s[i].lo <= x <= findex2
    {
      ghost var (before, more) := (s[i..next], s[i..next + 1]);
      assert more == before + [s[next]];
      forall x ensures Covers(more, x) <==> s[i].lo <= x <= s[next].hi { CoversAppend(before, s[next], x); }
      findex2 := s[next].hi;
      next := next + 1;
    }
    forall x ensures Covers(s[..next], x) <==> Covers(s[..i], x) || s[i].lo <= x <= findex2 { CoversSplit(s, i, next, x); }
  }

  lemma {:induction false} CoversSplit(s: seq<Interval>, i: nat, k: nat, x: int)
    requires i <= k <= |s|
    ensures Covers(s[..k], x) <==> Covers(s[..i], x) || Covers(s[i..k], x)
  {
    assert forall m :: 0 <= m < i ==> s[..k][m] == s[..i][m];
    assert forall m :: 0 <= m < k - i ==> s[..k][i + m] == s[i..k][m];
    if m :| 0 <= m < k && s[..k][m].lo <= x <= s[..k][m].hi {
      assert m >= i ==> s[i..k][m - i] == s[..k][m];
    }
    if m :| 0 <= m < k - i && s[i..k][m].lo <= x <= s[i..k][m].hi {
      assert s[..k][i + m].lo <= x <= s[..k][i + m].hi;
    }
    if m :| 0 <= m < i && s[..i][m].lo <= x <= s[..i][m].hi {
      assert s[..k][m].lo <= x <= s[..k][m].hi;
    }
  }

  predicate Clipped(n: Interval, findex: int, findex2: int, first: int, last: int) {
    && n.lo == (if findex < first then first else findex)
    && n.hi == (if findex2 > last then last else findex2)
  }

  /** Appending the clipped group keeps the list exact up to the next interval. */
  lemma {:induction false} GroupWritten(out: seq<Interval>, seen: seq<Interval>, more: seq<Interval>, findex: int, findex2: int,
                     n: Interval, first: int, last: int)
    requires Proper(out) && findex <= findex2 && first <= last
    requires Overlaps(findex, findex2, first, last) && Clipped(n, findex, findex2, first, last)
    requires forall x :: Covers(out, x) <==> first <= x <= last && Covers(seen, x)
    requires forall x :: Covers(more, x) <==> Covers(seen, x) || findex <= x <= findex2
    ensures n.lo <= n.hi && Proper(out + [n]) && Size(out + [n]) == Size(out) + n.hi - n.lo + 1
    ensures forall x :: Covers(out + [n], x) <==> first <= x <= last && Covers(more, x)
    ensures Canonical(out) && Below(out, findex - 1) ==> Canonical(out + [n])
  {
    forall x ensures Covers(out + [n], x) <==> Covers(out, x) || n.lo <= x <= n.hi { CoversAppend(out, n, x); }
    assert (out + [n])[..|out|] == out;
  }

  /** What is written for the first fi intervals. */
  ghost predicate LinesOk(s: seq<Interval>, fi: nat, firstIndex: int, lastIndex: int, out: seq<Interval>, count: int) {
    && fi <= |s| && Proper(out) && count == Size(out)
    && (forall x :: Covers(out, x) <==> firstIndex <= x <= lastIndex && Covers(s[..fi], x))
    && (Increasing(s) ==> Canonical(out) && (fi < |s| ==> Below(out, s[fi].lo - 1)))
  }

  /** One more group, up to the interval at next: skipped, or written clipped. */
  lemma {:induction false} GroupStep(s: seq<Interval>, fi: nat, next: nat, findex: int, findex2: int, n: Interval,
                  firstIndex: int, lastIndex: int, out: seq<Interval>, count: int)
    requires LinesOk(s, fi, firstIndex, lastIndex, out, count) && firstIndex <= lastIndex
    requires fi < next <= |s| && s[fi].lo == findex <= findex2
    requires forall x :: Covers(s[..next], x) <==> Covers(s[..fi], x) || findex <= x <= findex2
    requires next < |s| && Increasing(s) ==> findex2 + 1 < s[next].lo
    ensures !Overlaps(findex, findex2, firstIndex, lastIndex) ==> LinesOk(s, next, firstIndex, lastIndex, out, count)
    ensures Overlaps(findex, findex2, firstIndex, lastIndex) && Clipped(n, findex, findex2, firstIndex, lastIndex) ==>
              LinesOk(s, next, firstIndex, lastIndex, out + [n], count + n.hi - n.lo + 1)
  {
    if Overlaps(findex, findex2, firstIndex, lastIndex) && Clipped(n, findex, findex2, firstIndex, lastIndex) {
      GroupWritten(out, s[..fi], s[..next], findex, findex2, n, firstIndex, lastIndex);
    }
  }

  /** The whole list written: for disjoint ascending intervals the count is the size of the set. */
  lemma {:induction false} AllWritten(s: seq<Interval>, firstIndex: int, lastIndex: int, out: seq<Interval>, count: int)
    requires LinesOk(s, |s|, firstIndex, lastIndex, out, count)
    ensures forall x :: Covers(out, x) <==> x in Selected(s, firstIndex, lastIndex)
    ensures Increasing(s) ==> count == |Selected(s, firstIndex, lastIndex)|
    ensures count > 0 <==> Selected(s, firstIndex, lastIndex) != {}
  {
    assert s[..|s|] == s;
    assert forall x :: Covers(out, x) <==> x in Selected(s, firstIndex, lastIndex);
    SizePositive(out);
    if Increasing(s) {
      SizeIsCardinality(out, firstIndex, lastIndex);
      assert Selected(out, firstIndex, lastIndex) == Selected(s, firstIndex, lastIndex);
    }
  }

  /** The part of a group inside the record. */
  method Clip(findex: int, findex2: int, firstIndex: int, lastIndex: int) returns (clipped: int, clipped2: int)
    ensures Clipped(Interval(clipped, clipped2), findex, findex2, firstIndex, lastIndex)
  {
    clipped := if findex < firstIndex then firstIndex else findex;
    clipped2 := if findex2 > lastIndex then lastIndex else findex2;
  }

  /** The line of a group: a single index or a range. */
  method WriteLine(findex: int, findex2: int, out: seq<Interval>, count: int) returns (out': seq<Interval>, count': int)
    ensures out' == out + [Interval(findex, findex2)] && count' == count + findex2 - findex + 1
  {
    if findex == findex2 {
      out' := out + [Interval(findex, findex)];
      count' := count + 1;
    } else {
      out' := out + [Interval(findex, findex2)];
      count' := count + findex2 - findex + 1;
    }
  }

  /**
   `write_findex`: the lines written for one JobMedia record. They cover the selected indexes of the
   record; for disjoint ascending intervals they are its maximal runs, and the count is its size.
   */
  method WriteFindex(s: seq<Interval>, firstIndex: int, lastIndex: int) returns (out: seq<Interval>, count: int)
    requires Proper(s) && firstIndex <= lastIndex
    ensures Proper(out) && count == Size(out)
    ensures forall x :: Covers(out, x) <==> x in Selected(s, firstIndex, lastIndex)
    ensures Increasing(s) ==> Canonical(out) && count == |Selected(s, firstIndex, lastIndex)|
    ensures count > 0 <==> Selected(s, firstIndex, lastIndex) != {}
  {
    out, count := [], 0;
    var fi := 0;
    while fi < |s|
      invariant 0 <= fi <= |s| && LinesOk(s, fi, firstIndex, lastIndex, out, count)
    {
      var findex := s[fi].lo;
      var next, findex2 := MergeFrom(s, fi);
      if Overlaps(findex, findex2, firstIndex, lastIndex) {
        var clipped, clipped2 := Clip(findex, findex2, firstIndex, lastIndex);
        GroupStep(s, fi, next, findex, findex2, Interval(clipped, clipped2), firstIndex, lastIndex, out, count);
        out, count := WriteLine(clipped, clipped2, out, count);
      } else {
        GroupStep(s, fi, next, findex, findex2, s[fi], firstIndex, lastIndex, out, count);
      }
      fi := next;
    }
    AllWritten(s, firstIndex, lastIndex, out, count);
  }

  /** `is_volume_selected`: whether the record holds a selected index at all. */
  method IsVolumeSelected(s: seq<Interval>, firstIndex: int, lastIndex: int) returns (r: bool)
    requires Proper(s) && firstIndex <= lastIndex
    ensures r <==> Selected(s, firstIndex, lastIndex) != {}
  {
    for fi := 0 to |s|
      invariant forall k :: 0 <= k < fi ==> !Overlaps(s[k].lo, s[k].hi, firstIndex, lastIndex)
    {
      if Overlaps(s[fi].lo, s[fi].hi, firstIndex, lastIndex) {
        var x := if s[fi].lo < firstIndex then firstIndex else s[fi].lo;
        assert s[fi].lo <= x <= s[fi].hi;
        assert x in Selected(s, firstIndex, lastIndex);
        return true;
      }
    }
    if Selected(s, firstIndex, lastIndex) != {} {
      var k := SelectedOverlaps(s, firstIndex, lastIndex);
      assert false;
    }
    return false;
  }

  lemma {:induction false} SelectedOverlaps(s: seq<Interval>, first: int, last: int) returns (k: nat)
    requires Selected(s, first, last) != {}
    ensures k < |s| && Overlaps(s[k].lo, s[k].hi, first, last)
  {
    var x :| x in Selected(s, first, last);
    k :| 0 <= k < |s| && s[k].lo <= x <= s[k].hi;
  }

  // ----- write_bsr_item

  /** A JobMedia record: the file indexes of the job on one stretch of a volume. */
  datatype VolParam = VolParam(volumeName: string, firstIndex: int, lastIndex: int)

  /** What is written for one record. */
  datatype Entry = Entry(volumeName: string, lines: seq<Interval>, count: int)

  /** Each record holds at least one file index. */
  predicate NoneEmpty(vols: seq<VolParam>) {
    forall i :: 0 <= i < |vols| ==> vols[i].firstIndex <= vols[i].lastIndex
  }

  /** Records in the order they were written: each starts where the one before ended, or later. */
  predicate Ascending(vols: seq<VolParam>) {
    && NoneEmpty(vols)
    && (forall i, k :: 0 <= i < k < |vols| ==> vols[i].lastIndex <= vols[k].firstIndex)
  }

  ghost predicate IsSelected(s: seq<Interval>, v: VolParam) {
    Selected(s, v.firstIndex, v.lastIndex) != {}
  }

  /** The selected indexes of all records. */
  ghost function UnionOf(s: seq<Interval>, vols: seq<VolParam>): set<int> {
    if vols == [] then {}
    else var v := vols[|vols| - 1]; UnionOf(s, vols[..|vols| - 1]) + Selected(s, v.firstIndex, v.lastIndex)
  }

  datatype Last = NoLast | Last(index: int)

  /** The LastIndex kept from the last selected record. */
  ghost function LastOf(s: seq<Interval>, vols: seq<VolParam>): Last {
    if vols == [] then NoLast
    else var v := vols[|vols| - 1]; if IsSelected(s, v) then Last(v.lastIndex) else LastOf(s, vols[..|vols| - 1])
  }

  /** Record i starts at the index where the last selected record before it ended. */
  ghost predicate Touches(s: seq<Interval>, vols: seq<VolParam>, i: nat)
    requires i < |vols|
  {
    IsSelected(s, vols[i]) && LastOf(s, vols[..i]) == Last(vols[i].firstIndex)
  }

  /** How many records touch at an index that is not selected. */
  ghost function FalseTouches(s: seq<Interval>, vols: seq<VolParam>): nat {
    if vols == [] then 0
    else
      var n := |vols| - 1;
      FalseTouches(s, vols[..n]) + if Touches(s, vols, n) && !Covers(s, vols[n].firstIndex) then 1 else 0
  }

  /** Everything counted so far lies at or before the last index kept. */
  lemma {:induction false} UnionBelowLast(s: seq<Interval>, vols: seq<VolParam>, x: int)
    requires Ascending(vols) && x in UnionOf(s, vols)
    ensures LastOf(s, vols).Last? && x <= LastOf(s, vols).index
    ensures exists i :: 0 <= i < |vols| && vols[i].lastIndex == LastOf(s, vols).index
    decreases |vols|
  {
    var n := |vols| - 1;
    if x in Selected(s, vols[n].firstIndex, vols[n].lastIndex) {
      assert vols[n].lastIndex == LastOf(s, vols).index;
    } else {
      UnionBelowLast(s, vols[..n], x);
      var i :| 0 <= i < n && vols[..n][i].lastIndex == LastOf(s, vols[..n]).index;
      assert vols[i].lastIndex <= vols[n].firstIndex;
    }
  }

  /** The index a record ended at is counted if it is selected. */
  lemma {:induction false} LastInUnion(s: seq<Interval>, vols: seq<VolParam>)
    requires Ascending(vols) && LastOf(s, vols).Last? && Covers(s, LastOf(s, vols).index)
    ensures LastOf(s, vols).index in UnionOf(s, vols)
    decreases |vols|
  {
    var n := |vols| - 1;
    if !IsSelected(s, vols[n]) {
      LastInUnion(s, vols[..n]);
    }
  }

  lemma {:induction false} LastBefore(s: seq<Interval>, vols: seq<VolParam>, n: nat)
    requires Ascending(vols) && n < |vols| && LastOf(s, vols[..n]).Last?
    ensures LastOf(s, vols[..n]).index <= vols[n].firstIndex
    decreases n
  {
    assert vols[..n][..n - 1] == vols[..n - 1];
    if !IsSelected(s, vols[n - 1]) {
      LastBefore(s, vols, n - 1);
    }
  }

  lemma {:induction false} UnionSize(a: set<int>, b: set<int>)
    ensures |a + b| == |a| + |b| - |a * b|
  {
  }

  /** A further record has at most its first index in common with those before, where it touches at a selected index. */
  lemma {:induction false} CommonIndex(s: seq<Interval>, vols: seq<VolParam>, n: nat)
    requires Ascending(vols) && n < |vols|
    ensures UnionOf(s, vols[..n]) * Selected(s, vols[n].firstIndex, vols[n].lastIndex) ==
            if Touches(s, vols, n) && Covers(s, vols[n].firstIndex) then {vols[n].firstIndex} else {}
  {
    var (before, add) := (UnionOf(s, vols[..n]), Selected(s, vols[n].firstIndex, vols[n].lastIndex));
    forall x | x in before && x in add ensures Touches(s, vols, n) && x == vols[n].firstIndex {
      UnionBelowLast(s, vols[..n], x);
      LastBefore(s, vols, n);
    }
    if Touches(s, vols, n) && Covers(s, vols[n].firstIndex) {
      LastInUnion(s, vols[..n]);
    }
  }

  /** A further record adds its size, less one when it touches at a selected index. */
  lemma {:induction false} UnionGrows(s: seq<Interval>, vols: seq<VolParam>, n: nat)
    requires Ascending(vols) && n < |vols|
    ensures |UnionOf(s, vols[..n + 1])| == |UnionOf(s, vols[..n])| + |Selected(s, vols[n].firstIndex, vols[n].lastIndex)|
                                           - if Touches(s, vols, n) && Covers(s, vols[n].firstIndex) then 1 else 0
  {
    CommonIndex(s, vols, n);
    UnionSize(UnionOf(s, vols[..n]), Selected(s, vols[n].firstIndex, vols[n].lastIndex));
    assert vols[..n + 1][..n] == vols[..n];
  }

  /** The LastIndex kept, or the one carried in from another job. */
  ghost function LastKept(s: seq<Interval>, vols: seq<VolParam>, carried: Last): Last {
    if LastOf(s, vols) == NoLast then carried else LastOf(s, vols)
  }

  /** How often the code takes a record for the continuation of the one before. */
  ghost function Continuations(s: seq<Interval>, vols: seq<VolParam>, carried: Last): nat {
    if vols == [] then 0
    else
      var n := |vols| - 1;
      Continuations(s, vols[..n], carried) +
      if IsSelected(s, vols[n]) && LastKept(s, vols[..n], carried) == Last(vols[n].firstIndex) then 1 else 0
  }

  /** One when the first selected record starts at the index carried in. */
  ghost function CarriedTouch(s: seq<Interval>, vols: seq<VolParam>, carried: Last): nat {
    if vols == [] then 0
    else
      var n := |vols| - 1;
      if LastOf(s, vols[..n]).Last? then CarriedTouch(s, vols[..n], carried)
      else if IsSelected(s, vols[n]) && carried == Last(vols[n].firstIndex) then 1 else 0
  }

  function LastFrom(first: bool, lastIndex: int): Last {
    if first then NoLast else Last(lastIndex)
  }

  /** What is written for a record: its selected indexes, as maximal runs if no intervals overlap, and their number. */
  ghost predicate IsEntry(s: seq<Interval>, v: VolParam, e: Entry) {
    && e.volumeName == v.volumeName && Proper(e.lines) && e.count == Size(e.lines) > 0
    && (forall x :: Covers(e.lines, x) <==> x in Selected(s, v.firstIndex, v.lastIndex))
    && (Increasing(s) ==> Canonical(e.lines) && e.count == |Selected(s, v.firstIndex, v.lastIndex)|)
  }

  /** One entry for each selected record, in order. */
  ghost predicate AreEntries(s: seq<Interval>, vols: seq<VolParam>, entries: seq<Entry>) {
    if vols == [] then entries == []
    else
      var n := |vols| - 1;
      if IsSelected(s, vols[n])
      then entries != [] && IsEntry(s, vols[n], entries[|entries| - 1]) && AreEntries(s, vols[..n], entries[..|entries| - 1])
      else AreEntries(s, vols[..n], entries)
  }

  function SumCounts(entries: seq<Entry>): int {
    if entries == [] then 0 else SumCounts(entries[..|entries| - 1]) + entries[|entries| - 1].count
  }

  /** What is written and counted after the records vols. */
  ghost predicate Written(s: seq<Interval>, vols: seq<VolParam>, carried: Last,
                          entries: seq<Entry>, total: int, first: bool, lastIndex: int) {
    && AreEntries(s, vols, entries)
    && total == SumCounts(entries) - Continuations(s, vols, carried)
    && LastFrom(first, lastIndex) == LastKept(s, vols, carried)
  }

  lemma {:induction false} RecordSkipped(s: seq<Interval>, vols: seq<VolParam>, n: nat, carried: Last,
                      entries: seq<Entry>, total: int, first: bool, lastIndex: int)
    requires n < |vols| && Written(s, vols[..n], carried, entries, total, first, lastIndex) && !IsSelected(s, vols[n])
    ensures Written(s, vols[..n + 1], carried, entries, total, first, lastIndex)
  {
    assert vols[..n + 1][..n] == vols[..n];
  }

  lemma {:induction false} RecordWritten(s: seq<Interval>, vols: seq<VolParam>, n: nat, carried: Last,
                      entries: seq<Entry>, total: int, first: bool, lastIndex: int, e: Entry)
    requires n < |vols| && Written(s, vols[..n], carried, entries, total, first, lastIndex)
    requires IsSelected(s, vols[n]) && IsEntry(s, vols[n], e)
    ensures Written(s, vols[..n + 1], carried, entries + [e],
                    total + e.count - if !first && lastIndex == vols[n].firstIndex then 1 else 0, false, vols[n].lastIndex)
  {
    assert vols[..n + 1][..n] == vols[..n];
    assert (entries + [e])[..|entries|] == entries;
  }

  /** A record as it is left: the name of one that was not selected is zapped. */
  ghost function Left(s: seq<Interval>, v: VolParam): VolParam {
    if IsSelected(s, v) then v else VolParam("", v.firstIndex, v.lastIndex)
  }

  /** The part of the loop body that writes a selected record. */
  method WriteEntry(s: seq<Interval>, v: VolParam) returns (e: Entry)
    requires Proper(s) && v.firstIndex <= v.lastIndex && IsSelected(s, v)
    ensures IsEntry(s, v, e)
  {
    var lines, count := WriteFindex(s, v.firstIndex, v.lastIndex);
    SizePositive(lines);
    e := Entry(v.volumeName, lines, count);
  }

  /** The loop body of `write_bsr_item`. */
  method WriteRecord(s: seq<Interval>, v: VolParam, entries: seq<Entry>, total: int, first: bool, lastIndex: int,
                     ghost vols: seq<VolParam>, ghost n: nat, ghost carried: Last)
    returns (v': VolParam, entries': seq<Entry>, total': int, first': bool, lastIndex': int)
    requires Proper(s) && n < |vols| && v == vols[n] && v.firstIndex <= v.lastIndex
    requires Written(s, vols[..n], carried, entries, total, first, lastIndex)
    ensures v' == Left(s, v) && Written(s, vols[..n + 1], carried, entries', total', first', lastIndex')
  {
    v', entries', total', first', lastIndex' := v, entries, total, first, lastIndex;
    var selected := IsVolumeSelected(s, v.firstIndex, v.lastIndex);
    if !selected {
      RecordSkipped(s, vols, n, carried, entries, total, first, lastIndex);
      v' := v.(volumeName := "");
      return;
    }
    var entry := WriteEntry(s, v);
    RecordWritten(s, vols, n, carried, entries, total, first, lastIndex, entry);
    entries', total' := entries + [entry], total + entry.count;
    if !first && lastIndex == v.firstIndex {
      total' := total' - 1;
    }
    first', lastIndex' := false, v.lastIndex;
  }

  /**
   `write_bsr_item`: one entry for each record that holds a selected index; the name of the others is
   zapped. A record that starts where the last one ended is counted one less.
   */
  method WriteBsrItem(s: seq<Interval>, vols: array<VolParam>, first: bool, lastIndex: int)
    returns (entries: seq<Entry>, total: int, first': bool, lastIndex': int)
    requires Proper(s) && NoneEmpty(vols[..])
    modifies vols
    ensures forall i :: 0 <= i < vols.Length ==> vols[i] == Left(s, old(vols[i]))
    ensures Written(s, old(vols[..]), LastFrom(first, lastIndex), entries, total, first', lastIndex')
  {
    ghost var vs := vols[..];
    entries, total, first', lastIndex' := [], 0, first, lastIndex;
    for i := 0 to vols.Length
      invariant forall k :: i <= k < vols.Length ==> vols[k] == vs[k]
      invariant forall k :: 0 <= k < i ==> vols[k] == Left(s, vs[k])
      invariant Written(s, vs[..i], LastFrom(first, lastIndex), entries, total, first', lastIndex')
    {
      var v;
      v, entries, total, first', lastIndex' :=
        WriteRecord(s, vols[i], entries, total, first', lastIndex', vs, i, LastFrom(first, lastIndex));
      vols[i] := v;
    }
    assert vs[..vols.Length] == vs;
  }

  lemma {:induction false} NothingSelected(s: seq<Interval>, vols: seq<VolParam>, carried: Last)
    requires LastOf(s, vols) == NoLast
    ensures CarriedTouch(s, vols, carried) == 0
    decreases |vols|
  {
    if vols != [] {
      NothingSelected(s, vols[..|vols| - 1], carried);
    }
  }

  function One(b: bool): nat {
    if b then 1 else 0
  }

  /** What a selected record adds to each of the counts. */
  lemma {:induction false} SelectedAdds(s: seq<Interval>, vols: seq<VolParam>, n: nat, carried: Last, entries: seq<Entry>)
    requires |vols| == n + 1 && IsSelected(s, vols[n]) && Increasing(s) && AreEntries(s, vols, entries)
    ensures var (front, v) := (vols[..n], vols[n]);
            var starts := LastOf(s, front) == NoLast && carried == Last(v.firstIndex);
            && entries != [] && AreEntries(s, front, entries[..|entries| - 1])
            && SumCounts(entries) == SumCounts(entries[..|entries| - 1]) + |Selected(s, v.firstIndex, v.lastIndex)|
            && Continuations(s, vols, carried) == Continuations(s, front, carried) + One(Touches(s, vols, n)) + One(starts)
            && FalseTouches(s, vols) == FalseTouches(s, front) + One(Touches(s, vols, n) && !Covers(s, v.firstIndex))
            && CarriedTouch(s, vols, carried) == CarriedTouch(s, front, carried) + One(starts)
  {
    if LastOf(s, vols[..n]) == NoLast {
      NothingSelected(s, vols[..n], carried);
    }
  }

  /** Entries less continuations are distinct indexes less the touches that double nothing. */
  ghost predicate IsBalanced(s: seq<Interval>, vols: seq<VolParam>, carried: Last, entries: seq<Entry>) {
    SumCounts(entries) - Continuations(s, vols, carried) ==
    |UnionOf(s, vols)| - FalseTouches(s, vols) - CarriedTouch(s, vols, carried)
  }

  lemma {:induction false} Balance(sum: int, size: int, cont: int, union: int, touch: int, carried: int, t: bool, covered: bool, starts: bool)
    requires sum - cont == union - touch - carried
    ensures sum + size - (cont + One(t) + One(starts)) ==
            (union + size - if t && covered then 1 else 0) - (touch + One(t && !covered)) - (carried + One(starts))
  {
  }

  lemma {:induction false} SelectedTotal(s: seq<Interval>, vols: seq<VolParam>, n: nat, carried: Last, entries: seq<Entry>)
    requires |vols| == n + 1 && IsSelected(s, vols[n]) && Increasing(s) && Ascending(vols) && AreEntries(s, vols, entries)
    requires IsBalanced(s, vols[..n], carried, entries[..|entries| - 1])
    ensures IsBalanced(s, vols, carried, entries)
  {
    var (front, v) := (vols[..n], vols[n]);
    SelectedAdds(s, vols, n, carried, entries);
    assert vols[..n + 1] == vols;
    UnionGrows(s, vols, n);
    Balance(SumCounts(entries[..|entries| - 1]), |Selected(s, v.firstIndex, v.lastIndex)|, Continuations(s, front, carried),
            |UnionOf(s, front)|, FalseTouches(s, front), CarriedTouch(s, front, carried),
            Touches(s, vols, n), Covers(s, v.firstIndex), LastOf(s, front) == NoLast && carried == Last(v.firstIndex));
  }

  lemma {:induction false} UnselectedTotal(s: seq<Interval>, vols: seq<VolParam>, n: nat, carried: Last, entries: seq<Entry>)
    requires |vols| == n + 1 && !IsSelected(s, vols[n]) && IsBalanced(s, vols[..n], carried, entries)
    ensures IsBalanced(s, vols, carried, entries)
  {
    assert UnionOf(s, vols) == UnionOf(s, vols[..n]);
    if LastOf(s, vols[..n]) == NoLast {
      NothingSelected(s, vols[..n], carried);
    }
  }

  /** For disjoint intervals the total is the number of distinct indexes, less the touches that double nothing. */
  lemma {:induction false} TotalIs(s: seq<Interval>, vols: seq<VolParam>, carried: Last, entries: seq<Entry>)
    requires Increasing(s) && Ascending(vols) && AreEntries(s, vols, entries)
    ensures IsBalanced(s, vols, carried, entries)
    decreases |vols|
  {
    if vols != [] {
      var n := |vols| - 1;
      if IsSelected(s, vols[n]) {
        TotalIs(s, vols[..n], carried, entries[..|entries| - 1]);
        SelectedTotal(s, vols, n, carried, entries);
      } else {
        TotalIs(s, vols[..n], carried, entries);
        UnselectedTotal(s, vols, n, carried, entries);
      }
    }
  }

  lemma {:induction false} NoFalseTouchIff(s: seq<Interval>, vols: seq<VolParam>)
    ensures FalseTouches(s, vols) == 0 <==> forall i :: 0 <= i < |vols| && Touches(s, vols, i) ==> Covers(s, vols[i].firstIndex)
    decreases |vols|
  {
    if vols != [] {
      var n := |vols| - 1;
      NoFalseTouchIff(s, vols[..n]);
      forall i | 0 <= i < n ensures Touches(s, vols[..n], i) <==> Touches(s, vols, i) {
        assert vols[..n][..i] == vols[..i];
      }
    }
  }

  /** Record i is the first one selected. */
  ghost predicate IsFirstSelected(s: seq<Interval>, vols: seq<VolParam>, i: nat)
    requires i < |vols|
  {
    IsSelected(s, vols[i]) && LastOf(s, vols[..i]) == NoLast
  }

  lemma {:induction false} NoCarriedTouchIff(s: seq<Interval>, vols: seq<VolParam>, carried: Last)
    ensures CarriedTouch(s, vols, carried) == 0 <==>
            forall i :: 0 <= i < |vols| && IsFirstSelected(s, vols, i) ==> carried != Last(vols[i].firstIndex)
    decreases |vols|
  {
    if vols != [] {
      var n := |vols| - 1;
      NoCarriedTouchIff(s, vols[..n], carried);
      forall i | 0 <= i < n ensures IsFirstSelected(s, vols[..n], i) <==> IsFirstSelected(s, vols, i) {
        assert vols[..n][..i] == vols[..i];
      }
      forall i | 0 <= i < n && IsFirstSelected(s, vols, i) ensures LastOf(s, vols[..n]).Last? {
        SelectedIsLast(s, vols[..n], i);
      }
      if LastOf(s, vols[..n]) == NoLast {
        assert CarriedTouch(s, vols[..n], carried) == 0 by { NothingSelected(s, vols[..n], carried); }
      }
    }
  }

  lemma {:induction false} SelectedIsLast(s: seq<Interval>, vols: seq<VolParam>, i: nat)
    requires i < |vols| && IsSelected(s, vols[i])
    ensures LastOf(s, vols).Last?
    decreases |vols|
  {
    if i < |vols| - 1 {
      SelectedIsLast(s, vols[..|vols| - 1], i);
    }
  }

  /**
   The total written is the number of distinct selected indexes exactly when every index at which two
   selected records touch is itself selected, and the first one does not start at the index carried in.
   */
  lemma {:induction false} TotalIsExactIff(s: seq<Interval>, vols: seq<VolParam>, carried: Last,
                        entries: seq<Entry>, total: int, first: bool, lastIndex: int)
    requires Increasing(s) && Ascending(vols) && Written(s, vols, carried, entries, total, first, lastIndex)
    ensures total == |UnionOf(s, vols)| <==>
            (forall i :: 0 <= i < |vols| && Touches(s, vols, i) ==> Covers(s, vols[i].firstIndex)) &&
            (forall i :: 0 <= i < |vols| && IsFirstSelected(s, vols, i) ==> carried != Last(vols[i].firstIndex))
  {
    TotalIs(s, vols, carried, entries);
    NoFalseTouchIff(s, vols);
    NoCarriedTouchIff(s, vols, carried);
  }

  // ----- scan_findex and scan_bsr_item

  /** The last index listed and its job, carried from record to record. */
  datatype Carry = Carry(lastFileIndex: int, lastJobId: nat)

  /** x was listed already as the end of an earlier record. */
  predicate ListedBefore(c: Carry, jobId: nat, x: int) {
    c.lastJobId == jobId && x == c.lastFileIndex
  }

  /** Nothing of the job was listed yet, or the last index listed is at most x. */
  predicate ReadyFor(c: Carry, jobId: nat, x: int) {
    if c.lastJobId == jobId then c.lastFileIndex <= x else c == Carry(0, 0)
  }

  /** The carry holds the greatest selected index seen in the record, or is untouched. */
  ghost predicate ScanCarry(seen: seq<Interval>, jobId: nat, firstIndex: int, lastIndex: int, carry: Carry, carry': Carry) {
    if Selected(seen, firstIndex, lastIndex) == {} then carry' == carry
    else carry'.lastJobId == jobId && carry'.lastFileIndex in Selected(seen, firstIndex, lastIndex) &&
         forall x :: x in Selected(seen, firstIndex, lastIndex) ==> x <= carry'.lastFileIndex
  }

  /** The indexes seen in the record are listed, here or before, and so is the one carried. */
  ghost predicate AllListed(seen: seq<Interval>, jobId: nat, firstIndex: int, lastIndex: int, carry: Carry,
                            ranges: seq<Interval>, carry': Carry) {
    && Proper(ranges)
    && (forall x :: Covers(ranges, x) ==> firstIndex <= x <= lastIndex && Covers(seen, x))
    && (forall x :: firstIndex <= x <= lastIndex && Covers(seen, x) ==> Covers(ranges, x) || ListedBefore(carry, jobId, x))
    && (carry' == carry || (carry'.lastJobId == jobId &&
                            (Covers(ranges, carry'.lastFileIndex) || ListedBefore(carry, jobId, carry'.lastFileIndex))))
  }

  /** They are listed once, in order. */
  ghost predicate ListedOnce(seen: seq<Interval>, jobId: nat, firstIndex: int, lastIndex: int, carry: Carry,
                             ranges: seq<Interval>, carry': Carry) {
    && Increasing(ranges)
    && (forall x :: Covers(ranges, x) ==> !ListedBefore(carry, jobId, x))
    && ScanCarry(seen, jobId, firstIndex, lastIndex, carry, carry')
  }

  /** What is listed for a group: all of it, or without its first index if that was listed last. */
  function RangeFor(n: Interval, jobId: nat, carry: Carry): seq<Interval> {
    if !ListedBefore(carry, jobId, n.lo) then [n]
    else if n.hi != carry.lastFileIndex then [Interval(n.lo + 1, n.hi)]
    else []
  }

  lemma {:induction false} RangeForCovers(n: Interval, jobId: nat, carry: Carry, x: int)
    requires n.lo <= n.hi
    ensures Proper(RangeFor(n, jobId, carry))
    ensures Covers(RangeFor(n, jobId, carry), x) <==> n.lo <= x <= n.hi && !(x == n.lo && ListedBefore(carry, jobId, x))
  {
    var r := RangeFor(n, jobId, carry);
    if r != [] {
      assert Covers(r, x) <==> r[0].lo <= x <= r[0].hi;
    }
  }

  lemma {:induction false} CoversJoin(a: seq<Interval>, b: seq<Interval>, x: int)
    ensures Covers(a + b, x) <==> Covers(a, x) || Covers(b, x)
  {
    CoversSplit(a + b, |a|, |a + b|, x);
    assert (a + b)[..|a|] == a && (a + b)[|a|..|a + b|] == b && (a + b)[..|a + b|] == a + b;
  }

  /** A group outside the record changes nothing. */
  lemma {:induction false} GroupOutside(seen: seq<Interval>, more: seq<Interval>, lo: int, hi: int, firstIndex: int, lastIndex: int, x: int)
    requires lo <= hi && firstIndex <= lastIndex && !Overlaps(lo, hi, firstIndex, lastIndex)
    requires forall x :: Covers(more, x) <==> Covers(seen, x) || lo <= x <= hi
    ensures firstIndex <= x <= lastIndex ==> (Covers(more, x) <==> Covers(seen, x))
    ensures Selected(more, firstIndex, lastIndex) == Selected(seen, firstIndex, lastIndex)
  {
  }

  /** A group inside the record is listed, clipped. */
  lemma {:induction false} GroupListed(seen: seq<Interval>, more: seq<Interval>, lo: int, hi: int, n: Interval, jobId: nat,
                    firstIndex: int, lastIndex: int, carry: Carry, ranges: seq<Interval>, carry': Carry)
    requires AllListed(seen, jobId, firstIndex, lastIndex, carry, ranges, carry')
    requires lo <= hi && firstIndex <= lastIndex && Overlaps(lo, hi, firstIndex, lastIndex) && Clipped(n, lo, hi, firstIndex, lastIndex)
    requires forall x :: Covers(more, x) <==> Covers(seen, x) || lo <= x <= hi
    ensures AllListed(more, jobId, firstIndex, lastIndex, carry, ranges + RangeFor(n, jobId, carry'), Carry(n.hi, jobId))
  {
    var listed := RangeFor(n, jobId, carry');
    forall x ensures Covers(ranges + listed, x) <==>
                     Covers(ranges, x) || (n.lo <= x <= n.hi && !(x == n.lo && ListedBefore(carry', jobId, x)))
    {
      CoversJoin(ranges, listed, x);
      RangeForCovers(n, jobId, carry', x);
    }
    RangeForCovers(n, jobId, carry', 0);
    ProperJoin(ranges, listed);
  }

  lemma {:induction false} ProperJoin(a: seq<Interval>, b: seq<Interval>)
    requires Proper(a) && Proper(b)
    ensures Proper(a + b)
  {
  }

  /** If the group lies after all that was seen, it is listed once and in order. */
  lemma {:induction false} GroupInOrder(seen: seq<Interval>, more: seq<Interval>, lo: int, hi: int, n: Interval, jobId: nat,
                     firstIndex: int, lastIndex: int, carry: Carry, ranges: seq<Interval>, carry': Carry)
    requires AllListed(seen, jobId, firstIndex, lastIndex, carry, ranges, carry')
    requires ListedOnce(seen, jobId, firstIndex, lastIndex, carry, ranges, carry')
    requires lo <= hi && firstIndex <= lastIndex && Overlaps(lo, hi, firstIndex, lastIndex) && Clipped(n, lo, hi, firstIndex, lastIndex)
    requires forall x :: Covers(more, x) <==> Covers(seen, x) || lo <= x <= hi
    requires ReadyFor(carry, jobId, firstIndex) && jobId != 0 && 0 < lo && forall x :: Covers(seen, x) ==> x < lo
    ensures ListedOnce(more, jobId, firstIndex, lastIndex, carry, ranges + RangeFor(n, jobId, carry'), Carry(n.hi, jobId))
  {
    var listed := RangeFor(n, jobId, carry');
    GroupAfterCarry(seen, jobId, firstIndex, lastIndex, carry, carry', lo, n.lo);
    forall x ensures Covers(listed, x) <==> n.lo <= x <= n.hi && !(x == n.lo && ListedBefore(carry', jobId, x)) {
      RangeForCovers(n, jobId, carry', x);
    }
    forall x ensures Covers(ranges + listed, x) <==> Covers(ranges, x) || Covers(listed, x) {
      CoversJoin(ranges, listed, x);
    }
    if listed == [] {
      assert ranges + listed == ranges;
    } else {
      assert listed == [listed[0]];
      RangeAfter(ranges, listed[0]);
    }
    assert n.hi in Selected(more, firstIndex, lastIndex);
  }

  /** The next group starts at the carried index only if that is where an earlier record ended. */
  lemma {:induction false} GroupAfterCarry(seen: seq<Interval>, jobId: nat, firstIndex: int, lastIndex: int, carry: Carry, carry': Carry, lo: int, findex: int)
    requires ScanCarry(seen, jobId, firstIndex, lastIndex, carry, carry') && ReadyFor(carry, jobId, firstIndex)
    requires jobId != 0 && 0 < lo <= findex && firstIndex <= findex
    requires forall x :: Covers(seen, x) ==> x < lo
    ensures carry'.lastJobId == jobId ==> carry'.lastFileIndex <= findex
    ensures carry'.lastJobId == jobId && carry'.lastFileIndex == findex ==> carry' == carry
    ensures ListedBefore(carry, jobId, findex) ==> carry' == carry
  {
  }

  lemma {:induction false} RangeAfter(ranges: seq<Interval>, n: Interval)
    requires Increasing(ranges) && n.lo <= n.hi && forall x :: Covers(ranges, x) ==> x < n.lo
    ensures Increasing(ranges + [n])
  {
    forall i | 0 <= i < |ranges| ensures ranges[i].hi < n.lo {
      assert Covers(ranges, ranges[i].hi);
    }
  }

  /** What `scan_findex` promises for a record. */
  ghost predicate RecordScanned(s: seq<Interval>, seen: seq<Interval>, jobId: nat, firstIndex: int, lastIndex: int,
                                carry: Carry, ranges: seq<Interval>, carry': Carry) {
    && AllListed(seen, jobId, firstIndex, lastIndex, carry, ranges, carry')
    && (Increasing(s) && ReadyFor(carry, jobId, firstIndex) ==>
          ListedOnce(seen, jobId, firstIndex, lastIndex, carry, ranges, carry'))
  }

  lemma {:induction false} GroupScanned(s: seq<Interval>, i: nat, next: nat, lo: int, hi: int, n: Interval, jobId: nat,
                     firstIndex: int, lastIndex: int, carry: Carry, ranges: seq<Interval>, carry': Carry)
    requires Above(0, s) && jobId != 0 && firstIndex <= lastIndex && i < next <= |s| && s[i].lo == lo <= hi
    requires RecordScanned(s, s[..i], jobId, firstIndex, lastIndex, carry, ranges, carry')
    requires forall x :: Covers(s[..next], x) <==> Covers(s[..i], x) || lo <= x <= hi
    requires Increasing(s) ==> forall x :: Covers(s[..i], x) ==> x < lo
    ensures !Overlaps(lo, hi, firstIndex, lastIndex) ==>
              RecordScanned(s, s[..next], jobId, firstIndex, lastIndex, carry, ranges, carry')
    ensures Overlaps(lo, hi, firstIndex, lastIndex) && Clipped(n, lo, hi, firstIndex, lastIndex) ==>
              RecordScanned(s, s[..next], jobId, firstIndex, lastIndex, carry, ranges + RangeFor(n, jobId, carry'), Carry(n.hi, jobId))
  {
    if !Overlaps(lo, hi, firstIndex, lastIndex) {
      forall x ensures firstIndex <= x <= lastIndex ==> (Covers(s[..next], x) <==> Covers(s[..i], x)) {
        GroupOutside(s[..i], s[..next], lo, hi, firstIndex, lastIndex, x);
      }
      GroupOutside(s[..i], s[..next], lo, hi, firstIndex, lastIndex, 0);
    } else if Clipped(n, lo, hi, firstIndex, lastIndex) {
      GroupListed(s[..i], s[..next], lo, hi, n, jobId, firstIndex, lastIndex, carry, ranges, carry');
      if Increasing(s) && ReadyFor(carry, jobId, firstIndex) {
        GroupInOrder(s[..i], s[..next], lo, hi, n, jobId, firstIndex, lastIndex, carry, ranges, carry');
      }
    }
  }

  /** In a list without overlaps what lies before an interval is smaller. */
  lemma {:induction false} BeforeIsSmaller(s: seq<Interval>, i: nat)
    requires i < |s|
    ensures Increasing(s) ==> forall x :: Covers(s[..i], x) ==> x < s[i].lo
  {
  }

  /** The part of the loop body that lists a group, and keeps its end for the next. */
  method ListGroup(findex: int, findex2: int, jobId: nat, ranges: seq<Interval>, carry: Carry)
    returns (ranges': seq<Interval>, carry': Carry)
    ensures ranges' == ranges + RangeFor(Interval(findex, findex2), jobId, carry) && carry' == Carry(findex2, jobId)
  {
    var dolist, fileIndex := false, 0;
    if findex != carry.lastFileIndex || jobId != carry.lastJobId {
      fileIndex := findex;
      dolist := true;
    } else if findex2 != carry.lastFileIndex {
      fileIndex := findex + 1;
      dolist := true;
    }
    carry' := Carry(findex2, jobId);
    ranges' := ranges;
    if dolist {
      ranges' := ranges + [Interval(fileIndex, findex2)];
    }
  }

  /**
   `scan_findex`: the ranges of the file queries for one record. With the index carried in from the
   record before they hold the selected indexes of the record; if no intervals overlap, once and in order.
   */
  method ScanFindex(s: seq<Interval>, jobId: nat, firstIndex: int, lastIndex: int, carry: Carry)
    returns (ranges: seq<Interval>, carry': Carry)
    requires Proper(s) && Above(0, s) && firstIndex <= lastIndex && jobId != 0
    ensures RecordScanned(s, s, jobId, firstIndex, lastIndex, carry, ranges, carry')
  {
    ranges, carry' := [], carry;
    var fi := 0;
    while fi < |s|
      invariant 0 <= fi <= |s|
      invariant RecordScanned(s, s[..fi], jobId, firstIndex, lastIndex, carry, ranges, carry')
    {
      var findex := s[fi].lo;
      var next, findex2 := MergeFrom(s, fi);
      BeforeIsSmaller(s, fi);
      if Overlaps(findex, findex2, firstIndex, lastIndex) {
        var clipped, clipped2 := Clip(findex, findex2, firstIndex, lastIndex);
        GroupScanned(s, fi, next, findex, findex2, Interval(clipped, clipped2), jobId, firstIndex, lastIndex, carry, ranges, carry');
        ranges, carry' := ListGroup(clipped, clipped2, jobId, ranges, carry');
      } else {
        GroupScanned(s, fi, next, findex, findex2, s[fi], jobId, firstIndex, lastIndex, carry, ranges, carry');
      }
      fi := next;
    }
    assert s[..|s|] == s;
  }

  /** What holds after the first i records. */
  ghost predicate Scanned(s: seq<Interval>, jobId: nat, vols: seq<VolParam>, i: nat, ranges: seq<Interval>, carry: Carry) {
    && i <= |vols| && Proper(ranges)
    && (forall x :: Covers(ranges, x) <==> x in UnionOf(s, vols[..i]))
    && (carry.lastJobId == jobId ==> Covers(ranges, carry.lastFileIndex))
    && (Increasing(s) && Ascending(vols) ==> ScannedInOrder(jobId, vols, i, ranges, carry))
  }

  ghost predicate ScannedInOrder(jobId: nat, vols: seq<VolParam>, i: nat, ranges: seq<Interval>, carry: Carry) {
    && Increasing(ranges)
    && (i < |vols| ==> ReadyFor(carry, jobId, vols[i].firstIndex))
    && (carry == Carry(0, 0) || carry.lastJobId == jobId)
    && (forall x :: Covers(ranges, x) ==> carry.lastJobId == jobId && x <= carry.lastFileIndex)
  }

  lemma {:induction false} ListsJoin(a: seq<Interval>, b: seq<Interval>)
    requires Increasing(a) && Increasing(b) && forall x, y :: Covers(a, x) && Covers(b, y) ==> x < y
    ensures Increasing(a + b)
  {
    forall i, k | 0 <= i < |a| && 0 <= k < |b| ensures a[i].hi < b[k].lo {
      assert Covers(a, a[i].hi) && Covers(b, b[k].lo);
    }
  }

  lemma {:induction false} RecordAdded(s: seq<Interval>, jobId: nat, vols: seq<VolParam>, i: nat, ranges: seq<Interval>, carry: Carry,
                    more: seq<Interval>, next: Carry)
    requires jobId != 0 && i < |vols| && Scanned(s, jobId, vols, i, ranges, carry)
    requires AllListed(s, jobId, vols[i].firstIndex, vols[i].lastIndex, carry, more, next)
    ensures Proper(ranges + more) && forall x :: Covers(ranges + more, x) <==> x in UnionOf(s, vols[..i + 1])
    ensures next.lastJobId == jobId ==> Covers(ranges + more, next.lastFileIndex)
  {
    assert vols[..i + 1][..i] == vols[..i] && vols[..i + 1][i] == vols[i];
    forall x ensures Covers(ranges + more, x) <==> Covers(ranges, x) || Covers(more, x) {
      CoversJoin(ranges, more, x);
    }
    ProperJoin(ranges, more);
  }

  lemma {:induction false} RecordInOrder(s: seq<Interval>, jobId: nat, vols: seq<VolParam>, i: nat, ranges: seq<Interval>, carry: Carry,
                      more: seq<Interval>, next: Carry)
    requires jobId != 0 && i < |vols| && Ascending(vols) && ScannedInOrder(jobId, vols, i, ranges, carry)
    requires AllListed(s, jobId, vols[i].firstIndex, vols[i].lastIndex, carry, more, next) && IsSelected(s, vols[i])
    requires ListedOnce(s, jobId, vols[i].firstIndex, vols[i].lastIndex, carry, more, next)
    ensures ScannedInOrder(jobId, vols, i + 1, ranges + more, next)
  {
    var v := vols[i];
    forall x ensures Covers(ranges + more, x) <==> Covers(ranges, x) || Covers(more, x) {
      CoversJoin(ranges, more, x);
    }
    ListsJoin(ranges, more);
    forall x | Covers(ranges, x) || Covers(more, x) ensures x <= next.lastFileIndex {
      assert Covers(more, x) ==> x in Selected(s, v.firstIndex, v.lastIndex);
    }
  }

  lemma {:induction false} ScanStep(s: seq<Interval>, jobId: nat, vols: seq<VolParam>, i: nat, ranges: seq<Interval>, carry: Carry,
                 more: seq<Interval>, next: Carry)
    requires jobId != 0 && i < |vols| && Scanned(s, jobId, vols, i, ranges, carry) && IsSelected(s, vols[i])
    requires RecordScanned(s, s, jobId, vols[i].firstIndex, vols[i].lastIndex, carry, more, next)
    ensures Scanned(s, jobId, vols, i + 1, ranges + more, next)
  {
    RecordAdded(s, jobId, vols, i, ranges, carry, more, next);
    if Increasing(s) && Ascending(vols) {
      RecordInOrder(s, jobId, vols, i, ranges, carry, more, next);
    }
  }

  lemma {:induction false} ScanSkip(s: seq<Interval>, jobId: nat, vols: seq<VolParam>, i: nat, ranges: seq<Interval>, carry: Carry)
    requires i < |vols| && Scanned(s, jobId, vols, i, ranges, carry) && !IsSelected(s, vols[i])
    ensures Scanned(s, jobId, vols, i + 1, ranges, carry)
  {
    assert vols[..i + 1][..i] == vols[..i] && vols[..i + 1][i] == vols[i];
  }

  /**
   `scan_bsr_item`: exactly the selected indexes in some record are listed; if no intervals overlap and
   the records ascend, each once and in ascending order.
   */
  method ScanBsrItem(s: seq<Interval>, jobId: nat, vols: seq<VolParam>) returns (ranges: seq<Interval>)
    requires Proper(s) && Above(0, s) && jobId != 0 && NoneEmpty(vols)
    ensures Proper(ranges) && forall x :: Covers(ranges, x) <==> x in UnionOf(s, vols)
    ensures Increasing(s) && Ascending(vols) ==> Increasing(ranges)
  {
    ranges := [];
    var carry := Carry(0, 0);
    for i := 0 to |vols|
      invariant Scanned(s, jobId, vols, i, ranges, carry)
    {
      var v := vols[i];
      var selected := IsVolumeSelected(s, v.firstIndex, v.lastIndex);
      if !selected {
        ScanSkip(s, jobId, vols, i, ranges, carry);
        continue;
      }
      var more, next := ScanFindex(s, jobId, v.firstIndex, v.lastIndex, carry);
      ScanStep(s, jobId, vols, i, ranges, carry, more, next);
      ranges, carry := ranges + more, next;
    }
    assert vols[..|vols|] == vols;
  }
}
