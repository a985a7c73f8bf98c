/**
 What the line pool remembers: the lines in use, oldest first, as repeated `getprev` visits them in
 reverse, and exactly when `putline` loses none but the oldest.
 */
module LineHistory {
  import opened LinePool

  predicate Rises(s: seq<nat>) {
    forall i, k :: 0 <= i < k < |s| ==> s[i] < s[k]
  }

  lemma {:induction false} RisesJoin(a: seq<nat>, b: seq<nat>)
    requires Rises(a) && Rises(b) && forall x, y :: x in a && y in b ==> x < y
    ensures Rises(a + b)
  {
    forall i, k | 0 <= i < k < |a + b| ensures (a + b)[i] < (a + b)[k] {
      if i < |a| <= k {
        assert a[i] in a && b[k - |a|] in b;
      }
    }
  }

  lemma {:induction false} LastIsGreatest(s: seq<nat>, x: nat)
    requires Rises(s) && x in s
    ensures x in s[..|s| - 1] <==> x != s[|s| - 1]
    ensures x <= s[|s| - 1]
  {
    var i :| 0 <= i < |s| && s[i] == x;
    if i < |s| - 1 {
      assert s[..|s| - 1][i] == x;
    }
  }

  ghost predicate SameElements(a: seq<nat>, b: seq<nat>) {
    forall x :: x in a <==> x in b
  }

  lemma {:induction false} SameLast(a: seq<nat>, b: seq<nat>)
    requires Rises(a) && Rises(b) && SameElements(a, b)
    ensures a == [] <==> b == []
    ensures a != [] ==> a[|a| - 1] == b[|b| - 1]
  {
    assert a == [] || a[0] in a;
    assert b == [] || b[0] in b;
    if a != [] {
      assert a[|a| - 1] in a && b[|b| - 1] in b;
      LastIsGreatest(a, b[|b| - 1]);
      LastIsGreatest(b, a[|a| - 1]);
    }
  }

  lemma {:induction false} SameFronts(a: seq<nat>, b: seq<nat>)
    requires Rises(a) && Rises(b) && SameElements(a, b) && a != [] && b != [] && a[|a| - 1] == b[|b| - 1]
    ensures Rises(a[..|a| - 1]) && Rises(b[..|b| - 1]) && SameElements(a[..|a| - 1], b[..|b| - 1])
  {
    var (front, other) := (a[..|a| - 1], b[..|b| - 1]);
    forall x ensures x in front <==> x in other {
      if x in a {
        LastIsGreatest(a, x);
        LastIsGreatest(b, x);
      }
    }
  }

  /** Two ascending lists of the same numbers are the same. */
  lemma {:induction false} RisingIsUnique(a: seq<nat>, b: seq<nat>)
    requires Rises(a) && Rises(b) && SameElements(a, b)
    ensures a == b
    decreases |a|
  {
    SameLast(a, b);
    if a != [] {
      var (m, n) := (|a| - 1, |b| - 1);
      SameFronts(a, b);
      RisingIsUnique(a[..m], b[..n]);
      assert a == a[..m] + [a[m]] && b == b[..n] + [b[n]];
    }
  }

  /** A line in use starts at b, between lo and hi. */
  predicate UsedAt(blocks: seq<nat>, hdr: Headers, lo: nat, hi: nat, b: nat) {
    b in blocks && IsUsed(hdr, b) && lo <= b < hi
  }

  /** The lines in use that start from lo up to hi, in address order. */
  function UsedIn(blocks: seq<nat>, hdr: Headers, lo: nat, hi: nat): seq<nat> {
    if blocks == [] then []
    else
      var b := blocks[|blocks| - 1];
      UsedIn(blocks[..|blocks| - 1], hdr, lo, hi) + if lo <= b < hi && IsUsed(hdr, b) then [b] else []
  }

  lemma {:induction false} UsedInIs(blocks: seq<nat>, hdr: Headers, lo: nat, hi: nat)
    requires Rises(blocks)
    ensures Rises(UsedIn(blocks, hdr, lo, hi))
    ensures forall b {:trigger UsedAt(blocks, hdr, lo, hi, b)} {:trigger b in UsedIn(blocks, hdr, lo, hi)} ::
              b in UsedIn(blocks, hdr, lo, hi) <==> UsedAt(blocks, hdr, lo, hi, b)
    decreases |blocks|
  {
    if blocks != [] {
      var (front, last) := (blocks[..|blocks| - 1], blocks[|blocks| - 1]);
      UsedInIs(front, hdr, lo, hi);
      forall b | b in blocks ensures b in front <==> b != last {
        LastIsGreatest(blocks, b);
      }
      forall b | b in front ensures b < last {
        LastIsGreatest(blocks, b);
      }
      RisesJoin(UsedIn(front, hdr, lo, hi), if lo <= last < hi && IsUsed(hdr, last) then [last] else []);
    }
  }

  /** The lines held, oldest first: those behind the newest one in the pool, then those up to it. */
  function History(blocks: seq<nat>, hdr: Headers, slptr: nat, poolen: nat): seq<nat> {
    UsedIn(blocks, hdr, slptr + 1, poolen) + UsedIn(blocks, hdr, 0, slptr + 1)
  }

  /** The lines of a stretch of the pool after the change are those of a stretch before. */
  ghost predicate SameLines(b0: seq<nat>, h0: Headers, b1: seq<nat>, h1: Headers, lo: nat, hi: nat, lo': nat, hi': nat) {
    forall b: nat {:trigger UsedAt(b1, h1, lo', hi', b)} :: UsedAt(b1, h1, lo', hi', b) <==> UsedAt(b0, h0, lo, hi, b)
  }

  /** A stretch of the pool after the change, in terms of the pool before. */
  lemma {:induction false} SameStretch(b0: seq<nat>, h0: Headers, b1: seq<nat>, h1: Headers, lo: nat, hi: nat, lo': nat, hi': nat)
    requires Rises(b0) && Rises(b1) && SameLines(b0, h0, b1, h1, lo, hi, lo', hi')
    ensures UsedIn(b1, h1, lo', hi') == UsedIn(b0, h0, lo, hi)
  {
    UsedInIs(b0, h0, lo, hi);
    UsedInIs(b1, h1, lo', hi');
    forall b ensures b in UsedIn(b1, h1, lo', hi') <==> b in UsedIn(b0, h0, lo, hi) {
      assert UsedAt(b1, h1, lo', hi', b) <==> UsedAt(b0, h0, lo, hi, b);
    }
    RisingIsUnique(UsedIn(b1, h1, lo', hi'), UsedIn(b0, h0, lo, hi));
  }

  lemma {:induction false} Stretches(blocks: seq<nat>, hdr: Headers, lo: nat, mid: nat, hi: nat)
    requires Rises(blocks) && lo <= mid <= hi
    ensures UsedIn(blocks, hdr, lo, hi) == UsedIn(blocks, hdr, lo, mid) + UsedIn(blocks, hdr, mid, hi)
  {
    UsedInIs(blocks, hdr, lo, hi);
    UsedInIs(blocks, hdr, lo, mid);
    UsedInIs(blocks, hdr, mid, hi);
    RisesJoin(UsedIn(blocks, hdr, lo, mid), UsedIn(blocks, hdr, mid, hi));
    forall b ensures b in UsedIn(blocks, hdr, lo, hi) <==> b in UsedIn(blocks, hdr, lo, mid) + UsedIn(blocks, hdr, mid, hi) {
      assert UsedAt(blocks, hdr, lo, hi, b) <==> UsedAt(blocks, hdr, lo, mid, b) || UsedAt(blocks, hdr, mid, hi, b);
    }
    RisingIsUnique(UsedIn(blocks, hdr, lo, hi), UsedIn(blocks, hdr, lo, mid) + UsedIn(blocks, hdr, mid, hi));
  }

  // ----- The history is what `getprev` visits

  lemma {:induction false} WalkBackAt(blocks: seq<nat>, hdr: Headers, poolen: nat, base: nat, a: nat, m: nat)
    requires Tiles(blocks, hdr, poolen, base) && a < |blocks| && m <= |blocks|
    ensures WalkBack(hdr, blocks[a], m) == blocks[if m <= a then a - m else a - m + |blocks|]
    decreases m
  {
    if m > 0 {
      WalkBackAt(blocks, hdr, poolen, base, a, m - 1);
      RingStep(blocks, hdr, poolen, base, if m - 1 <= a then a - (m - 1) else a - (m - 1) + |blocks|);
    }
  }

  /** No line in use lies between q and p on the way back from p. */
  ghost predicate NoneBetween(blocks: seq<nat>, hdr: Headers, q: nat, p: nat) {
    forall b :: b in blocks && IsUsed(hdr, b) ==> if q < p then !(q < b < p) else !(b > q || b < p)
  }

  lemma {:induction false} PreviousIs(blocks: seq<nat>, hdr: Headers, poolen: nat, base: nat, p: nat, q: nat)
    requires Tiles(blocks, hdr, poolen, base) && p in blocks && q in blocks && IsUsed(hdr, q) && NoneBetween(blocks, hdr, q, p)
    ensures IsPrevious(hdr, p, q)
  {
    var n := |blocks|;
    var a: nat :| a < n && blocks[a] == p;
    var c: nat :| c < n && blocks[c] == q;
    var k := if c < a then a - c else a - c + n;
    WalkBackAt(blocks, hdr, poolen, base, a, k);
    SameOrder(blocks, c, a);
    forall m | 1 <= m < k ensures !IsUsed(hdr, WalkBack(hdr, p, m)) {
      WalkBackAt(blocks, hdr, poolen, base, a, m);
      var i := if m <= a then a - m else a - m + n;
      SameOrder(blocks, c, i);
      SameOrder(blocks, i, a);
      assert blocks[i] in blocks;
    }
    assert FirstUsedBehind(hdr, p, k);
  }

  lemma {:induction false} TilesRise(blocks: seq<nat>, hdr: Headers, poolen: nat, base: nat)
    requires Tiles(blocks, hdr, poolen, base)
    ensures Rises(blocks) && forall b :: b in blocks ==> b < poolen
  {
    forall b | b in blocks ensures b < poolen {
      var i :| 0 <= i < |blocks| && blocks[i] == b;
      BlockInside(blocks, hdr, poolen, base, i);
    }
  }

  /** From each line of the history `getprev` leads to the one before it, and from the oldest to the newest. */
  lemma {:induction false} HistoryIsVisited(blocks: seq<nat>, hdr: Headers, poolen: nat, base: nat, s: nat, j: nat)
    requires Tiles(blocks, hdr, poolen, base) && s in blocks && IsUsed(hdr, s)
    requires j < |History(blocks, hdr, s, poolen)|
    ensures var h := History(blocks, hdr, s, poolen);
            h[|h| - 1] == s && IsPrevious(hdr, h[j], if j > 0 then h[j - 1] else s)
  {
    TilesRise(blocks, hdr, poolen, base);
    NewestIsLast(blocks, hdr, s, poolen);
    UsedInIs(blocks, hdr, s + 1, poolen);
    UsedInIs(blocks, hdr, 0, s + 1);
    var h := History(blocks, hdr, s, poolen);
    HistoryAt(blocks, hdr, s, poolen, j);
    if j > 0 {
      HistoryAt(blocks, hdr, s, poolen, j - 1);
    }
    NoneSkipped(blocks, hdr, s, poolen, j);
    PreviousIs(blocks, hdr, poolen, base, h[j], if j > 0 then h[j - 1] else s);
  }

  lemma {:induction false} HistoryAt(blocks: seq<nat>, hdr: Headers, s: nat, poolen: nat, j: nat)
    requires Rises(blocks) && j < |History(blocks, hdr, s, poolen)|
    ensures var b := History(blocks, hdr, s, poolen)[j]; b in blocks && IsUsed(hdr, b)
    ensures History(blocks, hdr, s, poolen)[j] > s <==> j < |UsedIn(blocks, hdr, s + 1, poolen)|
  {
    UsedInIs(blocks, hdr, s + 1, poolen);
    UsedInIs(blocks, hdr, 0, s + 1);
    var (x, y) := (UsedIn(blocks, hdr, s + 1, poolen), UsedIn(blocks, hdr, 0, s + 1));
    if j < |x| {
      assert UsedAt(blocks, hdr, s + 1, poolen, x[j]);
    } else {
      assert UsedAt(blocks, hdr, 0, s + 1, y[j - |x|]);
    }
  }

  lemma {:induction false} IndexOf(s: seq<nat>, t: seq<nat>, b: nat) returns (i: nat)
    requires b in s || b in t
    ensures i < |s + t| && (s + t)[i] == b
  {
    if b in s {
      i :| 0 <= i < |s| && s[i] == b;
    } else {
      var k :| 0 <= k < |t| && t[k] == b;
      i := |s| + k;
    }
  }

  lemma {:induction false} InHistory(blocks: seq<nat>, hdr: Headers, s: nat, poolen: nat, b: nat) returns (i: nat)
    requires Rises(blocks) && b in blocks && IsUsed(hdr, b) && b < poolen
    ensures i < |History(blocks, hdr, s, poolen)| && History(blocks, hdr, s, poolen)[i] == b
  {
    UsedInIs(blocks, hdr, s + 1, poolen);
    UsedInIs(blocks, hdr, 0, s + 1);
    var (x, y) := (UsedIn(blocks, hdr, s + 1, poolen), UsedIn(blocks, hdr, 0, s + 1));
    assert UsedAt(blocks, hdr, s + 1, poolen, b) || UsedAt(blocks, hdr, 0, s + 1, b);
    i := IndexOf(x, y, b);
  }

  /** Of two lines of the history the later one lies higher, unless the pool was wrapped between them. */
  lemma {:induction false} HistoryOrder(blocks: seq<nat>, hdr: Headers, s: nat, poolen: nat, i: nat, k: nat)
    requires Rises(blocks) && i < k < |History(blocks, hdr, s, poolen)|
    ensures var h := History(blocks, hdr, s, poolen); if h[i] > s && h[k] <= s then h[k] < h[i] else h[i] < h[k]
    ensures History(blocks, hdr, s, poolen)[k] > s ==> History(blocks, hdr, s, poolen)[i] > s
  {
    UsedInIs(blocks, hdr, s + 1, poolen);
    UsedInIs(blocks, hdr, 0, s + 1);
    HistoryAt(blocks, hdr, s, poolen, i);
    HistoryAt(blocks, hdr, s, poolen, k);
  }

  lemma {:induction false} NoneSkipped(blocks: seq<nat>, hdr: Headers, s: nat, poolen: nat, j: nat)
    requires Rises(blocks) && s in blocks && IsUsed(hdr, s) && (forall b :: b in blocks ==> b < poolen)
    requires j < |History(blocks, hdr, s, poolen)|
    ensures var h := History(blocks, hdr, s, poolen); NoneBetween(blocks, hdr, if j > 0 then h[j - 1] else s, h[j])
  {
    var h := History(blocks, hdr, s, poolen);
    var (n, p, q) := (|h|, h[j], if j > 0 then h[j - 1] else s);
    NewestIsLast(blocks, hdr, s, poolen);
    forall b | b in blocks && IsUsed(hdr, b) ensures if q < p then !(q < b < p) else !(b > q || b < p) {
      var i := InHistory(blocks, hdr, s, poolen, b);
      SkipsNothing(blocks, hdr, s, poolen, j, i);
    }
  }

  lemma {:induction false} SkipsNothing(blocks: seq<nat>, hdr: Headers, s: nat, poolen: nat, j: nat, i: nat)
    requires Rises(blocks) && s in blocks && IsUsed(hdr, s)
    requires j < |History(blocks, hdr, s, poolen)| && i < |History(blocks, hdr, s, poolen)|
    ensures var h := History(blocks, hdr, s, poolen);
            var (q, p, b) := (if j > 0 then h[j - 1] else s, h[j], h[i]);
            if q < p then !(q < b < p) else !(b > q || b < p)
  {
    NewestIsLast(blocks, hdr, s, poolen);
    var n := |History(blocks, hdr, s, poolen)|;
    if i < j {
      HistoryOrder(blocks, hdr, s, poolen, i, j);
    }
    if j < i {
      HistoryOrder(blocks, hdr, s, poolen, j, i);
    }
    if j > 0 {
      HistoryOrder(blocks, hdr, s, poolen, j - 1, j);
      if i < j - 1 {
        HistoryOrder(blocks, hdr, s, poolen, i, j - 1);
      }
      if j - 1 < i {
        HistoryOrder(blocks, hdr, s, poolen, j - 1, i);
      }
    } else if i < n - 1 {
      HistoryOrder(blocks, hdr, s, poolen, i, n - 1);
    }
  }

  // ----- What `putline` loses

  /** The lines in use besides the new one are those before that it did not reach and that were not next. */
  lemma {:induction false} UsedAfter(b0: seq<nat>, h0: Headers, b1: seq<nat>, h1: Headers, poolen: nat, base: nat, s: nat, l: nat, need: nat, b: nat)
    requires IsPut(b0, h0, b1, h1, poolen, base, s, l, need) && b != l
    ensures b in b1 && IsUsed(h1, b) <==> b in b0 && IsUsed(h0, b) && !(l <= b < l + need) && b != h0[s].nextl
  {
    if b in b1 && IsUsed(h1, b) {
      var i :| 0 <= i < |b1| && b1[i] == b;
      var k :| 0 <= k < |b1| && b1[k] == l;
      BlockInside(b1, h1, poolen, base, k);
      if k < i {
        LaterBlock(b1, h1, poolen, base, k, i);
      } else {
        SameOrder(b1, k, i);
      }
    }
  }

  /** Nothing lies between a block and the next one; behind the last one there is nothing. */
  lemma {:induction false} NextIsNext(blocks: seq<nat>, hdr: Headers, poolen: nat, base: nat, s: nat, b: nat)
    requires Tiles(blocks, hdr, poolen, base) && s in blocks && b in blocks
    ensures s in hdr && (hdr[s].nextl != 0 ==> s < hdr[s].nextl && !(s < b < hdr[s].nextl)) && (hdr[s].nextl == 0 ==> b <= s)
  {
    var i :| 0 <= i < |blocks| && blocks[i] == s;
    var k :| 0 <= k < |blocks| && blocks[k] == b;
    RingStep(blocks, hdr, poolen, base, i);
    SameOrder(blocks, i, k);
    SameOrder(blocks, k, i);
    if i + 1 < |blocks| {
      SameOrder(blocks, k, i + 1);
    }
  }

  /** A line that starts at l alone. */
  lemma {:induction false} Single(blocks: seq<nat>, hdr: Headers, l: nat)
    requires Rises(blocks) && l in blocks && IsUsed(hdr, l)
    ensures UsedIn(blocks, hdr, l, l + 1) == [l]
  {
    UsedInIs(blocks, hdr, l, l + 1);
    RisingIsUnique(UsedIn(blocks, hdr, l, l + 1), [l]);
  }

  /** The list after is the list before without its first d lines, and the line l behind the others. */
  predicate DropsOldest(after: seq<nat>, before: seq<nat>, l: nat, d: nat) {
    d <= |before| && after == before[d..] + [l]
  }

  lemma {:induction false} LinesBehind(b0: seq<nat>, h0: Headers, b1: seq<nat>, h1: Headers, poolen: nat, base: nat, s: nat, l: nat, need: nat)
    requires IsPut(b0, h0, b1, h1, poolen, base, s, l, need) && l != 0
    ensures s < l && SameLines(b0, h0, b1, h1, l + need, poolen, l + 1, poolen) && SameLines(b0, h0, b1, h1, 0, s + 1, 0, l)
  {
    NextIsNext(b0, h0, poolen, base, s, s);
    var (behind, end, upTo) := (l + 1, l + need, s + 1);
    forall b: nat ensures UsedAt(b1, h1, behind, poolen, b) <==> UsedAt(b0, h0, end, poolen, b) {
      if b != l {
        UsedAfter(b0, h0, b1, h1, poolen, base, s, l, need, b);
      }
    }
    forall b: nat ensures UsedAt(b1, h1, 0, l, b) <==> UsedAt(b0, h0, 0, upTo, b) {
      if b != l {
        UsedAfter(b0, h0, b1, h1, poolen, base, s, l, need, b);
      }
      if b in b0 {
        NextIsNext(b0, h0, poolen, base, s, b);
      }
    }
  }

  lemma {:induction false} DropFront(lost: seq<nat>, kept: seq<nat>, upTo: seq<nat>, l: nat)
    ensures |lost| <= |(lost + kept) + upTo| && kept + (upTo + [l]) == ((lost + kept) + upTo)[|lost|..] + [l]
  {
  }

  lemma {:induction false} SuffixBehind(b0: seq<nat>, h0: Headers, b1: seq<nat>, h1: Headers, poolen: nat, s: nat, l: nat, need: nat) returns (d: nat)
    requires Rises(b0) && Rises(b1) && s < l && l + need <= poolen && l in b1 && IsUsed(h1, l)
    requires SameLines(b0, h0, b1, h1, l + need, poolen, l + 1, poolen) && SameLines(b0, h0, b1, h1, 0, s + 1, 0, l)
    ensures DropsOldest(History(b1, h1, l, poolen), History(b0, h0, s, poolen), l, d)
  {
    Stretches(b0, h0, s + 1, l + need, poolen);
    Stretches(b1, h1, 0, l, l + 1);
    Single(b1, h1, l);
    SameStretch(b0, h0, b1, h1, l + need, poolen, l + 1, poolen);
    SameStretch(b0, h0, b1, h1, 0, s + 1, 0, l);
    d := |UsedIn(b0, h0, s + 1, l + need)|;
    DropFront(UsedIn(b0, h0, s + 1, l + need), UsedIn(b0, h0, l + need, poolen), UsedIn(b0, h0, 0, s + 1), l);
  }

  /** Stored behind the newest line, a line costs only the oldest ones. */
  lemma {:induction false} StoredBehind(b0: seq<nat>, h0: Headers, b1: seq<nat>, h1: Headers, poolen: nat, base: nat, s: nat, l: nat, need: nat)
    returns (d: nat)
    requires IsPut(b0, h0, b1, h1, poolen, base, s, l, need) && l != 0
    ensures DropsOldest(History(b1, h1, l, poolen), History(b0, h0, s, poolen), l, d)
  {
    TilesRise(b0, h0, poolen, base);
    TilesRise(b1, h1, poolen, base);
    LinesBehind(b0, h0, b1, h1, poolen, base, s, l, need);
    d := SuffixBehind(b0, h0, b1, h1, poolen, s, l, need);
  }

  /** No line in use that the new one spares lies behind s, the next block aside. */
  ghost predicate NoneSpared(blocks: seq<nat>, hdr: Headers, s: nat, next: nat, need: nat) {
    forall b :: b in blocks && IsUsed(hdr, b) && b > s && b != next ==> b < need
  }

  lemma {:induction false} LinesAtStart(b0: seq<nat>, h0: Headers, b1: seq<nat>, h1: Headers, poolen: nat, base: nat, s: nat, need: nat)
    requires IsPut(b0, h0, b1, h1, poolen, base, s, 0, need) && NoneSpared(b0, h0, s, h0[s].nextl, need)
    ensures SameLines(b0, h0, b1, h1, need, s + 1, 1, poolen)
  {
    TilesRise(b1, h1, poolen, base);
    NextIsNext(b0, h0, poolen, base, s, s);
    forall b: nat ensures UsedAt(b1, h1, 1, poolen, b) <==> UsedAt(b0, h0, need, s + 1, b) {
      if b != 0 {
        UsedAfter(b0, h0, b1, h1, poolen, base, s, 0, need, b);
      }
    }
  }

  lemma {:induction false} NothingIn(blocks: seq<nat>, hdr: Headers, lo: nat, hi: nat)
    requires Rises(blocks) && hi <= lo
    ensures UsedIn(blocks, hdr, lo, hi) == []
  {
    UsedInIs(blocks, hdr, lo, hi);
    var u := UsedIn(blocks, hdr, lo, hi);
    assert u != [] ==> UsedAt(blocks, hdr, lo, hi, u[0]);
  }

  lemma {:induction false} SuffixAtStart(b0: seq<nat>, h0: Headers, b1: seq<nat>, h1: Headers, poolen: nat, s: nat, need: nat) returns (d: nat)
    requires Rises(b0) && Rises(b1) && 0 in b1 && IsUsed(h1, 0) && SameLines(b0, h0, b1, h1, need, s + 1, 1, poolen)
    ensures DropsOldest(History(b1, h1, 0, poolen), History(b0, h0, s, poolen), 0, d)
  {
    SameStretch(b0, h0, b1, h1, need, s + 1, 1, poolen);
    Single(b1, h1, 0);
    if need <= s + 1 {
      Stretches(b0, h0, 0, need, s + 1);
      var (x, lost, kept) := (UsedIn(b0, h0, s + 1, poolen), UsedIn(b0, h0, 0, need), UsedIn(b0, h0, need, s + 1));
      d := |x + lost|;
      DropFront(x + lost, kept, [], 0);
      assert History(b0, h0, s, poolen) == (x + lost + kept) + [];
      assert kept + ([] + [0]) == kept + [0];
    } else {
      NothingIn(b0, h0, need, s + 1);
      d := |History(b0, h0, s, poolen)|;
    }
  }

  /** At the start of the pool it does if no line is spared behind the newest one ... */
  lemma {:induction false} StoredAtStart(b0: seq<nat>, h0: Headers, b1: seq<nat>, h1: Headers, poolen: nat, base: nat, s: nat, need: nat)
    returns (d: nat)
    requires IsPut(b0, h0, b1, h1, poolen, base, s, 0, need) && NoneSpared(b0, h0, s, h0[s].nextl, need)
    ensures DropsOldest(History(b1, h1, 0, poolen), History(b0, h0, s, poolen), 0, d)
  {
    TilesRise(b0, h0, poolen, base);
    TilesRise(b1, h1, poolen, base);
    LinesAtStart(b0, h0, b1, h1, poolen, base, s, need);
    d := SuffixAtStart(b0, h0, b1, h1, poolen, s, need);
  }

  lemma {:induction false} EndsWith(h: seq<nat>, d: nat, y: seq<nat>, l: nat)
    requires y != [] && DropsOldest(y + [l], h, l, d)
    ensures h != [] && y[|y| - 1] == h[|h| - 1]
  {
    assert (y + [l])[..|y|] == y && (h[d..] + [l])[..|h| - d] == h[d..];
  }

  /** ... and only then: the line spared comes to lie before the new one, in place of the newest. */
  lemma {:induction false} SparedIsFirst(b0: seq<nat>, h0: Headers, b1: seq<nat>, h1: Headers, poolen: nat, base: nat, s: nat, need: nat, d: nat)
    requires IsPut(b0, h0, b1, h1, poolen, base, s, 0, need) && !NoneSpared(b0, h0, s, h0[s].nextl, need)
    ensures !DropsOldest(History(b1, h1, 0, poolen), History(b0, h0, s, poolen), 0, d)
  {
    TilesRise(b0, h0, poolen, base);
    TilesRise(b1, h1, poolen, base);
    var u := SparedLine(b0, h0, b1, h1, poolen, base, s, need);
    SparedLast(b0, h0, b1, h1, poolen, s, u, d);
  }

  lemma {:induction false} SparedLine(b0: seq<nat>, h0: Headers, b1: seq<nat>, h1: Headers, poolen: nat, base: nat, s: nat, need: nat)
    returns (u: nat)
    requires IsPut(b0, h0, b1, h1, poolen, base, s, 0, need) && !NoneSpared(b0, h0, s, h0[s].nextl, need)
    ensures u in b1 && IsUsed(h1, u) && u > s
  {
    u :| u in b0 && IsUsed(h0, u) && u > s && u != h0[s].nextl && need <= u;
    UsedAfter(b0, h0, b1, h1, poolen, base, s, 0, need, u);
  }

  lemma {:induction false} SparedLast(b0: seq<nat>, h0: Headers, b1: seq<nat>, h1: Headers, poolen: nat, s: nat, u: nat, d: nat)
    requires Rises(b0) && Rises(b1) && s in b0 && IsUsed(h0, s) && 0 in b1 && IsUsed(h1, 0)
    requires u in b1 && IsUsed(h1, u) && s < u < poolen
    ensures !DropsOldest(History(b1, h1, 0, poolen), History(b0, h0, s, poolen), 0, d)
  {
    StartHistory(b1, h1, poolen);
    NewestIsLast(b0, h0, s, poolen);
    HigherIsBehind(b1, h1, poolen, u);
    NotSuffix(History(b1, h1, 0, poolen), UsedIn(b1, h1, 1, poolen), History(b0, h0, s, poolen), s, d);
  }

  lemma {:induction false} StartHistory(blocks: seq<nat>, hdr: Headers, poolen: nat)
    requires Rises(blocks) && 0 in blocks && IsUsed(hdr, 0)
    ensures History(blocks, hdr, 0, poolen) == UsedIn(blocks, hdr, 1, poolen) + [0]
  {
    Single(blocks, hdr, 0);
  }

  lemma {:induction false} NotSuffix(after: seq<nat>, y: seq<nat>, h: seq<nat>, s: nat, d: nat)
    requires after == y + [0] && y != [] && y[|y| - 1] > s && h != [] && h[|h| - 1] == s
    ensures !DropsOldest(after, h, 0, d)
  {
    if DropsOldest(after, h, 0, d) {
      EndsWith(h, d, y, 0);
    }
  }

  lemma {:induction false} HigherIsBehind(blocks: seq<nat>, hdr: Headers, poolen: nat, u: nat)
    requires Rises(blocks) && u in blocks && IsUsed(hdr, u) && 0 < u < poolen
    ensures var y := UsedIn(blocks, hdr, 1, poolen); y != [] && u <= y[|y| - 1]
  {
    UsedInIs(blocks, hdr, 1, poolen);
    assert UsedAt(blocks, hdr, 1, poolen, u);
    LastIsGreatest(UsedIn(blocks, hdr, 1, poolen), u);
  }

  lemma {:induction false} NewestIsLast(blocks: seq<nat>, hdr: Headers, s: nat, poolen: nat)
    requires Rises(blocks) && s in blocks && IsUsed(hdr, s)
    ensures var h := History(blocks, hdr, s, poolen); h != [] && h[|h| - 1] == s
  {
    UsedInIs(blocks, hdr, 0, s + 1);
    var y := UsedIn(blocks, hdr, 0, s + 1);
    assert UsedAt(blocks, hdr, 0, s + 1, s);
    LastIsGreatest(y, s);
    assert UsedAt(blocks, hdr, 0, s + 1, y[|y| - 1]);
  }

  /**
   `putline` forgets only the oldest lines, and puts the new one behind the others, exactly when the line
   goes behind the newest one, or no line in use that it spares lies behind that one, the next aside.
   */
  lemma {:induction false} ForgetsOldestIff(b0: seq<nat>, h0: Headers, b1: seq<nat>, h1: Headers, poolen: nat, base: nat, s: nat, l: nat, need: nat)
    requires IsPut(b0, h0, b1, h1, poolen, base, s, l, need)
    ensures (exists d: nat :: DropsOldest(History(b1, h1, l, poolen), History(b0, h0, s, poolen), l, d)) <==>
            l != 0 || forall b :: b in b0 && IsUsed(h0, b) && b > s && b != h0[s].nextl ==> b < need
  {
    if l != 0 {
      var d := StoredBehind(b0, h0, b1, h1, poolen, base, s, l, need);
    } else if NoneSpared(b0, h0, s, h0[s].nextl, need) {
      var d := StoredAtStart(b0, h0, b1, h1, poolen, base, s, need);
    } else {
      forall d: nat ensures !DropsOldest(History(b1, h1, 0, poolen), History(b0, h0, s, poolen), 0, d) {
        SparedIsFirst(b0, h0, b1, h1, poolen, base, s, need, d);
      }
    }
  }
}
