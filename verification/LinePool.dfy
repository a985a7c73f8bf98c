/**
 The line pool of the console: `poolinit`, `putline`, `getnext` and `getprev`.

 The pool is a buffer cut into blocks, each with a header and room for a line. Headers are linked in a
 ring. They are stored in the buffer, and every change of a header writes its bytes there; the map from
 block offset to header is what those bytes stand for. `Valid` keeps the two in step.
 */
module LinePool {

  /** struct lstr: two links, a length and a flag; the text starts right after the flag. */
  datatype Header = Header(prevl: nat, nextl: nat, len: int, used: bool)

  const PHDRL: nat := 32     // sizeof(struct lstr)
  const LINE: nat := 25      // offset of the text in a block

  type Headers = map<nat, Header>

  // ----- Blocks tile the pool

  function EndOf(blocks: seq<nat>, i: nat, poolen: nat): nat
    requires i < |blocks|
  {
    if i + 1 < |blocks| then blocks[i + 1] else poolen
  }

  function NextIndex(blocks: seq<nat>, i: nat): nat
    requires i < |blocks|
  {
    if i + 1 < |blocks| then i + 1 else 0
  }

  function PrevIndex(blocks: seq<nat>, i: nat): nat
    requires i < |blocks|
  {
    if i > 0 then i - 1 else |blocks| - 1
  }

  /** Block i: its header spans it exactly, links to the neighbours in address order, and fits in it. */
  ghost predicate BlockOk(blocks: seq<nat>, hdr: Headers, i: nat, poolen: nat, base: nat)
    requires i < |blocks|
  {
    && blocks[i] in hdr
    && blocks[i] + PHDRL <= EndOf(blocks, i, poolen)
    && hdr[blocks[i]].len == EndOf(blocks, i, poolen) - blocks[i]
    && hdr[blocks[i]].nextl == blocks[NextIndex(blocks, i)]
    && hdr[blocks[i]].prevl == blocks[PrevIndex(blocks, i)]
    && (i > 0 ==> (base + blocks[i]) % 8 == 0)
  }

  /** The blocks start at the beginning of the pool, follow one another and end with it, in one ring. */
  ghost predicate Tiles(blocks: seq<nat>, hdr: Headers, poolen: nat, base: nat) {
    && blocks != [] && blocks[0] == 0
    && (forall i :: 0 <= i < |blocks| ==> BlockOk(blocks, hdr, i, poolen, base))
    && (forall i, k :: 0 <= i < k < |blocks| ==> blocks[i] < blocks[k])
  }

  lemma {:induction false} LaterBlock(blocks: seq<nat>, hdr: Headers, poolen: nat, base: nat, i: nat, k: nat)
    requires Tiles(blocks, hdr, poolen, base) && i < k < |blocks|
    ensures EndOf(blocks, i, poolen) <= blocks[k]
  {
    if i + 1 < k {
      assert blocks[i + 1] < blocks[k];
    }
  }

  /** The text of one block lies outside the header, and the text, of every other. */
  lemma {:induction false} HeadersOutsideText(blocks: seq<nat>, hdr: Headers, poolen: nat, base: nat, i: nat, k: nat, x: nat)
    requires Tiles(blocks, hdr, poolen, base) && i < |blocks| && k < |blocks|
    requires blocks[i] + LINE <= x < EndOf(blocks, i, poolen)
    ensures !(blocks[k] <= x < blocks[k] + LINE)
    ensures i != k ==> !(blocks[k] <= x < EndOf(blocks, k, poolen))
    ensures x < poolen
  {
    if i < k {
      LaterBlock(blocks, hdr, poolen, base, i, k);
    } else if k < i {
      LaterBlock(blocks, hdr, poolen, base, k, i);
    }
    if i + 1 < |blocks| {
      assert BlockOk(blocks, hdr, |blocks| - 1, poolen, base);
      if i + 1 < |blocks| - 1 {
        assert blocks[i + 1] < blocks[|blocks| - 1];
      }
    }
  }

  /** The links are inverse to one another. */
  lemma {:induction false} LinksInverse(blocks: seq<nat>, hdr: Headers, poolen: nat, base: nat, b: nat)
    requires Tiles(blocks, hdr, poolen, base) && b in blocks
    ensures b in hdr && hdr[b].nextl in blocks && hdr[b].prevl in blocks
    ensures hdr[b].nextl in hdr && hdr[b].prevl in hdr
    ensures hdr[hdr[b].nextl].prevl == b && hdr[hdr[b].prevl].nextl == b
  {
    var i :| 0 <= i < |blocks| && blocks[i] == b;
    assert BlockOk(blocks, hdr, i, poolen, base);
    assert BlockOk(blocks, hdr, PrevIndex(blocks, i), poolen, base) && BlockOk(blocks, hdr, NextIndex(blocks, i), poolen, base);
  }

  // ----- One step of coalescing, and the split

  function Merged(hdr: Headers, l: nat): Headers
    requires l in hdr && hdr[l].nextl in hdr && hdr[hdr[l].nextl].nextl in hdr
  {
    var n := hdr[l].nextl;
    var h1 := hdr[l := hdr[l].(nextl := hdr[n].nextl)];
    var h2 := h1[hdr[n].nextl := h1[hdr[n].nextl].(prevl := l)];
    h2[l := h2[l].(len := h2[l].len + hdr[n].len)]
  }

  function Without(blocks: seq<nat>, i: nat): seq<nat>
    requires i < |blocks|
  {
    blocks[..i] + blocks[i + 1..]
  }

  /** The headers after a merge, one by one. */
  lemma {:induction false} MergedAt(hdr: Headers, l: nat, b: nat)
    requires l in hdr && hdr[l].nextl in hdr && hdr[hdr[l].nextl].nextl in hdr && b in hdr
    ensures var n := hdr[l].nextl; var after := hdr[n].nextl;
            Merged(hdr, l)[b] == Header(if b == after then l else hdr[b].prevl, if b == l then after else hdr[b].nextl,
                                        if b == l then hdr[l].len + hdr[n].len else hdr[b].len, hdr[b].used)
  {
  }

  /** Indices after the removal of block i + 1. */
  lemma {:induction false} WithoutAt(blocks: seq<nat>, i: nat, k: nat, poolen: nat)
    requires i + 1 < |blocks| && k + 1 < |blocks|
    ensures var (bs, o) := (Without(blocks, i + 1), if k <= i then k else k + 1);
            && |bs| == |blocks| - 1 && bs[k] == blocks[o]
            && bs[NextIndex(bs, k)] == (if o == i then blocks[NextIndex(blocks, i + 1)] else blocks[NextIndex(blocks, o)])
            && bs[PrevIndex(bs, k)] == (if o == NextIndex(blocks, i + 1) then blocks[i] else blocks[PrevIndex(blocks, o)])
            && EndOf(bs, k, poolen) == (if o == i then EndOf(blocks, i + 1, poolen) else EndOf(blocks, o, poolen))
  {
  }

  lemma {:induction false} MergeBlockOk(blocks: seq<nat>, hdr: Headers, poolen: nat, base: nat, i: nat, k: nat, o: nat)
    requires i + 1 < |blocks| && k < |blocks| - 1 && o == if k <= i then k else k + 1
    requires BlockOk(blocks, hdr, i, poolen, base) && BlockOk(blocks, hdr, i + 1, poolen, base) && BlockOk(blocks, hdr, o, poolen, base)
    requires blocks[NextIndex(blocks, i + 1)] in hdr
    requires blocks[o] == blocks[i] <==> o == i
    requires blocks[o] == blocks[NextIndex(blocks, i + 1)] <==> o == NextIndex(blocks, i + 1)
    ensures BlockOk(Without(blocks, i + 1), Merged(hdr, blocks[i]), k, poolen, base)
  {
    WithoutAt(blocks, i, k, poolen);
    MergedAt(hdr, blocks[i], blocks[o]);
  }

  lemma {:induction false} SameBlock(blocks: seq<nat>, j: nat, k: nat)
    requires j < |blocks| && k < |blocks| && forall m, n :: 0 <= m < n < |blocks| ==> blocks[m] < blocks[n]
    ensures blocks[j] == blocks[k] <==> j == k
  {
  }

  lemma {:induction false} MergeKeepsRest(hdr: Headers, l: nat)
    requires l in hdr && hdr[l].nextl in hdr && hdr[hdr[l].nextl].nextl in hdr
    ensures Merged(hdr, l).Keys == hdr.Keys
    ensures forall b :: b in hdr ==> Merged(hdr, l)[b].used == hdr[b].used && (b != l ==> Merged(hdr, l)[b].len == hdr[b].len)
  {
  }

  /** Swallowing the next block keeps the tiling. */
  lemma {:induction false} MergeKeepsTiles(blocks: seq<nat>, hdr: Headers, poolen: nat, base: nat, i: nat)
    requires Tiles(blocks, hdr, poolen, base) && i + 1 < |blocks|
    ensures blocks[i] in hdr && hdr[blocks[i]].nextl == blocks[i + 1] && blocks[i + 1] in hdr && hdr[blocks[i + 1]].nextl in hdr
    ensures Tiles(Without(blocks, i + 1), Merged(hdr, blocks[i]), poolen, base)
  {
    assert BlockOk(blocks, hdr, i, poolen, base) && BlockOk(blocks, hdr, i + 1, poolen, base);
    assert BlockOk(blocks, hdr, NextIndex(blocks, i + 1), poolen, base);
    var bs := Without(blocks, i + 1);
    forall k | 0 <= k < |bs| ensures BlockOk(bs, Merged(hdr, blocks[i]), k, poolen, base) {
      var o := if k <= i then k else k + 1;
      SameBlock(blocks, o, i);
      SameBlock(blocks, o, NextIndex(blocks, i + 1));
      assert BlockOk(blocks, hdr, o, poolen, base);
      MergeBlockOk(blocks, hdr, poolen, base, i, k, o);
    }
    WithoutOrdered(blocks, i + 1);
  }

  lemma {:induction false} WithoutOrdered(blocks: seq<nat>, i: nat)
    requires 0 < i < |blocks| && forall j, k :: 0 <= j < k < |blocks| ==> blocks[j] < blocks[k]
    ensures var bs := Without(blocks, i); bs[0] == blocks[0] && forall j, k :: 0 <= j < k < |bs| ==> bs[j] < bs[k]
  {
    var bs := Without(blocks, i);
    forall j, k | 0 <= j < k < |bs| ensures bs[j] < bs[k] {
      assert bs[j] == blocks[if j < i then j else j + 1] && bs[k] == blocks[if k < i then k else k + 1];
    }
  }

  /** A new header for the end of a block, linked in after it. */
  function Cut(hdr: Headers, l: nat, n: nat): Headers
    requires l in hdr && hdr[l].nextl in hdr && l <= n
  {
    var nlen := hdr[l].len - (n - l);
    var next := hdr[l].nextl;
    var h1 := hdr[n := Header(l, next, nlen, false)];
    var h2 := h1[l := h1[l].(len := h1[l].len - nlen)];
    var h3 := h2[next := h2[next].(prevl := n)];
    h3[l := h3[l].(nextl := n)]
  }

  function With(blocks: seq<nat>, i: nat, n: nat): seq<nat>
    requires i < |blocks|
  {
    blocks[..i + 1] + [n] + blocks[i + 1..]
  }

  lemma {:induction false} NewBlockIsNew(blocks: seq<nat>, hdr: Headers, poolen: nat, base: nat, i: nat, n: nat)
    requires Tiles(blocks, hdr, poolen, base) && i < |blocks| && blocks[i] < n < EndOf(blocks, i, poolen)
    ensures n !in blocks && forall b :: b in blocks ==> b in hdr
  {
    forall k | 0 <= k < |blocks| ensures blocks[k] != n && blocks[k] in hdr {
      assert BlockOk(blocks, hdr, k, poolen, base);
      if i < k {
        LaterBlock(blocks, hdr, poolen, base, i, k);
      }
    }
  }

  lemma {:induction false} CutKeepsRest(hdr: Headers, l: nat, n: nat)
    requires l in hdr && hdr[l].nextl in hdr && l < n && hdr[l].nextl != n
    ensures n in Cut(hdr, l, n) && !Cut(hdr, l, n)[n].used && Cut(hdr, l, n)[l].len == n - l
    ensures forall b :: b in hdr && b != n ==>
              b in Cut(hdr, l, n) && Cut(hdr, l, n)[b].used == hdr[b].used && (b != l ==> Cut(hdr, l, n)[b].len == hdr[b].len)
  {
  }

  /** Cutting an aligned block off the end keeps the tiling. */
  lemma {:induction false} CutKeepsTiles(blocks: seq<nat>, hdr: Headers, poolen: nat, base: nat, i: nat, n: nat)
    requires Tiles(blocks, hdr, poolen, base) && i < |blocks|
    requires blocks[i] + PHDRL <= n && n + PHDRL <= EndOf(blocks, i, poolen) && (base + n) % 8 == 0
    ensures blocks[i] in hdr && hdr[blocks[i]].nextl in hdr && hdr[blocks[i]].nextl != n
    ensures n !in blocks && forall b :: b in blocks ==> b in hdr
    ensures Tiles(With(blocks, i, n), Cut(hdr, blocks[i], n), poolen, base)
  {
    NewBlockIsNew(blocks, hdr, poolen, base, i, n);
    assert BlockOk(blocks, hdr, i, poolen, base);
    assert blocks[NextIndex(blocks, i)] in blocks;
    var h, bs := Cut(hdr, blocks[i], n), With(blocks, i, n);
    CutOrdered(blocks, hdr, poolen, base, i, n);
    forall k | 0 <= k < |bs| ensures BlockOk(bs, h, k, poolen, base) {
      var o := if k <= i then k else k - 1;
      SameBlock(blocks, o, i);
      SameBlock(blocks, o, NextIndex(blocks, i));
      assert BlockOk(blocks, hdr, o, poolen, base) && blocks[o] in blocks;
      CutBlockOk(blocks, hdr, poolen, base, i, n, k, o);
    }
  }

  lemma {:induction false} CutOrdered(blocks: seq<nat>, hdr: Headers, poolen: nat, base: nat, i: nat, n: nat)
    requires Tiles(blocks, hdr, poolen, base) && i < |blocks|
    requires blocks[i] < n < EndOf(blocks, i, poolen)
    ensures var bs := With(blocks, i, n); forall j, k :: 0 <= j < k < |bs| ==> bs[j] < bs[k]
  {
    var bs := With(blocks, i, n);
    forall j, k | 0 <= j < k < |bs| ensures bs[j] < bs[k] {
      assert j <= i ==> bs[j] == blocks[j];
      assert j > i + 1 ==> bs[j] == blocks[j - 1];
      assert k <= i ==> bs[k] == blocks[k];
      assert k > i + 1 ==> bs[k] == blocks[k - 1];
      if k > i + 1 {
        LaterBlock(blocks, hdr, poolen, base, i, k - 1);
      }
      assert j < i ==> blocks[j] < blocks[i];
    }
  }

  /** A cut loses no block, and the new one is free. */
  lemma {:induction false} CutSurvives(blocks: seq<nat>, hdr: Headers, i: nat, n: nat)
    requires i < |blocks| && blocks[i] in hdr && hdr[blocks[i]].nextl in hdr && blocks[i] < n && hdr[blocks[i]].nextl != n
    requires n !in blocks && forall b :: b in blocks ==> b in hdr
    ensures forall b :: b in blocks ==> b in With(blocks, i, n) && IsUsed(Cut(hdr, blocks[i], n), b) == hdr[b].used
    ensures forall b :: b in With(blocks, i, n) && IsUsed(Cut(hdr, blocks[i], n), b) && b != blocks[i] ==>
              b in blocks && IsUsed(hdr, b) && Cut(hdr, blocks[i], n)[b].len == hdr[b].len
  {
    CutKeepsRest(hdr, blocks[i], n);
    forall b | b in blocks ensures b in With(blocks, i, n) {
      WithKeeps(blocks, i, n, b);
    }
    forall b | b in With(blocks, i, n) ensures b == n || b in blocks {
    }
  }

  lemma {:induction false} WithKeeps(blocks: seq<nat>, i: nat, n: nat, b: nat)
    requires i < |blocks| && b in blocks
    ensures b in With(blocks, i, n)
  {
    var k :| 0 <= k < |blocks| && blocks[k] == b;
    assert With(blocks, i, n)[if k <= i then k else k + 1] == b;
  }

  /** The headers after a cut, one by one. */
  lemma {:induction false} CutHeaderAt(hdr: Headers, l: nat, n: nat, b: nat)
    requires l in hdr && hdr[l].nextl in hdr && l < n && b in hdr && b != n && hdr[l].nextl != n
    ensures Cut(hdr, l, n)[b] == Header(if b == hdr[l].nextl then n else hdr[b].prevl, if b == l then n else hdr[b].nextl,
                                        if b == l then n - l else hdr[b].len, hdr[b].used)
    ensures n in Cut(hdr, l, n) && Cut(hdr, l, n)[n] == Header(l, hdr[l].nextl, hdr[l].len - (n - l), false)
  {
  }

  /** Indices after the insertion of block n behind block i. */
  lemma {:induction false} WithAt(blocks: seq<nat>, i: nat, n: nat, k: nat, poolen: nat)
    requires i < |blocks| && k <= |blocks|
    ensures var (bs, o) := (With(blocks, i, n), if k <= i then k else k - 1);
            && |bs| == |blocks| + 1 && bs[k] == (if k == i + 1 then n else blocks[o])
            && bs[NextIndex(bs, k)] == (if k == i then n else blocks[NextIndex(blocks, o)])
            && bs[PrevIndex(bs, k)] == (if k == i + 1 then blocks[i] else if o == NextIndex(blocks, i) then n else blocks[PrevIndex(blocks, o)])
            && EndOf(bs, k, poolen) == (if k == i then n else EndOf(blocks, o, poolen))
  {
  }

  lemma {:induction false} CutBlockOk(blocks: seq<nat>, hdr: Headers, poolen: nat, base: nat, i: nat, n: nat, k: nat, o: nat)
    requires i < |blocks| && k < |blocks| + 1 && o == if k <= i then k else k - 1
    requires BlockOk(blocks, hdr, i, poolen, base) && BlockOk(blocks, hdr, o, poolen, base)
    requires blocks[i] + PHDRL <= n && n + PHDRL <= EndOf(blocks, i, poolen) && (base + n) % 8 == 0
    requires hdr[blocks[i]].nextl in hdr && blocks[o] != n && blocks[NextIndex(blocks, i)] != n
    requires blocks[o] == blocks[i] <==> o == i
    requires blocks[o] == blocks[NextIndex(blocks, i)] <==> o == NextIndex(blocks, i)
    ensures BlockOk(With(blocks, i, n), Cut(hdr, blocks[i], n), k, poolen, base)
  {
    WithAt(blocks, i, n, k, poolen);
    CutHeaderAt(hdr, blocks[i], n, blocks[o]);
  }

  // ----- Walking the ring

  ghost function Walk(hdr: Headers, p: nat, k: nat): nat {
    if k == 0 then p else
      var q := Walk(hdr, p, k - 1); if q in hdr then hdr[q].nextl else q
  }

  ghost function WalkBack(hdr: Headers, p: nat, k: nat): nat {
    if k == 0 then p else
      var q := WalkBack(hdr, p, k - 1); if q in hdr then hdr[q].prevl else q
  }

  predicate IsUsed(hdr: Headers, b: nat) {
    b in hdr && hdr[b].used
  }

  /** k steps ahead of p lies the first block in use. */
  ghost predicate FirstUsedAhead(hdr: Headers, p: nat, k: nat) {
    1 <= k && IsUsed(hdr, Walk(hdr, p, k)) && NoneUsedAhead(hdr, p, k)
  }

  ghost predicate FirstUsedBehind(hdr: Headers, p: nat, k: nat) {
    1 <= k && IsUsed(hdr, WalkBack(hdr, p, k)) && NoneUsedBehind(hdr, p, k)
  }

  ghost predicate NoneUsedAhead(hdr: Headers, p: nat, k: nat) {
    forall m :: 1 <= m < k ==> !IsUsed(hdr, Walk(hdr, p, m))
  }

  ghost predicate NoneUsedBehind(hdr: Headers, p: nat, k: nat) {
    forall m :: 1 <= m < k ==> !IsUsed(hdr, WalkBack(hdr, p, m))
  }

  lemma {:induction false} StepAhead(hdr: Headers, p: nat, k: nat)
    requires NoneUsedAhead(hdr, p, k) && Walk(hdr, p, k) in hdr && (k == 0 || !hdr[Walk(hdr, p, k)].used)
    ensures NoneUsedAhead(hdr, p, k + 1) && Walk(hdr, p, k + 1) == hdr[Walk(hdr, p, k)].nextl
  {
  }

  lemma {:induction false} StepBehind(hdr: Headers, p: nat, k: nat)
    requires NoneUsedBehind(hdr, p, k) && WalkBack(hdr, p, k) in hdr && (k == 0 || !hdr[WalkBack(hdr, p, k)].used)
    ensures NoneUsedBehind(hdr, p, k + 1) && WalkBack(hdr, p, k + 1) == hdr[WalkBack(hdr, p, k)].prevl
  {
  }

  lemma {:induction false} WalkStaysInRing(blocks: seq<nat>, hdr: Headers, poolen: nat, base: nat, p: nat, k: nat)
    requires Tiles(blocks, hdr, poolen, base) && p in blocks
    ensures Walk(hdr, p, k) in blocks
    decreases k
  {
    if k > 0 {
      WalkStaysInRing(blocks, hdr, poolen, base, p, k - 1);
      LinksInverse(blocks, hdr, poolen, base, Walk(hdr, p, k - 1));
    }
  }

  lemma {:induction false} WalkBackRetraces(blocks: seq<nat>, hdr: Headers, poolen: nat, base: nat, p: nat, k: nat, m: nat)
    requires Tiles(blocks, hdr, poolen, base) && p in blocks && m <= k
    ensures WalkBack(hdr, Walk(hdr, p, k), m) == Walk(hdr, p, k - m)
    decreases m
  {
    if m > 0 {
      WalkBackRetraces(blocks, hdr, poolen, base, p, k, m - 1);
      WalkStaysInRing(blocks, hdr, poolen, base, p, k - m);
      LinksInverse(blocks, hdr, poolen, base, Walk(hdr, p, k - m));
    }
  }

  /** From a line in use, the previous line of the next line is the line itself. */
  lemma {:induction false} PrevUndoesNext(blocks: seq<nat>, hdr: Headers, poolen: nat, base: nat, p: nat, k: nat)
    requires Tiles(blocks, hdr, poolen, base) && p in blocks && IsUsed(hdr, p) && FirstUsedAhead(hdr, p, k)
    ensures FirstUsedBehind(hdr, Walk(hdr, p, k), k) && WalkBack(hdr, Walk(hdr, p, k), k) == p
  {
    WalkBackRetraces(blocks, hdr, poolen, base, p, k, k);
    forall m | 1 <= m < k ensures !IsUsed(hdr, WalkBack(hdr, Walk(hdr, p, k), m)) {
      WalkBackRetraces(blocks, hdr, poolen, base, p, k, m);
    }
  }

  /** Only blocks that start within need bytes of l are gone. */
  ghost predicate OnlySwallowed(after: seq<nat>, before: seq<nat>, l: nat, need: nat) {
    forall b :: b in before && b !in after ==> l < b < l + need
  }

  /**
   The lines in use, but for the one at l, are those that were: a line is lost only if it starts where
   the new one goes, or was next and had too little room; none appears or changes its length.
   */
  ghost predicate OthersSurvive(blocks: seq<nat>, hdr: Headers, oldBlocks: seq<nat>, oldHdr: Headers, next: nat, l: nat, need: nat) {
    && (forall b :: b in oldBlocks && IsUsed(oldHdr, b) && !(l <= b < l + need) && b != next ==> b in blocks && IsUsed(hdr, b))
    && (forall b :: b in blocks && IsUsed(hdr, b) && b != l ==> b in oldBlocks && IsUsed(oldHdr, b) && hdr[b].len == oldHdr[b].len)
  }

  /** No block is lost and none changes its flag; a new one is free; only l changes its length. */
  ghost predicate OnlyFreeAdded(blocks: seq<nat>, hdr: Headers, oldBlocks: seq<nat>, oldHdr: Headers, l: nat) {
    && (forall b :: b in oldBlocks ==> b in blocks && b in oldHdr && IsUsed(hdr, b) == oldHdr[b].used)
    && (forall b :: b in blocks && IsUsed(hdr, b) && b != l ==> b in oldBlocks && IsUsed(oldHdr, b) && hdr[b].len == oldHdr[b].len)
  }

  /** Blocks swallowed, then one cut off. */
  lemma {:induction false} FitSurvives(l: nat, need: nat, b0: seq<nat>, h0: Headers, b1: seq<nat>, h1: Headers, b2: seq<nat>, h2: Headers)
    requires OnlySwallowed(b1, b0, l, need) && forall b :: b in b1 ==> b in b0
    requires h1.Keys == h0.Keys && forall b :: b in h1 ==> h1[b].used == h0[b].used && (b != l ==> h1[b].len == h0[b].len)
    requires OnlyFreeAdded(b2, h2, b1, h1, l)
    ensures OthersSurvive(b2, h2, b0, h0, l, l, need)
  {
  }

  /** Before that, at most the flag of the next block was cleared. */
  lemma {:induction false} ChoiceSurvives(next: nat, l: nat, need: nat, b0: seq<nat>, h0: Headers, h1: Headers, b2: seq<nat>, h2: Headers)
    requires h1.Keys == h0.Keys && forall b :: b in h0 ==> h1[b].len == h0[b].len && (h1[b].used ==> h0[b].used)
    requires forall b :: IsUsed(h0, b) && b != next ==> IsUsed(h1, b)
    requires need > 0 && OthersSurvive(b2, h2, b0, h1, l, l, need)
    ensures OthersSurvive(b2, h2, b0, h0, next, l, need)
  {
  }

  /** Last, the flag of the line stored is set. */
  lemma {:induction false} MarkSurvives(next: nat, l: nat, need: nat, b0: seq<nat>, h0: Headers, b1: seq<nat>, h1: Headers)
    requires l in h1 && OthersSurvive(b1, h1, b0, h0, next, l, need)
    ensures OthersSurvive(b1, h1[l := h1[l].(used := true)], b0, h0, next, l, need)
  {
  }

  // ----- What lies behind the newest line

  /** Walking back from p over lines not in use leads to the line s. */
  ghost predicate IsPrevious(hdr: Headers, p: nat, s: nat) {
    exists k: nat :: FirstUsedBehind(hdr, p, k) && WalkBack(hdr, p, k) == s
  }

  /** No line in use starts behind s but, perhaps, the next one. */
  predicate NoneUsedPast(blocks: seq<nat>, hdr: Headers, s: nat, next: nat) {
    forall b :: b in blocks && b > s && b != next ==> !IsUsed(hdr, b)
  }

  lemma {:induction false} WalkBackFromStart(blocks: seq<nat>, hdr: Headers, poolen: nat, base: nat, k: nat)
    requires Tiles(blocks, hdr, poolen, base) && 1 <= k <= |blocks|
    ensures WalkBack(hdr, 0, k) == blocks[|blocks| - k]
    decreases k
  {
    if k > 1 {
      WalkBackFromStart(blocks, hdr, poolen, base, k - 1);
      RingStep(blocks, hdr, poolen, base, |blocks| - (k - 1));
    } else {
      RingStep(blocks, hdr, poolen, base, 0);
    }
  }

  /** From the start of the pool the line s, in use, is the previous one exactly when none behind it is in use. */
  lemma {:induction false} PreviousOfStartIff(blocks: seq<nat>, hdr: Headers, poolen: nat, base: nat, s: nat)
    requires Tiles(blocks, hdr, poolen, base) && IsUsed(hdr, 0) && s != 0
    ensures IsPrevious(hdr, 0, s) <==> s in blocks && IsUsed(hdr, s) && forall b :: b in blocks && b > s ==> !IsUsed(hdr, b)
  {
    var n := |blocks|;
    if k: nat :| FirstUsedBehind(hdr, 0, k) && WalkBack(hdr, 0, k) == s {
      WalkBackFromStart(blocks, hdr, poolen, base, n);
      assert k <= n;
      WalkBackFromStart(blocks, hdr, poolen, base, k);
      forall b | b in blocks && b > s ensures !IsUsed(hdr, b) {
        var i :| 0 <= i < n && blocks[i] == b;
        WalkBackFromStart(blocks, hdr, poolen, base, n - i);
        assert i > n - k by { SameOrder(blocks, n - k, i); }
      }
    }
    if s in blocks && IsUsed(hdr, s) && forall b :: b in blocks && b > s ==> !IsUsed(hdr, b) {
      var i :| 0 <= i < n && blocks[i] == s;
      WalkBackFromStart(blocks, hdr, poolen, base, n - i);
      forall m | 1 <= m < n - i ensures !IsUsed(hdr, WalkBack(hdr, 0, m)) {
        WalkBackFromStart(blocks, hdr, poolen, base, m);
        assert blocks[n - m] in blocks;
      }
      assert FirstUsedBehind(hdr, 0, n - i);
    }
  }

  lemma {:induction false} SameOrder(blocks: seq<nat>, i: nat, k: nat)
    requires i < |blocks| && k < |blocks| && forall m, n :: 0 <= m < n < |blocks| ==> blocks[m] < blocks[n]
    ensures blocks[i] < blocks[k] <==> i < k
  {
  }

  /** A block other than the first starts where the first ends, or later. */
  lemma {:induction false} BehindFirst(blocks: seq<nat>, hdr: Headers, poolen: nat, base: nat, b: nat)
    requires Tiles(blocks, hdr, poolen, base) && b in blocks && b != 0
    ensures 0 in hdr && hdr[0].len <= b
  {
    var i :| 0 <= i < |blocks| && blocks[i] == b;
    assert BlockOk(blocks, hdr, 0, poolen, base);
    LaterBlock(blocks, hdr, poolen, base, 0, i);
  }

  /** The block linked to a later one lies just before it. */
  lemma {:induction false} BeforeNext(blocks: seq<nat>, hdr: Headers, poolen: nat, base: nat, s: nat, i: nat)
    requires Tiles(blocks, hdr, poolen, base) && s in blocks && 0 < i < |blocks|
    ensures s in hdr && (hdr[s].nextl == blocks[i] ==> blocks[i - 1] == s)
  {
    var k :| 0 <= k < |blocks| && blocks[k] == s;
    RingStep(blocks, hdr, poolen, base, k);
    SameBlock(blocks, NextIndex(blocks, k), i);
  }

  lemma {:induction false} NextIsOther(blocks: seq<nat>, hdr: Headers, poolen: nat, base: nat, s: nat)
    requires Tiles(blocks, hdr, poolen, base) && s in blocks && s != 0
    ensures s in hdr && hdr[s].nextl != s
  {
    var i :| 0 <= i < |blocks| && blocks[i] == s;
    RingStep(blocks, hdr, poolen, base, i);
    SameBlock(blocks, i, NextIndex(blocks, i));
  }

  /**
   A line stored at the start of the pool, when the newest line before it was s: s is the previous line
   exactly when the new one does not reach it and nothing behind it, but for the next block, is in use.
   */
  lemma {:induction false} PreviousKeptIff(b0: seq<nat>, h0: Headers, b1: seq<nat>, h1: Headers, poolen: nat, base: nat, s: nat, next: nat, need: nat)
    requires Tiles(b0, h0, poolen, base) && Tiles(b1, h1, poolen, base) && s in b0 && s != 0 && IsUsed(h0, s) && next == h0[s].nextl
    requires OthersSurvive(b1, h1, b0, h0, next, 0, need) && 0 in h1 && h1[0].used && need <= h1[0].len
    requires next != 0 && next in b1 ==> !IsUsed(h1, next)
    ensures IsPrevious(h1, 0, s) <==> need <= s && NoneUsedPast(b0, h0, s, next)
  {
    PreviousOfStartIff(b1, h1, poolen, base, s);
    if s in b1 {
      BehindFirst(b1, h1, poolen, base, s);
    }
    NextIsOther(b0, h0, poolen, base, s);
    assert need <= s <==> s in b1;
    if need <= s {
      assert IsUsed(h1, s);
      forall b | b in b1 && b > s ensures IsUsed(h1, b) <==> b in b0 && b != next && IsUsed(h0, b) {
      }
      if NoneUsedPast(b0, h0, s, next) {
        assert forall b :: b in b1 && b > s ==> !IsUsed(h1, b);
      } else {
        var b :| b in b0 && b > s && b != next && IsUsed(h0, b);
        assert b in b1 && IsUsed(h1, b);
      }
    }
  }

  lemma {:induction false} BlocksHaveHeaders(blocks: seq<nat>, hdr: Headers, poolen: nat, base: nat)
    requires Tiles(blocks, hdr, poolen, base)
    ensures forall b :: b in blocks ==> b in hdr
  {
    forall k | 0 <= k < |blocks| ensures blocks[k] in hdr {
      assert BlockOk(blocks, hdr, k, poolen, base);
    }
  }

  /** The ring before and after `putline`, the newest line going from s to l. */
  ghost predicate IsPut(b0: seq<nat>, h0: Headers, b1: seq<nat>, h1: Headers, poolen: nat, base: nat, s: nat, l: nat, need: nat) {
    && Tiles(b0, h0, poolen, base) && Tiles(b1, h1, poolen, base)
    && s in b0 && IsUsed(h0, s) && l in b1 && IsUsed(h1, l) && 0 < need <= h1[l].len
    && l == (if h0[s].nextl + need <= poolen then h0[s].nextl else 0)
    && (l != h0[s].nextl && h0[s].nextl in b1 ==> !IsUsed(h1, h0[s].nextl))
    && OthersSurvive(b1, h1, b0, h0, h0[s].nextl, l, need)
  }

  /** The newest line before is the previous line: at once behind a new line, and at the start of the pool as above. */
  lemma {:induction false} PreviousAfter(b0: seq<nat>, h0: Headers, b1: seq<nat>, h1: Headers, poolen: nat, base: nat, s: nat, l: nat, need: nat)
    requires IsPut(b0, h0, b1, h1, poolen, base, s, l, need) && (l != 0 ==> s < l && h1[l].prevl == s)
    ensures l != 0 ==> s in b1 && IsUsed(h1, s) && FirstUsedBehind(h1, l, 1) && WalkBack(h1, l, 1) == s
    ensures l == 0 && s != 0 ==> (IsPrevious(h1, 0, s) <==> need <= s && NoneUsedPast(b0, h0, s, h0[s].nextl))
  {
    if l != 0 {
      assert WalkBack(h1, l, 0) == l;
    } else if s != 0 {
      PreviousKeptIff(b0, h0, b1, h1, poolen, base, s, h0[s].nextl, need);
    }
  }

  // ----- Headers as bytes of the buffer

  /** The lowest k bytes of a number. */
  function Low(n: nat, k: nat): (w: string)
    ensures |w| == k
  {
    if k == 0 then "" else [(n % 256) as char] + Low(n / 256, k - 1)
  }

  function Pow256(k: nat): (p: nat)
    ensures p > 0
  {
    if k == 0 then 1 else 256 * Pow256(k - 1)
  }

  lemma {:induction false} LowIsOneToOne(m: nat, n: nat, k: nat)
    requires m < Pow256(k) && n < Pow256(k) && Low(m, k) == Low(n, k)
    ensures m == n
  {
    if k > 0 {
      assert Low(m, k)[0] == Low(n, k)[0] && Low(m, k)[1..] == Low(n, k)[1..];
      LowIsOneToOne(m / 256, n / 256, k - 1);
    }
  }

  /** The length as a word; a block is never shorter than its header. */
  function Len(h: Header): nat {
    if h.len < 0 then 0 else h.len
  }

  /** A 64-bit word, least significant byte first. */
  function Word(n: nat): (w: string)
    ensures |w| == 8
  {
    Low(n, 8)
  }

  predicate FitsWord(n: nat) {
    n < 0x1_0000_0000_0000_0000
  }

  lemma {:induction false} EightBytes()
    ensures Pow256(8) == 0x1_0000_0000_0000_0000
  {
    assert Pow256(2) == 0x1_0000 && Pow256(4) == 0x1_0000_0000;
  }

  lemma {:induction false} WordIsOneToOne(m: nat, n: nat)
    requires FitsWord(m) && FitsWord(n) && Word(m) == Word(n)
    ensures m == n
  {
    EightBytes();
    LowIsOneToOne(m, n, 8);
  }

  predicate FitsWords(h: Header, base: nat) {
    h.len >= 0 && FitsWord(base + h.prevl) && FitsWord(base + h.nextl) && FitsWord(Len(h))
  }

  /** The 25 bytes of a header: two pointers, a length and a flag. */
  function Image(h: Header, base: nat): (w: string)
    ensures |w| == LINE
  {
    Word(base + h.prevl) + Word(base + h.nextl) + Word(Len(h)) + [Flag(h.used)]
  }

  function Flag(used: bool): char {
    (if used then 1 else 0) as char
  }

  /** The fields of struct lstr in their order. */
  lemma {:induction false} ImageLayout(h: Header, base: nat)
    ensures var w := Image(h, base);
            && w[0..8] == Word(base + h.prevl) && w[8..16] == Word(base + h.nextl)
            && (h.len >= 0 ==> w[16..24] == Word(h.len)) && w[24] == if h.used then 1 as char else 0 as char
  {
  }

  lemma {:induction false} ImageParts(g: Header, h: Header, base: nat)
    requires Image(g, base) == Image(h, base)
    ensures Word(base + g.prevl) == Word(base + h.prevl) && Word(base + g.nextl) == Word(base + h.nextl)
    ensures Word(Len(g)) == Word(Len(h)) && Flag(g.used) == Flag(h.used)
  {
    SameWords(Word(base + g.prevl), Word(base + g.nextl), Word(Len(g)), Flag(g.used),
              Word(base + h.prevl), Word(base + h.nextl), Word(Len(h)), Flag(h.used));
  }

  /** The bytes tell the header. */
  lemma {:induction false} ImageIsOneToOne(g: Header, h: Header, base: nat)
    requires FitsWords(g, base) && FitsWords(h, base)
    ensures Image(g, base) == Image(h, base) <==> g == h
  {
    if Image(g, base) == Image(h, base) {
      ImageParts(g, h, base);
      WordIsOneToOne(base + g.prevl, base + h.prevl);
      WordIsOneToOne(base + g.nextl, base + h.nextl);
      WordIsOneToOne(Len(g), Len(h));
    }
  }

  lemma {:induction false} SameWords(a: string, b: string, c: string, d: char, a': string, b': string, c': string, d': char)
    requires |a| == |a'| && |b| == |b'| && |c| == |c'| && a + b + c + [d] == a' + b' + c' + [d']
    ensures a == a' && b == b' && c == c' && d == d'
  {
    var (v, w) := (a + b + c + [d], a' + b' + c' + [d']);
    assert a == v[..|a|] && a' == w[..|a|];
    assert b == v[|a|..|a| + |b|] && b' == w[|a|..|a| + |b|];
    assert c == v[|a| + |b|..|a| + |b| + |c|] && c' == w[|a| + |b|..|a| + |b| + |c|];
    assert d == v[|v| - 1] && d' == w[|w| - 1];
  }

  ghost predicate HeaderAt(hdr: Headers, b: nat, bytes: seq<char>, base: nat) {
    b in hdr && b + LINE <= |bytes| && bytes[b..b + LINE] == Image(hdr[b], base)
  }

  /** The bytes hold the headers of all blocks but some still to be written. */
  ghost predicate InStep(blocks: seq<nat>, hdr: Headers, bytes: seq<char>, base: nat, todo: set<nat>) {
    forall b {:trigger HeaderAt(hdr, b, bytes, base)} :: b in blocks && b !in todo ==> HeaderAt(hdr, b, bytes, base)
  }

  /** The text of block b, all of it after the header, is the same in both images of the buffer. */
  ghost predicate TextKept(hdr: Headers, b: nat, after: seq<char>, before: seq<char>) {
    && b in hdr && |after| == |before| && PHDRL <= hdr[b].len <= |after| - b
    && after[b + LINE..b + hdr[b].len] == before[b + LINE..b + hdr[b].len]
  }

  ghost predicate AllTextsKept(blocks: seq<nat>, hdr: Headers, after: seq<char>, before: seq<char>) {
    forall b {:trigger TextKept(hdr, b, after, before)} :: b in blocks ==> TextKept(hdr, b, after, before)
  }

  /** The text of all lines in use but the one at l. */
  ghost predicate UsedTextsKept(blocks: seq<nat>, hdr: Headers, l: nat, after: seq<char>, before: seq<char>) {
    forall b {:trigger TextKept(hdr, b, after, before)} :: b in blocks && IsUsed(hdr, b) && b != l ==> TextKept(hdr, b, after, before)
  }

  /** The two images differ at most from lo up to hi. */
  ghost predicate SameOutside(after: seq<char>, before: seq<char>, lo: nat, hi: nat) {
    |after| == |before| && forall x :: 0 <= x < |after| && !(lo <= x < hi) ==> after[x] == before[x]
  }

  lemma {:induction false} BlockInside(blocks: seq<nat>, hdr: Headers, poolen: nat, base: nat, i: nat)
    requires Tiles(blocks, hdr, poolen, base) && i < |blocks|
    ensures blocks[i] in hdr && PHDRL <= hdr[blocks[i]].len && blocks[i] + hdr[blocks[i]].len == EndOf(blocks, i, poolen) <= poolen
  {
    assert BlockOk(blocks, hdr, i, poolen, base);
    TextInside(blocks, hdr, poolen, base, i);
  }

  /** Writing in the header of one block reaches no text and no other header. */
  lemma {:induction false} HeaderWritten(blocks: seq<nat>, hdr: Headers, poolen: nat, base: nat, i: nat, k: nat, after: seq<char>, before: seq<char>)
    requires Tiles(blocks, hdr, poolen, base) && i < |blocks| && k < |blocks| && |before| == poolen
    requires SameOutside(after, before, blocks[i], blocks[i] + LINE)
    ensures TextKept(hdr, blocks[k], after, before)
    ensures k != i && HeaderAt(hdr, blocks[k], before, base) ==> HeaderAt(hdr, blocks[k], after, base)
  {
    BlockInside(blocks, hdr, poolen, base, i);
    BlockInside(blocks, hdr, poolen, base, k);
    if i != k {
      BlocksApart(blocks, hdr, poolen, base, i, k);
    }
  }

  /** Writing in the text of one block reaches no header and no other text. */
  lemma {:induction false} TextWritten(blocks: seq<nat>, hdr: Headers, poolen: nat, base: nat, i: nat, k: nat, after: seq<char>, before: seq<char>)
    requires Tiles(blocks, hdr, poolen, base) && i < |blocks| && k < |blocks| && |before| == poolen
    requires blocks[i] in hdr && hdr[blocks[i]].len >= 0
    requires SameOutside(after, before, blocks[i] + LINE, blocks[i] + hdr[blocks[i]].len)
    ensures k != i ==> TextKept(hdr, blocks[k], after, before)
    ensures HeaderAt(hdr, blocks[k], before, base) ==> HeaderAt(hdr, blocks[k], after, base)
  {
    BlockInside(blocks, hdr, poolen, base, i);
    BlockInside(blocks, hdr, poolen, base, k);
    if i != k {
      BlocksApart(blocks, hdr, poolen, base, i, k);
    }
  }

  /** Headers that a step leaves alone are still in the bytes. */
  lemma {:induction false} StillInStep(blocks: seq<nat>, hdr: Headers, after: seq<nat>, hdr': Headers, bytes: seq<char>, base: nat, todo: set<nat>)
    requires InStep(blocks, hdr, bytes, base, {})
    requires forall b :: b in after && b !in todo ==> b in blocks && b in hdr && b in hdr' && hdr'[b] == hdr[b]
    ensures InStep(after, hdr', bytes, base, todo)
  {
    forall b | b in after && b !in todo ensures HeaderAt(hdr', b, bytes, base) {
      assert HeaderAt(hdr, b, bytes, base);
    }
  }

  class Pool {
    const poolen: nat
    const base: nat             // address of the buffer
    const pool: array<char>     // the buffer
    var hdr: Headers            // the headers in it
    var lptr: nat               // current line
    var slptr: nat              // line stored last
    ghost var blocks: seq<nat>

    ghost predicate RingOk()
      reads this
    {
      pool.Length == poolen && Tiles(blocks, hdr, poolen, base)
    }

    ghost predicate Valid()
      reads this, pool
    {
      RingOk() && InStep(blocks, hdr, pool[..], base, {}) && lptr in blocks && slptr in blocks && IsUsed(hdr, slptr)
    }

    /** `poolinit`: one used block, with an empty line. */
    constructor (poolen: nat, base: nat)
      requires PHDRL <= poolen
      ensures Valid() && fresh(pool) && this.poolen == poolen && this.base == base
      ensures blocks == [0] && slptr == 0 && pool[LINE] == '\0'
    {
      this.poolen, this.base := poolen, base;
      pool := new char[poolen];
      slptr, lptr := 0, 0;
      hdr := map[0 := Header(0, 0, poolen, true)];
      blocks := [0];
      new;
      StoreHeader(0, {0});
      ghost var p := pool[..];
      assert HeaderAt(hdr, 0, p, base);
      pool[LINE] := '\0';
      assert pool[..][0..LINE] == p[0..LINE];
      assert HeaderAt(hdr, 0, pool[..], base);
    }

    /** Writes the bytes of one header. */
    method StoreHeader(b: nat, ghost todo: set<nat>)
      requires RingOk() && b in blocks && InStep(blocks, hdr, pool[..], base, todo)
      modifies pool
      ensures InStep(blocks, hdr, pool[..], base, todo - {b}) && AllTextsKept(blocks, hdr, pool[..], old(pool[..]))
    {
      ghost var i :| 0 <= i < |blocks| && blocks[i] == b;
      BlockInside(blocks, hdr, poolen, base, i);
      ghost var before := pool[..];
      var image := Image(hdr[b], base);
      forall x | 0 <= x < LINE {
        pool[b + x] := image[x];
      }
      ghost var after := pool[..];
      assert after[b..b + LINE] == image;
      forall c | c in blocks ensures TextKept(hdr, c, after, before) && (c !in todo - {b} ==> HeaderAt(hdr, c, after, base)) {
        var k :| 0 <= k < |blocks| && blocks[k] == c;
        HeaderWritten(blocks, hdr, poolen, base, i, k, after, before);
        assert c !in todo ==> HeaderAt(hdr, c, before, base);
      }
    }

    method StoreHeaders(b: nat, c: nat)
      requires RingOk() && b in blocks && c in blocks && InStep(blocks, hdr, pool[..], base, {b, c})
      modifies pool
      ensures InStep(blocks, hdr, pool[..], base, {}) && AllTextsKept(blocks, hdr, pool[..], old(pool[..]))
    {
      ghost var p0 := pool[..];
      StoreHeader(b, {b, c});
      ghost var p1 := pool[..];
      StoreHeader(c, {b, c} - {b});
      assert {b, c} - {b} - {c} == {};
      KeptTwice(blocks, hdr, pool[..], p1, p0);
    }

    /** Swallows the block that follows. */
    method MergeNext(ghost i: nat)
      requires RingOk() && InStep(blocks, hdr, pool[..], base, {}) && i + 1 < |blocks| && blocks[i] == lptr
      modifies this`hdr, this`blocks, pool
      ensures RingOk() && InStep(blocks, hdr, pool[..], base, {})
      ensures i < |blocks| && blocks[i] == lptr && lptr in hdr && hdr.Keys == old(hdr.Keys)
      ensures blocks == Without(old(blocks), i + 1) && (i > 0 ==> blocks[i - 1] == old(blocks)[i - 1])
      ensures forall b :: b in hdr ==> hdr[b].used == old(hdr)[b].used && (b != lptr ==> hdr[b].len == old(hdr)[b].len)
      ensures AllTextsKept(blocks, hdr, pool[..], old(pool[..]))
    {
      MergeKeepsTiles(blocks, hdr, poolen, base, i);
      MergeKeepsRest(hdr, lptr);
      var nptr := hdr[lptr].nextl;
      var after := hdr[nptr].nextl;
      ghost var (h, bs) := (hdr, blocks);
      hdr := hdr[lptr := hdr[lptr].(nextl := after)];
      hdr := hdr[after := hdr[after].(prevl := lptr)];
      hdr := hdr[lptr := hdr[lptr].(len := hdr[lptr].len + hdr[nptr].len)];
      assert hdr == Merged(h, lptr) by { assert nptr == blocks[i + 1] != lptr; }
      blocks := Without(blocks, i + 1);
      MergedInStep(bs, h, pool[..], poolen, base, i);
      StoreHeaders(lptr, after);
    }

    /** The loop of `putline` that concatenates blocks until the line fits. */
    method Concatenate(need: nat, ghost i: nat)
      requires RingOk() && InStep(blocks, hdr, pool[..], base, {}) && i < |blocks| && blocks[i] == lptr && lptr + need <= poolen
      modifies this`hdr, this`blocks, pool
      ensures RingOk() && InStep(blocks, hdr, pool[..], base, {}) && i < |blocks| && blocks[i] == lptr
      ensures i > 0 ==> blocks[i - 1] == old(blocks)[i - 1]
      ensures lptr in hdr && need <= hdr[lptr].len && hdr.Keys == old(hdr.Keys)
      ensures (forall b :: b in blocks ==> b in old(blocks)) && OnlySwallowed(blocks, old(blocks), lptr, need)
      ensures forall b :: b in hdr ==> hdr[b].used == old(hdr)[b].used && (b != lptr ==> hdr[b].len == old(hdr)[b].len)
      ensures UsedTextsKept(blocks, hdr, lptr, pool[..], old(pool[..]))
    {
      assert BlockOk(blocks, hdr, i, poolen, base);
      TextsStart(blocks, hdr, poolen, base, lptr, pool[..]);
      while hdr[lptr].len < need
        invariant RingOk() && InStep(blocks, hdr, pool[..], base, {}) && i < |blocks| && blocks[i] == lptr
        invariant lptr in hdr && hdr.Keys == old(hdr.Keys) && (i > 0 ==> blocks[i - 1] == old(blocks)[i - 1])
        invariant (forall b :: b in blocks ==> b in old(blocks)) && OnlySwallowed(blocks, old(blocks), lptr, need)
        invariant forall b :: b in hdr ==> hdr[b].used == old(hdr)[b].used && (b != lptr ==> hdr[b].len == old(hdr)[b].len)
        invariant UsedTextsKept(blocks, hdr, lptr, pool[..], old(pool[..]))
        decreases |blocks|
      {
        assert BlockOk(blocks, hdr, i, poolen, base);
        ghost var (bs, h, p) := (blocks, hdr, pool[..]);
        MergeNext(i);
        UsedKeptOn(bs, h, blocks, hdr, lptr, pool[..], p, old(pool[..]));
      }
    }

    /** The end of the line rounded up to an address that is a multiple of 8. */
    function Aligned(n: nat): (r: nat)
      ensures n <= r <= n + 7 && (base + r) % 8 == 0
    {
      if (base + n) % 8 != 0 then (base + n) / 8 * 8 + 8 - base else n
    }

    /** Links a free block in at an offset inside the current one. */
    method CutAt(n: nat, ghost i: nat)
      requires RingOk() && InStep(blocks, hdr, pool[..], base, {}) && i < |blocks| && blocks[i] == lptr
      requires lptr + PHDRL <= n && n + PHDRL <= EndOf(blocks, i, poolen) && (base + n) % 8 == 0
      modifies this`hdr, this`blocks, pool
      ensures RingOk() && InStep(blocks, hdr, pool[..], base, {}) && i < |blocks| && blocks[i] == lptr && lptr in old(hdr)
      ensures lptr in hdr && hdr[lptr].len == n - lptr && (i > 0 ==> blocks[i - 1] == old(blocks)[i - 1])
      ensures OnlyFreeAdded(blocks, hdr, old(blocks), old(hdr), lptr) && AllTextsKept(blocks, hdr, pool[..], old(pool[..]))
    {
      CutKeepsTiles(blocks, hdr, poolen, base, i, n);
      CutKeepsRest(hdr, lptr, n);
      CutSurvives(blocks, hdr, i, n);
      CutInStep(blocks, hdr, pool[..], poolen, base, i, n);
      var next := hdr[lptr].nextl;
      hdr := Cut(hdr, lptr, n);
      blocks := With(blocks, i, n);
      StoreThree(n, lptr, next);
    }

    method StoreThree(b: nat, c: nat, d: nat)
      requires RingOk() && b in blocks && c in blocks && d in blocks && InStep(blocks, hdr, pool[..], base, {b, c, d})
      modifies pool
      ensures InStep(blocks, hdr, pool[..], base, {}) && AllTextsKept(blocks, hdr, pool[..], old(pool[..]))
    {
      ghost var p0 := pool[..];
      StoreHeader(b, {b, c, d});
      ghost var p1 := pool[..];
      assert forall x :: x in {b, c, d} - {b} ==> x in {c, d};
      StoreHeaders(c, d);
      KeptTwice(blocks, hdr, pool[..], p1, p0);
    }

    /** The branch of `putline` that splits off the rest of a large block. */
    method Split(newlen: nat, ghost i: nat)
      requires RingOk() && InStep(blocks, hdr, pool[..], base, {}) && i < |blocks| && blocks[i] == lptr
      requires lptr in hdr && newlen + PHDRL <= hdr[lptr].len
      modifies this`hdr, this`blocks, pool
      ensures RingOk() && InStep(blocks, hdr, pool[..], base, {}) && i < |blocks| && blocks[i] == lptr && lptr in hdr
      ensures if old(hdr)[lptr].len > newlen + 71 then newlen + PHDRL <= hdr[lptr].len <= newlen + 39
              else blocks == old(blocks) && hdr == old(hdr)
      ensures i > 0 ==> blocks[i - 1] == old(blocks)[i - 1]
      ensures OnlyFreeAdded(blocks, hdr, old(blocks), old(hdr), lptr) && AllTextsKept(blocks, hdr, pool[..], old(pool[..]))
    {
      assert BlockOk(blocks, hdr, i, poolen, base);
      BlocksHaveHeaders(blocks, hdr, poolen, base);
      if hdr[lptr].len > newlen + 2 * PHDRL + 7 {
        var nptr := Aligned(lptr + newlen + PHDRL);
        CutAt(nptr, i);
      } else {
        AllTextsStart(blocks, hdr, poolen, base, pool[..]);
      }
    }

    /** Merges and splits the current block until it fits the line. */
    method Fit(newlen: nat, ghost i: nat)
      requires RingOk() && InStep(blocks, hdr, pool[..], base, {})
      requires i < |blocks| && blocks[i] == lptr && lptr + newlen + PHDRL <= poolen
      modifies this`hdr, this`blocks, pool
      ensures RingOk() && InStep(blocks, hdr, pool[..], base, {}) && i < |blocks| && blocks[i] == lptr && lptr in hdr
      ensures newlen + PHDRL <= hdr[lptr].len <= newlen + PHDRL + 39 && (i > 0 ==> blocks[i - 1] == old(blocks)[i - 1])
      ensures OthersSurvive(blocks, hdr, old(blocks), old(hdr), lptr, lptr, newlen + PHDRL)
      ensures UsedTextsKept(blocks, hdr, lptr, pool[..], old(pool[..]))
    {
      Concatenate(newlen + PHDRL, i);
      ghost var (b, h, p) := (blocks, hdr, pool[..]);
      Split(newlen, i);
      FitSurvives(lptr, newlen + PHDRL, old(blocks), old(hdr), b, h, blocks, hdr);
      UsedKeptOn(b, h, blocks, hdr, lptr, pool[..], p, old(pool[..]));
    }

    /** The first part of `putline`: the block after the newest line, or the start of the pool. */
    method Choose(newlen: nat)
      requires Valid()
      modifies this`hdr, this`lptr, pool
      ensures RingOk() && InStep(blocks, hdr, pool[..], base, {}) && lptr in blocks && hdr.Keys == old(hdr).Keys
      ensures slptr in old(hdr)
      ensures lptr == if old(hdr)[slptr].nextl + newlen + PHDRL <= poolen then old(hdr)[slptr].nextl else 0
      ensures lptr != old(hdr)[slptr].nextl ==> !IsUsed(hdr, old(hdr)[slptr].nextl)
      ensures forall b :: b in old(hdr) ==> hdr[b].len == old(hdr)[b].len && (hdr[b].used ==> old(hdr)[b].used)
      ensures forall b :: IsUsed(old(hdr), b) && b != old(hdr)[slptr].nextl ==> IsUsed(hdr, b)
      ensures AllTextsKept(blocks, hdr, pool[..], old(pool[..]))
    {
      LinksInverse(blocks, hdr, poolen, base, slptr);
      lptr := slptr;
      lptr := hdr[lptr].nextl;
      AllTextsStart(blocks, hdr, poolen, base, pool[..]);
      if lptr + newlen + PHDRL > poolen {
        NotUsed(blocks, hdr, poolen, base, lptr);
        BlocksHaveHeaders(blocks, hdr, poolen, base);
        StillInStep(blocks, hdr, blocks, hdr[lptr := hdr[lptr].(used := false)], pool[..], base, {lptr});
        hdr := hdr[lptr := hdr[lptr].(used := false)];
        StoreHeader(lptr, {lptr});
        assert {lptr} - {lptr} == {};
        lptr := 0;
        assert blocks[0] == lptr;
      }
    }

    /** The part of `putline` that makes room for the line. */
    method Allocate(newlen: nat) returns (ghost i: nat)
      requires Valid() && newlen + PHDRL <= poolen
      modifies this`hdr, this`blocks, this`lptr, pool
      ensures RingOk() && InStep(blocks, hdr, pool[..], base, {}) && i < |blocks| && blocks[i] == lptr && lptr in hdr
      ensures newlen + PHDRL <= hdr[lptr].len <= newlen + PHDRL + 39 && hdr[lptr].len <= poolen - lptr
      ensures slptr in old(hdr)
      ensures lptr == if old(hdr)[slptr].nextl + newlen + PHDRL <= poolen then old(hdr)[slptr].nextl else 0
      ensures lptr != old(hdr)[slptr].nextl && old(hdr)[slptr].nextl in blocks ==> !IsUsed(hdr, old(hdr)[slptr].nextl)
      ensures lptr != 0 ==> slptr < lptr && hdr[lptr].prevl == slptr
      ensures OthersSurvive(blocks, hdr, old(blocks), old(hdr), old(hdr)[slptr].nextl, lptr, newlen + PHDRL)
      ensures UsedTextsKept(blocks, hdr, lptr, pool[..], old(pool[..]))
    {
      Choose(newlen);
      ghost var (bs, h, p) := (blocks, hdr, pool[..]);
      i :| 0 <= i < |blocks| && blocks[i] == lptr;
      if i > 0 {
        BeforeNext(old(blocks), old(hdr), poolen, base, slptr, i);
      }
      Fit(newlen, i);
      RingStep(blocks, hdr, poolen, base, i);
      ChoiceSurvives(old(hdr)[slptr].nextl, lptr, newlen + PHDRL, old(blocks), old(hdr), h, blocks, hdr);
      KeptThroughChoice(bs, h, blocks, hdr, lptr, newlen + PHDRL, pool[..], p, old(pool[..]));
      BlockInside(blocks, hdr, poolen, base, i);
    }

    /** The memcpy of `putline`. */
    method CopyText(newl: seq<char>, newlen: nat, ghost i: nat)
      requires RingOk() && InStep(blocks, hdr, pool[..], base, {}) && i < |blocks| && blocks[i] == lptr && lptr in hdr
      requires newlen <= |newl| && newlen + PHDRL <= hdr[lptr].len <= poolen - lptr
      modifies pool
      ensures InStep(blocks, hdr, pool[..], base, {}) && pool[lptr + LINE..lptr + LINE + newlen] == newl[..newlen]
      ensures UsedTextsKept(blocks, hdr, lptr, pool[..], old(pool[..]))
    {
      ghost var before := pool[..];
      forall k | 0 <= k < newlen {
        pool[lptr + LINE + k] := newl[k];
      }
      ghost var after := pool[..];
      forall c | c in blocks ensures HeaderAt(hdr, c, after, base) && (c != lptr ==> TextKept(hdr, c, after, before)) {
        var k :| 0 <= k < |blocks| && blocks[k] == c;
        assert HeaderAt(hdr, c, before, base);
        TextWritten(blocks, hdr, poolen, base, i, k, after, before);
      }
    }

    /** `putline`: stores a line in the next blocks of the ring, and makes it the newest. */
    method PutLine(newl: seq<char>, newlen: nat)
      requires Valid() && newlen <= |newl| && newlen + PHDRL <= poolen
      modifies this`hdr, this`blocks, this`lptr, this`slptr, pool
      ensures Valid() && lptr == slptr
      ensures newlen + PHDRL <= hdr[slptr].len <= newlen + PHDRL + 39 && hdr[slptr].len <= poolen - slptr
      ensures old(slptr) in old(hdr)
      ensures slptr == if old(hdr)[old(slptr)].nextl + newlen + PHDRL <= poolen then old(hdr)[old(slptr)].nextl else 0
      ensures slptr != 0 ==> FirstUsedBehind(hdr, slptr, 1) && hdr[slptr].prevl == old(slptr) != slptr
      ensures slptr != 0 ==> IsUsed(hdr, old(slptr)) && TextKept(hdr, old(slptr), pool[..], old(pool[..])) &&
                             hdr[old(slptr)].len == old(hdr)[old(slptr)].len
      ensures slptr == 0 && old(slptr) != 0 ==>
                (IsPrevious(hdr, 0, old(slptr)) <==>
                 newlen + PHDRL <= old(slptr) && NoneUsedPast(old(blocks), old(hdr), old(slptr), old(hdr)[old(slptr)].nextl))
      ensures pool[slptr + LINE..slptr + LINE + newlen] == newl[..newlen]
      ensures IsPut(old(blocks), old(hdr), blocks, hdr, poolen, base, old(slptr), slptr, newlen + PHDRL)
      ensures UsedTextsKept(blocks, hdr, slptr, pool[..], old(pool[..]))
    {
      ghost var i := Allocate(newlen);
      MarkSurvives(old(hdr)[old(slptr)].nextl, lptr, newlen + PHDRL, old(blocks), old(hdr), blocks, hdr);
      StoreText(newl, newlen, i, old(pool[..]));
      PreviousAfter(old(blocks), old(hdr), blocks, hdr, poolen, base, old(slptr), slptr, newlen + PHDRL);
    }

    /** The end of `putline`. */
    method StoreText(newl: seq<char>, newlen: nat, ghost i: nat, ghost first: seq<char>)
      requires RingOk() && InStep(blocks, hdr, pool[..], base, {}) && i < |blocks| && blocks[i] == lptr && lptr in hdr
      requires newlen <= |newl| && newlen + PHDRL <= hdr[lptr].len <= poolen - lptr && UsedTextsKept(blocks, hdr, lptr, pool[..], first)
      modifies this`hdr, this`slptr, pool
      ensures Valid() && slptr == lptr && hdr == old(hdr)[lptr := old(hdr)[lptr].(used := true)]
      ensures UsedTextsKept(blocks, hdr, lptr, pool[..], first)
      ensures pool[lptr + LINE..lptr + LINE + newlen] == newl[..newlen]
    {
      ghost var p := pool[..];
      CopyText(newl, newlen, i);
      UsedKeptTwice(blocks, hdr, lptr, pool[..], p, first);
      MarkUsed(newlen, first);
    }

    /** The line is in use, and the newest. */
    method MarkUsed(ghost newlen: nat, ghost first: seq<char>)
      requires RingOk() && InStep(blocks, hdr, pool[..], base, {}) && lptr in blocks && lptr in hdr
      requires newlen + PHDRL <= hdr[lptr].len <= poolen - lptr && UsedTextsKept(blocks, hdr, lptr, pool[..], first)
      modifies this`hdr, this`slptr, pool
      ensures Valid() && slptr == lptr && hdr == old(hdr)[lptr := old(hdr)[lptr].(used := true)]
      ensures UsedTextsKept(blocks, hdr, lptr, pool[..], first)
      ensures pool[lptr + LINE..lptr + LINE + newlen] == old(pool[lptr + LINE..lptr + LINE + newlen])
    {
      ghost var (h, p) := (hdr, pool[..]);
      assert p[lptr + LINE..lptr + LINE + newlen] == pool[lptr + LINE..lptr + LINE + newlen];
      BlocksHaveHeaders(blocks, hdr, poolen, base);
      hdr := hdr[lptr := hdr[lptr].(used := true)];
      slptr := lptr;
      UsedKeepsTiles(blocks, h, hdr, poolen, base);
      StillInStep(blocks, h, blocks, hdr, pool[..], base, {lptr});
      StoreHeader(lptr, {lptr});
      assert {lptr} - {lptr} == {};
      UsedKeptOn(blocks, h, blocks, hdr, lptr, pool[..], p, first);
      PartOfText(hdr, lptr, newlen, pool[..], p);
      ghost var (from, to) := (lptr + LINE, lptr + LINE + newlen);
      assert pool[from..to] == pool[..][from..to];
    }

    /** `getnext`: the text of the next line in use; the walk ends, at the latest at the newest line. */
    method GetNext() returns (text: nat, ghost steps: nat)
      requires Valid()
      modifies this`lptr
      ensures Valid() && FirstUsedAhead(hdr, old(lptr), steps) && lptr == Walk(hdr, old(lptr), steps)
      ensures text == lptr + LINE
    {
      ghost var i :| 0 <= i < |blocks| && blocks[i] == lptr;
      ghost var s :| 0 <= s < |blocks| && blocks[s] == slptr;
      RingStep(blocks, hdr, poolen, base, i);
      StepAhead(hdr, lptr, 0);
      lptr, i, steps := hdr[lptr].nextl, NextIndex(blocks, i), 1;
      while !hdr[lptr].used
        invariant 0 <= i < |blocks| && blocks[i] == lptr && lptr in hdr
        invariant 1 <= steps && lptr == Walk(hdr, old(lptr), steps) && NoneUsedAhead(hdr, old(lptr), steps)
        decreases if i <= s then s - i else s - i + |blocks|
      {
        RingStep(blocks, hdr, poolen, base, i);
        StepAhead(hdr, old(lptr), steps);
        lptr, i, steps := hdr[lptr].nextl, NextIndex(blocks, i), steps + 1;
      }
      text := lptr + LINE;
    }

    /** `getprev` */
    method GetPrev() returns (text: nat, ghost steps: nat)
      requires Valid()
      modifies this`lptr
      ensures Valid() && FirstUsedBehind(hdr, old(lptr), steps) && lptr == WalkBack(hdr, old(lptr), steps)
      ensures text == lptr + LINE
    {
      ghost var i :| 0 <= i < |blocks| && blocks[i] == lptr;
      ghost var s :| 0 <= s < |blocks| && blocks[s] == slptr;
      RingStep(blocks, hdr, poolen, base, i);
      StepBehind(hdr, lptr, 0);
      lptr, i, steps := hdr[lptr].prevl, PrevIndex(blocks, i), 1;
      while !hdr[lptr].used
        invariant 0 <= i < |blocks| && blocks[i] == lptr && lptr in hdr
        invariant 1 <= steps && lptr == WalkBack(hdr, old(lptr), steps) && NoneUsedBehind(hdr, old(lptr), steps)
        decreases if s <= i then i - s else i - s + |blocks|
      {
        RingStep(blocks, hdr, poolen, base, i);
        StepBehind(hdr, old(lptr), steps);
        lptr, i, steps := hdr[lptr].prevl, PrevIndex(blocks, i), steps + 1;
      }
      text := lptr + LINE;
    }
  }

  // ----- Texts over several steps

  lemma {:induction false} AllTextsStart(blocks: seq<nat>, hdr: Headers, poolen: nat, base: nat, bytes: seq<char>)
    requires Tiles(blocks, hdr, poolen, base) && |bytes| == poolen
    ensures AllTextsKept(blocks, hdr, bytes, bytes)
  {
    forall b | b in blocks ensures TextKept(hdr, b, bytes, bytes) {
      var k :| 0 <= k < |blocks| && blocks[k] == b;
      BlockInside(blocks, hdr, poolen, base, k);
    }
  }

  lemma {:induction false} TextsStart(blocks: seq<nat>, hdr: Headers, poolen: nat, base: nat, l: nat, bytes: seq<char>)
    requires Tiles(blocks, hdr, poolen, base) && |bytes| == poolen
    ensures UsedTextsKept(blocks, hdr, l, bytes, bytes)
  {
    AllTextsStart(blocks, hdr, poolen, base, bytes);
  }

  lemma {:induction false} SliceOfSlice(s: seq<char>, lo: nat, mid: nat, hi: nat)
    requires lo <= mid <= hi <= |s|
    ensures s[lo..hi][..mid - lo] == s[lo..mid]
  {
  }

  lemma {:induction false} PartOfText(hdr: Headers, b: nat, newlen: nat, after: seq<char>, before: seq<char>)
    requires TextKept(hdr, b, after, before) && newlen + PHDRL <= hdr[b].len
    ensures after[b + LINE..b + LINE + newlen] == before[b + LINE..b + LINE + newlen]
  {
    SliceOfSlice(after, b + LINE, b + LINE + newlen, b + hdr[b].len);
    SliceOfSlice(before, b + LINE, b + LINE + newlen, b + hdr[b].len);
  }

  lemma {:induction false} KeptTwice(blocks: seq<nat>, hdr: Headers, p2: seq<char>, p1: seq<char>, p0: seq<char>)
    requires AllTextsKept(blocks, hdr, p2, p1) && AllTextsKept(blocks, hdr, p1, p0)
    ensures AllTextsKept(blocks, hdr, p2, p0)
  {
    forall b | b in blocks ensures TextKept(hdr, b, p2, p0) {
      assert TextKept(hdr, b, p2, p1) && TextKept(hdr, b, p1, p0);
    }
  }

  lemma {:induction false} UsedKeptTwice(blocks: seq<nat>, hdr: Headers, l: nat, p2: seq<char>, p1: seq<char>, p0: seq<char>)
    requires UsedTextsKept(blocks, hdr, l, p2, p1) && UsedTextsKept(blocks, hdr, l, p1, p0)
    ensures UsedTextsKept(blocks, hdr, l, p2, p0)
  {
    forall b | b in blocks && IsUsed(hdr, b) && b != l ensures TextKept(hdr, b, p2, p0) {
      assert TextKept(hdr, b, p2, p1) && TextKept(hdr, b, p1, p0);
    }
  }

  /** A step that keeps all texts, and the lines in use but for the one at l. */
  lemma {:induction false} UsedKeptOn(b0: seq<nat>, h0: Headers, b1: seq<nat>, h1: Headers, l: nat, p2: seq<char>, p1: seq<char>, p0: seq<char>)
    requires UsedTextsKept(b0, h0, l, p1, p0) && AllTextsKept(b1, h1, p2, p1)
    requires forall b :: b in b1 && IsUsed(h1, b) && b != l ==> b in b0 && IsUsed(h0, b) && h1[b].len == h0[b].len
    ensures UsedTextsKept(b1, h1, l, p2, p0)
  {
    forall b | b in b1 && IsUsed(h1, b) && b != l ensures TextKept(h1, b, p2, p0) {
      assert TextKept(h1, b, p2, p1) && TextKept(h0, b, p1, p0);
    }
  }

  lemma {:induction false} KeptThroughChoice(b0: seq<nat>, h0: Headers, b1: seq<nat>, h1: Headers, l: nat, need: nat, p2: seq<char>, p1: seq<char>, p0: seq<char>)
    requires AllTextsKept(b0, h0, p1, p0) && UsedTextsKept(b1, h1, l, p2, p1) && OthersSurvive(b1, h1, b0, h0, l, l, need)
    ensures UsedTextsKept(b1, h1, l, p2, p0)
  {
    forall b | b in b1 && IsUsed(h1, b) && b != l ensures TextKept(h1, b, p2, p0) {
      assert TextKept(h1, b, p2, p1) && TextKept(h0, b, p1, p0);
    }
  }

  lemma {:induction false} WithoutMember(blocks: seq<nat>, i: nat, b: nat)
    requires i < |blocks| && b in Without(blocks, i)
    ensures b in blocks
  {
    var k :| 0 <= k < |blocks| - 1 && Without(blocks, i)[k] == b;
    assert blocks[if k < i then k else k + 1] == b;
  }

  /** Where the ring goes on behind the block swallowed. */
  lemma {:induction false} AfterMerge(blocks: seq<nat>, hdr: Headers, poolen: nat, base: nat, i: nat)
    requires Tiles(blocks, hdr, poolen, base) && i + 1 < |blocks|
    requires blocks[i] in hdr && hdr[blocks[i]].nextl in hdr && hdr[hdr[blocks[i]].nextl].nextl in hdr
    ensures blocks[i] in Without(blocks, i + 1) && hdr[hdr[blocks[i]].nextl].nextl in Without(blocks, i + 1)
  {
    RingStep(blocks, hdr, poolen, base, i);
    RingStep(blocks, hdr, poolen, base, i + 1);
    assert Without(blocks, i + 1)[i] == blocks[i];
    if i + 2 < |blocks| {
      assert Without(blocks, i + 1)[i + 1] == blocks[i + 2];
    } else {
      assert Without(blocks, i + 1)[0] == blocks[0];
    }
  }

  /** A merge changes the headers of the current block and of the one after the block swallowed. */
  lemma {:induction false} MergedInStep(blocks: seq<nat>, hdr: Headers, bytes: seq<char>, poolen: nat, base: nat, i: nat)
    requires Tiles(blocks, hdr, poolen, base) && i + 1 < |blocks| && InStep(blocks, hdr, bytes, base, {})
    requires blocks[i] in hdr && hdr[blocks[i]].nextl in hdr && hdr[hdr[blocks[i]].nextl].nextl in hdr
    ensures blocks[i] in Without(blocks, i + 1) && hdr[hdr[blocks[i]].nextl].nextl in Without(blocks, i + 1)
    ensures InStep(Without(blocks, i + 1), Merged(hdr, blocks[i]), bytes, base, {blocks[i], hdr[hdr[blocks[i]].nextl].nextl})
  {
    var (l, bs) := (blocks[i], Without(blocks, i + 1));
    var after := hdr[hdr[l].nextl].nextl;
    AfterMerge(blocks, hdr, poolen, base, i);
    BlocksHaveHeaders(blocks, hdr, poolen, base);
    forall b | b in bs && b !in {l, after} ensures b in blocks && b in hdr && b in Merged(hdr, l) && Merged(hdr, l)[b] == hdr[b] {
      WithoutMember(blocks, i + 1, b);
      MergedAt(hdr, l, b);
    }
    StillInStep(blocks, hdr, bs, Merged(hdr, l), bytes, base, {l, after});
  }

  /** A cut changes the headers of the current block, the new one and the one after. */
  lemma {:induction false} CutInStep(blocks: seq<nat>, hdr: Headers, bytes: seq<char>, poolen: nat, base: nat, i: nat, n: nat)
    requires Tiles(blocks, hdr, poolen, base) && i < |blocks| && InStep(blocks, hdr, bytes, base, {}) && blocks[i] < n
    requires blocks[i] in hdr && hdr[blocks[i]].nextl in hdr && hdr[blocks[i]].nextl != n
    requires n !in blocks && forall b :: b in blocks ==> b in hdr
    ensures var bs := With(blocks, i, n); n in bs && blocks[i] in bs && hdr[blocks[i]].nextl in bs
    ensures InStep(With(blocks, i, n), Cut(hdr, blocks[i], n), bytes, base, {n, blocks[i], hdr[blocks[i]].nextl})
  {
    var (l, bs) := (blocks[i], With(blocks, i, n));
    RingStep(blocks, hdr, poolen, base, i);
    assert bs[i + 1] == n && bs[i] == l;
    WithKeeps(blocks, i, n, hdr[l].nextl);
    forall b | b in bs && b !in {n, l, hdr[l].nextl} ensures b in blocks && b in hdr && b in Cut(hdr, l, n) && Cut(hdr, l, n)[b] == hdr[b] {
      assert b in blocks;
      CutHeaderAt(hdr, l, n, b);
    }
    StillInStep(blocks, hdr, bs, Cut(hdr, l, n), bytes, base, {n, l, hdr[l].nextl});
  }

  lemma {:induction false} RingStep(blocks: seq<nat>, hdr: Headers, poolen: nat, base: nat, i: nat)
    requires Tiles(blocks, hdr, poolen, base) && i < |blocks|
    ensures blocks[i] in hdr && hdr[blocks[i]].nextl == blocks[NextIndex(blocks, i)] && hdr[blocks[i]].prevl == blocks[PrevIndex(blocks, i)]
    ensures blocks[NextIndex(blocks, i)] in hdr && blocks[PrevIndex(blocks, i)] in hdr
  {
    assert BlockOk(blocks, hdr, i, poolen, base);
    assert BlockOk(blocks, hdr, NextIndex(blocks, i), poolen, base) && BlockOk(blocks, hdr, PrevIndex(blocks, i), poolen, base);
  }

  /** Two blocks share no byte. */
  lemma {:induction false} BlocksApart(blocks: seq<nat>, hdr: Headers, poolen: nat, base: nat, i: nat, k: nat)
    requires Tiles(blocks, hdr, poolen, base) && i < |blocks| && k < |blocks| && i != k
    ensures EndOf(blocks, i, poolen) <= blocks[k] || EndOf(blocks, k, poolen) <= blocks[i]
  {
    if i < k {
      LaterBlock(blocks, hdr, poolen, base, i, k);
    } else {
      LaterBlock(blocks, hdr, poolen, base, k, i);
    }
  }

  /** Flags do not matter to the tiling. */
  lemma {:induction false} UsedKeepsTiles(blocks: seq<nat>, hdr: Headers, hdr': Headers, poolen: nat, base: nat)
    requires Tiles(blocks, hdr, poolen, base)
    requires hdr'.Keys == hdr.Keys && forall b :: b in hdr ==> hdr'[b].(used := hdr[b].used) == hdr[b]
    ensures Tiles(blocks, hdr', poolen, base)
  {
    forall i | 0 <= i < |blocks| ensures BlockOk(blocks, hdr', i, poolen, base) {
      assert BlockOk(blocks, hdr, i, poolen, base);
    }
  }

  lemma {:induction false} NotUsed(blocks: seq<nat>, hdr: Headers, poolen: nat, base: nat, b: nat)
    requires Tiles(blocks, hdr, poolen, base) && b in hdr
    ensures Tiles(blocks, hdr[b := hdr[b].(used := false)], poolen, base)
  {
    UsedKeepsTiles(blocks, hdr, hdr[b := hdr[b].(used := false)], poolen, base);
  }

  /** A block ends inside the pool. */
  lemma {:induction false} TextInside(blocks: seq<nat>, hdr: Headers, poolen: nat, base: nat, i: nat)
    requires Tiles(blocks, hdr, poolen, base) && i < |blocks|
    ensures EndOf(blocks, i, poolen) <= poolen
  {
    assert BlockOk(blocks, hdr, |blocks| - 1, poolen, base);
    if i + 1 < |blocks| {
      assert blocks[i + 1] <= blocks[|blocks| - 1];
    }
  }
}
