/** boot/malloc.cc: the search of malloc_aligned as a matter of which stretches of the heap
    are free, however they are cut into blocks. */
module HeapSearch {
  import opened Modular
  import opened HeapShape

  /** What the header of block k says, the sentinel included. */
  lemma HeaderAt(h: Heap, k: int)
    requires h.Tiled() && 0 <= k < |h.blocks|
    ensures h.blocks[k] in h.units && h.units[h.blocks[k]].Header? && !Invalid(h.units[h.blocks[k]], h.blocks[k])
    ensures k < |h.blocks| - 1 ==> h.units[h.blocks[k]].size == h.blocks[k + 1] - h.blocks[k] > 0
    ensures k == |h.blocks| - 1 ==> h.units[h.blocks[k]].size == 0
    ensures k == |h.blocks| - 1 <==> h.blocks[k] == h.en
    ensures h.units[h.blocks[k]].used <==> h.blocks[k] in h.live || k == |h.blocks| - 1
    ensures h.st <= h.blocks[k] <= h.en
  {
    hide Make;
    if k < |h.blocks| - 1 { BlockSize(h, k); }
  }

  lemma OrderOf(h: Heap, i: int, j: int)
    requires h.Tiled() && 0 <= i <= j < |h.blocks|
    ensures h.blocks[i] <= h.blocks[j]
  {
  }

  lemma FirstBlock(h: Heap)
    requires h.Tiled()
    ensures h.blocks[0] == h.st && |h.blocks| >= 2
  {
  }

  /** Blocks are told apart by their addresses. */
  lemma OneBlock(h: Heap, i: int, j: int)
    requires h.Tiled() && 0 <= i < |h.blocks| && 0 <= j < |h.blocks|
    ensures h.blocks[i] == h.blocks[j] <==> i == j
  {
  }

  /** No gap has room. */
  ghost predicate NoRoom(h: Heap, n: nat, alignment: nat)
    requires alignment > 0
  {
    forall x: nat, y: nat :: Gap(h, x, y) ==> !Fits(x, y, n, alignment)
  }

  /** p is the aligned payload address in the lowest gap with room. */
  ghost predicate LowestFit(h: Heap, n: nat, alignment: nat, p: nat)
    requires alignment > 0
  {
    exists x: nat, y: nat :: Gap(h, x, y) && Fits(x, y, n, alignment) && p == Ceil(x + HDR, alignment) &&
      forall x': nat, y': nat :: Gap(h, x', y') && x' < x ==> !Fits(x', y', n, alignment)
  }

  // ------------------------------------------------------------------ the order

  /** A block in use ends at x. */
  ghost predicate Follows(h: Heap, x: nat) { exists b :: b in h.live && b + h.live[b] == x }

  /** [x, y) is a gap, or the rest of one from r on. */
  ghost predicate Stretch(h: Heap, r: nat, x: nat, y: nat) {
    && h.st <= x < y <= h.en
    && (forall b :: b in h.live ==> b + h.live[b] <= x || y <= b)
    && (x == h.st || x == r || Follows(h, x))
    && (y == h.en || y in h.live)
  }

  /** No stretch that starts in [lo, hi) has room. */
  ghost predicate Seen(h: Heap, r: nat, lo: nat, hi: nat, n: nat, alignment: nat)
    requires alignment > 0
  {
    forall x: nat, y: nat :: Stretch(h, r, x, y) && lo <= x < hi ==> !Fits(x, y, n, alignment)
  }

  /** p is the aligned payload address in the first stretch with room, going up from r to the
      end of the heap and then from its start. */
  ghost predicate NextFit(h: Heap, r: nat, n: nat, alignment: nat, p: nat)
    requires alignment > 0
  {
    exists x: nat, y: nat :: Stretch(h, r, x, y) && Fits(x, y, n, alignment) && p == Ceil(x + HDR, alignment) &&
      if r <= x then Seen(h, r, r, x, n, alignment)
      else Seen(h, r, r, h.en, n, alignment) && Seen(h, r, h.st, x, n, alignment)
  }

  /** The search that starts at r comes to an end. */
  ghost predicate Ends(h: Heap, r: nat, n: nat, alignment: nat)
    requires alignment > 0
  {
    !Stranded(h, r) || !NoRoom(h, n, alignment)
  }

  /** Only what is in use decides. */
  lemma SameSearch(h: Heap, h': Heap, r: nat, n: nat, alignment: nat)
    requires alignment > 0 && h'.live == h.live && h'.st == h.st && h'.en == h.en
    ensures Ends(h', r, n, alignment) <==> Ends(h, r, n, alignment)
    ensures forall p: nat :: NextFit(h', r, n, alignment, p) <==> NextFit(h, r, n, alignment, p)
    ensures forall lo: nat, hi: nat :: Seen(h', r, lo, hi, n, alignment) <==> Seen(h, r, lo, hi, n, alignment)
  {
    hide Fits, Ceil;
    assert forall x: nat, y: nat :: Stretch(h', r, x, y) <==> Stretch(h, r, x, y);
    hide Stretch;
    SameRoom(h, h', n, alignment);
    assert Stranded(h', r) <==> Stranded(h, r);
    forall p: nat ensures NextFit(h', r, n, alignment, p) <==> NextFit(h, r, n, alignment, p) {
    }
  }

  lemma SameRoom(h: Heap, h': Heap, n: nat, alignment: nat)
    requires alignment > 0 && h'.live == h.live && h'.st == h.st && h'.en == h.en
    ensures NoRoom(h', n, alignment) <==> NoRoom(h, n, alignment)
  {
  }

  /** Address a is no block in use, and neither the start of the heap nor a block in use
      ends there: a free block at a follows another free block. */
  ghost predicate Stranded(h: Heap, a: nat) {
    h.st < a < h.en && a !in h.live && !Follows(h, a)
  }

  lemma StrandedInside(h: Heap, a: nat)
    requires Stranded(h, a)
    ensures h.st < a < h.en && a !in h.live
  {
  }

  lemma StrandedStays(h: Heap, h': Heap, a: nat)
    requires Stranded(h, a) && h'.st == h.st && h'.en == h.en && h'.live == h.live
    ensures Stranded(h', a)
  {
  }

  lemma RoverAt(h: Heap, rover: nat) returns (k: int)
    requires rover in h.blocks
    ensures 0 <= k < |h.blocks| && h.blocks[k] == rover
  {
    k :| 0 <= k < |h.blocks| && h.blocks[k] == rover;
  }

  /** Past a block in use, or past a free block that was merged, no free block is met. */
  lemma NextAstray(h: Heap, k: int, a: nat)
    requires h.Tiled() && 0 <= k < |h.blocks| - 1 && Stranded(h, a) && (h.blocks[k] !in h.live ==> Closed(h, k))
    ensures h.blocks[k + 1] != a
  {
    hide Make;
    assert h.BlockOk(k);
  }

  /** A free block with room lies in a gap with room. */
  lemma FoundRoom(h0: Heap, h: Heap, k: int, n: nat, alignment: nat)
    requires h.Tiled() && alignment > 0 && h0.live == h.live && h0.st == h.st && h0.en == h.en
    requires 0 <= k < |h.blocks| - 1 && h.blocks[k] !in h.live && Closed(h, k) && Fits(h.blocks[k], h.blocks[k + 1], n, alignment)
    ensures !NoRoom(h0, n, alignment)
  {
    hide Make, Heap.Tiled, Ceil;
    var i := GapAround(h, k, k);
    var x, y := h.blocks[i], h.blocks[k + 1];
    OrderOf(h, i, k);
    CeilGrows(x + HDR, h.blocks[k] + HDR, alignment);
    assert Gap(h0, x, y) && Fits(x, y, n, alignment);
  }

  lemma CeilGrows(p: nat, q: nat, n: nat)
    requires n > 0 && p <= q
    ensures Ceil(p, n) <= Ceil(q, n)
  {
    hide Ceil;
    if Ceil(p, n) > Ceil(q, n) { MultipleGap(Ceil(q, n), Ceil(p, n), n); }
  }

  /** The gap around free block k starts at the first of the free blocks up to it. */
  lemma {:induction false} GapAround(h: Heap, k: int, j: int) returns (i: int)
    requires h.Tiled() && 0 <= j <= k < |h.blocks| - 1 && Closed(h, k)
    requires forall m :: j <= m <= k ==> h.blocks[m] !in h.live
    ensures 0 <= i <= k && Gap(h, h.blocks[i], h.blocks[k + 1])
    decreases j
  {
    hide Make, Heap.BlockOk;
    if j > 0 && h.blocks[j - 1] !in h.live {
      i := GapAround(h, k, j - 1);
    } else {
      i := j;
      var x, y := h.blocks[i], h.blocks[k + 1];
      forall b | b in h.live ensures b + h.live[b] <= x || y <= b {
        var m := LiveBlock(h, b);
        if m + 1 < i { OrderOf(h, m + 1, i); }
        if k + 1 < m { OrderOf(h, k + 1, m); }
      }
      if j > 0 { BlockLive(h, j - 1); }
      BlockSize(h, k);
      BlockSize(h, i);
      OrderOf(h, i, k);
    }
  }

  lemma BlockLive(h: Heap, i: int)
    requires h.Tiled() && 0 <= i < |h.blocks| - 1 && h.blocks[i] in h.live
    ensures h.blocks[i] + h.live[h.blocks[i]] == h.blocks[i + 1]
  {
    hide Make;
    assert h.BlockOk(i);
  }


  // ---------------------------------------------------------------- a turn of the loop

  /** The heap starts with a block, and one follows every block in use. */
  lemma StartListed(h: Heap, x: nat)
    requires h.Tiled() && (x == h.st || Follows(h, x) || x in h.live)
    ensures x in h.blocks
  {
    hide Make, Heap.BlockOk;
    if Follows(h, x) {
      var b :| b in h.live && b + h.live[b] == x;
      var i := LiveBlock(h, b);
    }
  }

  /** Where the loop may come to: what is free there is a stretch. */
  ghost predicate Enters(h: Heap, r: nat, a: nat) { a == h.st || a == r || Follows(h, a) || a in h.live || a == h.en }

  lemma NextEnters(h: Heap, r: nat, k: int)
    requires h.Tiled() && 0 <= k < |h.blocks| - 1 && (h.blocks[k] !in h.live ==> Closed(h, k))
    ensures Enters(h, r, h.blocks[k + 1])
  {
    hide Make;
    if h.blocks[k] in h.live { BlockLive(h, k); }
  }

  /** The stretch at a free block that was merged ends where the block does. */
  lemma StretchHere(h: Heap, r: nat, k: int, y: nat)
    requires h.Tiled() && 0 <= k < |h.blocks| - 1 && Stretch(h, r, h.blocks[k], y)
    ensures h.blocks[k] !in h.live && (Closed(h, k) ==> y == h.blocks[k + 1])
  {
    hide Make, Heap.BlockOk;
    var x := h.blocks[k];
    if x in h.live { var i := LiveBlock(h, x); }
    if y in h.live { var j := LiveBlock(h, y); if j < k + 1 { OrderOf(h, j, k); } else { OrderOf(h, k + 1, j); } }
    OrderOf(h, k + 1, |h.blocks| - 1);
    if Closed(h, k) && h.blocks[k + 1] in h.live { var i := LiveBlock(h, h.blocks[k + 1]); BlockSize(h, k); }
  }

  /** Past a block without room, every stretch up to the next block was seen. */
  lemma SeenStep(h: Heap, r: nat, k: int, lo: nat, n: nat, alignment: nat)
    requires h.Tiled() && alignment > 0 && 0 <= k < |h.blocks| - 1 && Seen(h, r, lo, h.blocks[k], n, alignment)
    requires h.blocks[k] !in h.live ==> Closed(h, k) && !Fits(h.blocks[k], h.blocks[k + 1], n, alignment)
    requires r <= h.blocks[k] || Seen(h, r, r, h.en, n, alignment)
    ensures Seen(h, r, lo, h.blocks[k + 1], n, alignment)
  {
    hide Make, Heap.Tiled, Fits;
    forall x: nat, y: nat | Stretch(h, r, x, y) && lo <= x < h.blocks[k + 1] ensures !Fits(x, y, n, alignment) {
      if x == h.blocks[k] {
        StretchHere(h, r, k, y);
      } else if x > h.blocks[k] {
        if x != r { NoneBetween(h, r, x, y, k); }
      }
    }
  }

  lemma NoneBetween(h: Heap, r: nat, x: nat, y: nat, k: int)
    requires h.Tiled() && Stretch(h, r, x, y) && x != r && 0 <= k < |h.blocks| - 1
    ensures !(h.blocks[k] < x < h.blocks[k + 1])
  {
    hide Make, Heap.BlockOk;
    StartListed(h, x);
    var i :| 0 <= i < |h.blocks| && h.blocks[i] == x;
    if i <= k { OrderOf(h, i, k); } else { OrderOf(h, k + 1, i); }
  }

  /** Once all stretches were seen, no gap has room. */
  lemma AllSeen(h: Heap, r: nat, n: nat, alignment: nat)
    requires alignment > 0 && Seen(h, r, r, h.en, n, alignment) && Seen(h, r, h.st, r, n, alignment)
    ensures NoRoom(h, n, alignment)
  {
    hide Fits;
    forall x: nat, y: nat | Gap(h, x, y) ensures !Fits(x, y, n, alignment) { assert Stretch(h, r, x, y); }
  }

  /** The block found is the first with room. */
  lemma FoundNext(h: Heap, r: nat, k: int, n: nat, alignment: nat, wrapped: bool)
    requires h.Tiled() && alignment > 0 && 0 <= k < |h.blocks| - 1 && h.blocks[k] !in h.live && Closed(h, k)
    requires Enters(h, r, h.blocks[k]) && Fits(h.blocks[k], h.blocks[k + 1], n, alignment)
    requires !wrapped ==> r <= h.blocks[k] && Seen(h, r, r, h.blocks[k], n, alignment)
    requires wrapped ==> Seen(h, r, r, h.en, n, alignment) && Seen(h, r, h.st, h.blocks[k], n, alignment)
    ensures NextFit(h, r, n, alignment, Ceil(h.blocks[k] + HDR, alignment)) && !NoRoom(h, n, alignment)
  {
    hide Make, Heap.Tiled, Fits, Ceil;
    FoundRoom(h, h, k, n, alignment);
    FreeStretch(h, r, k);
  }

  lemma FreeStretch(h: Heap, r: nat, k: int)
    requires h.Tiled() && 0 <= k < |h.blocks| - 1 && h.blocks[k] !in h.live && Closed(h, k) && Enters(h, r, h.blocks[k])
    ensures Stretch(h, r, h.blocks[k], h.blocks[k + 1]) && h.blocks[k] < h.en
  {
    hide Make, Heap.BlockOk;
    BlockSize(h, k);
    forall b | b in h.live ensures b + h.live[b] <= h.blocks[k] || h.blocks[k + 1] <= b {
      var i := LiveBlock(h, b);
      if i + 1 <= k { OrderOf(h, i + 1, k); }
      if k + 1 <= i { OrderOf(h, k + 1, i); }
    }
  }

  /** The loop does not pass the block it started from unless that is stranded. */
  lemma NotPassed(h: Heap, r: nat, k: int)
    requires h.Tiled() && 0 <= k < |h.blocks| - 1 && h.st <= r < h.en && !Stranded(h, r) && h.blocks[k] < r
    ensures h.blocks[k + 1] <= r
  {
    hide Make, Heap.BlockOk;
    StartListed(h, r);
    var i :| 0 <= i < |h.blocks| && h.blocks[i] == r;
    if i <= k { OrderOf(h, i, k); } else { OrderOf(h, k + 1, i); }
  }

  /** When no free block lies below r, the first stretch with room from r on is the lowest. */
  lemma NextLowest(h: Heap, r: nat, n: nat, alignment: nat, p: nat)
    requires h.Tiled() && RoverOk(h, r) && alignment > 0 && NextFit(h, r, n, alignment, p)
    ensures LowestFit(h, n, alignment, p)
  {
    hide Make, Heap.Tiled, Fits, Ceil;
    var x: nat, y: nat :| Stretch(h, r, x, y) && Fits(x, y, n, alignment) && p == Ceil(x + HDR, alignment) &&
      if r <= x then Seen(h, r, r, x, n, alignment)
      else Seen(h, r, r, h.en, n, alignment) && Seen(h, r, h.st, x, n, alignment);
    StretchAbove(h, r, x, y);
    forall x': nat, y': nat | Gap(h, x', y') && x' < x ensures !Fits(x', y', n, alignment) {
      assert Stretch(h, r, x', y');
      StretchAbove(h, r, x', y');
    }
  }

  lemma StretchAbove(h: Heap, r: nat, x: nat, y: nat)
    requires h.Tiled() && RoverOk(h, r) && Stretch(h, r, x, y)
    ensures r <= x && Gap(h, x, y)
  {
    hide Make, Heap.BlockOk;
    NotStranded(h, r);
    if x in h.live { var j := LiveBlock(h, x); }
    if x != r {
      StartListed(h, x);
      var i :| 0 <= i < |h.blocks| && h.blocks[i] == x;
    }
  }

  /** No free block precedes a rover that keeps its promise. */
  lemma NotStranded(h: Heap, r: nat)
    requires h.Tiled() && RoverOk(h, r)
    ensures !Stranded(h, r)
  {
    hide Make, Heap.BlockOk;
    var i :| 0 <= i < |h.blocks| && h.blocks[i] == r;
    if i > 0 {
      OneBlock(h, i - 1, i);
      OrderOf(h, i - 1, i);
      BlockLive(h, i - 1);
    }
  }
}
