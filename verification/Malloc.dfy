/** boot/malloc.cc: allocation from the boot heap by first fit, with free neighbours
    merged only when the search meets them. */
module Malloc {
  import opened Modular
  import opened HeapShape
  import opened HeapSearch

  /** To whole units, up and down. */
  function UnitUp(x: nat): (r: nat)
    ensures r % HDR == 0 && x <= r < x + HDR
  {
    (x + 15) / 16 * 16
  }

  function UnitDown(x: nat): (r: nat)
    ensures r % HDR == 0 && r <= x < r + HDR
  {
    x / 16 * 16
  }

  /** The size of a block for a request: rounded up to units, plus the header. */
  function Rounded(bytes: nat): (n: nat)
    ensures n % HDR == 0 && n >= bytes + HDR && n < bytes + 2 * HDR
  {
    UnitUp(bytes) + HDR
  }

  predicate PowerOfTwo(n: nat) { n == 1 || (n > 1 && n % 2 == 0 && PowerOfTwo(n / 2)) }

  lemma {:induction false} PowerUnits(n: nat)
    requires PowerOfTwo(n)
    ensures n > 0 && (if n >= HDR then n % HDR == 0 else n == 1 || n == 2 || n == 4 || n == 8)
  {
    if n > 1 {
      PowerUnits(n / 2);
      assert n == 2 * (n / 2);
    }
  }

  /** The adjustment is whole units; it brings the payload to the next aligned address. */
  lemma AdjustUnits(a: nat, alignment: nat)
    requires a % HDR == 0 && PowerOfTwo(alignment)
    ensures alignment > 0 && AlignAdjust(a, alignment) % HDR == 0
    ensures a + HDR + AlignAdjust(a, alignment) == Ceil(a + HDR, alignment)
  {
    PowerUnits(alignment);
    NextUnit(a);
    hide PowerOfTwo, Ceil;
    CeilUnits(a + HDR, alignment);
  }

  lemma PreviousUnit(a: nat)
    requires a % HDR == 0 && a >= HDR
    ensures (a - HDR) % HDR == 0
  {
  }

  lemma NextUnit(a: nat)
    requires a % HDR == 0
    ensures (a + HDR) % HDR == 0
  {
  }

  /** With the alignments in question, whole units stay whole units. */
  lemma CeilUnits(p: nat, n: nat)
    requires p % HDR == 0 && n > 0 && (n % HDR == 0 || HDR % n == 0)
    ensures Ceil(p, n) % HDR == 0 && (Ceil(p, n) - p) % HDR == 0
  {
    hide Ceil;
    var c := Ceil(p, n);
    if n % HDR == 0 {
      UnitMultiple(c, n);
    } else {
      SmallPower(p, n);
      MultipleUnique(p, c, n);
    }
    ModSum(p, c, HDR);
  }

  lemma UnitMultiple(c: nat, n: nat)
    requires n > 0 && n % HDR == 0 && c % n == 0
    ensures c % HDR == 0
  {
    var q, d := c / n, n / HDR;
    assert c == n * q && n == HDR * d;
    assert c == HDR * (d * q) + 0;
    DivModUnique(c, HDR, d * q, 0);
  }

  /** An alignment below a unit divides the unit, so a whole unit is aligned. */
  lemma SmallPower(p: nat, n: nat)
    requires p % HDR == 0 && n > 0 && HDR % n == 0
    ensures p % n == 0
  {
    var d, u := HDR / n, p / HDR;
    assert HDR == n * d && p == HDR * u;
    assert p == n * (d * u) + 0;
    DivModUnique(p, n, d * u, 0);
  }

  lemma MultipleUnique(p: nat, c: nat, n: nat)
    requires n > 0 && p % n == 0 && c % n == 0 && p <= c < p + n
    ensures c == p
  {
    if p < c { MultipleGap(p, c, n); }
  }

  /** One free block from the rounded start to the sentinel is a heap. */
  lemma StartTiled(h: Heap, start: nat, end: nat)
    requires 0 < h.st < h.en < h.st + WORD && h.st % HDR == 0 && h.en % HDR == 0 && start <= h.st && h.en + HDR <= end
    requires h.blocks == [h.st, h.en] && h.live == map[]
    requires h.en in h.units && h.units[h.en] == Make(h.en, 0, true)
    requires h.st in h.units && h.units[h.st] == Make(h.st, h.en - h.st, false)
    requires forall a: nat :: start <= a < end && a % HDR == 0 ==> a in h.units
    ensures h.Tiled() && RoverOk(h, h.st) && Gap(h, h.st, h.en)
  {
  }

  class BootHeap {
    var st: nat // heap_st
    var en: nat // heap_en
    var units: map<nat, Unit>
    var firstFree: nat
    ghost var blocks: seq<nat>
    ghost var live: map<nat, nat>

    ghost function View(): Heap
      reads this
    {
      Heap(st, en, units, blocks, live)
    }

    /** The blocks tile the heap and the rover is on one of them. */
    ghost predicate Sound()
      reads this
    {
      View().Tiled() && firstFree in blocks && firstFree < en
    }

    /** Moreover no free block lies below the rover. */
    ghost predicate Valid()
      reads this
    {
      View().Tiled() && RoverOk(View(), firstFree)
    }

    /** malloc_init: one free block from the rounded start to the sentinel. */
    constructor (start: nat, end: nat, memory: map<nat, Unit>)
      requires 0 < start && UnitUp(start) + HDR < UnitDown(end) < UnitUp(start) + WORD
      requires forall a: nat :: start <= a < end && a % HDR == 0 ==> a in memory
      ensures Valid() && live == map[] && Gap(View(), st, en)
      ensures st == UnitUp(start) && en == UnitDown(end) - HDR
    {
      PreviousUnit(UnitDown(end));
      hide UnitUp, UnitDown, Make, Gap, Heap.Tiled, RoverOk;
      st := UnitUp(start);
      en := UnitDown(end) - HDR;
      var size := UnitDown(end) - HDR - UnitUp(start);
      units := memory[(UnitDown(end) - HDR) := Make(UnitDown(end) - HDR, 0, true)]
                     [UnitUp(start) := Make(UnitUp(start), size, false)];
      firstFree := UnitUp(start);
      blocks := [UnitUp(start), UnitDown(end) - HDR];
      live := map[];
      new;
      StartTiled(View(), start, end);
    }

    /** malloc_coalesce: block k takes in the free blocks that follow it. */
    method Coalesce(blk: nat, next0: nat, ghost k: int) returns (next: nat)
      requires View().Tiled() && 0 <= k < |blocks| - 1 && blocks[k] == blk && blocks[k + 1] == next0 && firstFree in blocks
      modifies this`units, this`firstFree, this`blocks
      ensures View().Tiled() && Kept(old(View()), View()) && |blocks| <= |old(blocks)|
      ensures k < |blocks| - 1 && blocks[..k + 1] == old(blocks)[..k + 1] && blocks[k + 1] == next
      ensures blk !in live ==> Closed(View(), k)
      ensures blk in live ==> blocks == old(blocks)
      ensures firstFree == old(firstFree) || (firstFree == blk && blk < old(firstFree) < next && blk !in live)
      ensures firstFree in blocks
    {
      hide Make, Spoilt, Heap.Tiled, Kept;
      next := next0;
      KeptSelf(View());
      HeaderAt(View(), k);
      HeaderAt(View(), k + 1);
      while !units[blk].used && !units[next].used
        invariant View().Tiled() && Kept(old(View()), View()) && |blocks| <= |old(blocks)|
        invariant 0 <= k < |blocks| - 1 && blocks[..k + 1] == old(blocks)[..k + 1] && blocks[k] == blk && blocks[k + 1] == next
        invariant blk in units && next in units && units[blk].Header? && units[next].Header?
        invariant blk in live ==> blocks == old(blocks)
        invariant firstFree == old(firstFree) || (firstFree == blk && blk < old(firstFree) < next && blk !in live)
        invariant firstFree in blocks
        invariant units[blk].used <==> blk in live
        invariant units[next].used <==> next in live || next == en
        decreases |blocks|
      {
        ghost var h := View();
        MergeStep(old(View()), h, k);
        MergedRover(h, k, firstFree);
        units := units[blk := Make(blk, units[blk].size + units[next].size, false)];
        units := units[next := Spoilt(units[next])];
        if firstFree == next { firstFree := blk; }
        blocks := blocks[..k + 1] + blocks[k + 2..];
        next := blk + units[blk].size;
        assert View() == Merged(h, k);
      }
      HeaderAt(View(), k);
      HeaderAt(View(), k + 1);
    }

    /** One turn of the search loop: merge what follows the block, keep the rover on
        the first free block, and see whether the block has room. */
    method Visit(blk: nat, n: nat, alignment: nat, ghost k: int) returns (next: nat, fits: bool)
      requires Sound() && alignment > 0 && 0 <= k < |blocks| && blocks[k] == blk
      modifies this`units, this`firstFree, this`blocks
      ensures Sound() && Kept(old(View()), View()) && k < |blocks| <= |old(blocks)|
      ensures blocks[..k + 1] == old(blocks)[..k + 1]
      ensures k < |old(blocks)| - 1 ==> k < |blocks| - 1 && next == blocks[k + 1]
      ensures k == |old(blocks)| - 1 ==> blocks == old(blocks) && next == en
      ensures fits <==> k < |blocks| - 1 && blk !in live && Fits(blk, blocks[k + 1], n, alignment)
      ensures k < |blocks| - 1 && blk !in live ==> Closed(View(), k)
      ensures blk in live ==> blocks == old(blocks)
      ensures fits ==> firstFree <= blk
      ensures old(Valid() && RoverKnown(View(), k, firstFree)) ==>
                && Valid() && (firstFree in live ==> firstFree == old(firstFree))
                && (firstFree in live && k < |blocks| - 1 ==> AllUsed(View(), k + 1))
    {
      hide Make, Spoilt, Heap.Tiled, Kept, AlignAdjust, RoverOk;
      ghost var h := View();
      ghost var known := Valid() && RoverKnown(View(), k, firstFree);
      HeaderAt(h, k);
      next := blk + units[blk].size;
      KeptSelf(h);
      if units[blk].size > 0 {
        next := Coalesce(blk, next, k);
        if known {
          RoverNotLater(h, k, old(firstFree));
          VisitRover(h, View(), k, firstFree);
          if AllUsed(h, k) { UsedSame(h, View(), k, k); }
        }
      }
      HeaderAt(View(), k);
      fits := false;
      if !units[blk].used {
        RoverBlock(View(), firstFree);
        if firstFree > blk || units[firstFree].used {
          if known { RoverHere(View(), k, firstFree); }
          firstFree := blk;
        }
        fits := units[blk].size >= n + AlignAdjust(blk, alignment);
      }
    }

    /** The search loop of malloc_aligned, from the rover up and around. It ends if the rover is
        not stranded, because then the block it starts from is never merged into another, or
        if there is room. What is found is the first stretch with room. */
    method Search(n: nat, alignment: nat) returns (found: bool, blk: nat, ghost k: int)
      requires Sound() && alignment > 0 && Ends(View(), firstFree, n, alignment)
      modifies this`units, this`firstFree, this`blocks
      ensures Sound() && Kept(old(View()), View()) && (old(Valid()) ==> Valid())
      ensures found <==> !NoRoom(old(View()), n, alignment)
      ensures found ==> 0 <= k < |blocks| - 1 && blocks[k] == blk && blk !in live && firstFree <= blk
      ensures found ==> Fits(blk, blocks[k + 1], n, alignment)
      ensures found ==> NextFit(old(View()), old(firstFree), n, alignment, Ceil(blk + HDR, alignment))
    {
      hide Make, Heap.Tiled, Kept, RoverOk, Seen, NextFit, Fits, Ceil, NoRoom, Stranded, Enters;
      blk := firstFree;
      var start := blk;
      k := RoverAt(View(), firstFree);
      ghost var wrapped := false;
      var done := false;
      found := false;
      SearchStart(View(), start, k, n, alignment);
      KeptSelf(View());
      while !done
        invariant Sound() && Kept(old(View()), View()) && 0 <= k < |blocks| && blocks[k] == blk && !found
        invariant Passing(View(), start, blk, n, alignment, wrapped) && (!wrapped ==> !done)
        invariant wrapped ==> (done <==> blk == start)
        invariant old(Valid()) ==> Valid() && RoverKnown(View(), if wrapped then |blocks| - 1 else k, firstFree)
        decreases !wrapped, en - blk
      {
        ghost var h, rover := View(), firstFree;
        AllKnown(h, k, if wrapped then |blocks| - 1 else k, firstFree);
        var next, fits := Visit(blk, n, alignment, k);
        KeptTrans(old(View()), h, View());
        SameSearch(old(View()), View(), start, n, alignment);
        if old(Valid()) { KnownNext(h, View(), k, wrapped, rover, firstFree); }
        PassingStays(h, View(), start, blk, n, alignment, wrapped);
        if fits {
          FoundHere(View(), start, k, n, alignment, wrapped);
          SameRoom(old(View()), View(), n, alignment);
          return true, blk, k;
        }
        HeaderAt(View(), k);
        if units[blk].size > 0 {
          PassingNext(View(), start, k, n, alignment, wrapped);
          blk := next;
          k := k + 1;
        } else {
          PassingAround(View(), start, n, alignment, wrapped);
          FirstBlock(View());
          blk := st;
          k := 0;
          wrapped := true;
        }
        done := blk == start;
      }
      PassedAll(View(), start, n, alignment);
      SameRoom(old(View()), View(), n, alignment);
    }

    /** A whole turn of the search loop, to the next block or around to the first. It never
        leads to a free block that follows a free one: that has been merged away. */
    method SearchTurn(blk: nat, n: nat, alignment: nat, ghost k: int) returns (next: nat, fits: bool, ghost k': int)
      requires Sound() && alignment > 0 && 0 <= k < |blocks| && blocks[k] == blk
      modifies this`units, this`firstFree, this`blocks
      ensures Sound() && Kept(old(View()), View())
      ensures fits ==> !NoRoom(old(View()), n, alignment) && next == blk
      ensures !fits ==> k' == (if k == |old(blocks)| - 1 then 0 else k + 1) && k' < |blocks| && next == blocks[k']
      ensures !fits ==> forall a :: Stranded(View(), a) ==> next != a
    {
      hide Make, Heap.Tiled, Kept, Fits, Stranded, NoRoom, AlignAdjust;
      next, fits := Visit(blk, n, alignment, k);
      k' := k + 1;
      if fits {
        FoundRoom(old(View()), View(), k, n, alignment);
        return blk, true, k;
      }
      HeaderAt(View(), k);
      if units[blk].size > 0 {
        forall a | Stranded(View(), a) ensures next != a { NextAstray(View(), k, a); }
      } else {
        next := st;
        k' := 0;
        FirstBlock(View());
        forall a | Stranded(View(), a) ensures next != a { StrandedInside(View(), a); }
      }
    }

    /** The search loop, for a number of turns, when it does not end: the rover is stranded and
        there is no room. However many turns are made, it finds nothing and is not back at
        the block it started from. */
    method SearchAstray(n: nat, alignment: nat, turns: nat) returns (found: bool, blk: nat)
      requires Sound() && alignment > 0 && !Ends(View(), firstFree, n, alignment)
      modifies this`units, this`firstFree, this`blocks
      ensures Sound() && Kept(old(View()), View()) && blk in blocks
      ensures !found && (turns > 0 ==> blk != old(firstFree))
    {
      hide Make, Heap.Tiled, Kept, Stranded, NoRoom;
      blk := firstFree;
      ghost var start := blk;
      ghost var k := RoverAt(View(), firstFree);
      found := false;
      KeptSelf(View());
      for i := 0 to turns
        invariant Sound() && Kept(old(View()), View())
        invariant 0 <= k < |blocks| && blocks[k] == blk && !found && Stranded(View(), start)
        invariant i > 0 ==> blk != start
      {
        ghost var h := View();
        blk, found, k := SearchTurn(blk, n, alignment, k);
        KeptTrans(old(View()), h, View());
        StrandedStays(h, View(), start);
        SameRoom(old(View()), h, n, alignment);
      }
    }

    /** Cuts free block k at address x, in place. */
    method CutBlock(ghost k: int, x: nat, blk: nat)
      requires Sound() && CanCut(View(), k, x) && blocks[k] == blk && blk !in live
      requires blk in units && units[blk].Header? && units[blk].size == blocks[k + 1] - blk
      modifies this`units, this`blocks
      ensures Sound() && CanCut(old(View()), k, x) && View() == Cut(old(View()), k, x) && (old(Valid()) ==> Valid())
      ensures Kept(old(View()), View()) && blk in units && x in units && units[x].Header? && units[x].size == old(blocks)[k + 1] - x
      ensures k + 2 < |blocks| && blocks[k] == blk && blocks[k + 1] == x && blocks[k + 2] == old(blocks)[k + 1]
    {
      hide Make, Heap.Tiled, Kept, RoverOk;
      CutTiled(View(), k, x);
      CutKept(View(), k, x);
      CutListsRover(View(), k, x, firstFree);
      if Valid() { CutRover(View(), k, x, firstFree); }
      CutBlocks(View(), k, x);
      units := units[x := Make(x, units[blk].size - (x - blk), false)];
      units := units[blk := Make(blk, x - blk, false)];
      blocks := blocks[..k + 1] + [x] + blocks[k + 1..];
      assert units == Cut(old(View()), k, x).units;
    }

    /** Gives free block k in two when its payload is not aligned; the second part is. The rover
        is not past the block, so the source has no reason to move it. */
    method AlignBlock(blk0: nat, alignment: nat, ghost k0: int) returns (blk: nat, ghost k: int)
      requires Sound() && PowerOfTwo(alignment) && 0 <= k0 < |blocks| - 1 && blocks[k0] == blk0 && blk0 !in live
      requires alignment > 0 && blk0 + AlignAdjust(blk0, alignment) < blocks[k0 + 1] && firstFree <= blk0
      modifies this`units, this`blocks
      ensures Sound() && Kept(old(View()), View()) && (old(Valid()) ==> Valid())
      ensures blk + HDR == Ceil(blk0 + HDR, alignment)
      ensures 0 <= k < |blocks| - 1 && blocks[k] == blk && blk !in live && blocks[k + 1] == old(blocks)[k0 + 1]
    {
      hide Make, Heap.Tiled, Kept, RoverOk, PowerOfTwo, Ceil, Heap.BlockOk;
      blk, k := blk0, k0;
      HeaderAt(View(), k);
      BlockUnit(View(), k);
      AdjustUnits(blk, alignment);
      KeptSelf(View());
      var adjust := AlignAdjust(blk, alignment);
      if adjust > 0 {
        UnitsApart2(blk, adjust);
        NotBlock(View(), k, blk + adjust);
        CutBlock(k, blk + adjust, blk);
        blk := blk + adjust;
        k := k + 1;
      }
    }

    /** Takes the first n bytes of free block k into use. */
    method TakeFront(blk: nat, n: nat, ghost k: int)
      requires Sound() && 0 <= k < |blocks| - 1 && blocks[k] == blk && blk !in live
      requires 0 < n && n % HDR == 0 && blk + n <= blocks[k + 1]
      modifies this`units, this`blocks, this`live
      ensures Sound() && Kept(old(View()), View()) && live == old(live)[blk := n] && (old(Valid()) ==> Valid())
    {
      hide Make, Heap.Tiled, Kept, RoverOk, Heap.BlockOk;
      ghost var h := View();
      HeaderAt(h, k);
      BlockUnit(h, k);
      UnitsApart2(blk, n);
      KeptSelf(h);
      var remain := units[blk].size - n;
      if remain > 0 { CutBlock(k, blk + n, blk); }
      ghost var h1 := View();
      MarkedTiled(h1, k, true);
      MarkedKept(h1, k, true);
      if Valid() { MarkedRover(h1, k, firstFree); }
      KeptTrans(h, h1, Marked(h1, k, true));
      units := units[blk := Make(blk, n, true)];
      live := live[blk := n];
      assert View() == Marked(h1, k, true);
    }

    /** Takes n bytes with an aligned payload out of the free block found. */
    method Carve(blk0: nat, n: nat, alignment: nat, ghost k0: int) returns (p: nat)
      requires Sound() && PowerOfTwo(alignment) && 0 <= k0 < |blocks| - 1 && blocks[k0] == blk0 && blk0 !in live
      requires n > 0 && n % HDR == 0 && alignment > 0 && Fits(blk0, blocks[k0 + 1], n, alignment) && firstFree <= blk0
      modifies this`units, this`blocks, this`live
      ensures Sound() && Kept(old(View()), View()) && (old(Valid()) ==> Valid())
      ensures p == Ceil(blk0 + HDR, alignment) && p >= HDR && p - HDR !in old(live) && live == old(live)[p - HDR := n]
    {
      hide Make, Heap.Tiled, Kept, RoverOk, PowerOfTwo, Ceil, Heap.BlockOk;
      var blk, k := AlignBlock(blk0, alignment, k0);
      ghost var h := View();
      TakeFront(blk, n, k);
      KeptTrans(old(View()), h, View());
      p := blk + HDR;
    }

    /** malloc_aligned, where its search ends: null exactly if nothing was asked for or no gap
        has room for the block with an aligned payload; otherwise the block lies in the first
        stretch with room from the rover on, which is the lowest gap with room if no free block
        lies below the rover. Blocks in use and their payload stay as they were. */
    method MallocAligned(bytes: nat, alignment: nat) returns (p: nat)
      requires Sound() && PowerOfTwo(alignment) && alignment > 0 && bytes + alignment + 4 * HDR < WORD
      requires bytes == 0 || Ends(View(), firstFree, Rounded(bytes), alignment)
      modifies this`units, this`firstFree, this`blocks, this`live
      ensures Sound() && Kept(old(View()), View()) && (old(Valid()) ==> Valid())
      ensures p == 0 <==> bytes == 0 || NoRoom(old(View()), Rounded(bytes), alignment)
      ensures p == 0 ==> live == old(live)
      ensures p != 0 ==> HDR <= p && p - HDR !in old(live) && live == old(live)[p - HDR := Rounded(bytes)]
      ensures p != 0 ==> p % alignment == 0 && NextFit(old(View()), old(firstFree), Rounded(bytes), alignment, p)
      ensures p != 0 && old(Valid()) ==> LowestFit(old(View()), Rounded(bytes), alignment, p)
    {
      hide Make, Heap.Tiled, Kept, RoverOk, PowerOfTwo, Ceil, Fits, NoRoom, LowestFit, NextFit;
      KeptSelf(View());
      if bytes == 0 { return 0; }
      var n := Rounded(bytes);
      var found, blk, k := Search(n, alignment);
      ghost var h := View();
      p := 0;
      if found {
        p := Carve(blk, n, alignment, k);
        KeptTrans(old(View()), h, View());
        if old(Valid()) { NextLowest(old(View()), old(firstFree), n, alignment, p); }
      }
    }

    /** free: halts on a block that is not in use, else the block is free again. The rover is
        then stranded exactly if it comes to the block and a free one precedes it, or if it
        was stranded below. */
    method Free(p: nat) returns (ok: bool)
      requires Sound() && (p == 0 || (p >= HDR && p - HDR in blocks && p - HDR < en))
      modifies this`units, this`firstFree, this`live
      ensures ok <==> p == 0 || p - HDR in old(live)
      ensures Sound() && Kept(old(View()), View()) && (old(Valid()) ==> Valid())
      ensures live == if p == 0 || !ok then old(live) else old(live) - {p - HDR}
      ensures p != 0 && ok ==>
                (Stranded(View(), firstFree) <==>
                   if p - HDR <= old(firstFree) then st < p - HDR && !Follows(old(View()), p - HDR)
                   else Stranded(old(View()), old(firstFree)))
    {
      hide Make, Heap.Tiled, Kept, RoverOk, Stranded, Follows;
      KeptSelf(View());
      if p == 0 { return true; }
      var blk := p - HDR;
      ghost var k := BlockIndex(View(), blk);
      HeaderAt(View(), k);
      if !units[blk].used { return false; }
      FreedStrands(View(), View().(live := live - {blk}), blk, firstFree);
      Release(blk, k);
      SameStranded(old(View()).(live := live), View());
      ok := true;
    }

    /** Marks block k free and keeps the rover on the first free block. */
    method Release(blk: nat, ghost k: int)
      requires Sound() && 0 <= k < |blocks| - 1 && blocks[k] == blk && blk in live
      modifies this`units, this`firstFree, this`live
      ensures Sound() && Kept(old(View()), View()) && live == old(live) - {blk} && (old(Valid()) ==> Valid())
      ensures units == old(units)[blk := Make(blk, old(live)[blk], false)]
      ensures firstFree == if old(firstFree) > blk then blk else old(firstFree)
    {
      hide Make, Heap.Tiled, Kept, RoverOk;
      ghost var h := View();
      var i := LiveBlock(h, blk);
      OneBlock(h, i, k);
      HeaderAt(h, k);
      MarkedTiled(h, k, false);
      MarkedKept(h, k, false);
      if Valid() { ReleaseRover(h, k, firstFree); }
      units := units[blk := Make(blk, units[blk].size, false)];
      live := live - {blk};
      if firstFree > blk { firstFree := blk; }
      assert View() == Marked(h, k, false);
    }

    /** memcpy of whole units between two payloads. */
    method CopyUnits(src: nat, dst: nat, len: nat)
      requires len % HDR == 0 && (src + len <= dst || dst + len <= src)
      requires forall o: nat :: o < len && o % HDR == 0 ==> src + o in units && dst + o in units
      modifies this`units
      ensures units.Keys == old(units).Keys
      ensures forall o: nat :: o < len && o % HDR == 0 ==> units[dst + o] == old(units)[src + o]
      ensures forall a :: a in units && !(dst <= a < dst + len) ==> units[a] == old(units)[a]
    {
      var i := 0;
      while i < len
        invariant 0 <= i <= len && i % HDR == 0 && Copied(old(units), units, src, dst, i)
      {
        assert src + i in units && dst + i in units;
        CopiedStep(old(units), units, src, dst, i, len);
        units := units[dst + i := units[src + i]];
        i := i + HDR;
      }
    }

    /** realloc_aligned when the block is too small. The free blocks after it are merged,
        which always leaves a block in use to be looked at: the block is never
        extended in place. It moves, with its contents, or nothing changes. */
    method Grow(p: nat, n: nat, alignment: nat) returns (r: nat)
      requires Sound() && PowerOfTwo(alignment) && alignment > 0 && n + alignment + 4 * HDR < WORD
      requires p >= HDR && p - HDR in live && live[p - HDR] < n && n % HDR == 0
      requires GrowEnds(View(), firstFree, p - HDR, Rounded(n), alignment)
      modifies this`units, this`firstFree, this`blocks, this`live
      ensures Sound() && Kept(old(View()), View()) && (old(Valid()) ==> Valid())
      ensures r == 0 <==> NoRoom(old(View()), Rounded(n), alignment)
      ensures r == 0 ==> live == old(live)
      ensures r != 0 ==> r >= HDR && r - HDR !in old(live) && r % alignment == 0
      ensures r != 0 ==> NextFit(old(View()), GrowRover(old(View()), old(firstFree), p - HDR), Rounded(n), alignment, r)
      ensures r != 0 && old(Valid()) ==> LowestFit(old(View()), Rounded(n), alignment, r)
      ensures r != 0 ==> live == old(live)[r - HDR := Rounded(n)] - {p - HDR}
      ensures r != 0 ==> Moved(old(View()), View(), p, r)
    {
      hide Make, Heap.Tiled, Kept, RoverOk, PowerOfTwo, NoRoom, LowestFit, Moved, NextFit, Stranded, GrowRover;
      var blk := p - HDR;
      ghost var k := LiveBlock(View(), blk);
      var _ := PrepareGrow(blk, n, k);
      ghost var h1 := View();
      SameRoom(old(View()), h1, Rounded(n), alignment);
      SameSearch(old(View()), h1, firstFree, Rounded(n), alignment);
      if old(Valid()) { SameLowest(old(View()), h1, Rounded(n), alignment); }
      r := MallocAligned(n, alignment);
      KeptTrans(old(View()), h1, View());
      if r != 0 { Move(p, r, old(View())); }
    }

    /** Copies the payload of the block at p to the one at r, then frees the first. */
    method Move(p: nat, r: nat, ghost h0: Heap)
      requires Sound() && p >= HDR && r >= HDR && p - HDR in live && r - HDR in live && p != r
      requires live[p - HDR] <= live[r - HDR] && Kept(h0, View()) && r - HDR !in h0.live
      requires p - HDR in h0.live && h0.live[p - HDR] == live[p - HDR]
      modifies this`units, this`firstFree, this`live
      ensures Sound() && Kept(h0, View()) && live == old(live) - {p - HDR} && Moved(h0, View(), p, r) && (old(Valid()) ==> Valid())
    {
      hide Make, Heap.Tiled, Kept, RoverOk, Moved;
      var blk := p - HDR;
      ghost var h := View();
      CopyReady(h, blk, r - HDR);
      ghost var k := LiveBlock(h, blk);
      HeaderAt(h, k);
      CopyUnits(p, r, units[blk].size - HDR);
      CopyTiled(h, View(), r - HDR);
      if old(Valid()) { CopyRover(h, View(), firstFree); }
      CopyKept(h0, h, View(), r - HDR);
      MovedHere(h0, h, View(), blk, r - HDR);
      ghost var h3 := View();
      Release(blk, k);
      KeptTrans(h0, h3, View());
      MovedStays(h0, h3, View(), blk, r - HDR);
    }

    /** Looks at what follows the block. What the merge returns is the block after the free
        ones, in use or the end, so the guard of the extension in place never holds. A rover
        inside the free stretch after the block comes to its start. */
    method PrepareGrow(blk: nat, n: nat, ghost k: int) returns (inPlace: bool)
      requires Sound() && 0 <= k < |blocks| - 1 && blocks[k] == blk && blk in live
      modifies this`units, this`firstFree, this`blocks
      ensures Sound() && Kept(old(View()), View()) && !inPlace && (old(Valid()) ==> Valid())
      ensures firstFree == GrowRover(old(View()), old(firstFree), blk)
    {
      hide Make, Heap.Tiled, Kept, RoverOk, GrowRover;
      ghost var h := View();
      HeaderAt(h, k);
      HeaderAt(h, k + 1);
      BlockLive(h, k);
      KeptSelf(h);
      var next := blk + units[blk].size;
      if !units[next].used {
        if Valid() { RoverNotAbove(h, k + 1, firstFree); }
        next := Coalesce(next, next + units[next].size, k + 1);
        if old(Valid()) { VisitRover(h, View(), k + 1, firstFree); }
        HeaderAt(View(), k + 2);
      }
      GrowRoverIs(h, View(), k, old(firstFree), firstFree);
      HeaderAt(View(), k);
      var room := units[blk].size + units[next].size;
      inPlace := !units[next].used && room >= n;
    }

    /** realloc_aligned when the block is too large: its end becomes a free block. The
        rover is not moved, so afterwards a free block lies below it exactly if one did or it
        pointed past the new block, and it is stranded exactly if it was or pointed to a free
        block right behind the old one. */
    method Shrink(p: nat, n: nat)
      requires Sound() && p >= HDR && p - HDR in live && 0 < n < live[p - HDR] && n % HDR == 0
      modifies this`units, this`blocks, this`live
      ensures Sound() && Kept(old(View()), View()) && live == old(live)[p - HDR := n]
      ensures Valid() <==> old(Valid()) && firstFree <= p - HDR + n
      ensures Stranded(View(), firstFree) <==>
                Stranded(old(View()), firstFree) || (firstFree == p - HDR + old(live)[p - HDR] && firstFree !in live)
    {
      hide Make, Heap.Tiled, Kept, RoverOk, Stranded;
      var blk := p - HDR;
      ghost var h := View();
      ghost var k := LiveBlock(h, blk);
      HeaderAt(h, k);
      UnitsApart2(blk, n);
      CutTiled(h, k, blk + n);
      CutKept(h, k, blk + n);
      CutListsRover(h, k, blk + n, firstFree);
      CutUsedRover(h, k, blk + n, firstFree);
      CutStrands(h, k, blk + n, firstFree);
      var next := blk + units[blk].size;
      units := units[blk + n := Make(blk + n, next - (blk + n), false)];
      units := units[blk := Make(blk, n, true)];
      blocks := blocks[..k + 1] + [blk + n] + blocks[k + 1..];
      live := live[blk := n];
      assert units == Cut(h, k, blk + n).units;
      assert View() == Cut(h, k, blk + n);
    }

    /** realloc_aligned, where its search ends. A request that is rounded to the size of the
        block changes nothing; the header is counted twice when the block has to move. */
    method ReallocAligned(p: nat, bytes: nat, alignment: nat) returns (r: nat)
      requires Sound() && PowerOfTwo(alignment) && alignment > 0 && bytes + alignment + 8 * HDR < WORD
      requires p == 0 || (p >= HDR && p - HDR in live)
      requires p == 0 ==> bytes == 0 || Ends(View(), firstFree, Rounded(bytes), alignment)
      requires p != 0 && live[p - HDR] < Rounded(bytes) ==>
                 GrowEnds(View(), firstFree, p - HDR, Rounded(Rounded(bytes)), alignment)
      modifies this`units, this`firstFree, this`blocks, this`live
      ensures Sound() && Kept(old(View()), View())
      ensures Reallocated(old(View()), View(), old(firstFree), old(Valid()), Valid(), p, bytes, alignment, r)
    {
      hide Make, Heap.Tiled, Kept, RoverOk, PowerOfTwo, NoRoom, LowestFit, NextFit, Moved, Stranded, GrowRover;
      if p == 0 {
        r := MallocAligned(bytes, alignment);
        return;
      }
      var n := Rounded(bytes);
      ghost var k := LiveBlock(View(), p - HDR);
      HeaderAt(View(), k);
      KeptSelf(View());
      if units[p - HDR].size < n {
        r := Grow(p, n, alignment);
      } else if units[p - HDR].size > n {
        Shrink(p, n);
        r := p;
      } else {
        assert live == live[p - HDR := n];
        r := p;
      }
    }
  }

  /** Where the rover stands when the free blocks after a growing block were merged. */
  ghost function GrowRover(h: Heap, rover: nat, blk: nat): nat
    requires blk in h.live
  {
    var g := blk + h.live[blk];
    if exists y: nat :: Gap(h, g, y) && g < rover < y then g else rover
  }

  /** The search for a place for a growing block ends. */
  ghost predicate GrowEnds(h: Heap, rover: nat, blk: nat, n: nat, alignment: nat)
    requires blk in h.live && alignment > 0
  {
    Ends(h, GrowRover(h, rover, blk), n, alignment)
  }

  lemma GrowRoverIs(h: Heap, h': Heap, k: int, rover: nat, rover': nat)
    requires h.Tiled() && h'.Tiled() && h'.live == h.live && h'.st == h.st && h'.en == h.en
    requires 0 <= k < |h.blocks| - 1 && h.blocks[k] in h.live && rover in h.blocks && rover' in h'.blocks
    requires k + 1 < |h'.blocks| && h'.blocks[..k + 1] == h.blocks[..k + 1] && h'.blocks[k + 1] == h.blocks[k + 1]
    requires (h.blocks[k + 1] in h.live || k + 1 == |h.blocks| - 1) ==> h'.blocks == h.blocks && rover' == rover
    requires !(h.blocks[k + 1] in h.live || k + 1 == |h.blocks| - 1) ==>
               && k + 2 < |h'.blocks| && Closed(h', k + 1)
               && (rover' == rover || (rover' == h.blocks[k + 1] && h.blocks[k + 1] < rover < h'.blocks[k + 2]))
    ensures rover' == GrowRover(h, rover, h.blocks[k])
  {
    hide Make, Heap.Tiled, Gap;
    BlockLive(h, k);
    if h.blocks[k + 1] in h.live || k + 1 == |h.blocks| - 1 {
      NoGapAt(h, k + 1);
    } else {
      assert h'.blocks[k] == h'.blocks[..k + 1][k] == h.blocks[k];
      OnlyGap(h, h', k + 1);
      assert Gap(h, h.blocks[k] + h.live[h.blocks[k]], h'.blocks[k + 2]);
      var i := RoverAt(h', rover');
      if i <= k + 1 { OrderOf(h', i, k + 1); } else { OrderOf(h', k + 2, i); }
      var g, y := h.blocks[k] + h.live[h.blocks[k]], h'.blocks[k + 2];
      assert rover' != rover ==> Gap(h, g, y) && g < rover < y;
      assert rover' == rover ==> !(g < rover < y);
    }
  }

  lemma OnlyGap(h: Heap, h': Heap, k: int)
    requires h'.Tiled() && h'.live == h.live && h'.st == h.st && h'.en == h.en
    requires 0 < k < |h'.blocks| - 1 && h'.blocks[k] !in h'.live && h'.blocks[k - 1] in h'.live && Closed(h', k)
    ensures forall y: nat :: Gap(h, h'.blocks[k], y) <==> y == h'.blocks[k + 1]
  {
    hide Make, Heap.Tiled;
    var g := h'.blocks[k];
    BlockIsGap(h', k);
    assert Gap(h, g, h'.blocks[k + 1]);
    forall y: nat | Gap(h, g, y) ensures y == h'.blocks[k + 1] {
      assert Gap(h', g, y);
      GapEnd(h', g, y, k);
    }
  }

  lemma NoGapAt(h: Heap, k: int)
    requires h.Tiled() && 0 <= k < |h.blocks| && (h.blocks[k] in h.live || k == |h.blocks| - 1)
    ensures forall y: nat :: !Gap(h, h.blocks[k], y)
  {
    hide Make, Heap.BlockOk;
    forall y: nat ensures !Gap(h, h.blocks[k], y) {
      if Gap(h, h.blocks[k], y) { GapStart(h, h.blocks[k], y); }
    }
  }

  lemma SameLowest(h: Heap, h': Heap, n: nat, alignment: nat)
    requires alignment > 0 && h'.live == h.live && h'.st == h.st && h'.en == h.en
    ensures forall p: nat :: LowestFit(h', n, alignment, p) <==> LowestFit(h, n, alignment, p)
  {
    hide Fits, Ceil;
    assert forall x: nat, y: nat :: Gap(h', x, y) <==> Gap(h, x, y);
    hide Gap;
    forall p: nat ensures LowestFit(h', n, alignment, p) <==> LowestFit(h, n, alignment, p) {
    }
  }

  // ------------------------------------------------------------- how far the search is

  /** The loop is at blk, in its first round or in the second. */
  ghost predicate Passing(h: Heap, r: nat, blk: nat, n: nat, alignment: nat, wrapped: bool)
    requires alignment > 0
  {
    && h.st <= r < h.en && Enters(h, r, blk) && Ends(h, r, n, alignment)
    && if wrapped then
         && Seen(h, r, r, h.en, n, alignment) && Seen(h, r, h.st, blk, n, alignment)
         && (!Stranded(h, r) ==> blk <= r)
       else r <= blk && Seen(h, r, r, blk, n, alignment)
  }

  lemma SearchStart(h: Heap, r: nat, k: int, n: nat, alignment: nat)
    requires h.Tiled() && alignment > 0 && 0 <= k < |h.blocks| && h.blocks[k] == r < h.en && Ends(h, r, n, alignment)
    ensures Passing(h, r, r, n, alignment, false)
    ensures RoverOk(h, r) ==> RoverKnown(h, k, r)
  {
    hide Make, Heap.BlockOk;
    OrderOf(h, 0, k);
    if RoverOk(h, r) {
      forall i | 0 <= i < k && i < |h.blocks| ensures h.blocks[i] in h.live { OneBlock(h, i, k); OrderOf(h, i, k); }
    }
  }

  lemma PassingStays(h: Heap, h': Heap, r: nat, blk: nat, n: nat, alignment: nat, wrapped: bool)
    requires alignment > 0 && h'.live == h.live && h'.st == h.st && h'.en == h.en && Passing(h, r, blk, n, alignment, wrapped)
    ensures Passing(h', r, blk, n, alignment, wrapped)
  {
    hide Seen, NoRoom, Stranded;
    SameSearch(h, h', r, n, alignment);
    assert Stranded(h', r) <==> Stranded(h, r) by { SameStranded(h, h'); }
  }

  lemma SameStranded(h: Heap, h': Heap)
    requires h'.live == h.live && h'.st == h.st && h'.en == h.en
    ensures forall a: nat :: Stranded(h', a) <==> Stranded(h, a)
    ensures forall a: nat :: Follows(h', a) <==> Follows(h, a)
  {
  }

  lemma FoundHere(h: Heap, r: nat, k: int, n: nat, alignment: nat, wrapped: bool)
    requires h.Tiled() && alignment > 0 && 0 <= k < |h.blocks| - 1 && h.blocks[k] !in h.live && Closed(h, k)
    requires Fits(h.blocks[k], h.blocks[k + 1], n, alignment) && Passing(h, r, h.blocks[k], n, alignment, wrapped)
    ensures NextFit(h, r, n, alignment, Ceil(h.blocks[k] + HDR, alignment)) && !NoRoom(h, n, alignment)
  {
    hide Make, Heap.Tiled, Fits, Ceil, Seen, Enters, NextFit, NoRoom;
    FoundNext(h, r, k, n, alignment, wrapped);
  }

  lemma PassingNext(h: Heap, r: nat, k: int, n: nat, alignment: nat, wrapped: bool)
    requires h.Tiled() && alignment > 0 && 0 <= k < |h.blocks| - 1 && Passing(h, r, h.blocks[k], n, alignment, wrapped)
    requires h.blocks[k] !in h.live ==> Closed(h, k) && !Fits(h.blocks[k], h.blocks[k + 1], n, alignment)
    requires wrapped ==> h.blocks[k] != r
    ensures Passing(h, r, h.blocks[k + 1], n, alignment, wrapped) && h.blocks[k] < h.blocks[k + 1] <= h.en
    ensures !wrapped ==> h.blocks[k + 1] != r
  {
    hide Make, Heap.Tiled, Fits, Seen, Enters, NoRoom, Stranded;
    NextEnters(h, r, k);
    HeaderAt(h, k);
    HeaderAt(h, k + 1);
    SeenStep(h, r, k, if wrapped then h.st else r, n, alignment);
    if wrapped && !Stranded(h, r) { NotPassed(h, r, k); }
  }

  /** The end of the heap is met once. */
  lemma PassingAround(h: Heap, r: nat, n: nat, alignment: nat, wrapped: bool)
    requires alignment > 0 && Passing(h, r, h.en, n, alignment, wrapped)
    ensures !wrapped && Passing(h, r, h.st, n, alignment, true)
  {
    hide Fits;
    if wrapped { AllSeen(h, r, n, alignment); }
  }

  lemma PassedAll(h: Heap, r: nat, n: nat, alignment: nat)
    requires alignment > 0 && Passing(h, r, r, n, alignment, true)
    ensures NoRoom(h, n, alignment)
  {
    AllSeen(h, r, n, alignment);
  }

  lemma AllKnown(h: Heap, k: int, m: int, rover: nat)
    requires k <= m
    ensures RoverKnown(h, m, rover) ==> RoverKnown(h, k, rover)
  {
  }

  /** What is known of a rover on a block in use stays known. */
  lemma KnownNext(h: Heap, h': Heap, k: int, wrapped: bool, rover: nat, rover': nat)
    requires h'.live == h.live && 0 <= k < |h.blocks| && 0 <= k < |h'.blocks|
    requires if k == |h.blocks| - 1 then h'.blocks == h.blocks else k < |h'.blocks| - 1
    requires h.blocks[k] in h.live ==> h'.blocks == h.blocks
    requires RoverKnown(h, if wrapped then |h.blocks| - 1 else k, rover)
    requires rover' in h.live ==> rover' == rover
    requires rover' in h.live && k < |h'.blocks| - 1 ==> AllUsed(h', k + 1)
    ensures RoverKnown(h', if wrapped || k == |h.blocks| - 1 then |h'.blocks| - 1 else k + 1, rover')
  {
    if rover' in h.live && wrapped && k < |h.blocks| - 1 { assert h.blocks[k] in h.live; }
  }

  /** The first i bytes at src are also at dst; nothing else changed. */
  ghost predicate Copied(u: map<nat, Unit>, u': map<nat, Unit>, src: nat, dst: nat, i: nat) {
    && u'.Keys == u.Keys
    && (forall o: nat :: o < i && o % HDR == 0 && src + o in u && dst + o in u ==> u'[dst + o] == u[src + o])
    && (forall a :: a in u && !(dst <= a < dst + i) ==> u'[a] == u[a])
  }

  lemma CopiedStep(u: map<nat, Unit>, u': map<nat, Unit>, src: nat, dst: nat, i: nat, len: nat)
    requires Copied(u, u', src, dst, i) && i < len && i % HDR == 0 && len % HDR == 0
    requires src + len <= dst || dst + len <= src
    requires src + i in u && dst + i in u
    ensures src + i in u' && Copied(u, u'[dst + i := u'[src + i]], src, dst, i + HDR)
  {
    assert u'[src + i] == u[src + i];
    forall o: nat | o < i + HDR && o % HDR == 0 ensures o <= i { if o > i { UnitsApart(i, o); } }
  }

  /** What realloc_aligned does, and whether the rover still keeps its promise. */
  ghost predicate Reallocated(h: Heap, h': Heap, rover: nat, was: bool, valid: bool, p: nat, bytes: nat, alignment: nat, r: nat)
    requires alignment > 0 && (p == 0 || (p >= HDR && p - HDR in h.live))
  {
    var n := Rounded(bytes);
    if p == 0 then
      && (was ==> valid) && (r == 0 <==> bytes == 0 || NoRoom(h, n, alignment))
      && (r == 0 ==> h'.live == h.live)
      && (r != 0 ==> r >= HDR && r - HDR !in h.live && h'.live == h.live[r - HDR := n] && r % alignment == 0
                     && NextFit(h, rover, n, alignment, r) && (was ==> LowestFit(h, n, alignment, r)))
    else if h.live[p - HDR] < n then
      && (was ==> valid) && (r == 0 <==> NoRoom(h, Rounded(n), alignment))
      && (r == 0 ==> h'.live == h.live)
      && (r != 0 ==> r >= HDR && r - HDR !in h.live && h'.live == h.live[r - HDR := Rounded(n)] - {p - HDR} && Moved(h, h', p, r)
                     && r % alignment == 0 && NextFit(h, GrowRover(h, rover, p - HDR), Rounded(n), alignment, r)
                     && (was ==> LowestFit(h, Rounded(n), alignment, r)))
    else
      && r == p && h'.live == h.live[p - HDR := n]
      && (valid <==> was && (h.live[p - HDR] == n || rover <= p - HDR + n))
  }

  /** Freeing a block leaves a rover stranded exactly below, or on the block itself. */
  lemma FreedStrands(h: Heap, h': Heap, blk: nat, rover: nat)
    requires h.Tiled() && blk in h.live && blk < h.en && h' == h.(live := h.live - {blk})
    ensures Stranded(h', if rover > blk then blk else rover) <==>
              if blk <= rover then h.st < blk && !Follows(h, blk) else Stranded(h, rover)
  {
    hide Make, Heap.BlockOk;
    var i := LiveBlock(h, blk);
    var a := if rover > blk then blk else rover;
    if Follows(h, a) {
      var b :| b in h.live && b + h.live[b] == a;
      var j := LiveBlock(h, b);
      assert b in h'.live && h'.live[b] == h.live[b];
    }
  }

  lemma CutUsedRover(h: Heap, k: int, x: nat, rover: nat)
    requires CanCut(h, k, x) && rover in h.blocks && rover < h.en && h.blocks[k] in h.live
    ensures RoverOk(Cut(h, k, x), rover) <==> RoverOk(h, rover) && rover <= x
  {
    hide Make, Heap.Tiled;
    var h' := Cut(h, k, x);
    CutBlocks(h, k, x);
    CutLive(h, k, x);
    NotBlock(h, k, x);
    CutListsRover(h, k, x, rover);
    assert h'.blocks[k + 1] == x && x !in h'.live;
    if rover <= x && RoverOk(h, rover) {
      forall j | 0 <= j < |h'.blocks| && h'.blocks[j] < rover ensures h'.blocks[j] in h'.live {
        if j <= k { assert h.blocks[j] < rover; }
        if j > k + 1 { OrderOf(h, k + 1, j - 1); }
      }
    }
    if RoverOk(h', rover) {
      forall j | 0 <= j < |h.blocks| && h.blocks[j] < rover ensures h.blocks[j] in h.live {
        assert h'.blocks[if j <= k then j else j + 1] == h.blocks[j];
      }
    }
  }

  lemma CutLive(h: Heap, k: int, x: nat)
    requires 0 <= k < |h.blocks| - 1 && h.blocks[k] < x < h.blocks[k + 1]
    ensures Cut(h, k, x).en == h.en && forall a :: a in Cut(h, k, x).live <==> a in h.live
  {
  }

  lemma CutListsRover(h: Heap, k: int, x: nat, rover: nat)
    requires 0 <= k < |h.blocks| - 1 && h.blocks[k] < x < h.blocks[k + 1] && rover in h.blocks
    ensures rover in Cut(h, k, x).blocks
  {
  }

  /** The payload at p, as far as it went, is the beginning of the payload at r. */
  ghost predicate Moved(h: Heap, h': Heap, p: nat, r: nat)
    requires p >= HDR && p - HDR in h.live
  {
    forall o: nat :: o < h.live[p - HDR] - HDR && o % HDR == 0 ==>
      p + o in h.units && r + o in h'.units && h'.units[r + o] == h.units[p + o]
  }

  lemma BlockIndex(h: Heap, blk: nat) returns (k: int)
    requires h.Tiled() && blk in h.blocks && blk < h.en
    ensures 0 <= k < |h.blocks| - 1 && h.blocks[k] == blk
  {
    k :| 0 <= k < |h.blocks| && h.blocks[k] == blk;
  }

  lemma ReleaseRover(h: Heap, k: int, rover: nat)
    requires h.Tiled() && 0 <= k < |h.blocks| - 1 && h.blocks[k] < h.blocks[k + 1] && RoverOk(h, rover)
    ensures RoverOk(Marked(h, k, false), if rover > h.blocks[k] then h.blocks[k] else rover)
  {
  }

  lemma BlockUnit(h: Heap, k: int)
    requires h.Tiled() && 0 <= k < |h.blocks| - 1
    ensures h.blocks[k] % HDR == 0 && h.blocks[k] < h.blocks[k + 1]
  {
    assert h.BlockOk(k);
  }

  lemma UnitsApart2(a: nat, d: nat)
    requires a % HDR == 0 && d % HDR == 0
    ensures (a + d) % HDR == 0
  {
  }

  lemma CutRover(h: Heap, k: int, x: nat, rover: nat)
    requires CanCut(h, k, x) && RoverOk(h, rover) && h.blocks[k] !in h.live
    ensures RoverOk(Cut(h, k, x), rover)
  {
  }

  lemma MarkedRover(h: Heap, k: int, rover: nat)
    requires 0 <= k < |h.blocks| - 1 && h.blocks[k] < h.blocks[k + 1] && RoverOk(h, rover)
    ensures RoverOk(Marked(h, k, true), rover)
  {
  }

  /** A rover on a block in use means that all blocks met so far are in use. */
  predicate RoverKnown(h: Heap, k: int, rover: nat) { rover in h.live ==> AllUsed(h, k) }

  lemma RoverNotLater(h: Heap, k: int, rover: nat)
    requires RoverOk(h, rover) && 0 <= k < |h.blocks|
    ensures h.blocks[k] !in h.live ==> rover <= h.blocks[k]
  {
  }

  lemma MergedRover(h: Heap, k: int, rover: nat)
    requires 0 <= k && k + 2 < |h.blocks| && h.blocks[k] < h.blocks[k + 2] && rover in h.blocks
    requires h.blocks[k + 1] in h.units && h.units[h.blocks[k + 1]].Header?
    ensures (if rover == h.blocks[k + 1] then h.blocks[k] else rover) in Merged(h, k).blocks
  {
    hide Make, Spoilt;
    MergedBlocks(h, k);
    var b := Merged(h, k).blocks;
    var i :| 0 <= i < |h.blocks| && h.blocks[i] == rover;
    assert b[k] == h.blocks[k];
    if i <= k { assert b[i] == rover; } else if i > k + 1 { assert b[i - 1] == rover; }
  }

  predicate AllUsed(h: Heap, k: int) { forall i :: 0 <= i < k && i < |h.blocks| ==> h.blocks[i] in h.live }

  /** Cutting a block in use strands a rover on a free block right behind it, and no other. */
  lemma CutStrands(h: Heap, k: int, x: nat, rover: nat)
    requires CanCut(h, k, x) && h.blocks[k] in h.live && rover in h.blocks && rover < h.en
    ensures Stranded(Cut(h, k, x), rover) <==> Stranded(h, rover) || (rover == h.blocks[k + 1] && rover !in h.live)
  {
    hide Make, Heap.BlockOk;
    NotBlock(h, k, x);
    OrderOf(h, 0, k);
    BlockLive(h, k);
    CutFollows(h, Cut(h, k, x), k, x, rover);
  }

  lemma CutFollows(h: Heap, h': Heap, k: int, x: nat, a: nat)
    requires h.Tiled() && 0 <= k < |h.blocks| - 1 && h.blocks[k] in h.live && h.blocks[k] < x < h.blocks[k + 1] && a != x
    requires h'.live == h.live[h.blocks[k] := x - h.blocks[k]]
    ensures Follows(h', a) <==> Follows(h, a) && a != h.blocks[k + 1]
  {
    hide Make, Heap.Tiled;
    var blk := h.blocks[k];
    BlockLive(h, k);
    if Follows(h', a) {
      var b :| b in h'.live && b + h'.live[b] == a;
      var i := LiveBlock(h, b);
      OneBlock(h, i + 1, k + 1);
    }
    if Follows(h, a) && a != h.blocks[k + 1] {
      var b :| b in h.live && b + h.live[b] == a;
      assert b in h'.live && h'.live[b] == h.live[b];
    }
  }

  lemma UsedSame(h: Heap, h': Heap, k: int, s0: int)
    requires h'.live == h.live && 0 <= s0 <= k < |h'.blocks| && k < |h.blocks|
    requires h'.blocks[..k + 1] == h.blocks[..k + 1] && AllUsed(h, s0)
    ensures AllUsed(h', s0)
  {
  }

  /** Merging blocks after block k leaves the rover's promise as it was: everything
      below it is in use, so what is merged lies above it. */
  lemma VisitRover(h: Heap, h': Heap, k: int, rover: nat)
    requires h.Tiled() && h'.Tiled() && h'.live == h.live && h'.en == h.en && 0 <= k < |h'.blocks| && k < |h.blocks|
    requires h'.blocks[..k + 1] == h.blocks[..k + 1] && RoverOk(h, rover)
    requires h.blocks[k] in h.live ==> h'.blocks == h.blocks
    ensures RoverOk(h', rover)
  {
    hide Heap.Tiled;
    if h.blocks[k] !in h.live {
      assert forall i :: 0 <= i <= k ==> h'.blocks[i] == h'.blocks[..k + 1][i] == h.blocks[..k + 1][i] == h.blocks[i];
      RoverNotAbove(h, k, rover);
      var i :| 0 <= i < |h.blocks| && h.blocks[i] == rover;
      if i > k { OneBlock(h, i, k); OrderOf(h, k, i); }
      assert h'.blocks[i] == rover;
      forall j | 0 <= j < |h'.blocks| && h'.blocks[j] < rover ensures h'.blocks[j] in h'.live {
        if j > k { OrderOf(h', k, j); } else { assert h'.blocks[j] == h.blocks[j]; }
      }
    }
  }

  /** A free block with only blocks in use before it is where the rover may point. */
  lemma RoverHere(h: Heap, k: int, rover: nat)
    requires h.Tiled() && 0 <= k < |h.blocks| - 1 && RoverOk(h, rover) && h.blocks[k] !in h.live
    requires rover in h.live ==> AllUsed(h, k)
    requires h.blocks[k] < rover || rover in h.live
    ensures RoverOk(h, h.blocks[k])
  {
  }

  lemma RoverBlock(h: Heap, rover: nat)
    requires h.Tiled() && rover in h.blocks && rover < h.en
    ensures rover in h.units && h.units[rover].Header? && (h.units[rover].used <==> rover in h.live)
  {
    hide Make;
    var i :| 0 <= i < |h.blocks| && h.blocks[i] == rover;
    HeaderAt(h, i);
  }

  lemma KeptSelf(h: Heap)
    requires h.Tiled()
    ensures Kept(h, h)
  {
    hide Heap.Tiled;
    forall b, a | InPayload(h, b, a) ensures a in h.units { PayloadBacked(h, b, a); }
  }

  /** One round of merging. */
  lemma MergeStep(h0: Heap, h: Heap, k: int)
    requires h.Tiled() && Kept(h0, h) && h0.live == h.live && 0 <= k < |h.blocks| - 1
    requires h.blocks[k] !in h.live && h.blocks[k + 1] !in h.live && h.blocks[k + 1] != h.en
    ensures k + 2 < |h.blocks| && h.blocks[k] < h.blocks[k + 1] < h.blocks[k + 2]
    ensures
      var a, b, c := h.blocks[k], h.blocks[k + 1], h.blocks[k + 2];
      && a in h.units && h.units[a].Header? && h.units[a].size == b - a
      && b in h.units && h.units[b].Header? && h.units[b].size == c - b
      && Merged(h, k).Tiled() && Kept(h0, Merged(h, k))
      && Merged(h, k).blocks[..k + 1] == h.blocks[..k + 1] && Merged(h, k).blocks[k + 1] == c
      && c in Merged(h, k).units && Merged(h, k).units[c].Header? && (Merged(h, k).units[c].used <==> c in h.live || c == h.en)
      && |Merged(h, k).blocks| == |h.blocks| - 1
  {
    hide Make, Spoilt;
    assert h.BlockOk(k) && h.BlockOk(k + 1);
    hide Heap.BlockOk, Heap.Tiled;
    MergedTiled(h, k);
    MergedKept(h, k);
    KeptTrans(h0, h, Merged(h, k));
    MergedBlocks(h, k);
    HeaderAt(Merged(h, k), k + 1);
  }

  // --------------------------------------------------------------- moving a block

  lemma RoverNotAbove(h: Heap, k: int, rover: nat)
    requires RoverOk(h, rover) && 0 <= k < |h.blocks| && h.blocks[k] !in h.live
    ensures rover <= h.blocks[k]
  {
  }

  lemma CopyReady(h: Heap, a: nat, b: nat)
    requires h.Tiled() && a in h.live && b in h.live && a != b && h.live[a] <= h.live[b]
    ensures h.live[a] >= HDR && (h.live[a] - HDR) % HDR == 0 && (a + h.live[a] <= b + HDR || b + h.live[a] <= a + HDR)
    ensures forall o: nat :: o < h.live[a] - HDR && o % HDR == 0 ==> a + HDR + o in h.units && b + HDR + o in h.units
  {
    hide Make, Heap.Tiled;
    var i := LiveBlock(h, a);
    if a < b { LiveDisjoint(h, a, b); } else { LiveDisjoint(h, b, a); }
    UnitSize(a, h.live[a]);
    forall o: nat | o < h.live[a] - HDR && o % HDR == 0 ensures a + HDR + o in h.units && b + HDR + o in h.units {
      PayloadUnit(h, a, o);
      PayloadUnit(h, b, o);
    }
  }

  lemma UnitSize(a: nat, n: nat)
    requires a % HDR == 0 && (a + n) % HDR == 0
    ensures (n - HDR) % HDR == 0
  {
  }

  lemma PayloadUnit(h: Heap, b: nat, o: nat)
    requires h.Tiled() && b in h.live && o % HDR == 0 && o < h.live[b] - HDR
    ensures InPayload(h, b, b + HDR + o) && b + HDR + o in h.units
  {
    hide Make, Heap.Tiled;
    var i := LiveBlock(h, b);
    assert InPayload(h, b, b + HDR + o);
    PayloadBacked(h, b, b + HDR + o);
  }

  /** h' is h with other contents in the payload of block b. */
  ghost predicate Rewritten(h: Heap, h': Heap, b: nat)
    requires b in h.live
  {
    && h' == h.(units := h'.units) && h'.units.Keys == h.units.Keys
    && forall a :: a in h.units && !(b + HDR <= a < b + h.live[b]) ==> h'.units[a] == h.units[a]
  }

  lemma CopyTiled(h: Heap, h': Heap, b: nat)
    requires h.Tiled() && b in h.live && Rewritten(h, h', b)
    ensures h'.Tiled()
  {
    hide Make;
    forall i | 0 <= i < |h.blocks| ensures h.blocks[i] in h.units && h'.units[h.blocks[i]] == h.units[h.blocks[i]] {
      HeaderAt(h, i);
      HeaderOutside(h, i, b);
    }
    forall i | 0 <= i < |h.blocks| - 1 ensures h'.BlockOk(i) { assert h.BlockOk(i); }
  }

  lemma HeaderOutside(h: Heap, i: int, b: nat)
    requires h.Tiled() && 0 <= i < |h.blocks| && b in h.live
    ensures !(b + HDR <= h.blocks[i] < b + h.live[b])
  {
    hide Make, Heap.Tiled;
    HeaderIsNoPayload(h, i, b);
    UnitBlock(h, i);
  }

  lemma UnitBlock(h: Heap, i: int)
    requires h.Tiled() && 0 <= i < |h.blocks|
    ensures h.blocks[i] % HDR == 0
  {
    hide Make;
    if i < |h.blocks| - 1 { assert h.BlockOk(i); }
  }

  lemma CopyRover(h: Heap, h': Heap, rover: nat)
    requires RoverOk(h, rover) && h' == h.(units := h'.units)
    ensures RoverOk(h', rover)
  {
  }

  lemma CopyKept(h0: Heap, h: Heap, h': Heap, b: nat)
    requires h.Tiled() && b in h.live && b !in h0.live && Rewritten(h, h', b) && Kept(h0, h)
    ensures Kept(h0, h')
  {
    hide Make, Heap.Tiled;
    forall c: nat, x: nat | InPayload(h0, c, x) && InPayload(h', c, x)
      ensures x in h0.units && x in h'.units && h'.units[x] == h0.units[x]
    {
      assert InPayload(h, c, x);
      if c < b { LiveDisjoint(h, c, b); } else { LiveDisjoint(h, b, c); }
    }
  }

  lemma MovedHere(h0: Heap, h: Heap, h': Heap, a: nat, b: nat)
    requires h.Tiled() && a in h0.live && a in h.live && h.live[a] == h0.live[a] && Kept(h0, h)
    requires forall o: nat :: o < h.live[a] - HDR && o % HDR == 0 ==>
      a + HDR + o in h.units && b + HDR + o in h'.units && h'.units[b + HDR + o] == h.units[a + HDR + o]
    ensures Moved(h0, h', a + HDR, b + HDR)
  {
    hide Make, Heap.Tiled;
    var i := LiveBlock(h, a);
    forall o: nat | o < h0.live[a] - HDR && o % HDR == 0
      ensures a + HDR + o in h0.units && b + HDR + o in h'.units && h'.units[b + HDR + o] == h0.units[a + HDR + o]
    {
      UnitOffset(a, o);
      assert InPayload(h0, a, a + HDR + o) && InPayload(h, a, a + HDR + o);
    }
  }

  lemma UnitOffset(a: nat, o: nat)
    requires a % HDR == 0 && o % HDR == 0
    ensures (a + HDR + o) % HDR == 0
  {
  }

  /** Freeing the old block writes only its header. */
  lemma MovedStays(h0: Heap, h: Heap, h': Heap, a: nat, b: nat)
    requires a in h0.live && Moved(h0, h, a + HDR, b + HDR) && h.Tiled() && a in h.live && b in h.live && a != b
    requires h.live[b] >= h0.live[a] && a in h'.units && h'.units == h.units[a := h'.units[a]]
    ensures Moved(h0, h', a + HDR, b + HDR)
  {
    hide Make, Heap.Tiled;
    if a < b { LiveDisjoint(h, a, b); } else { LiveDisjoint(h, b, a); }
  }
}
