/** boot/physmap.cc, alloc_phys: taking free memory between 1 MiB and 4 GiB, placed
    so that 16 KiB blocks of linear and physical memory can coincide. */
module PhysTake {
  import opened Modular
  import opened RangeTable
  import opened RangeSplice
  import opened PhysMap
  import opened PhysAlloc
  import opened PhysFree

  /** How far the base must be moved up to agree with the linear address modulo 16 KiB. */
  function Realign(forAddr: nat, base: nat, size: nat): (r: nat)
    ensures r <= 0x3000 && r % PAGE == 0
  {
    if forAddr == 0 || size < 0x4000 then 0 else (forAddr - base) % 0x4000 / PAGE * PAGE
  }

  /** A page-aligned linear address agrees with the moved base modulo 16 KiB. */
  lemma RealignAgrees(forAddr: nat, base: nat, size: nat)
    requires forAddr > 0 && forAddr % PAGE == 0 && base % PAGE == 0 && size >= 0x4000
    ensures (base + Realign(forAddr, base, size)) % 0x4000 == forAddr % 0x4000
  {
    var d := (forAddr - base) % 0x4000;
    assert d % PAGE == 0;
    SameMod(base + d, forAddr, 0x4000);
    assert (forAddr - (base + d)) % 0x4000 == 0;
  }

  /** The first range from index st on that alloc_phys can use. */
  predicate Usable(r: Range, forAddr: nat, size: nat) {
    r.kind == NORMAL && r.size > Realign(forAddr, r.base, size)
  }

  predicate Chosen(s: seq<Range>, st: int, en: int, forAddr: nat, size: nat, i: int) {
    && 0 <= st <= i < en <= |s| && Usable(s[i], forAddr, size)
    && forall k :: st <= k < i ==> !Usable(s[k], forAddr, size)
  }

  /** Exactly [lo, hi) went from free to allocated; the table stays tidy. */
  ghost predicate Took(s: seq<Range>, t: seq<Range>, lo: int, hi: int) {
    && Retyped(s, t, lo, hi, NORMAL, ALLOCATED) && Tidy(t)
    && FreeSpace(t) + (hi - lo) == FreeSpace(s)
  }

  lemma TookSplice(s: seq<Range>, i: int, n: int, mid': seq<Range>, lo: int, hi: int)
    requires Tidy(s) && 0 <= i && 0 < n && i + n <= |s| && mid' != [] && Tidy(mid')
    requires Retyped(s[i..i + n], mid', lo, hi, NORMAL, ALLOCATED)
    requires s[i].base <= mid'[0].base && mid'[|mid'| - 1].End() <= s[i + n - 1].End()
    requires Weight(mid', FreeOf) + (hi - lo) == Weight(s[i..i + n], FreeOf)
    ensures Took(s, Spliced(s, i, n, mid'), lo, hi)
  {
    hide Retyped, Tidy, Weight;
    SplicedChange(s, i, n, mid', lo, hi, NORMAL, ALLOCATED);
    SplicedWeight(s, i, n, mid', FreeOf);
  }

  /** An allocated range ends where the free one begins. */
  predicate Follows(s: seq<Range>, i: int)
    requires 0 <= i < |s|
  {
    i > 0 && s[i - 1].kind == ALLOCATED && s[i - 1].End() == s[i].base
  }

  /** The allocated range before grows by n bytes. */
  lemma TookByGrowing(s: seq<Range>, i: int, n: nat)
    requires Tidy(s) && 0 < i < |s| && s[i].kind == NORMAL && Follows(s, i) && 0 < n < s[i].size && n % PAGE == 0
    ensures
      var u := s[i - 1 := Range(s[i - 1].base, s[i - 1].size + n, ALLOCATED)];
      Took(s, u[i := Range(s[i].base + n, s[i].size - n, NORMAL)], s[i].base, s[i].base + n)
  {
    hide Retyped, Weight;
    var x, y := Range(s[i - 1].base, s[i - 1].size + n, ALLOCATED), Range(s[i].base + n, s[i].size - n, NORMAL);
    assert s[i - 1..i + 1] == [s[i - 1], s[i]];
    assert s[i - 1 := x][i := y] == Spliced(s, i - 1, 2, [x, y]);
    GrowUp(s[i - 1], s[i], n);
    WeightTwo(s[i - 1], s[i], FreeOf);
    WeightTwo(x, y, FreeOf);
    TidyTwo(x, y);
    TookSplice(s, i - 1, 2, [x, y], s[i].base, s[i].base + n);
  }

  /** The allocated range before takes the free one in, whole. */
  lemma TookWhole(s: seq<Range>, i: int)
    requires Tidy(s) && 0 < i < |s| && s[i].kind == NORMAL && Follows(s, i)
    ensures Took(s, Removed(s[i - 1 := Range(s[i - 1].base, s[i - 1].size + s[i].size, ALLOCATED)], i), s[i].base, s[i].End())
  {
    hide Retyped, Weight;
    var x := Range(s[i - 1].base, s[i - 1].size + s[i].size, ALLOCATED);
    assert s[i - 1..i + 1] == [s[i - 1], s[i]];
    assert Removed(s[i - 1 := x], i) == Spliced(s, i - 1, 2, [x]);
    Absorb(s[i - 1], s[i], ALLOCATED);
    WeightTwo(s[i - 1], s[i], FreeOf);
    WeightOne(x, FreeOf);
    TookSplice(s, i - 1, 2, [x], s[i].base, s[i].End());
  }

  /** Two touching allocated ranges become one: no address changes kind. */
  lemma TookNothing(s: seq<Range>, i: int)
    requires Tidy(s) && 0 < i < |s| && s[i].kind == ALLOCATED && Follows(s, i)
    ensures
      var t := Removed(s[i - 1 := Range(s[i - 1].base, s[i - 1].size + s[i].size, ALLOCATED)], i);
      Tidy(t) && FreeSpace(t) == FreeSpace(s) && Retyped(s, t, s[i].base, s[i].base, ALLOCATED, ALLOCATED)
  {
    hide Retyped, Weight;
    var x := Range(s[i - 1].base, s[i - 1].size + s[i].size, ALLOCATED);
    assert s[i - 1..i + 1] == [s[i - 1], s[i]];
    assert Removed(s[i - 1 := x], i) == Spliced(s, i - 1, 2, [x]);
    Absorb(s[i - 1], s[i], ALLOCATED);
    SplicedChange(s, i - 1, 2, [x], s[i].base, s[i].base, ALLOCATED, ALLOCATED);
    SplicedWeight(s, i - 1, 2, [x], FreeOf);
    WeightTwo(s[i - 1], s[i], FreeOf);
    WeightOne(x, FreeOf);
  }

  lemma TookThen(s: seq<Range>, t: seq<Range>, u: seq<Range>, lo: int, hi: int, x: int)
    requires Took(s, t, lo, hi) && Tidy(u) && FreeSpace(u) == FreeSpace(t) && Retyped(t, u, x, x, ALLOCATED, ALLOCATED)
    ensures Took(s, u, lo, hi)
  {
  }

  /** A free range becomes allocated, or its first n bytes do. */
  lemma TookAlone(s: seq<Range>, i: int, n: nat)
    requires Tidy(s) && 0 <= i < |s| && s[i].kind == NORMAL && 0 < n <= s[i].size && n % PAGE == 0
    ensures n == s[i].size ==> Took(s, s[i := s[i].(kind := ALLOCATED)], s[i].base, s[i].End())
    ensures n < s[i].size ==>
              Took(s, Inserted(s[i := Range(s[i].base, n, ALLOCATED)], i + 1, Range(s[i].base + n, s[i].size - n, NORMAL)),
                   s[i].base, s[i].base + n)
  {
    hide Retyped, Weight;
    assert s[i..i + 1] == [s[i]];
    WeightOne(s[i], FreeOf);
    if n == s[i].size {
      var x := s[i].(kind := ALLOCATED);
      assert s[i := x] == Spliced(s, i, 1, [x]);
      Retype(s[i], ALLOCATED);
      WeightOne(x, FreeOf);
      TookSplice(s, i, 1, [x], s[i].base, s[i].End());
    } else {
      var x, y := Range(s[i].base, n, ALLOCATED), Range(s[i].base + n, s[i].size - n, NORMAL);
      assert Inserted(s[i := x], i + 1, y) == Spliced(s, i, 1, [x, y]);
      SplitFront(s[i], n, ALLOCATED);
      WeightTwo(x, y, FreeOf);
      TidyTwo(x, y);
      TookSplice(s, i, 1, [x, y], s[i].base, s[i].base + n);
    }
  }

  /** The index of the first range from j on that does not continue a chain of
      touching allocated ranges. */
  function ChainEnd(s: seq<Range>, j: int): (e: int)
    requires 0 < j <= |s|
    ensures j <= e <= |s|
    decreases |s| - j
  {
    if j < |s| && s[j].kind == ALLOCATED && s[j - 1].End() == s[j].base then ChainEnd(s, j + 1) else j
  }

  /** The free range is used up by the allocated one before it, which then also
      takes in the allocated ranges that now touch it. */
  method TakeWhole(m: Table, i: nat)
    requires m.Valid() && Tidy(m.ranges) && 0 < i < |m.ranges| && m.ranges[i].kind == NORMAL && Follows(m.ranges, i)
    modifies m
    ensures m.Valid() && m.first20 <= old(m.first20)
    ensures Took(old(m.ranges), m.ranges, old(m.ranges[i].base), old(m.ranges[i].End()))
    ensures i <= |m.ranges| && m.ranges[i - 1].kind == ALLOCATED && m.ranges[i - 1].base == old(m.ranges[i - 1].base)
    ensures m.ranges[i - 1].End() >= old(m.ranges[i].End())
    ensures i < |m.ranges| <==> ChainEnd(old(m.ranges), i + 1) < |old(m.ranges)|
  {
    hide Took, Tidy, Weight, Removed, ChainEnd, Sorted, Retyped, CountBelow;
    ghost var s := m.ranges;
    ghost var lo, hi := s[i].base, s[i].End();
    TookWhole(s, i);
    JoinedShape(s, i);
    JoinStep(m, i);
    TookTidy(s, m.ranges, lo, hi);
    ghost var c := i + 1;
    while i < |m.ranges| && m.ranges[i - 1].kind == m.ranges[i].kind && m.ranges[i - 1].End() == m.ranges[i].base
      invariant m.Valid() && Tidy(m.ranges) && m.first20 <= old(m.first20) && Took(s, m.ranges, lo, hi)
      invariant i + 1 <= c <= |s| && |m.ranges| == |s| - (c - i) && m.ranges[i..] == s[c..]
      invariant m.ranges[i - 1].kind == ALLOCATED && m.ranges[i - 1].base == s[i - 1].base
      invariant m.ranges[i - 1].End() == s[c - 1].End() && m.ranges[i - 1].End() >= hi
      invariant ChainEnd(s, i + 1) == ChainEnd(s, c)
      decreases |m.ranges|
    {
      ghost var t := m.ranges;
      assert m.ranges[i] == m.ranges[i..][0] == s[c];
      ChainStep(s, c);
      TookNothing(t, i);
      JoinedShape(t, i);
      JoinStep(m, i);
      TookThen(s, t, m.ranges, lo, hi, t[i].base);
      assert t[i + 1..] == t[i..][1..] == s[c..][1..] == s[c + 1..];
      c := c + 1;
    }
    if i < |m.ranges| { assert m.ranges[i] == m.ranges[i..][0] == s[c]; }
    ChainStep(s, c);
  }

  /** The table with ranges i - 1 and i joined. */
  lemma JoinedShape(s: seq<Range>, i: int)
    requires 0 < i < |s|
    ensures
      var t := Removed(s[i - 1 := Range(s[i - 1].base, s[i - 1].size + s[i].size, s[i - 1].kind)], i);
      |t| == |s| - 1 && t[i - 1] == Range(s[i - 1].base, s[i - 1].size + s[i].size, s[i - 1].kind) && t[i..] == s[i + 1..]
  {
  }

  lemma ChainStep(s: seq<Range>, c: int)
    requires 0 < c <= |s|
    ensures c < |s| && s[c].kind == ALLOCATED && s[c - 1].End() == s[c].base ==> ChainEnd(s, c + 1) == ChainEnd(s, c)
    ensures !(c < |s| && s[c].kind == ALLOCATED && s[c - 1].End() == s[c].base) ==> ChainEnd(s, c) == c
  {
  }

  lemma TookTidy(s: seq<Range>, t: seq<Range>, lo: int, hi: int)
    requires Took(s, t, lo, hi)
    ensures Tidy(t)
  {
  }

  /** prev.size += range.size, then the range is deleted. */
  method JoinStep(m: Table, i: nat)
    requires m.Valid() && 0 < i < |m.ranges|
    modifies m
    ensures m.Valid() && m.first20 <= old(m.first20)
    ensures m.ranges == Removed(old(m.ranges)[i - 1 := Range(old(m.ranges[i - 1].base),
                                                               old(m.ranges[i - 1].size) + old(m.ranges[i].size),
                                                               old(m.ranges[i - 1].kind))], i)
  {
    var prev := m.ranges[i - 1];
    SameBases(m.ranges, i - 1, Range(prev.base, prev.size + m.ranges[i].size, prev.kind));
    m.ranges := m.ranges[i - 1 := Range(prev.base, prev.size + m.ranges[i].size, prev.kind)];
    m.Delete(i);
  }

  /** Takes up to n bytes from the front of free range i; block b then holds them. */
  method Take(m: Table, i: nat, n: nat) returns (taken: nat, ghost b: nat)
    requires m.Valid() && Tidy(m.ranges) && i < |m.ranges| && m.ranges[i].kind == NORMAL && 0 < n && n % PAGE == 0
    requires m.first20 <= i && m.ranges[i].base >= MB1 && m.ranges[i].End() <= GB4
    modifies m
    ensures taken == if n < old(m.ranges[i].size) then n else old(m.ranges[i].size)
    ensures m.Valid() && Took(old(m.ranges), m.ranges, old(m.ranges[i].base), old(m.ranges[i].base) + taken)
    ensures b < |m.ranges| && m.ranges[b].kind == ALLOCATED && 0 <= m.first20 <= b + 1
    ensures m.ranges[b].base <= old(m.ranges[i].base) && old(m.ranges[i].base) + taken <= m.ranges[b].End()
    ensures Leaves(old(m.ranges), i, n) ==> b + 1 < |m.ranges|
  {
    hide Took, Tidy, Weight;
    var e := m.ranges[i];
    ghost var s := m.ranges;
    taken := if n < e.size then n else e.size;
    WholePagesOf(s, i);
    if i > 0 && m.ranges[i - 1].kind == ALLOCATED && m.ranges[i - 1].End() == e.base {
      b := i - 1;
      if n < e.size {
        var prev := m.ranges[i - 1];
        TookByGrowing(s, i, n);
        GrowKeeps(s, i, n);
        m.ranges := m.ranges[i - 1 := Range(prev.base, prev.size + n, ALLOCATED)];
        m.ranges := m.ranges[i := Range(e.base + n, e.size - n, NORMAL)];
      } else {
        TakeWhole(m, i);
      }
    } else {
      b := i;
      TookAlone(s, i, taken);
      if e.size > n {
        FrontFits(s, i, n);
        m.ranges := m.ranges[i := Range(e.base, n, ALLOCATED)];
        m.InsertAt(i + 1, Range(e.base + n, e.size - n, NORMAL));
      } else {
        SameBases(s, i, e.(kind := ALLOCATED));
        m.ranges := m.ranges[i := e.(kind := ALLOCATED)];
      }
      m.first20 := i + 1;
      StartsBelow(m.ranges, i);
    }
  }

  /** A range is left after the block that holds what was taken. */
  predicate Leaves(s: seq<Range>, i: int, n: nat)
    requires 0 <= i < |s|
  {
    if n < s[i].size then true
    else if Follows(s, i) then ChainEnd(s, i + 1) < |s| else i + 1 < |s|
  }

  lemma GrowKeeps(s: seq<Range>, i: int, n: nat)
    requires Tidy(s) && 0 < i < |s| && 0 < n < s[i].size && s[i].base >= MB1 && s[i].End() <= GB4
    ensures
      var u := s[i - 1 := Range(s[i - 1].base, s[i - 1].size + n, ALLOCATED)];
      var t := u[i := Range(s[i].base + n, s[i].size - n, NORMAL)];
      && Sorted(t) && CountBelow(t, MB1) == CountBelow(s, MB1) && CountBelow(t, GB4) == CountBelow(s, GB4)
  {
    var u := s[i - 1 := Range(s[i - 1].base, s[i - 1].size + n, ALLOCATED)];
    SameSides(s, i - 1, u[i - 1]);
    SameSides(u, i, Range(s[i].base + n, s[i].size - n, NORMAL));
  }

  lemma FrontFits(s: seq<Range>, i: int, n: nat)
    requires Tidy(s) && 0 <= i < |s| && 0 < n < s[i].size
    ensures
      var u := s[i := Range(s[i].base, n, ALLOCATED)];
      && Sorted(u) && CountBelow(u, MB1) == CountBelow(s, MB1) && CountBelow(u, GB4) == CountBelow(s, GB4)
      && FitsAt(u, i + 1, s[i].base + n)
  {
    SameBases(s, i, Range(s[i].base, n, ALLOCATED));
  }

  /** A range at or above 1 MiB has no more than its index below 1 MiB. */
  lemma StartsBelow(s: seq<Range>, i: int)
    requires Sorted(s) && 0 <= i < |s| && s[i].base >= MB1
    ensures CountBelow(s, MB1) <= i
  {
    BelowIsPrefix(s, MB1, i);
  }

  /** The index alloc_phys starts to search from. */
  function SearchStart(first20: int, st20: int): int { if first20 == 0 then st20 else first20 }

  /** What the source needs of the range it will choose: it ends at or below 4 GiB,
      and some range is left after it whenever a part of it is given back. */
  ghost predicate CanTake(s: seq<Range>, st: int, en: int, forAddr: nat, size: nat) {
    forall i :: Chosen(s, st, en, forAddr, size, i) ==>
      var realign := Realign(forAddr, s[i].base, size);
      s[i].End() <= GB4 && (realign > 0 ==> Leaves(s, i, size + realign))
  }

  /** alloc_phys for more than a page, when less than asked for is acceptable. It halts
      exactly if every range below 4 GiB it could use lies before the search start, which
      earlier allocations move up; otherwise exactly the range returned goes from free to allocated. */
  method AllocPhys(m: Table, size: nat, forAddr: nat) returns (r: Allocation, ghost i: int)
    requires m.Valid() && Tidy(m.ranges) && size > PAGE && m.first20 >= 0
    requires CanTake(m.ranges, SearchStart(m.first20, m.st20), m.st64, forAddr, PageRound(size))
    modifies m
    ensures
      var s, n := old(m.ranges), PageRound(size);
      var st := SearchStart(old(m.first20), old(m.st20));
      && (r.Halt? <==> forall k :: 0 <= k < old(m.st64) && k < |s| && Usable(s[k], forAddr, n) ==> k < st)
      && (r.Got? ==>
            && Chosen(s, st, old(m.st64), forAddr, n, i) && m.Valid()
            && Took(s, m.ranges, r.base, r.base + r.size)
            && r.base == s[i].base + Realign(forAddr, s[i].base, n)
            && r.size == Min(n, s[i].End() - r.base) && 0 < r.size
            && r.base % PAGE == 0 && MB1 <= r.base < GB4
            && (forAddr > 0 && forAddr % PAGE == 0 && n >= 0x4000 ==> r.base % 0x4000 == forAddr % 0x4000))
  {
    hide Took, Tidy, Weight, Leaves, Realign, Sorted, CountBelow;
    ghost var s := m.ranges;
    var n := PageRound(size);
    if m.first20 == 0 { m.first20 := m.st20; }
    BelowInTable(s);
    var j := m.first20;
    while j < m.st64
      invariant m.first20 <= j && m.ranges == s && m.Valid() && m.st64 == old(m.st64) && m.first20 == SearchStart(old(m.first20), old(m.st20))
      invariant forall k :: m.first20 <= k < j && k < m.st64 ==> !Usable(s[k], forAddr, n)
    {
      var e := m.ranges[j];
      if e.kind == NORMAL && e.size > Realign(forAddr, e.base, n) {
        i := j;
        assert Chosen(s, m.first20, m.st64, forAddr, n, i);
        r := TakeAligned(m, j, n, forAddr);
        return;
      }
      j := j + 1;
    }
    r, i := Halt, 0;
  }

  /** Takes from the chosen range and gives back what only served the alignment. */
  method TakeAligned(m: Table, i: nat, n: nat, forAddr: nat) returns (r: Allocation)
    requires m.Valid() && Tidy(m.ranges) && 0 < n && n % PAGE == 0
    requires m.first20 <= i < m.st64 && i < |m.ranges| && Usable(m.ranges[i], forAddr, n) && m.ranges[i].End() <= GB4
    requires Realign(forAddr, m.ranges[i].base, n) > 0 ==>
      Leaves(m.ranges, i, n + Realign(forAddr, m.ranges[i].base, n))
    modifies m
    ensures r.Got? && m.Valid() && Took(old(m.ranges), m.ranges, r.base, r.base + r.size)
    ensures r.base == old(m.ranges[i].base) + Realign(forAddr, old(m.ranges[i].base), n)
    ensures r.size == Min(n, old(m.ranges[i].End()) - r.base) && 0 < r.size
    ensures r.base % PAGE == 0 && MB1 <= r.base < GB4
    ensures forAddr > 0 && forAddr % PAGE == 0 && n >= 0x4000 ==> r.base % 0x4000 == forAddr % 0x4000
  {
    hide Took, Tidy, Weight, Freed, Leaves, Realign, Sorted;
    ghost var s := m.ranges;
    var e := m.ranges[i];
    var realign := Realign(forAddr, e.base, n);
    AboveLimit(s, i);
    WholePagesOf(s, i);
    var taken, b := Take(m, i, n + realign);
    r := Got(e.base + realign, taken - realign);
    if realign > 0 { GiveBack(m, s, e.base, realign, taken, b); }
    if forAddr > 0 && forAddr % PAGE == 0 && n >= 0x4000 { RealignAgrees(forAddr, e.base, n); }
  }

  function Min(a: int, b: int): int { if a < b then a else b }

  /** The part taken only to reach the wanted alignment is freed again. */
  method GiveBack(m: Table, ghost s: seq<Range>, lo: nat, realign: nat, taken: nat, ghost b: nat)
    requires m.Valid() && Tidy(s) && Took(s, m.ranges, lo, lo + taken)
    requires 0 < realign < taken && realign % PAGE == 0 && lo % PAGE == 0 && MB1 <= lo && lo + taken <= GB4
    requires b + 1 < |m.ranges| && m.ranges[b].kind == ALLOCATED && 0 <= m.first20 <= b + 1
    requires m.ranges[b].base <= lo && lo + taken <= m.ranges[b].End()
    modifies m
    ensures m.Valid() && Took(s, m.ranges, lo + realign, lo + taken)
  {
    hide Tidy, Retyped, Weight;
    ghost var t := m.ranges;
    assert PageRound(realign) == realign;
    var ok := FreePhys(m, lo, realign, 0, b);
    assert ok;
    RetypedBack(s, t, m.ranges, lo, lo + realign, lo + taken, NORMAL, ALLOCATED);
  }

  lemma BelowInTable(s: seq<Range>)
    requires Sorted(s)
    ensures CountBelow(s, MB1) <= |s| && CountBelow(s, GB4) <= |s|
  {
    if s != [] {
      BelowIsPrefix(s, MB1, 0);
      BelowIsPrefix(s, GB4, 0);
    }
  }

  lemma AboveLimit(s: seq<Range>, i: int)
    requires Sorted(s) && 0 <= i < |s| && CountBelow(s, MB1) <= i < CountBelow(s, GB4)
    ensures MB1 <= s[i].base < GB4
  {
    BelowIsPrefix(s, MB1, i);
    BelowIsPrefix(s, GB4, i);
  }
}
