/** boot/physmap.cc, physmap_init: resolving overlaps in the firmware's memory map,
    one adjacent pair at a time, until nothing is left to do. */
module PhysFixUp {
  import opened RangeTable
  import opened RangeSplice
  import opened PhysMap

  /** Address a is usable memory, or claimed by something else. */
  ghost predicate Usable(s: seq<Range>, a: int) { Covered(s, Only(NORMAL), a) }
  ghost predicate Claimed(s: seq<Range>, a: int) { Covered(s, Except(NORMAL), a) }

  /** t keeps the usable memory of s that nothing else claims, and claims nothing new. */
  ghost predicate Narrows(s: seq<Range>, t: seq<Range>) {
    forall a ::
      && (Usable(t, a) ==> Usable(s, a))
      && (Claimed(t, a) ==> Claimed(s, a))
      && (Usable(s, a) && !Claimed(s, a) ==> Usable(t, a))
  }

  /** The sum of sizes drops, or the number of empty ranges, or the number of ranges. */
  ghost predicate Drops(s: seq<Range>, t: seq<Range>) {
    || Weight(t, SizeOf) < Weight(s, SizeOf)
    || (Weight(t, SizeOf) == Weight(s, SizeOf) && Weight(t, EmptyOf) < Weight(s, EmptyOf))
    || (Weight(t, SizeOf) == Weight(s, SizeOf) && Weight(t, EmptyOf) == Weight(s, EmptyOf) && |t| < |s|)
  }

  /** No address is held by more ranges than before, of any kinds. */
  ghost predicate Thins(s: seq<Range>, t: seq<Range>) {
    forall kinds, a :: Holders(t, kinds, a) <= Holders(s, kinds, a)
  }

  /** Usable ranges are disjoint, and so are the others among themselves. */
  ghost predicate Simple(s: seq<Range>) {
    forall a :: Holders(s, Only(NORMAL), a) <= 1 && Holders(s, Except(NORMAL), a) <= 1
  }

  /** What was claimed is still claimed, or is not usable. */
  ghost predicate Guards(s: seq<Range>, t: seq<Range>) {
    forall a :: Claimed(s, a) ==> Claimed(t, a) || !Usable(t, a)
  }

  ghost predicate Progress(s: seq<Range>, t: seq<Range>) {
    && Narrows(s, t) && Drops(s, t) && (AllAligned(s) ==> AllAligned(t))
    && Thins(s, t) && (Simple(s) ==> Guards(s, t))
  }

  /** The holders in s are those in u and, where it reaches, range r. */
  ghost predicate HeldBy(s: seq<Range>, u: seq<Range>, r: Range) {
    forall kinds, a :: Holders(s, kinds, a) == Holders(u, kinds, a) + if Hits(r, kinds, a) then 1 else 0
  }

  /** s is u with range r added. */
  ghost predicate Gone(s: seq<Range>, u: seq<Range>, r: Range) {
    && HeldBy(s, u, r)
    && (forall kinds, a :: Covered(s, kinds, a) <==> Covered(u, kinds, a) || Hits(r, kinds, a))
    && Weight(s, SizeOf) == Weight(u, SizeOf) + r.size
    && Weight(s, EmptyOf) == Weight(u, EmptyOf) + EmptyOf(r)
    && |s| == |u| + 1
    && (AllAligned(s) ==> AllAligned(u) && PageRange(r))
  }

  /** t is s with range r added and, perhaps, touching ranges joined. */
  ghost predicate Adds(s: seq<Range>, t: seq<Range>, r: Range) {
    && HeldBy(t, s, r)
    && (forall kinds, a :: Covered(t, kinds, a) <==> Covered(s, kinds, a) || Hits(r, kinds, a))
    && Weight(t, SizeOf) == Weight(s, SizeOf) + r.size
    && Weight(t, EmptyOf) <= Weight(s, EmptyOf) + EmptyOf(r)
    && |t| <= |s| + 1
    && (AllAligned(s) && PageRange(r) ==> AllAligned(t))
  }

  lemma RemovedGone(s: seq<Range>, i: int)
    requires 0 <= i < |s|
    ensures Gone(s, Removed(s, i), s[i])
  {
    forall kinds, a ensures Covered(s, kinds, a) <==> Covered(Removed(s, i), kinds, a) || Hits(s[i], kinds, a) {
      CoveredRemoved(s, i, kinds, a);
    }
    forall kinds, a
      ensures Holders(s, kinds, a) == Holders(Removed(s, i), kinds, a) + if Hits(s[i], kinds, a) then 1 else 0
    {
      WeightRemoved(s, i, HitOf(kinds, a));
    }
    WeightRemoved(s, i, SizeOf);
    WeightRemoved(s, i, EmptyOf);
    var u := Removed(s, i);
    assert forall k :: 0 <= k < |u| ==> u[k] == if k < i then s[k] else s[k + 1];
  }

  lemma InsertedAdds(s: seq<Range>, i: int, r: Range, t: seq<Range>)
    requires 0 <= i <= |s| && Settles(Inserted(s, i, r), t)
    ensures Adds(s, t, r)
  {
    var u := Inserted(s, i, r);
    forall kinds, a ensures Covered(t, kinds, a) <==> Covered(s, kinds, a) || Hits(r, kinds, a) {
      CoveredInserted(s, i, r, kinds, a);
    }
    forall kinds, a ensures Holders(t, kinds, a) == Holders(s, kinds, a) + if Hits(r, kinds, a) then 1 else 0 {
      WeightInserted(s, i, r, HitOf(kinds, a));
    }
    WeightInserted(s, i, r, SizeOf);
    WeightInserted(s, i, r, EmptyOf);
    assert forall k :: 0 <= k < |u| ==> u[k] == if k < i then s[k] else if k == i then r else s[k - 1];
  }

  // ------------------------------------------------- one lemma for each repair

  /** A range inside the one before it is dropped. */
  lemma DropInner(s: seq<Range>, i: int)
    requires 0 < i < |s| && s[i].kind == NORMAL && s[i - 1].base <= s[i].base && s[i].End() <= s[i - 1].End()
    ensures Progress(s, Removed(s, i))
  {
    RemovedGone(s, i);
    var u := Removed(s, i);
    assert u[i - 1] == s[i - 1];
    forall a ensures Usable(s, a) && !Claimed(s, a) ==> Usable(u, a) {
      if Usable(s, a) && !Claimed(s, a) && Hits(s[i], Only(NORMAL), a) {
        assert !Hits(s[i - 1], Except(NORMAL), a);
        assert Hits(u[i - 1], Only(NORMAL), a);
      }
    }
  }

  /** A range inside the one before it is cut out of it, and forgotten. */
  lemma ClipInner(s: seq<Range>, u: seq<Range>, v: seq<Range>, w: seq<Range>, x: seq<Range>,
                  p: Range, r: Range, e1: Range, e2: Range)
    requires Gone(s, u, r) && Gone(u, v, p) && r.kind != NORMAL
    requires p.base <= r.base && r.End() <= p.End()
    requires e1 == Range(p.base, r.base - p.base, p.kind) && e2 == Range(r.End(), p.End() - r.End(), p.kind)
    requires if e1.size > 0 then Adds(v, w, e1) else w == v
    requires if e2.size > 0 then Adds(w, x, e2) else x == w
    ensures Progress(s, x)
  {
    hide Weight, AllAligned, Covered, Gone, Adds;
    assert Narrows(s, x) by {
      forall a
        ensures (Usable(x, a) ==> Usable(s, a)) && (Claimed(x, a) ==> Claimed(s, a))
        ensures Usable(s, a) && !Claimed(s, a) ==> Usable(x, a)
      {
        ClipAt(s, u, v, w, x, p, r, e1, e2, Only(NORMAL), a);
        ClipAt(s, u, v, w, x, p, r, e1, e2, Except(NORMAL), a);
      }
    }
    ClipDrops(s, u, v, w, x, p, r, e1, e2);
    assert Thins(s, x) by {
      forall kinds, a ensures Holders(x, kinds, a) <= Holders(s, kinds, a) {
        ClipHolders(s, u, v, w, x, p, r, e1, e2, kinds, a);
      }
    }
    if Simple(s) { ClipGuards(s, u, v, w, x, p, r, e1, e2); }
  }

  /** How many ranges hold an address once the inner range is cut out. */
  lemma ClipHolders(s: seq<Range>, u: seq<Range>, v: seq<Range>, w: seq<Range>, x: seq<Range>,
                    p: Range, r: Range, e1: Range, e2: Range, kinds: Kinds, a: int)
    requires Gone(s, u, r) && Gone(u, v, p) && p.base <= r.base && r.End() <= p.End()
    requires e1 == Range(p.base, r.base - p.base, p.kind) && e2 == Range(r.End(), p.End() - r.End(), p.kind)
    requires if e1.size > 0 then Adds(v, w, e1) else w == v
    requires if e2.size > 0 then Adds(w, x, e2) else x == w
    ensures Holders(s, kinds, a) == Holders(v, kinds, a) + (if Hits(p, kinds, a) then 1 else 0) + if Hits(r, kinds, a) then 1 else 0
    ensures Holders(x, kinds, a) == Holders(v, kinds, a) + if Hits(p, kinds, a) && !(r.base <= a < r.End()) then 1 else 0
  {
    hide Holders, Weight, Covered, AllAligned;
  }

  /** In a simple map the inner range, if not empty, lies in a usable one and nowhere else:
      what it claimed is no longer usable. */
  lemma ClipGuards(s: seq<Range>, u: seq<Range>, v: seq<Range>, w: seq<Range>, x: seq<Range>,
                   p: Range, r: Range, e1: Range, e2: Range)
    requires Simple(s) && r.kind != NORMAL
    requires Gone(s, u, r) && Gone(u, v, p) && p.base <= r.base && r.End() <= p.End()
    requires e1 == Range(p.base, r.base - p.base, p.kind) && e2 == Range(r.End(), p.End() - r.End(), p.kind)
    requires if e1.size > 0 then Adds(v, w, e1) else w == v
    requires if e2.size > 0 then Adds(w, x, e2) else x == w
    ensures Guards(s, x)
  {
    hide Holders, Covered, Gone, Adds;
    forall a | Claimed(s, a) ensures Claimed(x, a) || !Usable(x, a) {
      ClipHolders(s, u, v, w, x, p, r, e1, e2, Only(NORMAL), a);
      ClipHolders(s, u, v, w, x, p, r, e1, e2, Except(NORMAL), a);
      HoldersCovered(s, Except(NORMAL), a);
      HoldersCovered(x, Except(NORMAL), a);
      HoldersCovered(x, Only(NORMAL), a);
    }
  }

  /** Cutting out range i frees an address of it for use exactly if a usable range other
      than the two holds it and nothing else claims it. */
  ghost predicate Forgets(s: seq<Range>, x: seq<Range>, i: int)
    requires 0 < i < |s|
  {
    var rest := Removed(Removed(s, i), i - 1);
    forall a :: Hits(s[i], Except(NORMAL), a) ==>
      (Usable(x, a) && !Claimed(x, a) <==> Usable(rest, a) && !Claimed(rest, a))
  }

  lemma ClipForgets(s: seq<Range>, u: seq<Range>, v: seq<Range>, w: seq<Range>, x: seq<Range>, i: int, e1: Range, e2: Range)
    requires 0 < i < |s| && s[i].kind != NORMAL && u == Removed(s, i) && v == Removed(u, i - 1)
    requires Gone(s, u, s[i]) && Gone(u, v, s[i - 1]) && s[i - 1].base <= s[i].base && s[i].End() <= s[i - 1].End()
    requires e1 == Range(s[i - 1].base, s[i].base - s[i - 1].base, s[i - 1].kind)
    requires e2 == Range(s[i].End(), s[i - 1].End() - s[i].End(), s[i - 1].kind)
    requires if e1.size > 0 then Adds(v, w, e1) else w == v
    requires if e2.size > 0 then Adds(w, x, e2) else x == w
    ensures Forgets(s, x, i)
  {
    hide Covered, Gone, Adds, Removed;
    forall a | Hits(s[i], Except(NORMAL), a)
      ensures Usable(x, a) && !Claimed(x, a) <==> Usable(v, a) && !Claimed(v, a)
    {
      ClipAt(s, u, v, w, x, s[i - 1], s[i], e1, e2, Only(NORMAL), a);
      ClipAt(s, u, v, w, x, s[i - 1], s[i], e1, e2, Except(NORMAL), a);
    }
  }

  lemma ClipDrops(s: seq<Range>, u: seq<Range>, v: seq<Range>, w: seq<Range>, x: seq<Range>,
                  p: Range, r: Range, e1: Range, e2: Range)
    requires Gone(s, u, r) && Gone(u, v, p) && p.base <= r.base && r.End() <= p.End()
    requires e1.size == r.base - p.base && e2.size == p.End() - r.End()
    requires e1.base == p.base && e2.base == r.End()
    requires if e1.size > 0 then Adds(v, w, e1) else w == v
    requires if e2.size > 0 then Adds(w, x, e2) else x == w
    ensures Drops(s, x) && (AllAligned(s) ==> AllAligned(x))
  {
    hide Weight, AllAligned, Covered;
    if AllAligned(s) { ClipAligned(p, r); }
  }

  lemma ClipAligned(p: Range, r: Range)
    requires PageRange(p) && PageRange(r) && p.base <= r.base && r.End() <= p.End()
    ensures (r.base - p.base) % PAGE == 0 && (p.End() - r.End()) % PAGE == 0 && r.End() % PAGE == 0
  {
  }

  /** What the cut does to one address. */
  lemma ClipAt(s: seq<Range>, u: seq<Range>, v: seq<Range>, w: seq<Range>, x: seq<Range>,
               p: Range, r: Range, e1: Range, e2: Range, kinds: Kinds, a: int)
    requires Gone(s, u, r) && Gone(u, v, p)
    requires if e1.size > 0 then Adds(v, w, e1) else w == v
    requires if e2.size > 0 then Adds(w, x, e2) else x == w
    ensures Covered(s, kinds, a) <==> Covered(v, kinds, a) || Hits(p, kinds, a) || Hits(r, kinds, a)
    ensures Covered(x, kinds, a) <==> Covered(v, kinds, a) || Hits(e1, kinds, a) || Hits(e2, kinds, a)
  {
  }

  /** The range that is usable loses the part the other one claims. */
  lemma Yield(s: seq<Range>, u: seq<Range>, t: seq<Range>, old_: Range, new_: Range, other: Range)
    requires Gone(s, u, old_) && Adds(u, t, new_) && old_.kind == NORMAL == new_.kind && other.kind != NORMAL
    requires old_.base <= new_.base && new_.End() <= old_.End() && new_.size < old_.size
    requires forall a :: Hits(old_, Only(NORMAL), a) && !Hits(new_, Only(NORMAL), a) ==> Hits(other, Except(NORMAL), a)
    requires forall a :: Hits(other, Except(NORMAL), a) ==> Covered(s, Except(NORMAL), a)
    requires AllAligned(s) ==> PageRange(new_)
    ensures Progress(s, t)
  {
  }

  lemma DropEmpty(s: seq<Range>, i: int)
    requires 0 <= i < |s| && s[i].size == 0
    ensures Progress(s, Removed(s, i))
  {
    RemovedGone(s, i);
  }

  /** Two touching usable ranges become one. */
  lemma Combine(s: seq<Range>, u: seq<Range>, v: seq<Range>, t: seq<Range>, p: Range, r: Range)
    requires Gone(s, u, r) && Gone(u, v, p) && p.kind == r.kind == NORMAL && p.End() == r.base
    requires p.size > 0 && r.size > 0 && Adds(v, t, Range(p.base, r.End() - p.base, NORMAL))
    ensures Progress(s, t)
  {
  }

  // ------------------------------------------------------------- the fixpoint

  /** Nothing is left to repair between two neighbours. */
  predicate SettledPair(p: Range, r: Range) {
    && p.End() < r.End() && p.size > 0 && r.size > 0
    && (p.End() > r.base ==> (p.kind == NORMAL <==> r.kind == NORMAL))
    && !(p.kind == r.kind == NORMAL && p.End() == r.base)
  }

  predicate Settled(s: seq<Range>) { forall i :: 0 < i < |s| ==> SettledPair(s[i - 1], s[i]) }

  lemma {:induction false} EndsGrow(s: seq<Range>, i: int, j: int)
    requires Settled(s) && 0 <= i <= j < |s|
    ensures s[i].End() <= s[j].End()
  {
    if i < j {
      EndsGrow(s, i, j - 1);
      assert SettledPair(s[j - 1], s[j]);
    }
  }

  /** If no two neighbours clash, no two ranges clash, however far apart. */
  lemma {:induction false} NoClash(s: seq<Range>, i: int, j: int)
    requires Sorted(s) && Settled(s) && 0 <= i < j < |s|
    requires (s[i].kind == NORMAL) != (s[j].kind == NORMAL)
    ensures s[i].End() <= s[j].base
  {
    assert SettledPair(s[j - 1], s[j]);
    if (s[i].kind == NORMAL) == (s[j - 1].kind == NORMAL) {
      EndsGrow(s, i, j - 1);
    } else {
      NoClash(s, i, j - 1);
    }
  }

  ghost predicate Exclusive(s: seq<Range>) {
    forall a :: !(Usable(s, a) && Claimed(s, a))
  }

  lemma SettledExclusive(s: seq<Range>)
    requires Sorted(s) && Settled(s)
    ensures Exclusive(s)
  {
    forall a ensures !(Usable(s, a) && Claimed(s, a)) {
      if Usable(s, a) && Claimed(s, a) {
        var i :| 0 <= i < |s| && Hits(s[i], Only(NORMAL), a);
        var j :| 0 <= j < |s| && Hits(s[j], Except(NORMAL), a);
        if i < j { NoClash(s, i, j); } else { NoClash(s, j, i); }
      }
    }
  }

  /** Two usable neighbours that overlap are left alone exactly if the second reaches
      further. */
  lemma UsableOverlapStays(p: Range, r: Range)
    requires p.kind == r.kind == NORMAL && p.base <= r.base < p.End() && r.size > 0
    ensures SettledPair(p, r) <==> p.End() < r.End()
  {
  }

  /** A settled map without two holders of one kind is one the allocator can work on. */
  lemma SettledTidy(s: seq<Range>)
    requires Sorted(s) && Settled(s) && AllAligned(s) && Simple(s) && (|s| == 1 ==> s[0].size > 0)
    ensures Tidy(s)
  {
    forall i | 0 <= i < |s| ensures s[i].size > 0 {
      if i > 0 { assert SettledPair(s[i - 1], s[i]); } else if |s| > 1 { assert SettledPair(s[0], s[1]); }
    }
    forall i, j | 0 <= i < j < |s| ensures s[i].End() <= s[j].base {
      if (s[i].kind == NORMAL) != (s[j].kind == NORMAL) {
        NoClash(s, i, j);
      } else if s[i].End() > s[j].base {
        TwoHolders(s, i, j, if s[i].kind == NORMAL then Only(NORMAL) else Except(NORMAL), s[j].base);
      }
    }
  }

  lemma ThinsTrans(s: seq<Range>, t: seq<Range>, u: seq<Range>)
    requires Narrows(t, u) && Thins(s, t) && Thins(t, u) && (Simple(s) ==> Guards(s, t)) && (Simple(t) ==> Guards(t, u))
    ensures Thins(s, u) && (Simple(s) ==> Guards(s, u))
  {
    hide Holders, Usable, Claimed;
    if Simple(s) {
      assert Simple(t);
    }
  }

  lemma NarrowsTrans(s: seq<Range>, t: seq<Range>, u: seq<Range>)
    requires Narrows(s, t) && Narrows(t, u)
    ensures Narrows(s, u)
  {
  }

  /** The repair for a range that lies inside the one before it. */
  method FixInside(m: Table, i: nat)
    requires m.Valid() && 0 < i < |m.ranges|
    requires m.ranges[i - 1].base <= m.ranges[i].base && m.ranges[i].End() <= m.ranges[i - 1].End()
    modifies m
    ensures m.Valid() && Progress(old(m.ranges), m.ranges)
    ensures old(m.ranges)[i].kind != NORMAL ==> Forgets(old(m.ranges), m.ranges, i)
  {
    hide Progress, Settles, Gone, Adds, Sorted, Forgets;
    var prev, curr := m.ranges[i - 1], m.ranges[i];
    ghost var s := m.ranges;
    if curr.kind == NORMAL {
      DropInner(s, i);
      m.Delete(i);
    } else {
      var entry1 := Range(prev.base, curr.base - prev.base, prev.kind);
      var entry2 := Range(curr.End(), prev.End() - curr.End(), prev.kind);
      RemovedGone(s, i);
      m.Delete(i);
      ghost var u := m.ranges;
      assert u[i - 1] == prev;
      RemovedGone(u, i - 1);
      m.Delete(i - 1);
      ghost var v := m.ranges;
      if entry1.size > 0 {
        var k := m.Insert(entry1, true);
        InsertedAdds(v, k, entry1, m.ranges);
      }
      ghost var w := m.ranges;
      if entry2.size > 0 {
        var k := m.Insert(entry2, true);
        InsertedAdds(w, k, entry2, m.ranges);
      }
      ClipInner(s, u, v, w, m.ranges, prev, curr, entry1, entry2);
      ClipForgets(s, u, v, w, m.ranges, i, entry1, entry2);
    }
  }

  /** The repair for a range that reaches into the next: usable memory yields. */
  method FixOverlap(m: Table, i: nat)
    requires m.Valid() && 0 < i < |m.ranges| && m.ranges[i - 1].base <= m.ranges[i].base
    requires m.ranges[i].base < m.ranges[i - 1].End() < m.ranges[i].End() && AllAligned(m.ranges)
    requires (m.ranges[i - 1].kind == NORMAL) != (m.ranges[i].kind == NORMAL)
    modifies m
    ensures m.Valid() && Progress(old(m.ranges), m.ranges)
  {
    hide Progress, Settles, Sorted;
    if m.ranges[i].kind == NORMAL {
      SecondYields(m, i);
    } else {
      FirstYields(m, i);
    }
  }

  method SecondYields(m: Table, i: nat)
    requires m.Valid() && 0 < i < |m.ranges| && m.ranges[i - 1].base <= m.ranges[i].base
    requires m.ranges[i].base < m.ranges[i - 1].End() < m.ranges[i].End() && AllAligned(m.ranges)
    requires m.ranges[i - 1].kind != NORMAL && m.ranges[i].kind == NORMAL
    modifies m
    ensures m.Valid() && Progress(old(m.ranges), m.ranges)
  {
    hide Progress, Settles, Gone, Adds, Sorted, Covered;
    var prev, curr := m.ranges[i - 1], m.ranges[i];
    ghost var s := m.ranges;
    var entry1 := Range(prev.End(), curr.End() - prev.End(), curr.kind);
    RemovedGone(s, i);
    var k := m.Replace(i, entry1);
    InsertedAdds(Removed(s, i), k, entry1, m.ranges);
    RangeClaims(s, i - 1);
    Yield(s, Removed(s, i), m.ranges, curr, entry1, prev);
  }

  method FirstYields(m: Table, i: nat)
    requires m.Valid() && 0 < i < |m.ranges| && m.ranges[i - 1].base <= m.ranges[i].base
    requires m.ranges[i].base < m.ranges[i - 1].End() < m.ranges[i].End() && AllAligned(m.ranges)
    requires m.ranges[i - 1].kind == NORMAL && m.ranges[i].kind != NORMAL
    modifies m
    ensures m.Valid() && Progress(old(m.ranges), m.ranges)
  {
    hide Progress, Settles, Gone, Adds, Sorted, Covered;
    var prev, curr := m.ranges[i - 1], m.ranges[i];
    ghost var s := m.ranges;
    var entry1 := Range(prev.base, curr.base - prev.base, prev.kind);
    RemovedGone(s, i - 1);
    var k := m.Replace(i - 1, entry1);
    InsertedAdds(Removed(s, i - 1), k, entry1, m.ranges);
    RangeClaims(s, i);
    Yield(s, Removed(s, i - 1), m.ranges, prev, entry1, curr);
  }

  lemma RangeClaims(s: seq<Range>, i: int)
    requires 0 <= i < |s|
    ensures forall kinds, a :: Hits(s[i], kinds, a) ==> Covered(s, kinds, a)
  {
  }

  /** Two touching usable ranges are replaced by one. */
  method FixTouching(m: Table, i: nat)
    requires m.Valid() && 0 < i < |m.ranges| && m.ranges[i - 1].size > 0 && m.ranges[i].size > 0
    requires m.ranges[i - 1].kind == m.ranges[i].kind == NORMAL && m.ranges[i - 1].End() == m.ranges[i].base
    modifies m
    ensures m.Valid() && Progress(old(m.ranges), m.ranges)
  {
    hide Progress, Settles, Gone, Adds, Sorted;
    var prev, curr := m.ranges[i - 1], m.ranges[i];
    ghost var s := m.ranges;
    var entry1 := Range(prev.base, curr.End() - prev.base, prev.kind);
    RemovedGone(s, i);
    m.Delete(i);
    ghost var u := m.ranges;
    assert u[i - 1] == prev;
    RemovedGone(u, i - 1);
    var k := m.Replace(i - 1, entry1);
    InsertedAdds(Removed(u, i - 1), k, entry1, m.ranges);
    Combine(s, u, Removed(u, i - 1), m.ranges, prev, curr);
  }

  /** Rounding a usable range to whole pages, as the source does in place. */
  function Rounded(r: Range): Range {
    if r.kind != NORMAL then r
    else
      var base := if r.base % PAGE != 0 then (r.base + PAGE) / PAGE * PAGE else r.base;
      var size := if r.size >= base - r.base then r.size - (base - r.base) else r.size;
      Range(base, size / PAGE * PAGE, r.kind)
  }

  lemma RoundedAligned(r: Range)
    requires PageRange(r)
    ensures Rounded(r) == r
  {
  }

  /** The body of the inner loop for the pair (i - 1, i). */
  method FixPair(m: Table, i: nat) returns (did: bool)
    requires m.Valid() && AllAligned(m.ranges) && 0 < i < |m.ranges|
    modifies m
    ensures m.Valid() && AllAligned(m.ranges)
    ensures did ==> Progress(old(m.ranges), m.ranges)
    ensures did <==> !SettledPair(old(m.ranges)[i - 1], old(m.ranges)[i])
    ensures !did ==> m.ranges == old(m.ranges)
  {
    hide Narrows, Drops, Thins, Simple, Guards;
    var prev, curr := m.ranges[i - 1], m.ranges[i];
    var prevNormal, currNormal := prev.kind == NORMAL, curr.kind == NORMAL;
    did := true;
    if curr.base >= prev.base && curr.End() <= prev.End() {
      FixInside(m, i);
      return;
    }
    if prev.End() > curr.base && prevNormal != currNormal {
      FixOverlap(m, i);
      return;
    }
    RoundedAligned(prev);
    RoundedAligned(curr);
    m.ranges := m.ranges[i - 1 := Rounded(prev)][i := Rounded(curr)];
    assert m.ranges == old(m.ranges);
    if prev.size == 0 {
      DropEmpty(m.ranges, i - 1);
      m.Delete(i - 1);
      return;
    }
    if curr.size == 0 {
      DropEmpty(m.ranges, i);
      m.Delete(i);
      return;
    }
    if prevNormal && currNormal && prev.End() == curr.base {
      FixTouching(m, i);
      return;
    }
    did := false;
  }

  /** One pass: repairs the first pair that needs it. */
  method FixPass(m: Table) returns (did: bool)
    requires m.Valid() && AllAligned(m.ranges)
    modifies m
    ensures m.Valid() && AllAligned(m.ranges)
    ensures did ==> Progress(old(m.ranges), m.ranges)
    ensures !did ==> m.ranges == old(m.ranges) && Settled(m.ranges)
  {
    hide Narrows, Drops, SettledPair, Thins, Simple, Guards;
    did := false;
    var i := 1;
    while i < |m.ranges| && !did
      invariant 1 <= i && m.Valid() && AllAligned(m.ranges)
      invariant did ==> Progress(old(m.ranges), m.ranges)
      invariant !did ==> m.ranges == old(m.ranges)
      invariant !did ==> forall k :: 0 < k < i && k < |m.ranges| ==> SettledPair(m.ranges[k - 1], m.ranges[k])
      decreases !did, |m.ranges| - i
    {
      did := FixPair(m, i);
      i := i + 1;
    }
  }

  /** The fix-up loop of physmap_init. It ends on every page-aligned map: each pass
      that does something lowers the sum of sizes, or the number of empty ranges,
      or the number of ranges. What is left usable was usable and is claimed by
      nothing left in the table; usable memory that nothing claimed is all kept. No
      address gets more holders, so disjoint usable ranges stay disjoint. If the others
      are disjoint too, nothing that was claimed is usable, and the map left is tidy. */
  method FixUp(m: Table)
    requires m.Valid() && AllAligned(m.ranges)
    modifies m
    ensures m.Valid() && AllAligned(m.ranges)
    ensures Narrows(old(m.ranges), m.ranges) && Exclusive(m.ranges) && Settled(m.ranges)
    ensures Thins(old(m.ranges), m.ranges)
    ensures Simple(old(m.ranges)) ==> forall a :: Claimed(old(m.ranges), a) ==> !Usable(m.ranges, a)
    ensures Simple(old(m.ranges)) && (|m.ranges| == 1 ==> m.ranges[0].size > 0) ==> Tidy(m.ranges)
  {
    hide Narrows, Settled, Exclusive, Weight, Sorted, Thins, Simple, Guards, Tidy;
    NarrowsSelf(m.ranges);
    var did := true;
    while did
      invariant m.Valid() && AllAligned(m.ranges) && Narrows(old(m.ranges), m.ranges)
      invariant Thins(old(m.ranges), m.ranges) && (Simple(old(m.ranges)) ==> Guards(old(m.ranges), m.ranges))
      invariant !did ==> Settled(m.ranges)
      decreases Weight(m.ranges, SizeOf), Weight(m.ranges, EmptyOf), |m.ranges|, did
    {
      ghost var s := m.ranges;
      did := FixPass(m);
      if did {
        NarrowsTrans(old(m.ranges), s, m.ranges);
        ThinsTrans(old(m.ranges), s, m.ranges);
      }
    }
    SettledExclusive(m.ranges);
    if Simple(old(m.ranges)) {
      Unclaimed(old(m.ranges), m.ranges);
      if |m.ranges| == 1 ==> m.ranges[0].size > 0 { SettledTidy(m.ranges); }
    }
  }

  /** In a map that is not simple a claim can be forgotten: a range inside another, with a
      usable range after them that reaches into it. */
  method ForgottenClaim(m: Table, a: int)
    requires m.Valid() && AllAligned(m.ranges) && |m.ranges| == 3
    requires m.ranges[0].base <= m.ranges[1].base && m.ranges[1].End() <= m.ranges[0].End()
    requires m.ranges[1].kind != NORMAL && m.ranges[2].kind == NORMAL
    requires m.ranges[1].base <= a < m.ranges[1].End() && m.ranges[2].base <= a < m.ranges[2].End()
    modifies m
    ensures Claimed(old(m.ranges), a) && Usable(m.ranges, a)
  {
    hide Progress, Settled, Sorted, Thins, Simple, Guards, Tidy, Drops;
    ghost var s := m.ranges;
    assert Hits(s[1], Except(NORMAL), a);
    assert Removed(Removed(s, 1), 0) == [s[2]];
    CoveredOne(s[2], Only(NORMAL), a);
    CoveredOne(s[2], Except(NORMAL), a);
    FixInside(m, 1);
    assert AllAligned(m.ranges) by { ProgressAligned(s, m.ranges); }
    FixUp(m);
  }

  lemma ProgressAligned(s: seq<Range>, t: seq<Range>)
    requires Progress(s, t) && AllAligned(s)
    ensures AllAligned(t)
  {
  }

  lemma Unclaimed(s: seq<Range>, t: seq<Range>)
    requires Simple(s) && Thins(s, t) && Guards(s, t) && Exclusive(t)
    ensures Simple(t) && forall a :: Claimed(s, a) ==> !Usable(t, a)
  {
    hide Holders, Usable, Claimed;
  }

  lemma NarrowsSelf(s: seq<Range>)
    ensures Narrows(s, s) && Thins(s, s) && Guards(s, s)
  {
  }
}
