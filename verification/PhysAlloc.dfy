/** boot/physmap.cc: taking memory out of the physical map and giving it back. */
module PhysAlloc {
  import opened RangeTable
  import opened RangeSplice
  import opened PhysMap

  /** phys_alloc_t, or the loader halting (a panic or a failed assertion). */
  datatype Allocation = Halt | Got(base: nat, size: nat)

  /** Replacing a range by one on the same side of both limits keeps the counts. */
  lemma SameSides(s: seq<Range>, i: int, r: Range)
    requires 0 <= i < |s|
    ensures CountBelow(s[i := r], MB1) - CountBelow(s, MB1) == BelowOf(MB1)(r) - BelowOf(MB1)(s[i])
    ensures CountBelow(s[i := r], GB4) - CountBelow(s, GB4) == BelowOf(GB4)(r) - BelowOf(GB4)(s[i])
  {
    assert Removed(s[i := r], i) == Removed(s, i);
    WeightRemoved(s, i, BelowOf(MB1));
    WeightRemoved(s[i := r], i, BelowOf(MB1));
    WeightRemoved(s, i, BelowOf(GB4));
    WeightRemoved(s[i := r], i, BelowOf(GB4));
  }

  /** The highest range of free memory. */
  predicate Highest(s: seq<Range>, i: int) {
    0 <= i < |s| && s[i].kind == NORMAL && forall k :: i < k < |s| ==> s[k].kind != NORMAL
  }

  /** alloc_high grows the allocated range that follows instead of adding one. */
  predicate Pulls(s: seq<Range>, i: int)
    requires 0 <= i < |s|
  {
    i + 1 < |s| && s[i + 1].base == s[i].End() && s[i + 1].kind == ALLOCATED
  }

  /** alloc_high takes the last page of the highest free range. A range of a single
      page leaves an empty range behind, and pulling an allocated range down over
      a limit leaves the count below that limit wrong. */
  method AllocHigh(m: Table) returns (r: Allocation, ghost i: int)
    requires m.Valid() && Tidy(m.ranges)
    modifies m
    ensures r.Halt? <==> forall k :: 0 <= k < |old(m.ranges)| ==> old(m.ranges)[k].kind != NORMAL
    ensures r.Halt? ==> m.ranges == old(m.ranges)
    ensures r.Got? ==>
      && Highest(old(m.ranges), i) && r == Got(old(m.ranges)[i].End() - PAGE, PAGE)
      && Retyped(old(m.ranges), m.ranges, r.base, r.base + PAGE, NORMAL, ALLOCATED)
      && FreeSpace(m.ranges) + PAGE == FreeSpace(old(m.ranges))
      && (Tidy(m.ranges) <==> old(m.ranges)[i].size > PAGE)
      && (m.Valid() <==> !(Pulls(old(m.ranges), i) && r.base + PAGE in {MB1, GB4}))
  {
    hide Tidy, Retyped, FreeSpace, CountBelow;
    ghost var s := m.ranges;
    var j := |m.ranges|;
    while j > 0
      invariant 0 <= j <= |m.ranges| && m.ranges == s && m.Valid()
      invariant forall k :: j <= k < |s| ==> s[k].kind != NORMAL
    {
      var range := m.ranges[j - 1];
      if range.kind == NORMAL {
        i := j - 1;
        WholePagesOf(s, i);
        var taken: nat := range.End() - PAGE;
        r := Got(taken, PAGE);
        if j < |m.ranges| && m.ranges[j].base == range.End() && m.ranges[j].kind == ALLOCATED {
          HighPull(s, i);
          PullCounts(s, i);
          m.ranges := m.ranges[j - 1 := Range(range.base, range.size - PAGE, NORMAL)];
          m.ranges := m.ranges[j := Range(taken, m.ranges[j].size + PAGE, ALLOCATED)];
        } else {
          HighSplit(s, i);
          SplitReady(s, i);
          m.ranges := m.ranges[j - 1 := Range(range.base, range.size - PAGE, NORMAL)];
          m.InsertAt(j, Range(taken, PAGE, ALLOCATED));
        }
        return;
      }
      j := j - 1;
    }
    r, i := Halt, 0;
  }

  lemma WholePagesOf(s: seq<Range>, i: int)
    requires Tidy(s) && 0 <= i < |s| && (s[i].kind == NORMAL || s[i].kind == ALLOCATED)
    ensures s[i].size >= PAGE && s[i].size % PAGE == 0 && s[i].base % PAGE == 0
  {
  }

  function Shrunk(r: Range): Range
    requires r.size >= PAGE
  {
    Range(r.base, r.size - PAGE, r.kind)
  }

  /** The table after the page was added to the allocated range that follows. */
  function Pulled(s: seq<Range>, i: int): seq<Range>
    requires 0 <= i && i + 1 < |s| && s[i].size >= PAGE
  {
    s[i := Shrunk(s[i])][i + 1 := Range(s[i].End() - PAGE, s[i + 1].size + PAGE, s[i + 1].kind)]
  }

  lemma HighPull(s: seq<Range>, i: int)
    requires Tidy(s) && 0 <= i && i + 1 < |s| && s[i].kind == NORMAL && s[i].size >= PAGE && Pulls(s, i)
    ensures
      var t, end := Pulled(s, i), s[i].End();
      && Retyped(s, t, end - PAGE, end, NORMAL, ALLOCATED)
      && FreeSpace(t) + PAGE == FreeSpace(s)
      && (Tidy(t) <==> s[i].size > PAGE)
  {
    hide Retyped, Weight;
    var t := Pulled(s, i);
    var x, y := t[i], t[i + 1];
    assert s[i..i + 2] == [s[i], s[i + 1]];
    assert t == Spliced(s, i, 2, [x, y]);
    GrowDown(s[i], s[i + 1], PAGE);
    SplicedChange(s, i, 2, [x, y], s[i].End() - PAGE, s[i].End(), NORMAL, ALLOCATED);
    SplicedWeight(s, i, 2, [x, y], FreeOf);
    WeightTwo(s[i], s[i + 1], FreeOf);
    WeightTwo(x, y, FreeOf);
    WholePagesOf(s, i);
    WholePagesOf(s, i + 1);
    if s[i].size > PAGE { TidyTwo(x, y); } else { assert t[i].size == 0; }
  }

  lemma TidyTwo(x: Range, y: Range)
    requires x.size > 0 && y.size > 0 && x.End() <= y.base && PageRange(x) && PageRange(y)
    ensures Tidy([x, y])
  {
  }

  lemma PullCounts(s: seq<Range>, i: int)
    requires Tidy(s) && 0 <= i && i + 1 < |s| && s[i].size >= PAGE && s[i].base % PAGE == 0 && s[i].size % PAGE == 0
    requires Pulls(s, i)
    ensures
      var t, end := Pulled(s, i), s[i].End();
      && Sorted(t)
      && (CountBelow(t, MB1) == CountBelow(s, MB1) <==> end != MB1)
      && (CountBelow(t, GB4) == CountBelow(s, GB4) <==> end != GB4)
  {
    hide CountBelow;
    var u := s[i := Shrunk(s[i])];
    SameSides(s, i, Shrunk(s[i]));
    SameSides(u, i + 1, Range(s[i].End() - PAGE, s[i + 1].size + PAGE, s[i + 1].kind));
  }

  /** The table after a range for the page was added. */
  function SplitHigh(s: seq<Range>, i: int): seq<Range>
    requires 0 <= i < |s| && s[i].size >= PAGE
  {
    Inserted(s[i := Shrunk(s[i])], i + 1, Range(s[i].End() - PAGE, PAGE, ALLOCATED))
  }

  lemma HighSplit(s: seq<Range>, i: int)
    requires Tidy(s) && 0 <= i < |s| && s[i].kind == NORMAL && s[i].size >= PAGE
    ensures
      var t, end := SplitHigh(s, i), s[i].End();
      && Retyped(s, t, end - PAGE, end, NORMAL, ALLOCATED)
      && FreeSpace(t) + PAGE == FreeSpace(s)
      && (Tidy(t) <==> s[i].size > PAGE)
  {
    hide Retyped, Weight;
    var t := SplitHigh(s, i);
    var x, y := t[i], t[i + 1];
    assert s[i..i + 1] == [s[i]];
    assert t == Spliced(s, i, 1, [x, y]);
    SplitTail(s[i], PAGE, ALLOCATED);
    SplicedChange(s, i, 1, [x, y], s[i].End() - PAGE, s[i].End(), NORMAL, ALLOCATED);
    SplicedWeight(s, i, 1, [x, y], FreeOf);
    WeightOne(s[i], FreeOf);
    WeightTwo(x, y, FreeOf);
    WholePagesOf(s, i);
    if s[i].size > PAGE { TidyTwo(x, y); } else { assert t[i].size == 0; }
  }

  lemma SplitReady(s: seq<Range>, i: int)
    requires Tidy(s) && 0 <= i < |s| && s[i].size >= PAGE
    ensures
      var u := s[i := Shrunk(s[i])];
      && Sorted(u) && CountBelow(u, MB1) == CountBelow(s, MB1) && CountBelow(u, GB4) == CountBelow(s, GB4)
      && FitsAt(u, i + 1, s[i].End() - PAGE)
  {
    SameSides(s, i, Shrunk(s[i]));
  }
}
