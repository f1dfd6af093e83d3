/** boot/physmap.cc: the sorted table of physical ranges, kept in place. */
module PhysMap {
  import opened RangeTable

  datatype Verdict = Fine | NotSorted | SameBase | Overlap | Uncoalesced | Wrong20 | Wrong64 | BadBase | BadSize

  /** What physmap_validate accepts: in order, disjoint, no two touching ranges of
      one kind, and free memory in whole pages. */
  predicate Proper(s: seq<Range>) {
    PairsOk(s, |s|) && AllWhole(s)
  }

  /** The ranges before the k-th are in order, apart, and not to be joined. */
  predicate PairsOk(s: seq<Range>, k: int) { forall i :: 0 < i < k && i < |s| ==> ProperPair(s[i - 1], s[i]) }

  predicate ProperPair(p: Range, r: Range) {
    p.base < r.base && p.End() <= r.base && !(p.kind == r.kind && p.End() == r.base)
  }

  predicate WholePages(r: Range) { r.IsNormal() ==> r.base % PAGE == 0 && r.size % PAGE == 0 }

  predicate AllWhole(s: seq<Range>) { forall i :: 0 <= i < |s| ==> WholePages(s[i]) }

  predicate AllAligned(s: seq<Range>) {
    forall i :: 0 <= i < |s| ==> s[i].base % PAGE == 0 && s[i].size % PAGE == 0
  }

  /** t covers what s covers, kind by kind, with no more ranges or empty ranges. */
  ghost predicate Settles(s: seq<Range>, t: seq<Range>) {
    && (forall kinds, a :: Covered(t, kinds, a) <==> Covered(s, kinds, a)) && SameHolders(s, t)
    && Weight(t, SizeOf) == Weight(s, SizeOf) && Weight(t, FreeOf) == Weight(s, FreeOf)
    && Weight(t, EmptyOf) <= Weight(s, EmptyOf) && |t| <= |s|
    && (AllAligned(s) ==> AllAligned(t))
  }

  function Merged(p: Range, r: Range): Range
    requires r.End() >= p.base
  {
    Range(p.base, r.End() - p.base, p.kind)
  }

  /** Joining two touching ranges of one kind. */
  lemma MergeSettles(s: seq<Range>, i: int)
    requires Sorted(s) && 0 < i < |s| && s[i - 1].kind == s[i].kind && s[i - 1].End() == s[i].base
    ensures
      var t := Removed(s[i - 1 := Merged(s[i - 1], s[i])], i);
      Settles(s, t) && Sorted(t)
  {
    var p, r := s[i - 1], s[i];
    var m := Merged(p, r);
    var t := Removed(s[i - 1 := m], i);
    var pre, post := s[..i - 1], s[i + 1..];
    assert s == pre + [p, r] + post;
    assert t == pre + [m] + post;
    forall kinds, a ensures Covered(t, kinds, a) <==> Covered(s, kinds, a) {
      CoveredSplice(pre, [p, r], post, kinds, a);
      CoveredSplice(pre, [m], post, kinds, a);
      CoveredTwo(p, r, kinds, a);
      CoveredOne(m, kinds, a);
    }
    forall kinds, a ensures Holders(t, kinds, a) == Holders(s, kinds, a) {
      MergeWeight(pre, p, r, m, post, HitOf(kinds, a));
    }
    MergeWeight(pre, p, r, m, post, SizeOf);
    MergeWeight(pre, p, r, m, post, FreeOf);
    MergeWeight(pre, p, r, m, post, EmptyOf);
    forall k | 0 <= k < |t| && AllAligned(s) ensures t[k].base % PAGE == 0 && t[k].size % PAGE == 0 {
      if k == i - 1 { assert s[i - 1].base % PAGE == 0 && s[i].size % PAGE == 0; }
      else if k < i - 1 { assert t[k] == s[k]; }
      else { assert t[k] == s[k + 1]; }
    }
  }

  lemma MergeWeight(pre: seq<Range>, p: Range, r: Range, m: Range, post: seq<Range>, w: Range -> nat)
    ensures Weight(pre + [p, r] + post, w) + w(m) == Weight(pre + [m] + post, w) + w(p) + w(r)
  {
    WeightSplice(pre, [p, r], post, w);
    WeightSplice(pre, [m], post, w);
    assert [p, r][1..] == [r];
    assert Weight([r], w) == w(r) + Weight([], w);
    assert Weight([m], w) == w(m) + Weight([], w);
  }

  lemma SettlesTrans(s: seq<Range>, t: seq<Range>, u: seq<Range>)
    requires Settles(s, t) && Settles(t, u)
    ensures Settles(s, u)
  {
    hide Holders, Covered;
  }

  lemma SortedRemoved(s: seq<Range>, i: int)
    requires Sorted(s) && 0 <= i < |s|
    ensures Sorted(Removed(s, i))
  {
  }

  lemma SortedInserted(s: seq<Range>, i: int, r: Range)
    requires Sorted(s) && FitsAt(s, i, r.base)
    ensures Sorted(Inserted(s, i, r))
  {
  }

  /** A range with this base may be inserted before index i. */
  predicate FitsAt(s: seq<Range>, i: int, base: int) {
    && 0 <= i <= |s|
    && (forall k :: 0 <= k < i ==> s[k].base <= base)
    && (forall k :: i <= k < |s| ==> base <= s[k].base)
  }

  /** The first index whose range does not start below this base. */
  predicate LowerBound(s: seq<Range>, i: int, base: int) {
    && 0 <= i <= |s|
    && (forall k :: 0 <= k < i ==> s[k].base < base)
    && (forall k :: i <= k < |s| ==> base <= s[k].base)
  }

  class Table {
    var ranges: seq<Range>
    var st20: int // physalloc_20bit_st
    var st64: int // physalloc_64bit_st
    var first20: int // physalloc_20bit_1st

    /** Sorted by base; the two indices are the numbers of ranges that start below
        1 MiB and 4 GiB. */
    ghost predicate Valid()
      reads this
    {
      && Sorted(ranges) && st20 <= first20
      && st20 == CountBelow(ranges, MB1) && st64 == CountBelow(ranges, GB4)
    }

    constructor ()
      ensures Valid() && ranges == []
    {
      ranges, st20, st64, first20 := [], 0, 0, 0;
    }

    method Delete(index: nat)
      requires Valid() && index < |ranges|
      modifies this
      ensures Valid() && ranges == Removed(old(ranges), index)
      ensures first20 - st20 == old(first20 - st20) && first20 <= old(first20)
    {
      BelowIsPrefix(ranges, MB1, index);
      BelowIsPrefix(ranges, GB4, index);
      WeightRemoved(ranges, index, BelowOf(MB1));
      WeightRemoved(ranges, index, BelowOf(GB4));
      SortedRemoved(ranges, index);
      if index < st64 { st64 := st64 - 1; }
      if index < st20 { first20 := first20 - 1; }
      if index < st20 { st20 := st20 - 1; }
      ranges := ranges[..index] + ranges[index + 1..];
    }

    method InsertAt(index: nat, entry: Range)
      requires Valid() && FitsAt(ranges, index, entry.base)
      modifies this
      ensures Valid() && ranges == Inserted(old(ranges), index, entry)
      ensures first20 - st20 == old(first20 - st20)
    {
      WeightInserted(ranges, index, entry, BelowOf(MB1));
      WeightInserted(ranges, index, entry, BelowOf(GB4));
      SortedInserted(ranges, index, entry);
      ranges := ranges[..index] + [entry] + ranges[index..];
      if entry.base < MB1 { st20 := st20 + 1; }
      if entry.base < MB1 { first20 := first20 + 1; }
      if entry.base < GB4 { st64 := st64 + 1; }
    }

    /** Appending at the end without a search agrees with the binary search, except
        when the table ends in an empty range at exactly this base. */
    method FindInsertionPoint(base: nat) returns (st: nat)
      requires Valid()
      ensures FitsAt(ranges, st, base)
      ensures LowerBound(ranges, st, base) <==>
              !(ranges != [] && ranges[|ranges| - 1].size == 0 && ranges[|ranges| - 1].base == base)
    {
      st := 0;
      var en := |ranges|;
      if ranges == [] || ranges[|ranges| - 1].base + ranges[|ranges| - 1].size <= base {
        st := |ranges|;
      } else {
        while st < en
          invariant 0 <= st <= en <= |ranges|
          invariant forall k :: 0 <= k < st ==> ranges[k].base < base
          invariant forall k :: en <= k < |ranges| ==> base <= ranges[k].base
        {
          var mid := (en - st) / 2 + st;
          if ranges[mid].base < base { st := mid + 1; } else { en := mid; }
        }
      }
    }

    /** Joins range i to the one before it, as physmap_validate does when fixing. */
    method MergeBack(i: nat)
      requires Valid() && 0 < i < |ranges|
      requires ranges[i - 1].kind == ranges[i].kind && ranges[i - 1].End() == ranges[i].base
      modifies this
      ensures Valid() && Settles(old(ranges), ranges) && |ranges| == |old(ranges)| - 1
      ensures ranges == Removed(old(ranges)[i - 1 := Merged(old(ranges)[i - 1], old(ranges)[i])], i)
    {
      MergeSettles(ranges, i);
      SameBases(ranges, i - 1, Merged(ranges[i - 1], ranges[i]));
      ranges := ranges[i - 1 := Merged(ranges[i - 1], ranges[i])];
      Delete(i);
    }

    /** physmap_validate: checks the table, and on request joins touching ranges of
        one kind on the way. When it joins, only the first range of those joined is
        checked for whole pages, so the table it accepts is proper exactly if the last of
        them ends on a page. */
    method Validate(fix: bool) returns (v: Verdict)
      requires Valid()
      modifies this
      ensures Valid() && Settles(old(ranges), ranges)
      ensures !fix ==> ranges == old(ranges)
      ensures !fix || AllWhole(old(ranges)) ==> (v.Fine? <==> Proper(ranges))
      ensures v.Fine? ==> PairsOk(ranges, |ranges|)
      ensures fix ==> (v.Fine? <==> Joinable(old(ranges)))
      ensures fix && v.Fine? ==> (Proper(ranges) <==> EndsWhole(old(ranges)))
    {
      hide Settles, CountBelow, Sorted, PairsOk, AllWhole, ProperPair, WholePages, Tracks, Joinable, EndsWhole, RangeFine;
      ghost var s := ranges;
      SettlesSelf(ranges);
      NoPairs(ranges);
      TrackStart(ranges);
      var i := 0;
      ghost var c := 0;
      while i < |ranges|
        invariant 0 <= i <= |ranges| && Valid() && Settles(s, ranges)
        invariant !fix ==> ranges == s
        invariant PairsOk(ranges, i)
        invariant !fix ==> AllWhole(ranges[..i])
        invariant AllWhole(s) ==> AllWhole(ranges)
        invariant Tracks(s, ranges, i, c)
        decreases |ranges| - i
      {
        Judged(ranges, i);
        TrackCheck(s, ranges, i, c);
        var range := ranges[i];
        if i > 0 {
          var prev := ranges[i - 1];
          if prev.base > range.base { return NotSorted; }
          if prev.base == range.base { return SameBase; }
          if prev.End() > range.base { return Overlap; }
          if prev.kind == range.kind && prev.End() == range.base {
            if !fix { return Uncoalesced; }
            ghost var t := ranges;
            MergeBack(i);
            SettlesTrans(s, t, ranges);
            MergedStaysProper(t, i);
            TrackJoin(s, t, i, c);
            c := c + 1;
            continue;
          }
        }
        BelowIsPrefix(ranges, MB1, i);
        BelowIsPrefix(ranges, GB4, i);
        if st20 > i && range.base >= MB1 { return Wrong20; }
        if st64 > i && range.base >= GB4 { return Wrong64; }
        if range.IsNormal() {
          if range.base % PAGE != 0 { return BadBase; }
          if range.size % PAGE != 0 { return BadSize; }
        }
        OneMore(ranges, i);
        TrackNext(s, ranges, i, c);
        i := i + 1;
        c := c + 1;
      }
      AllJudged(ranges);
      TrackEnd(s, ranges, c);
      v := Fine;
    }

    /** physmap_insert: sorted insertion, with touching ranges joined on request. */
    method Insert(entry: Range, validate: bool) returns (index: nat)
      requires Valid()
      modifies this
      ensures Valid() && FitsAt(old(ranges), index, entry.base)
      ensures Settles(Inserted(old(ranges), index, entry), ranges)
      ensures !validate ==> ranges == Inserted(old(ranges), index, entry)
    {
      index := FindInsertionPoint(entry.base);
      InsertAt(index, entry);
      SettlesSelf(ranges);
      if validate { var _ := Validate(true); }
    }

    /** physmap_replace. */
    method Replace(i: nat, entry: Range) returns (index: nat)
      requires Valid() && i < |ranges|
      modifies this
      ensures Valid() && FitsAt(Removed(old(ranges), i), index, entry.base)
      ensures Settles(Inserted(Removed(old(ranges), i), index, entry), ranges)
    {
      Delete(i);
      index := Insert(entry, true);
    }
  }

  lemma SettlesSelf(s: seq<Range>)
    ensures Settles(s, s)
  {
  }

  /** Changing a range but not its base keeps order and the counts below the limits. */
  lemma SameBases(s: seq<Range>, i: int, r: Range)
    requires 0 <= i < |s| && r.base == s[i].base
    ensures CountBelow(s[i := r], MB1) == CountBelow(s, MB1) && CountBelow(s[i := r], GB4) == CountBelow(s, GB4)
    ensures Sorted(s) ==> Sorted(s[i := r])
  {
    assert Removed(s[i := r], i) == Removed(s, i);
    WeightRemoved(s, i, BelowOf(MB1));
    WeightRemoved(s[i := r], i, BelowOf(MB1));
    WeightRemoved(s, i, BelowOf(GB4));
    WeightRemoved(s[i := r], i, BelowOf(GB4));
  }

  /** The part already checked stays proper when the range at its end grows. */
  lemma NoPairs(s: seq<Range>)
    ensures PairsOk(s, 0) && AllWhole(s[..0])
  {
  }

  /** What the checks of one range decide. */
  lemma Judged(s: seq<Range>, i: int)
    requires 0 <= i < |s|
    ensures Proper(s) ==> (i > 0 ==> ProperPair(s[i - 1], s[i])) && WholePages(s[i])
    ensures i > 0 ==> (ProperPair(s[i - 1], s[i]) <==>
              s[i - 1].base < s[i].base && s[i - 1].End() <= s[i].base && !(s[i - 1].kind == s[i].kind && s[i - 1].End() == s[i].base))
    ensures WholePages(s[i]) <==> (s[i].IsNormal() ==> s[i].base % PAGE == 0 && s[i].size % PAGE == 0)
    ensures AllWhole(s) ==> WholePages(s[i])
  {
  }

  lemma OneMore(s: seq<Range>, i: int)
    requires 0 <= i < |s| && PairsOk(s, i) && (i > 0 ==> ProperPair(s[i - 1], s[i])) && WholePages(s[i])
    ensures PairsOk(s, i + 1) && (AllWhole(s[..i]) ==> AllWhole(s[..i + 1]))
  {
  }

  lemma AllJudged(s: seq<Range>)
    ensures s[..|s|] == s && (Proper(s) <==> PairsOk(s, |s|) && AllWhole(s))
  {
  }

  // -------------------------------------------- which tables are accepted when joining

  /** Range i continues the one before it. */
  predicate Continues(s: seq<Range>, i: int) {
    0 < i < |s| && s[i - 1].kind == s[i].kind && s[i - 1].End() == s[i].base
  }

  /** Where the ranges that are joined up to range i begin. */
  function ChainBase(s: seq<Range>, i: nat): nat
    requires i < |s|
  {
    if Continues(s, i) then ChainBase(s, i - 1) else s[i].base
  }

  /** Range i lies after those before it, and it continues one or is whole pages. */
  predicate RangeFine(s: seq<Range>, i: nat)
    requires i < |s|
  {
    && (i > 0 ==> s[i - 1].End() <= s[i].base && ChainBase(s, i - 1) < s[i].base)
    && (Continues(s, i) || WholePages(s[i]))
  }

  predicate Joinable(s: seq<Range>) { forall i: nat :: i < |s| ==> RangeFine(s, i) }

  /** Free memory that nothing continues ends on a page. */
  predicate EndWhole(s: seq<Range>, j: nat)
    requires j < |s|
  {
    s[j].IsNormal() && !Continues(s, j + 1) ==> s[j].End() % PAGE == 0
  }

  predicate EndsWhole(s: seq<Range>) { forall j: nat :: j < |s| ==> EndWhole(s, j) }

  /** The first i ranges of t are the first c of s, joined. */
  ghost predicate Tracks(s: seq<Range>, t: seq<Range>, i: nat, c: nat) {
    && i <= |t| && i <= c <= |s| && t[i..] == s[c..] && (i == 0 <==> c == 0)
    && (i > 0 ==> t[i - 1].End() == s[c - 1].End() && t[i - 1].kind == s[c - 1].kind && t[i - 1].base == ChainBase(s, c - 1))
    && (forall j: nat :: j < c ==> RangeFine(s, j))
    && (forall k :: 0 <= k < i && t[k].IsNormal() ==> t[k].base % PAGE == 0)
    && ((forall k :: 0 <= k < i - 1 && t[k].IsNormal() ==> t[k].End() % PAGE == 0) <==> (forall j: nat :: j < c - 1 ==> EndWhole(s, j)))
  }

  lemma TrackStart(s: seq<Range>)
    ensures Tracks(s, s, 0, 0)
  {
  }

  /** What the checks of range c of the old table look at. */
  lemma TrackCheck(s: seq<Range>, t: seq<Range>, i: nat, c: nat)
    requires Tracks(s, t, i, c) && i < |t|
    ensures c < |s| && t[i] == s[c] && (i == 0 <==> c == 0)
    ensures i > 0 ==> (Continues(s, c) <==> t[i - 1].kind == t[i].kind && t[i - 1].End() == t[i].base)
    ensures RangeFine(s, c) <==>
              && (i > 0 ==> t[i - 1].End() <= t[i].base && t[i - 1].base < t[i].base)
              && ((i > 0 && t[i - 1].kind == t[i].kind && t[i - 1].End() == t[i].base) || WholePages(t[i]))
    ensures !RangeFine(s, c) ==> !Joinable(s)
  {
    assert t[i] == t[i..][0] == s[c..][0];
  }

  lemma TrackJoin(s: seq<Range>, t: seq<Range>, i: nat, c: nat)
    requires Tracks(s, t, i, c) && 0 < i < |t| && t[i - 1].kind == t[i].kind && t[i - 1].End() == t[i].base
    requires c < |s| && RangeFine(s, c)
    ensures Tracks(s, Removed(t[i - 1 := Merged(t[i - 1], t[i])], i), i, c + 1)
  {
    TrackCheck(s, t, i, c);
    hide RangeFine;
    var t' := Removed(t[i - 1 := Merged(t[i - 1], t[i])], i);
    assert t'[i..] == t[i + 1..] == t[i..][1..] == s[c..][1..] == s[c + 1..];
    assert forall k :: 0 <= k < i - 1 ==> t'[k] == t[k];
    assert t'[i - 1] == Merged(t[i - 1], t[i]);
    assert EndWhole(s, c - 1);
  }

  lemma TrackNext(s: seq<Range>, t: seq<Range>, i: nat, c: nat)
    requires Tracks(s, t, i, c) && i < |t| && c < |s| && RangeFine(s, c) && WholePages(t[i])
    requires i > 0 ==> !(t[i - 1].kind == t[i].kind && t[i - 1].End() == t[i].base)
    ensures Tracks(s, t, i + 1, c + 1)
  {
    TrackCheck(s, t, i, c);
    hide RangeFine;
    assert t[i + 1..] == t[i..][1..] == s[c..][1..] == s[c + 1..];
    if i > 0 { assert EndWhole(s, c - 1) <==> (t[i - 1].IsNormal() ==> t[i - 1].End() % PAGE == 0); }
  }

  lemma TrackEnd(s: seq<Range>, t: seq<Range>, c: nat)
    requires Tracks(s, t, |t|, c) && PairsOk(t, |t|)
    ensures Joinable(s) && (Proper(t) <==> EndsWhole(s))
  {
    hide RangeFine, PairsOk;
    assert |t[|t|..]| == 0 && |s[c..]| == 0;
    assert AllWhole(t) <==> forall k :: 0 <= k < |t| && t[k].IsNormal() ==> t[k].End() % PAGE == 0 by {
      forall k | 0 <= k < |t| ensures WholePages(t[k]) <==> (t[k].IsNormal() ==> t[k].End() % PAGE == 0) {
        if t[k].IsNormal() { SizeWhole(t[k]); }
      }
    }
    if c > 0 { assert EndWhole(s, c - 1) <==> (t[|t| - 1].IsNormal() ==> t[|t| - 1].End() % PAGE == 0); }
  }

  lemma SizeWhole(r: Range)
    requires r.base % PAGE == 0
    ensures r.size % PAGE == 0 <==> r.End() % PAGE == 0
  {
  }

  /** A page of free memory continued by a part of one: joined and accepted, but not whole. */
  lemma PartAccepted(part: nat)
    requires part % PAGE != 0
    ensures var s := [Range(0, PAGE, NORMAL), Range(PAGE, part, NORMAL)];
            Sorted(s) && Joinable(s) && !EndsWhole(s)
  {
    var s := [Range(0, PAGE, NORMAL), Range(PAGE, part, NORMAL)];
    assert RangeFine(s, 0) && RangeFine(s, 1);
    assert !EndWhole(s, 1) by { SizeWhole(s[1]); }
  }

  lemma MergedStaysProper(s: seq<Range>, i: int)
    requires 0 < i < |s| && s[i - 1].kind == s[i].kind && s[i - 1].End() == s[i].base
    requires PairsOk(s, i)
    ensures
      var t := Removed(s[i - 1 := Merged(s[i - 1], s[i])], i);
      PairsOk(t, i) && (AllWhole(s) ==> AllWhole(t))
  {
    var t := Removed(s[i - 1 := Merged(s[i - 1], s[i])], i);
    assert forall k :: 0 <= k < i - 1 ==> t[k] == s[k];
    assert forall k :: i <= k < |t| ==> t[k] == s[k + 1];
    assert WholePages(s[i - 1]) && WholePages(s[i]) ==> WholePages(t[i - 1]);
  }
}
