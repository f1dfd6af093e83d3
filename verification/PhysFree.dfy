/** boot/physmap.cc, free_phys: giving a part of an allocated range back. */
module PhysFree {
  import opened RangeTable
  import opened RangeSplice
  import opened PhysMap
  import opened PhysAlloc

  /** [lo, hi) lies in allocated range b, between 1 MiB and 4 GiB, and some range
      follows range b. */
  predicate Freeable(s: seq<Range>, b: int, lo: int, hi: int) {
    && 0 <= b && b + 1 < |s| && s[b].kind == ALLOCATED
    && s[b].base <= lo < hi <= s[b].End() && MB1 <= lo && (hi < GB4 || hi == s[b].End() == GB4) && lo % PAGE == 0 && hi % PAGE == 0
  }

  /** The end of a longer range: an assertion of the source fails. */
  predicate IsTail(s: seq<Range>, b: int, lo: int, hi: int)
    requires 0 <= b < |s|
  {
    s[b].base < lo && hi == s[b].End()
  }

  predicate JoinsBefore(s: seq<Range>, b: int, lo: int)
    requires 0 <= b < |s|
  {
    b > 0 && s[b - 1].kind == NORMAL && s[b - 1].End() == lo
  }

  predicate JoinsAfter(s: seq<Range>, b: int, hi: int)
    requires 0 <= b && b + 1 < |s|
  {
    s[b + 1].base == hi && s[b + 1].kind == NORMAL
  }

  /** The whole range between two free ones: the source drops the free range after
      it, and its check of the free space fails. */
  predicate ClosesGap(s: seq<Range>, b: int, lo: int, hi: int)
    requires 0 <= b && b + 1 < |s|
  {
    s[b].base == lo && s[b].End() == hi && JoinsBefore(s, b, lo) && JoinsAfter(s, b, hi)
  }

  /** Binary search between the indices of the search window, then one step back. It
      finds block b exactly if the window does not begin behind the range after it.
      The entry looked at last may lie behind the table: its base is a parameter. */
  method FindBlock(m: Table, lo: nat, beyond: nat, ghost hi: int, ghost b: int) returns (st: nat)
    requires m.Valid() && Tidy(m.ranges) && Freeable(m.ranges, b, lo, hi) && m.first20 >= 0
    ensures if m.first20 <= b + 1 then st == b else st > b
  {
    ghost var s := m.ranges;
    BelowIsPrefix(s, GB4, b);
    st := m.first20;
    var en := m.st64;
    while st < en
      invariant m.first20 <= st && b <= en <= |s| && (st <= en || st == m.first20 > b + 1)
      invariant m.first20 <= b + 1 ==> st <= b + 1
      invariant m.first20 > b + 1 ==> st == m.first20
      invariant forall k :: m.first20 <= k < st ==> s[k].base < lo
      invariant forall k :: en <= k < m.st64 ==> s[k].base >= lo
      decreases en - st
    {
      var md := st + (en - st) / 2;
      FirstNotBelow(s, b, lo, hi, md);
      if lo > m.ranges[md].base { st := md + 1; } else { en := md; }
    }
    if st < |s| { FirstNotBelow(s, b, lo, hi, st); }
    var base := if st < |m.ranges| then m.ranges[st].base else beyond;
    if st > 0 && base > lo { st := st - 1; }
  }

  lemma FirstNotBelow(s: seq<Range>, b: int, lo: int, hi: int, k: int)
    requires Tidy(s) && Freeable(s, b, lo, hi) && 0 <= k < |s|
    ensures k < b ==> s[k].base < lo
    ensures k > b ==> s[k].base > lo
  {
  }

  /** Exactly [lo, hi) went from allocated to free; the table is tidy as before. */
  ghost predicate Freed(s: seq<Range>, t: seq<Range>, lo: int, hi: int) {
    && Retyped(s, t, lo, hi, ALLOCATED, NORMAL) && Tidy(t)
    && FreeSpace(t) == FreeSpace(s) + (hi - lo)
  }

  lemma FreedSplice(s: seq<Range>, i: int, n: int, mid': seq<Range>, lo: int, hi: int)
    requires Tidy(s) && 0 <= i && 0 < n && i + n <= |s| && mid' != [] && Tidy(mid')
    requires Retyped(s[i..i + n], mid', lo, hi, ALLOCATED, NORMAL)
    requires s[i].base <= mid'[0].base && mid'[|mid'| - 1].End() <= s[i + n - 1].End()
    requires Weight(mid', FreeOf) == Weight(s[i..i + n], FreeOf) + (hi - lo)
    ensures Freed(s, Spliced(s, i, n, mid'), lo, hi)
  {
    hide Retyped, Tidy, Weight;
    SplicedChange(s, i, n, mid', lo, hi, ALLOCATED, NORMAL);
    SplicedWeight(s, i, n, mid', FreeOf);
  }

  lemma FreedAlone(s: seq<Range>, b: int, lo: int, hi: int)
    requires Tidy(s) && Freeable(s, b, lo, hi) && s[b].base == lo && s[b].End() == hi
    ensures Freed(s, Inserted(Removed(s, b), b, Range(lo, hi - lo, NORMAL)), lo, hi)
  {
    hide Retyped, Weight;
    var x := Range(lo, hi - lo, NORMAL);
    assert s[b..b + 1] == [s[b]];
    assert Inserted(Removed(s, b), b, x) == Spliced(s, b, 1, [x]);
    Retype(s[b], NORMAL);
    assert s[b].(kind := NORMAL) == x;
    WeightOne(s[b], FreeOf);
    WeightOne(x, FreeOf);
    FreedSplice(s, b, 1, [x], lo, hi);
  }

  lemma FreedBefore(s: seq<Range>, b: int, lo: int, hi: int)
    requires Tidy(s) && Freeable(s, b, lo, hi) && s[b].base == lo && s[b].End() == hi && JoinsBefore(s, b, lo)
    ensures Freed(s, Removed(s, b)[b - 1 := Range(s[b - 1].base, s[b - 1].size + (hi - lo), NORMAL)], lo, hi)
  {
    hide Retyped, Weight;
    var p := s[b - 1];
    var x := Range(p.base, p.size + (hi - lo), NORMAL);
    assert s[b - 1..b + 1] == [p, s[b]];
    assert Removed(s, b)[b - 1 := x] == Spliced(s, b - 1, 2, [x]);
    Absorb(p, s[b], NORMAL);
    WeightTwo(p, s[b], FreeOf);
    WeightOne(x, FreeOf);
    FreedSplice(s, b - 1, 2, [x], lo, hi);
  }

  lemma FreedAfter(s: seq<Range>, b: int, lo: int, hi: int)
    requires Tidy(s) && Freeable(s, b, lo, hi) && s[b].base == lo && s[b].End() == hi && JoinsAfter(s, b, hi)
    ensures Freed(s, Removed(s, b)[b := Range(lo, s[b + 1].size + (hi - lo), NORMAL)], lo, hi)
  {
    hide Retyped, Weight;
    var q := s[b + 1];
    var x := Range(lo, q.size + (hi - lo), NORMAL);
    assert s[b..b + 2] == [s[b], q];
    assert Removed(s, b)[b := x] == Spliced(s, b, 2, [x]);
    Absorb(s[b], q, NORMAL);
    WeightTwo(s[b], q, FreeOf);
    WeightOne(x, FreeOf);
    FreedSplice(s, b, 2, [x], lo, hi);
  }

  /** The beginning of a longer range, touching free memory before it or not. */
  lemma FreedHead(s: seq<Range>, b: int, lo: int, hi: int)
    requires Tidy(s) && Freeable(s, b, lo, hi) && s[b].base == lo && hi < s[b].End()
    ensures
      var u := s[b := Range(hi, s[b].End() - hi, ALLOCATED)];
      if JoinsBefore(s, b, lo) then Freed(s, u[b - 1 := Range(s[b - 1].base, s[b - 1].size + (hi - lo), NORMAL)], lo, hi)
      else Freed(s, Inserted(u, b, Range(lo, hi - lo, NORMAL)), lo, hi)
  {
    if JoinsBefore(s, b, lo) { FreedFront(s, b, lo, hi); } else { FreedApart(s, b, lo, hi); }
  }

  lemma FreedFront(s: seq<Range>, b: int, lo: int, hi: int)
    requires Tidy(s) && Freeable(s, b, lo, hi) && s[b].base == lo && hi < s[b].End() && JoinsBefore(s, b, lo)
    ensures
      var u := s[b := Range(hi, s[b].End() - hi, ALLOCATED)];
      Freed(s, u[b - 1 := Range(s[b - 1].base, s[b - 1].size + (hi - lo), NORMAL)], lo, hi)
  {
    hide Retyped, Weight;
    var rest := Range(hi, s[b].End() - hi, ALLOCATED);
    var p := s[b - 1];
    var x := Range(p.base, p.size + (hi - lo), NORMAL);
    assert s[b - 1..b + 1] == [p, s[b]];
    assert s[b := rest][b - 1 := x] == Spliced(s, b - 1, 2, [x, rest]);
    GrowUp(p, s[b], hi - lo);
    WeightTwo(p, s[b], FreeOf);
    WeightTwo(x, rest, FreeOf);
    FreedSplice(s, b - 1, 2, [x, rest], lo, hi);
  }

  lemma FreedApart(s: seq<Range>, b: int, lo: int, hi: int)
    requires Tidy(s) && Freeable(s, b, lo, hi) && s[b].base == lo && hi < s[b].End()
    ensures
      var u := s[b := Range(hi, s[b].End() - hi, ALLOCATED)];
      Freed(s, Inserted(u, b, Range(lo, hi - lo, NORMAL)), lo, hi)
  {
    hide Retyped, Weight;
    var rest := Range(hi, s[b].End() - hi, ALLOCATED);
    var x := Range(lo, hi - lo, NORMAL);
    assert s[b..b + 1] == [s[b]];
    assert Inserted(s[b := rest], b, x) == Spliced(s, b, 1, [x, rest]);
    SplitFront(s[b], hi - lo, NORMAL);
    WeightOne(s[b], FreeOf);
    WeightTwo(x, rest, FreeOf);
    FreedSplice(s, b, 1, [x, rest], lo, hi);
  }

  /** The middle of a longer range. */
  lemma FreedHole(s: seq<Range>, b: int, lo: int, hi: int)
    requires Tidy(s) && Freeable(s, b, lo, hi) && s[b].base < lo && hi < s[b].End()
    ensures
      var u := s[b := Range(s[b].base, lo - s[b].base, ALLOCATED)];
      var v := Inserted(u, b + 1, Range(lo, hi - lo, NORMAL));
      Freed(s, Inserted(v, b + 2, Range(hi, s[b].End() - hi, ALLOCATED)), lo, hi)
  {
    hide Retyped, Weight;
    var x, y, z := Range(s[b].base, lo - s[b].base, ALLOCATED), Range(lo, hi - lo, NORMAL), Range(hi, s[b].End() - hi, ALLOCATED);
    assert s[b..b + 1] == [s[b]];
    assert Inserted(Inserted(s[b := x], b + 1, y), b + 2, z) == Spliced(s, b, 1, [x, y, z]);
    Punch(s[b], lo, hi, NORMAL);
    WeightOne(s[b], FreeOf);
    WeightThree(x, y, z, FreeOf);
    FreedSplice(s, b, 1, [x, y, z], lo, hi);
  }

  /** In-place changes of one range that stays where it is in the order. */
  lemma ChangeKeeps(s: seq<Range>, i: int, r: Range)
    requires Tidy(s) && 0 <= i < |s| && s[i].base <= r.base < s[i].End()
    requires (r.base < MB1 <==> s[i].base < MB1) && (r.base < GB4 <==> s[i].base < GB4)
    ensures Sorted(s[i := r])
    ensures CountBelow(s[i := r], MB1) == CountBelow(s, MB1) && CountBelow(s[i := r], GB4) == CountBelow(s, GB4)
  {
    SameSides(s, i, r);
  }

  lemma FitsWithin(s: seq<Range>, i: int, r: Range, base: int)
    requires Tidy(s) && 0 <= i < |s| && s[i].base <= r.base < s[i].End() && s[i].base <= base < s[i].End()
    ensures r.base <= base ==> FitsAt(s[i := r], i + 1, base)
    ensures base <= r.base ==> FitsAt(s[i := r], i, base)
  {
  }

  method FreeWhole(m: Table, b: nat, lo: nat, hi: nat) returns (ok: bool)
    requires m.Valid() && Tidy(m.ranges) && Freeable(m.ranges, b, lo, hi)
    requires m.ranges[b].base == lo && m.ranges[b].End() == hi
    requires hi == GB4 ==> !JoinsAfter(m.ranges, b, hi)
    modifies m
    ensures ok <==> !ClosesGap(old(m.ranges), b, lo, hi)
    ensures ok ==> m.Valid() && Freed(old(m.ranges), m.ranges, lo, hi)
  {
    hide Tidy, Freed, Weight;
    ghost var s := m.ranges;
    var before := JoinsBefore(m.ranges, b, lo);
    var after := JoinsAfter(m.ranges, b, hi);
    var freeBefore := CheckFreeSpace(m.ranges);
    assert m.ranges[b + 1] == Removed(s, b)[b];
    m.Delete(b);
    if before && !after {
      FreedBefore(s, b, lo, hi);
      SameBases(m.ranges, b - 1, Range(m.ranges[b - 1].base, m.ranges[b - 1].size + (hi - lo), NORMAL));
      m.ranges := m.ranges[b - 1 := Range(m.ranges[b - 1].base, m.ranges[b - 1].size + (hi - lo), NORMAL)];
    } else if !before && after {
      FreedAfter(s, b, lo, hi);
      AfterKeeps(s, b, lo, hi);
      m.ranges := m.ranges[b := Range(m.ranges[b].base - (hi - lo), m.ranges[b].size + (hi - lo), NORMAL)];
    } else if before && after {
      GapLost(s, b, lo, hi);
      m.ranges := m.ranges[b - 1 := Range(m.ranges[b - 1].base, m.ranges[b - 1].size + (hi - lo), NORMAL)];
      m.ranges := Removed(m.ranges, b);
    } else {
      FreedAlone(s, b, lo, hi);
      AloneFits(s, b, lo, hi);
      m.InsertAt(b, Range(lo, hi - lo, NORMAL));
    }
    var freeAfter := CheckFreeSpace(m.ranges);
    ok := freeAfter == freeBefore + (hi - lo);
    FreedSpace(s, m.ranges, lo, hi);
  }

  /** physmap_check_freespace. */
  method CheckFreeSpace(ranges: seq<Range>) returns (total: nat)
    ensures total == FreeSpace(ranges)
  {
    total := 0;
    var i := 0;
    while i < |ranges|
      invariant 0 <= i <= |ranges| && total == FreeSpace(ranges[..i])
    {
      assert ranges[..i + 1] == ranges[..i] + [ranges[i]];
      WeightConcat(ranges[..i], [ranges[i]], FreeOf);
      WeightOne(ranges[i], FreeOf);
      if ranges[i].IsNormal() { total := total + ranges[i].size; }
      i := i + 1;
    }
    assert ranges[..i] == ranges;
  }

  lemma FreedSpace(s: seq<Range>, t: seq<Range>, lo: int, hi: int)
    ensures Freed(s, t, lo, hi) ==> FreeSpace(t) - FreeSpace(s) == hi - lo
  {
  }

  /** Closing a gap as the source does loses the free range after it. */
  lemma GapLost(s: seq<Range>, b: int, lo: int, hi: int)
    requires Tidy(s) && Freeable(s, b, lo, hi) && ClosesGap(s, b, lo, hi)
    ensures
      var u := Removed(s, b);
      var t := Removed(u[b - 1 := Range(u[b - 1].base, u[b - 1].size + (hi - lo), NORMAL)], b);
      FreeSpace(t) == FreeSpace(s) + (hi - lo) - s[b + 1].size && s[b + 1].size > 0
  {
    hide Weight;
    var p, q := s[b - 1], s[b + 1];
    var x := Range(p.base, p.size + (hi - lo), NORMAL);
    assert s[b - 1..b + 2] == [p, s[b], q];
    assert Removed(Removed(s, b)[b - 1 := x], b) == Spliced(s, b - 1, 3, [x]);
    SplicedWeight(s, b - 1, 3, [x], FreeOf);
    WeightThree(p, s[b], q, FreeOf);
    WeightOne(x, FreeOf);
  }

  lemma AfterKeeps(s: seq<Range>, b: int, lo: int, hi: int)
    requires Tidy(s) && Freeable(s, b, lo, hi) && s[b].base == lo && s[b].End() == hi && JoinsAfter(s, b, hi) && hi < GB4
    ensures
      var u := Removed(s, b);
      var t := u[b := Range(lo, s[b + 1].size + (hi - lo), NORMAL)];
      && Sorted(t) && CountBelow(t, MB1) == CountBelow(u, MB1) && CountBelow(t, GB4) == CountBelow(u, GB4)
  {
    SameSides(Removed(s, b), b, Range(lo, s[b + 1].size + (hi - lo), NORMAL));
  }

  lemma AloneFits(s: seq<Range>, b: int, lo: int, hi: int)
    requires Tidy(s) && Freeable(s, b, lo, hi)
    ensures FitsAt(Removed(s, b), b, lo)
  {
  }

  method FreeHead(m: Table, b: nat, lo: nat, hi: nat)
    requires m.Valid() && Tidy(m.ranges) && Freeable(m.ranges, b, lo, hi)
    requires m.ranges[b].base == lo && hi < m.ranges[b].End()
    modifies m
    ensures m.Valid() && Freed(old(m.ranges), m.ranges, lo, hi)
  {
    hide Tidy, Freed, Weight;
    ghost var s := m.ranges;
    var rest := Range(hi, m.ranges[b].End() - hi, ALLOCATED);
    FreedHead(s, b, lo, hi);
    ChangeKeeps(s, b, rest);
    FitsWithin(s, b, rest, lo);
    m.ranges := m.ranges[b := rest];
    if b > 0 && m.ranges[b - 1].kind == NORMAL && m.ranges[b - 1].End() == lo {
      var grown := Range(m.ranges[b - 1].base, m.ranges[b - 1].size + (hi - lo), NORMAL);
      SameBases(m.ranges, b - 1, grown);
      m.ranges := m.ranges[b - 1 := grown];
    } else {
      m.InsertAt(b, Range(lo, hi - lo, NORMAL));
    }
  }

  method FreeMiddle(m: Table, b: nat, lo: nat, hi: nat)
    requires m.Valid() && Tidy(m.ranges) && Freeable(m.ranges, b, lo, hi)
    requires m.ranges[b].base < lo && hi < m.ranges[b].End()
    modifies m
    ensures m.Valid() && Freed(old(m.ranges), m.ranges, lo, hi)
  {
    hide Tidy, Freed, Weight;
    ghost var s := m.ranges;
    var after := Range(hi, m.ranges[b].End() - hi, ALLOCATED);
    var block := Range(m.ranges[b].base, lo - m.ranges[b].base, ALLOCATED);
    FreedHole(s, b, lo, hi);
    ChangeKeeps(s, b, block);
    MiddleFits(s, b, lo, hi);
    m.ranges := m.ranges[b := block];
    m.InsertAt(b + 1, Range(lo, hi - lo, NORMAL));
    m.InsertAt(b + 2, after);
  }

  lemma MiddleFits(s: seq<Range>, b: int, lo: nat, hi: nat)
    requires Tidy(s) && Freeable(s, b, lo, hi) && s[b].base < lo && hi < s[b].End()
    ensures
      var u := s[b := Range(s[b].base, lo - s[b].base, ALLOCATED)];
      FitsAt(u, b + 1, lo) && FitsAt(Inserted(u, b + 1, Range(lo, hi - lo, NORMAL)), b + 2, hi)
  {
  }

  /** free_phys for a range that lies in allocated range b. No assertion of the source
      fails exactly if the search does not begin behind the range after b and the range
      freed is neither the end of a longer one nor a whole one between two free ones;
      then exactly these addresses become free. */
  method FreePhys(m: Table, base: nat, size: nat, beyond: nat, ghost b: nat) returns (ok: bool)
    requires m.Valid() && Tidy(m.ranges) && size > 0 && m.first20 >= 0
    requires Freeable(m.ranges, b, base, base + PageRound(size))
    requires base + PageRound(size) == GB4 ==> !JoinsAfter(m.ranges, b, GB4)
    modifies m
    ensures
      var s, hi := old(m.ranges), base + PageRound(size);
      && (ok <==> old(m.first20) <= b + 1 && !IsTail(s, b, base, hi) && !ClosesGap(s, b, base, hi))
      && (ok ==> m.Valid() && Freed(s, m.ranges, base, hi))
  {
    hide Tidy, Freed, Weight;
    var hi := base + PageRound(size);
    var st := FindBlock(m, base, beyond, hi, b);
    if st >= |m.ranges| { return false; }
    var block := m.ranges[st];
    LaterBlock(m.ranges, b, base, hi, st);
    if block.kind == ALLOCATED && block.base == base && block.End() == hi {
      ok := FreeWhole(m, st, base, hi);
    } else if block.kind == ALLOCATED && block.End() == hi {
      m.ranges := m.ranges[st := Range(block.base, base - block.base, ALLOCATED)];
      var nextStart := m.ranges[st].base;
      ok := nextStart >= hi;
    } else if block.kind == ALLOCATED && block.base == base {
      FreeHead(m, st, base, hi);
      ok := true;
    } else if block.kind == ALLOCATED && block.base < base && block.End() > hi {
      FreeMiddle(m, st, base, hi);
      ok := true;
    } else {
      ok := false;
    }
  }

  /** A range after block b is none that the freed addresses could lie in. */
  lemma LaterBlock(s: seq<Range>, b: int, lo: int, hi: int, st: int)
    requires Tidy(s) && Freeable(s, b, lo, hi) && b <= st < |s|
    ensures st > b ==> s[st].base >= hi && s[st].End() > hi
  {
  }

  /** Rounding a size up to whole pages. */
  function PageRound(size: nat): (r: nat)
    ensures size <= r < size + PAGE && r % PAGE == 0
  {
    (size + PAGE - 1) / PAGE * PAGE
  }
}
