/** boot/paging.cc, paging_map_physical: cutting a physical range into runs of
    4 KiB, 2 MiB and 1 GiB pages. */
module PhysicalRuns {
  import opened PageWalk
  import opened Modular

  function RoundDown(value: int, level: nat): (r: int)
    ensures Aligned(r, level) && r <= value < r + Span(level)
  {
    hide Span;
    ModRest(value, Span(level));
    value - Rem(value, level)
  }

  function RoundUp(value: int, level: nat): (r: int)
    ensures Aligned(r, level) && value <= r < value + Span(level)
  {
    RoundDown(value + Span(level) - 1, level)
  }

  /** The boundaries A..F: [A,B) and [E,F) are 4 KiB runs, [B,C) and [D,E) are
      2 MiB runs and [C,D) is a 1 GiB run. */
  datatype Runs = Runs(a: int, b: int, c: int, d: int, e: int, f: int)

  function Cut(phys: nat, linear: nat, length: nat): Runs {
    var use1G := Rem(phys, 2) == Rem(linear, 2);
    var use2M := Rem(phys, 1) == Rem(linear, 1);
    var a := RoundDown(phys, 0);
    var f := RoundUp(phys + length, 0);
    var x := RoundUp(a, 1);
    var y := RoundDown(f, 1);
    var r := if x < y && use2M then Runs(a, x, y, y, y, f) else Runs(a, f, f, f, f, f);
    var x' := RoundUp(x, 2);
    var y' := RoundDown(y, 2);
    if x' < y' && use1G then r.(c := x', d := y') else r
  }

  /** The page of size Span(k) that holds physical byte pa lies inside [a, f), and
      the linear range may use pages of that size. */
  predicate Fits(r: Runs, delta: int, pa: int, k: nat) {
    Aligned(delta, k) && r.a <= RoundDown(pa, k) && RoundDown(pa, k) + Span(k) <= r.f
  }

  /** The largest page size that fits around a physical byte of the range. */
  function BestLevel(r: Runs, delta: int, pa: int): (k: nat)
    ensures k <= 2
  {
    if Fits(r, delta, pa, 2) then 2 else if Fits(r, delta, pa, 1) then 1 else 0
  }

  /** The page size paging_map_physical_impl infers from its arguments. */
  function InferredLevel(phys: nat, linear: nat, length: nat): (k: nat)
    ensures k <= 2
  {
    if Aligned(phys, 2) && Aligned(linear, 2) && Aligned(length, 2) then 2
    else if Aligned(phys, 1) && Aligned(linear, 1) && Aligned(length, 1) then 1
    else 0
  }

  predicate InRun(r: Runs, k: nat, x: int, y: int) {
    match k
    case 0 => (x == r.a && y == r.b) || (x == r.e && y == r.f)
    case 1 => (x == r.b && y == r.c) || (x == r.d && y == r.e)
    case _ => k == 2 && x == r.c && y == r.d
  }

  lemma Finer(x: int)
    ensures Aligned(x, 2) ==> Aligned(x, 1)
    ensures Aligned(x, 1) ==> Aligned(x, 0)
  {
  }

  lemma SameRem(x: int, y: int, k: nat)
    ensures Rem(x, k) == Rem(y, k) <==> Aligned(y - x, k)
  {
    hide Span;
    SameMod(x, y, Span(k));
  }

  lemma AlignedSum(x: int, y: int, k: nat)
    requires Aligned(x, k)
    ensures Aligned(x + y, k) <==> Aligned(y, k)
    ensures Aligned(y - x, k) <==> Aligned(y, k)
  {
    hide Span;
    ModSum(x, y, Span(k));
  }

  lemma AlignedGap(x: int, y: int, k: nat)
    requires Aligned(x, k) && Aligned(y, k) && x < y
    ensures x + Span(k) <= y
  {
  }

  /** Where 1 GiB pages can be used, 2 MiB pages can. */
  lemma UseCoarse(phys: int, linear: int)
    ensures Rem(phys, 2) == Rem(linear, 2) ==> Rem(phys, 1) == Rem(linear, 1)
  {
    hide Rem;
    SameRem(phys, linear, 2);
    SameRem(phys, linear, 1);
    Finer(linear - phys);
  }

  /** The boundaries are in order, so the five runs tile [A, F); A and F are the
      4 KiB page bounds of the range, and every run begins and ends on its page size. */
  lemma CutTiles(phys: nat, linear: nat, length: nat)
    ensures
      var r := Cut(phys, linear, length);
      && r.a <= r.b <= r.c <= r.d <= r.e <= r.f
      && Aligned(r.a, 0) && Aligned(r.f, 0)
      && r.a <= phys < r.a + PAGE && r.f - PAGE < phys + length <= r.f
      && (forall k: nat, x, y :: k <= 2 && InRun(r, k, x, y) && x < y ==> Aligned(x, k) && Aligned(y, k))
  {
    hide RoundDown, RoundUp, Rem, Aligned;
    var a := RoundDown(phys, 0);
    var f := RoundUp(phys + length, 0);
    var x := RoundUp(a, 1);
    var y := RoundDown(f, 1);
    var x' := RoundUp(x, 2);
    var y' := RoundDown(y, 2);
    Finer(x); Finer(y); Finer(x'); Finer(y');
    UseCoarse(phys, linear);
  }

  /** The page around a byte between two multiples of its size lies between them. */
  lemma PageBetween(pa: int, x: int, y: int, k: nat)
    requires Aligned(x, k) && Aligned(y, k) && x <= pa < y
    ensures x <= RoundDown(pa, k) && RoundDown(pa, k) + Span(k) <= y
  {
    hide Rem, RoundDown, Span;
    var p := RoundDown(pa, k);
    if p < x { AlignedGap(p, x, k); }
    AlignedGap(p, y, k);
  }

  lemma RoundUpLeast(v: int, m: int, k: nat)
    requires Aligned(m, k) && v <= m
    ensures RoundUp(v, k) <= m
  {
    hide Rem, RoundUp, Span;
    if m < RoundUp(v, k) { AlignedGap(m, RoundUp(v, k), k); }
  }

  lemma RoundDownGreatest(v: int, m: int, k: nat)
    requires Aligned(m, k) && m <= v
    ensures m <= RoundDown(v, k)
  {
    hide Rem, RoundDown, Span;
    if RoundDown(v, k) < m { AlignedGap(RoundDown(v, k), m, k); }
  }

  /** A byte is in the 1 GiB run exactly if a 1 GiB page fits around it, and in
      the 1 GiB or a 2 MiB run exactly if a 2 MiB page fits around it. */
  lemma CutFits(phys: nat, linear: nat, length: nat, pa: int)
    requires var r := Cut(phys, linear, length); r.a <= pa < r.f
    ensures
      var r := Cut(phys, linear, length);
      && (Fits(r, linear - phys, pa, 2) <==> r.c <= pa < r.d)
      && (Fits(r, linear - phys, pa, 1) <==> r.b <= pa < r.e)
  {
    hide RoundDown, RoundUp, Rem;
    var r := Cut(phys, linear, length);
    CutTiles(phys, linear, length);
    SameRem(phys, linear, 1);
    SameRem(phys, linear, 2);
    if r.c <= pa < r.d { assert InRun(r, 2, r.c, r.d); PageBetween(pa, r.c, r.d, 2); }
    if r.b <= pa < r.e { CutEdges(phys, linear, length); PageBetween(pa, r.b, r.e, 1); }
    if Fits(r, linear - phys, pa, 1) { FitsLarge(phys, linear, length, pa); }
    if Fits(r, linear - phys, pa, 2) { FitsHuge(phys, linear, length, pa); }
  }

  lemma CutEdges(phys: nat, linear: nat, length: nat)
    ensures
      var r := Cut(phys, linear, length);
      && (r.b < r.e ==> Aligned(r.b, 1) && Aligned(r.e, 1) && Aligned(linear - phys, 1))
      && (r.c < r.d ==> Aligned(linear - phys, 2))
  {
    hide RoundDown, RoundUp, Rem;
    SameRem(phys, linear, 1);
    SameRem(phys, linear, 2);
    UseCoarse(phys, linear);
  }

  lemma FitsLarge(phys: nat, linear: nat, length: nat, pa: int)
    requires Fits(Cut(phys, linear, length), linear - phys, pa, 1)
    ensures Cut(phys, linear, length).b <= pa < Cut(phys, linear, length).e
  {
    hide RoundDown, RoundUp, Rem;
    var r := Cut(phys, linear, length);
    var p := RoundDown(pa, 1);
    SameRem(phys, linear, 1);
    AlignedStep(p, 1);
    RoundUpLeast(r.a, p, 1);
    RoundDownGreatest(r.f, p + Span(1), 1);
  }

  lemma FitsHuge(phys: nat, linear: nat, length: nat, pa: int)
    requires Fits(Cut(phys, linear, length), linear - phys, pa, 2)
    ensures Cut(phys, linear, length).c <= pa < Cut(phys, linear, length).d
  {
    hide RoundDown, RoundUp, Rem;
    var r := Cut(phys, linear, length);
    var p := RoundDown(pa, 2);
    SameRem(phys, linear, 2);
    UseCoarse(phys, linear);
    AlignedStep(p, 2);
    Finer(p);
    Finer(p + Span(2));
    RoundUpLeast(r.a, p, 1);
    RoundUpLeast(RoundUp(r.a, 1), p, 2);
    RoundDownGreatest(r.f, p + Span(2), 1);
    RoundDownGreatest(RoundDown(r.f, 1), p + Span(2), 2);
  }

  lemma AlignedStep(x: int, k: nat)
    requires Aligned(x, k)
    ensures Aligned(x + Span(k), k)
  {
  }

  /** Every byte of a run gets the largest page size that fits around it. */
  lemma CutBest(phys: nat, linear: nat, length: nat, k: nat, x: int, y: int, pa: int)
    requires k <= 2 && x <= pa < y && InRun(Cut(phys, linear, length), k, x, y)
    ensures BestLevel(Cut(phys, linear, length), linear - phys, pa) == k
  {
    hide RoundDown, RoundUp, Rem, Fits, Cut, Aligned;
    CutTiles(phys, linear, length);
    CutFits(phys, linear, length, pa);
  }

  /** The page size paging_map_physical_impl infers for a run is the one meant for it. */
  lemma CutInferred(phys: nat, linear: nat, length: nat, k: nat, x: nat, y: nat)
    requires k <= 2 && x < y && InRun(Cut(phys, linear, length), k, x, y) && x + linear - phys >= 0
    requires Rem(phys, 0) == Rem(linear, 0)
    ensures InferredLevel(x, (x + linear - phys) % LINEAR_LIMIT, y - x) == k
    ensures Aligned(x, k) && Aligned(y, k) && Aligned((x + linear - phys) % LINEAR_LIMIT, k)
  {
    hide RoundDown, RoundUp, Rem, Fits, Cut;
    var r := Cut(phys, linear, length);
    CutTiles(phys, linear, length);
    var j := InferredLevel(x, (x + linear - phys) % LINEAR_LIMIT, y - x);
    if j > 0 { RunAligned(phys, linear, length, k, x, y, j); }
    RunDelta(phys, linear, length, k, x, y);
    LinearAligned(x, linear - phys, k);
    AlignedSum(x, y, k);
  }

  lemma RunDelta(phys: nat, linear: nat, length: nat, k: nat, x: int, y: int)
    requires k <= 2 && x < y && InRun(Cut(phys, linear, length), k, x, y)
    requires Rem(phys, 0) == Rem(linear, 0)
    ensures Aligned(linear - phys, k)
  {
    hide RoundDown, RoundUp, Rem, Cut;
    SameRem(phys, linear, 0);
    CutTiles(phys, linear, length);
    CutEdges(phys, linear, length);
  }

  /** A run whose physical and linear bounds are multiples of a page size has
      room for a page of that size, so it is no run of smaller pages. */
  lemma RunAligned(phys: nat, linear: nat, length: nat, k: nat, x: nat, y: nat, j: nat)
    requires k <= 2 && j <= 2 && x < y && InRun(Cut(phys, linear, length), k, x, y) && x + linear - phys >= 0
    requires Aligned(x, j) && Aligned((x + linear - phys) % LINEAR_LIMIT, j) && Aligned(y - x, j)
    ensures j <= k
  {
    hide RoundUp, Rem, Cut, RoundDown;
    var r := Cut(phys, linear, length);
    CutTiles(phys, linear, length);
    LinearAligned(x, linear - phys, j);
    AlignedSum(x, y, j);
    PageBetween(x, x, y, j);
    assert Fits(r, linear - phys, x, j);
    CutFits(phys, linear, length, x);
  }

  /** Masking to 48 bits keeps alignment. */
  lemma LinearAligned(x: int, delta: int, k: nat)
    requires k <= 2 && Aligned(x, k)
    ensures Aligned((x + delta) % LINEAR_LIMIT, k) <==> Aligned(delta, k)
  {
    var v := x + delta;
    LimitAligned(v / LINEAR_LIMIT, k);
    assert v == LINEAR_LIMIT * (v / LINEAR_LIMIT) + v % LINEAR_LIMIT;
    AlignedSum(LINEAR_LIMIT * (v / LINEAR_LIMIT), v % LINEAR_LIMIT, k);
    AlignedSum(x, delta, k);
  }

  lemma LimitAligned(q: int, k: nat)
    requires k <= 2
    ensures Aligned(LINEAR_LIMIT * q, k)
  {
  }
}
