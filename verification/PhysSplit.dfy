/** boot/physmap.cc, physmap_split_large: marking the parts of free memory that whole
    2 MiB and 1 GiB pages can use. */
module PhysSplit {
  import PW = PageWalk
  import PR = PhysicalRuns
  import opened RangeTable
  import opened RangeSplice
  import opened PhysMap

  function Piece(lo: int, hi: int, kind: nat): seq<Range> {
    if 0 <= lo < hi then [Range(lo, hi - lo, kind)] else []
  }

  /** The runs a free range is cut into; the cut is that of an identity mapping. */
  function Pieces(r: Range): seq<Range> {
    var c := PR.Cut(r.base, r.base, r.size);
    Piece(c.a, c.b, NORMAL) + Piece(c.b, c.c, NORMAL_2M) + Piece(c.c, c.d, NORMAL_1G)
    + Piece(c.d, c.e, NORMAL_2M) + Piece(c.e, c.f, NORMAL)
  }

  lemma PieceCovers(lo: int, hi: int, kind: nat, kinds: Kinds, a: int)
    requires 0 <= lo
    ensures Covered(Piece(lo, hi, kind), kinds, a) <==> kinds.Has(Range(0, 0, kind)) && lo <= a < hi
  {
    if lo < hi { CoveredOne(Range(lo, hi - lo, kind), kinds, a); }
  }

  /** The pieces cover the range and nothing else, with free memory of some kind. */
  lemma PiecesCover(r: Range, kinds: Kinds, a: int)
    requires PageRange(r)
    ensures kinds == AnyNormal ==> (Covered(Pieces(r), kinds, a) <==> r.base <= a < r.End())
    ensures kinds.Only? && kinds.k !in {NORMAL, NORMAL_2M, NORMAL_1G} ==> !Covered(Pieces(r), kinds, a)
  {
    hide Covered, PR.Cut;
    var c := PR.Cut(r.base, r.base, r.size);
    CutOf(r);
    var p1, p2, p3, p4, p5 := Piece(c.a, c.b, NORMAL), Piece(c.b, c.c, NORMAL_2M), Piece(c.c, c.d, NORMAL_1G),
                              Piece(c.d, c.e, NORMAL_2M), Piece(c.e, c.f, NORMAL);
    CoveredConcat(p1 + p2 + p3 + p4, p5, kinds, a);
    CoveredConcat(p1 + p2 + p3, p4, kinds, a);
    CoveredConcat(p1 + p2, p3, kinds, a);
    CoveredConcat(p1, p2, kinds, a);
    PieceCovers(c.a, c.b, NORMAL, kinds, a);
    PieceCovers(c.b, c.c, NORMAL_2M, kinds, a);
    PieceCovers(c.c, c.d, NORMAL_1G, kinds, a);
    PieceCovers(c.d, c.e, NORMAL_2M, kinds, a);
    PieceCovers(c.e, c.f, NORMAL, kinds, a);
  }

  lemma CutOf(r: Range)
    requires PageRange(r)
    ensures
      var c := PR.Cut(r.base, r.base, r.size);
      && 0 <= c.a == r.base && c.f == r.End() && c.a <= c.b <= c.c <= c.d <= c.e <= c.f
  {
    hide PR.Cut;
    assert PW.Aligned(r.base, 0) && PW.Aligned(r.End(), 0);
    hide PW.Rem;
    PR.CutTiles(r.base, r.base, r.size);
    var c := PR.Cut(r.base, r.base, r.size);
    PageExact(r.base, c.a);
    PageExact(c.f, r.End());
  }

  lemma PageExact(x: int, y: int)
    requires PW.Aligned(x, 0) && PW.Aligned(y, 0) && y <= x < y + PAGE
    ensures x == y
  {
  }

  /** A 2 MiB piece is whole 2 MiB pages, a 1 GiB piece whole 1 GiB pages. */
  predicate Sized(r: Range) {
    && (r.kind == NORMAL_2M ==> PW.Aligned(r.base, 1) && PW.Aligned(r.End(), 1))
    && (r.kind == NORMAL_1G ==> PW.Aligned(r.base, 2) && PW.Aligned(r.End(), 2))
  }

  /** No whole 2 MiB page is left in a range of small pages. */
  predicate NoLargeLeft(r: Range) {
    r.kind == NORMAL ==>
      forall p :: r.base <= p && p + PW.Span(1) <= r.End() ==> !PW.Aligned(p, 1)
  }

  /** What is known of every range once the table is split. */
  predicate Split(r: Range) { Sized(r) && NoLargeLeft(r) }

  predicate AllSplit(s: seq<Range>) { forall i :: 0 <= i < |s| ==> Split(s[i]) }

  /** No whole 1 GiB page is left in a range of 2 MiB pages. */
  predicate NoHugeLeft(r: Range) {
    r.kind == NORMAL_2M ==>
      forall p :: r.base <= p && p + PW.Span(2) <= r.End() ==> !PW.Aligned(p, 2)
  }

  predicate AllCoarse(s: seq<Range>) { forall i :: 0 <= i < |s| ==> NoHugeLeft(s[i]) }

  lemma SplitConcat(s: seq<Range>, t: seq<Range>)
    requires AllSplit(s) && AllSplit(t)
    ensures AllSplit(s + t)
  {
  }

  lemma PiecesSplit(r: Range)
    requires PageRange(r)
    ensures AllSplit(Pieces(r))
  {
    hide PR.Cut, PW.Rem, Split;
    var c := PR.Cut(r.base, r.base, r.size);
    CutOf(r);
    PR.CutTiles(r.base, r.base, r.size);
    SmallPiece(r, c.a, c.b);
    SmallPiece(r, c.e, c.f);
    LargePiece(r, c.b, c.c, 1, NORMAL_2M);
    LargePiece(r, c.c, c.d, 2, NORMAL_1G);
    LargePiece(r, c.d, c.e, 1, NORMAL_2M);
    SplitConcat(Piece(c.a, c.b, NORMAL), Piece(c.b, c.c, NORMAL_2M));
    SplitConcat(Piece(c.a, c.b, NORMAL) + Piece(c.b, c.c, NORMAL_2M), Piece(c.c, c.d, NORMAL_1G));
    SplitConcat(Piece(c.a, c.b, NORMAL) + Piece(c.b, c.c, NORMAL_2M) + Piece(c.c, c.d, NORMAL_1G), Piece(c.d, c.e, NORMAL_2M));
    SplitConcat(Piece(c.a, c.b, NORMAL) + Piece(c.b, c.c, NORMAL_2M) + Piece(c.c, c.d, NORMAL_1G) + Piece(c.d, c.e, NORMAL_2M),
                Piece(c.e, c.f, NORMAL));
  }

  lemma PiecesCoarse(r: Range)
    requires PageRange(r)
    ensures AllCoarse(Pieces(r))
  {
    hide PR.Cut, PW.Rem, NoHugeLeft;
    var c := PR.Cut(r.base, r.base, r.size);
    CutOf(r);
    assert AllCoarse(Piece(c.a, c.b, NORMAL)) && AllCoarse(Piece(c.c, c.d, NORMAL_1G)) && AllCoarse(Piece(c.e, c.f, NORMAL)) by {
      OtherCoarse(c.a, c.b, NORMAL); OtherCoarse(c.c, c.d, NORMAL_1G); OtherCoarse(c.e, c.f, NORMAL);
    }
    MediumPiece(r, c.b, c.c);
    MediumPiece(r, c.d, c.e);
  }

  lemma OtherCoarse(x: int, y: int, kind: nat)
    requires kind != NORMAL_2M
    ensures AllCoarse(Piece(x, y, kind))
  {
  }

  /** A run of 2 MiB pages holds no whole 1 GiB page: that lies in the run of 1 GiB pages. */
  lemma MediumPiece(r: Range, x: int, y: int)
    requires PageRange(r) && 0 <= x && PR.InRun(PR.Cut(r.base, r.base, r.size), 1, x, y)
    ensures AllCoarse(Piece(x, y, NORMAL_2M))
  {
    hide PR.Cut, PW.Rem;
    CutOf(r);
    if x < y {
      forall p | x <= p && p + PW.Span(2) <= y ensures !PW.Aligned(p, 2) {
        if PW.Aligned(p, 2) { HugeInCut(r, p); }
      }
    }
  }

  lemma HugeInCut(r: Range, p: int)
    requires PageRange(r) && PW.Aligned(p, 2) && r.base <= p && p + PW.Span(2) <= r.End()
    ensures var c := PR.Cut(r.base, r.base, r.size); c.c <= p < c.d
  {
    hide PR.Cut, PW.Rem;
    CutOf(r);
    PR.CutFits(r.base, r.base, r.size, p);
    PR.AlignedStep(p, 2);
    PR.PageBetween(p, p, p + PW.Span(2), 2);
    HugeZero();
  }

  lemma HugeZero()
    ensures PW.Aligned(0, 2)
  {
  }

  lemma LargePiece(r: Range, x: int, y: int, k: nat, kind: nat)
    requires PageRange(r) && 0 <= x && PR.InRun(PR.Cut(r.base, r.base, r.size), k, x, y)
    requires (k == 1 && kind == NORMAL_2M) || (k == 2 && kind == NORMAL_1G)
    ensures AllSplit(Piece(x, y, kind))
  {
    hide PR.Cut, PW.Rem;
    PR.CutTiles(r.base, r.base, r.size);
  }

  lemma SmallPiece(r: Range, x: int, y: int)
    requires PageRange(r) && 0 <= x && PR.InRun(PR.Cut(r.base, r.base, r.size), 0, x, y)
    ensures AllSplit(Piece(x, y, NORMAL))
  {
    hide PR.Cut, PW.Rem;
    if x < y {
      CutOf(r);
      forall p | x <= p && p + PW.Span(1) <= y ensures !PW.Aligned(p, 1) {
        if PW.Aligned(p, 1) { PageInCut(r, p); }
      }
    }
  }

  /** A whole 2 MiB page of the range lies in a run of large pages. */
  lemma PageInCut(r: Range, p: int)
    requires PageRange(r) && PW.Aligned(p, 1) && r.base <= p && p + PW.Span(1) <= r.End()
    ensures var c := PR.Cut(r.base, r.base, r.size); c.b <= p < c.e
  {
    hide PR.Cut, PW.Rem;
    CutOf(r);
    PR.CutFits(r.base, r.base, r.size, p);
    PR.AlignedStep(p, 1);
    PR.PageBetween(p, p, p + PW.Span(1), 1);
    ZeroAligned();
  }

  lemma ZeroAligned()
    ensures PW.Aligned(0, 1)
  {
  }

  /** A tidy list that begins at lo and ends at hi, empty only if they are equal. */
  predicate Spans(s: seq<Range>, lo: int, hi: int) {
    && Tidy(s) && (s == [] ==> lo == hi)
    && (s != [] ==> s[0].base == lo && s[|s| - 1].End() == hi)
  }

  lemma SpansConcat(s: seq<Range>, t: seq<Range>, lo: int, mid: int, hi: int)
    requires Spans(s, lo, mid) && Spans(t, mid, hi)
    ensures Spans(s + t, lo, hi)
  {
  }

  lemma PieceSpans(lo: int, hi: int, kind: nat)
    requires 0 <= lo <= hi && lo % PAGE == 0 && hi % PAGE == 0
    ensures Spans(Piece(lo, hi, kind), lo, hi)
  {
  }

  lemma PiecesTidy(r: Range)
    requires PageRange(r)
    ensures Spans(Pieces(r), r.base, r.End())
  {
    hide PR.Cut, Tidy, Spans;
    var c := PR.Cut(r.base, r.base, r.size);
    CutOf(r);
    CutPages(r);
    var p1, p2, p3, p4, p5 := Piece(c.a, c.b, NORMAL), Piece(c.b, c.c, NORMAL_2M), Piece(c.c, c.d, NORMAL_1G),
                              Piece(c.d, c.e, NORMAL_2M), Piece(c.e, c.f, NORMAL);
    PieceSpans(c.a, c.b, NORMAL);
    PieceSpans(c.b, c.c, NORMAL_2M);
    PieceSpans(c.c, c.d, NORMAL_1G);
    PieceSpans(c.d, c.e, NORMAL_2M);
    PieceSpans(c.e, c.f, NORMAL);
    SpansConcat(p1, p2, c.a, c.b, c.c);
    SpansConcat(p1 + p2, p3, c.a, c.c, c.d);
    SpansConcat(p1 + p2 + p3, p4, c.a, c.d, c.e);
    SpansConcat(p1 + p2 + p3 + p4, p5, c.a, c.e, c.f);
  }

  /** Every boundary is a page boundary. */
  lemma CutPages(r: Range)
    requires PageRange(r)
    ensures
      var c := PR.Cut(r.base, r.base, r.size);
      && c.a % PAGE == 0 && c.b % PAGE == 0 && c.c % PAGE == 0 && c.d % PAGE == 0 && c.e % PAGE == 0 && c.f % PAGE == 0
  {
    hide PR.Cut, PW.Rem;
    var c := PR.Cut(r.base, r.base, r.size);
    PR.CutTiles(r.base, r.base, r.size);
    Boundary(c.a); Boundary(c.b); Boundary(c.c); Boundary(c.d); Boundary(c.e); Boundary(c.f);
    assert PR.InRun(c, 0, c.a, c.b) && PR.InRun(c, 1, c.b, c.c) && PR.InRun(c, 2, c.c, c.d);
    assert PR.InRun(c, 1, c.d, c.e) && PR.InRun(c, 0, c.e, c.f);
  }

  lemma Boundary(x: int)
    ensures PW.Aligned(x, 2) ==> PW.Aligned(x, 1)
    ensures PW.Aligned(x, 1) ==> PW.Aligned(x, 0)
    ensures PW.Aligned(x, 0) <==> x % PAGE == 0
  {
    hide PW.Rem;
    PR.Finer(x);
    SmallPage(x);
  }

  lemma SmallPage(x: int)
    ensures PW.Aligned(x, 0) <==> x % PAGE == 0
  {
  }

  // ------------------------------------------------------------------ the loop

  /** The same free memory, and the same memory of every other kind. */
  ghost predicate SameMemory(s: seq<Range>, t: seq<Range>) {
    forall kinds: Kinds, a :: (kinds.AnyNormal? || (kinds.Only? && kinds.k !in {NORMAL, NORMAL_2M, NORMAL_1G})) ==>
      (Covered(t, kinds, a) <==> Covered(s, kinds, a))
  }

  lemma PiecesSame(pre: seq<Range>, r: Range, post: seq<Range>)
    requires PageRange(r) && r.kind == NORMAL
    ensures SameMemory(pre + [r] + post, pre + Pieces(r) + post)
  {
    hide Covered, Pieces;
    forall kinds: Kinds, a | kinds.AnyNormal? || (kinds.Only? && kinds.k !in {NORMAL, NORMAL_2M, NORMAL_1G})
      ensures Covered(pre + Pieces(r) + post, kinds, a) <==> Covered(pre + [r] + post, kinds, a)
    {
      CoveredSplice(pre, [r], post, kinds, a);
      CoveredSplice(pre, Pieces(r), post, kinds, a);
      PiecesCover(r, kinds, a);
      CoveredOne(r, kinds, a);
    }
  }

  lemma SameMemoryTrans(s: seq<Range>, t: seq<Range>, u: seq<Range>)
    requires SameMemory(s, t) && SameMemory(t, u)
    ensures SameMemory(s, u)
  {
  }

  /** Inserts one piece, if it holds a page, and moves past it. The pieces inserted so
      far stand in the place of range j of the table s. */
  method InsertPiece(m: Table, next0: nat, lo: nat, hi: nat, kind: nat,
                     ghost s: seq<Range>, ghost j: nat, ghost acc: seq<Range>)
    returns (next: nat)
    requires m.Valid() && Tidy(s) && j < |s| && m.ranges == s[..j] + acc + s[j + 1..] && next0 == j + |acc|
    requires Spans(acc, s[j].base, lo) && lo <= hi <= s[j].End() && lo % PAGE == 0 && hi % PAGE == 0
    modifies m
    ensures m.Valid() && m.ranges == s[..j] + (acc + Piece(lo, hi, kind)) + s[j + 1..]
    ensures next == j + |acc + Piece(lo, hi, kind)| && Spans(acc + Piece(lo, hi, kind), s[j].base, hi)
  {
    hide Spans, Tidy, Sorted;
    PieceSpans(lo, hi, kind);
    SpansConcat(acc, Piece(lo, hi, kind), s[j].base, lo, hi);
    next := next0;
    if (hi - lo) / PAGE > 0 {
      PieceFits(s, j, acc, lo);
      m.InsertAt(next, Range(lo, hi - lo, kind));
      next := next + 1;
    }
  }

  lemma PieceFits(s: seq<Range>, j: int, acc: seq<Range>, x: int)
    requires Tidy(s) && 0 <= j < |s| && Spans(acc, s[j].base, x) && x <= s[j].End()
    ensures FitsAt(s[..j] + acc + s[j + 1..], j + |acc|, x)
  {
  }

  /** Replaces free range i by its pieces. */
  method SplitOne(m: Table, i: nat, c: PR.Runs) returns (next: nat)
    requires m.Valid() && Tidy(m.ranges) && i < |m.ranges| && PageRange(m.ranges[i])
    requires c == PR.Cut(m.ranges[i].base, m.ranges[i].base, m.ranges[i].size)
    modifies m
    ensures m.Valid() && next == i + |Pieces(old(m.ranges[i]))|
    ensures m.ranges == old(m.ranges)[..i] + Pieces(old(m.ranges[i])) + old(m.ranges)[i + 1..]
  {
    hide PR.Cut, Tidy, Sorted, Spans, Piece;
    ghost var s := m.ranges;
    CutOf(s[i]);
    CutPages(s[i]);
    NoPieces(s[i].base);
    m.Delete(i);
    assert s[..i] + [] + s[i + 1..] == Removed(s, i);
    ghost var acc: seq<Range> := [];
    next := InsertPiece(m, i, c.a, c.b, NORMAL, s, i, acc);
    acc := acc + Piece(c.a, c.b, NORMAL);
    next := InsertPiece(m, next, c.b, c.c, NORMAL_2M, s, i, acc);
    acc := acc + Piece(c.b, c.c, NORMAL_2M);
    next := InsertPiece(m, next, c.c, c.d, NORMAL_1G, s, i, acc);
    acc := acc + Piece(c.c, c.d, NORMAL_1G);
    next := InsertPiece(m, next, c.d, c.e, NORMAL_2M, s, i, acc);
    acc := acc + Piece(c.d, c.e, NORMAL_2M);
    next := InsertPiece(m, next, c.e, c.f, NORMAL, s, i, acc);
    assert [] + Piece(c.a, c.b, NORMAL) == Piece(c.a, c.b, NORMAL);
  }

  lemma NoPieces(x: int)
    ensures Spans([], x, x)
  {
  }

  /** physmap_split_large: afterwards every 2 MiB or 1 GiB range is whole pages of its
      size, no 2 MiB page is left in a range of small pages, no 1 GiB page in a new range
      of 2 MiB pages, and memory is what it was. */
  method SplitLarge(m: Table)
    requires m.Valid() && Tidy(m.ranges)
    requires forall k :: 0 <= k < |m.ranges| ==> Sized(m.ranges[k])
    modifies m
    ensures m.Valid() && Tidy(m.ranges) && AllSplit(m.ranges) && SameMemory(old(m.ranges), m.ranges)
    ensures AllCoarse(old(m.ranges)) ==> AllCoarse(m.ranges)
  {
    hide PR.Cut, PR.RoundUp, PR.RoundDown, Tidy, Sorted, Split, SameMemory, Sized, Pieces, NoHugeLeft;
    SameMemorySelf(m.ranges);
    var i := 0;
    ghost var rest := m.ranges;
    while i < |m.ranges|
      invariant 0 <= i <= |m.ranges| && m.Valid() && Tidy(m.ranges)
      invariant AllSplit(m.ranges[..i]) && forall k :: i <= k < |m.ranges| ==> Sized(m.ranges[k])
      invariant rest == m.ranges[i..] && SameMemory(old(m.ranges), m.ranges)
      invariant AllCoarse(old(m.ranges)) ==> AllCoarse(m.ranges)
      decreases |rest|
    {
      var range := m.ranges[i];
      ghost var s := m.ranges;
      assert s == s[..i] + [range] + s[i + 1..] && s[..i + 1] == s[..i] + [range];
      if range.kind != NORMAL {
        OtherSplit(range);
        SplitConcat(s[..i], [range]);
        i := i + 1;
      } else {
        FreePages(s, i);
        var a, f := range.base, range.End();
        var b, e := PR.RoundUp(a, 1), PR.RoundDown(f, 1);
        if e <= b {
          SmallSplit(range);
          SplitConcat(s[..i], [range]);
          i := i + 1;
        } else {
          var c, d := PR.RoundUp(b, 2), PR.RoundDown(e, 2);
          var runs := if c < d then PR.Runs(a, b, c, d, e, f) else PR.Runs(a, b, e, e, e, f);
          IdentityCut(range);
          PiecesCoarse(range);
          i := SplitOne(m, i, runs);
          PiecesStep(s, i - |Pieces(range)|);
          SameMemoryTrans(old(m.ranges), s, m.ranges);
        }
      }
      rest := rest[1..];
    }
    assert m.ranges[..i] == m.ranges;
  }

  lemma SameMemorySelf(s: seq<Range>)
    ensures SameMemory(s, s)
  {
  }

  lemma OtherSplit(r: Range)
    requires r.kind != NORMAL && Sized(r)
    ensures AllSplit([r])
  {
  }

  lemma FreePages(s: seq<Range>, i: int)
    requires Tidy(s) && 0 <= i < |s| && s[i].kind == NORMAL
    ensures PageRange(s[i]) && s[i].size > 0
  {
  }

  /** The cut as the source computes it. */
  lemma IdentityCut(r: Range)
    requires PageRange(r)
    ensures
      var b, e := PR.RoundUp(r.base, 1), PR.RoundDown(r.End(), 1);
      var c, d := PR.RoundUp(b, 2), PR.RoundDown(e, 2);
      PR.Cut(r.base, r.base, r.size) ==
      if e <= b then PR.Runs(r.base, r.End(), r.End(), r.End(), r.End(), r.End())
      else if c < d then PR.Runs(r.base, b, c, d, e, r.End())
      else PR.Runs(r.base, b, e, e, e, r.End())
  {
    hide PR.RoundUp, PR.RoundDown;
    CutOf(r);
  }

  lemma SmallSplit(r: Range)
    requires PageRange(r) && r.kind == NORMAL && r.size > 0 && PR.RoundDown(r.End(), 1) <= PR.RoundUp(r.base, 1)
    ensures AllSplit([r])
  {
    hide PR.Cut, Split;
    IdentityCut(r);
    PiecesSplit(r);
    assert Pieces(r) == [r];
  }

  /** Replacing range j by its pieces, seen from the loop. */
  lemma PiecesStep(s: seq<Range>, j: int)
    requires Tidy(s) && 0 <= j < |s| && PageRange(s[j]) && s[j].kind == NORMAL && s[j].size > 0 && AllSplit(s[..j])
    ensures
      var t := s[..j] + Pieces(s[j]) + s[j + 1..];
      var i := j + |Pieces(s[j])|;
      Tidy(t) && AllSplit(t[..i]) && t[i..] == s[j + 1..] && SameMemory(s, t)
  {
    hide Tidy, Split, Pieces, SameMemory;
    var p := Pieces(s[j]);
    var t := s[..j] + p + s[j + 1..];
    assert s == s[..j] + [s[j]] + s[j + 1..];
    PiecesSame(s[..j], s[j], s[j + 1..]);
    PiecesTidy(s[j]);
    PiecesSplit(s[j]);
    SplitConcat(s[..j], p);
    assert t[..j + |p|] == s[..j] + p;
    SpliceTidy(s[..j], [s[j]], p, s[j + 1..]);
  }
}
