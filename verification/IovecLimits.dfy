/** boot/paging.cc, paging_iovec: the starts and limits for which its loop goes right
    whatever the size of the request and wherever its pages lie. */
module IovecLimits {
  import opened PageWalk
  import opened IovecWalk

  /** A loop that ends at another offset, or with other bytes, is not right. */
  lemma EndsWrong(frame: Frames, va: nat, size: nat, max: nat, n: nat)
    requires After(frame, va, size, max, n).offset >= size
    requires !Ends(After(frame, va, size, max, n), FrameBytes(frame, va, size))
    ensures !Right(frame, va, size, max)
  {
    hide After, Ends, FrameBytes;
    RightAtEnd(frame, va, size, max, n);
  }

  // ------------------------------------------------------- a limit below a page

  lemma FirstTurn(frame: Frames, va: nat, size: nat, max: nat)
    requires size > 0
    ensures
      var c := Least(Least(PAGE - va % PAGE, max), size);
      After(frame, va, size, max, 1) == Trail([Run(frame(va / PAGE) + va % PAGE, c)], c, va / PAGE + 1, false)
  {
    var w := After(frame, va, size, max, 0);
    assert w == Trail([], 0, va / PAGE, false);
    OneMore(frame, va, size, max, 0);
  }

  lemma OneMore(frame: Frames, va: nat, size: nat, max: nat, n: nat)
    requires After(frame, va, size, max, n).offset < size
    ensures After(frame, va, size, max, n + 1) == Turn(frame, va, size, max, After(frame, va, size, max, n))
  {
    hide Turn;
  }

  /** A chunk that does not follow the last run starts one. */
  lemma NewRun(frame: Frames, va: nat, size: nat, max: nat, n: nat)
    requires
      var w := After(frame, va, size, max, n);
      w.offset < size && w.runs != [] && w.runs[|w.runs| - 1].End() != frame(PageAt(va, w))
    ensures
      var w, w' := After(frame, va, size, max, n), After(frame, va, size, max, n + 1);
      var page, c := PageAt(va, w), ChunkAt(va, size, max, w);
      w'.runs == w.runs + [Run(frame(page), c)] && w'.offset == w.offset + c && w'.page == page + 1
  {
    OneMore(frame, va, size, max, n);
    hide After, PageAt, ChunkAt;
  }

  /** After the chunk that the limit cuts, the loop goes on with the next page, wherever that
      lies. */
  lemma CutAtStart(frame: Frames, va: nat, max: nat)
    requires 0 < max && va % PAGE + max < PAGE && frame(va / PAGE) % PAGE == 0 && frame(va / PAGE + 1) % PAGE == 0
    ensures !Right(frame, va, max + 1, max)
  {
    hide Flatten, After, Right, Turn, FrameBytes;
    var p, off, size := va / PAGE, va % PAGE, max + 1;
    FirstTurn(frame, va, size, max);
    var w := After(frame, va, size, max, 1);
    OffPage(va, w, p, off + max);
    Limited(va, size, max, w);
    OffFrame(frame(p), frame(p + 1), off + max);
    NewRun(frame, va, size, max, 1);
    LastByte(w.runs, frame(p + 1));
    ByteThere(frame, va, size, max, p, off + max);
    EndsWrong(frame, va, size, max, 2);
  }

  lemma OffFrame(x: nat, y: nat, o: nat)
    requires x % PAGE == 0 && y % PAGE == 0 && 0 < o < PAGE
    ensures x + o != y
  {
  }

  lemma NotBig(x: nat)
    requires x % PAGE != 0
    ensures x % 0x20_0000 != 0
  {
  }

  lemma LastByte(runs: seq<Run>, base: nat)
    ensures var f := Flatten(runs + [Run(base, 1)]); |f| > 0 && f[|f| - 1] == base
  {
    FlattenSnoc(runs, Run(base, 1));
  }

  lemma ByteThere(frame: Frames, va: nat, size: nat, x: nat, page: nat, o: nat)
    requires x < size && o < PAGE && va + x == page * PAGE + o
    ensures FrameBytes(frame, va, size)[x] == frame(page) + o
  {
    InPage(page, o);
  }

  /** The same in the second page, when the rest of the first fits the limit and the second
      does not follow the first. */
  lemma CutInside(frame: Frames, va: nat, max: nat)
    requires 0 < max < PAGE <= va % PAGE + max && frame(va / PAGE) + PAGE != frame(va / PAGE + 1)
    requires frame(va / PAGE + 1) % PAGE == 0 && frame(va / PAGE + 2) % PAGE == 0
    ensures !Right(frame, va, PAGE - va % PAGE + max + 1, max)
  {
    hide Flatten, After, Right, Turn, FrameBytes, Seeks, ChunkAt;
    var p, c := va / PAGE, PAGE - va % PAGE;
    var size := c + max + 1;
    FirstTurn(frame, va, size, max);
    var w1 := After(frame, va, size, max, 1);
    OnPage(va);
    PageHere(va, w1, 1);
    Limited(va, size, max, w1);
    NewRun(frame, va, size, max, 1);
    var w2 := After(frame, va, size, max, 2);
    OffPage(va, w2, p + 1, max);
    Limited(va, size, max, w2);
    OffFrame(frame(p + 1), frame(p + 2), max);
    NewRun(frame, va, size, max, 2);
    LastByte(w2.runs, frame(p + 2));
    ByteThere(frame, va, size, c + max, p + 1, max);
    EndsWrong(frame, va, size, max, 3);
  }

  lemma Limited(va: nat, size: nat, max: nat, w: Trail)
    requires w.runs != [] && w.offset < size && max < PAGE
    ensures ChunkAt(va, size, max, w) == Least(max, size - w.offset)
  {
  }

  /** Off a page the pointer just goes on. */
  lemma OffPage(va: nat, w: Trail, page: nat, o: nat)
    requires w.runs != [] && va + w.offset == page * PAGE + o && 0 < o < PAGE
    ensures PageAt(va, w) == w.page
  {
    InPage(page, o);
    NotBig(va + w.offset);
  }

  lemma OnPage(va: nat)
    ensures va + (PAGE - va % PAGE) == (va / PAGE + 1) * PAGE
    ensures (va + (PAGE - va % PAGE)) / PAGE == va / PAGE + 1
  {
  }

  // ------------------------------------------------------- a page cut at the limit

  /** The page from which on j pages follow one another: the first, or the second if the
      limit is not whole pages. */
  function From(va: nat, gap: bool): nat { if gap then va / PAGE + 1 else va / PAGE }

  /** Pages up to number j of the request follow one another, but the first does not if there
      is to be a gap after it, and the page after them does not. */
  ghost predicate Placed(frame: Frames, va: nat, gap: bool, j: nat) {
    var p, lo := va / PAGE, From(va, gap);
    && (forall q: nat :: lo <= q <= p + j ==> frame(q) == frame(lo) + (q - lo) * PAGE)
    && (gap ==> frame(p) + PAGE != frame(p + 1))
    && frame(p + j + 1) != frame(p + j) + PAGE
  }

  /** The size of the last run after j pages, with a gap after the first page or not. */
  function Grown(va: nat, gap: bool, j: nat): int {
    if gap && j >= 2 then (j - 1) * PAGE else j * PAGE - va % PAGE
  }

  ghost predicate Straight(frame: Frames, va: nat, max: nat, gap: bool, w: Trail, j: nat) {
    && w.offset == j * PAGE - va % PAGE && w.page == va / PAGE + j && w.runs != []
    && Bounded(w.runs, max) && |Flatten(w.runs)| == w.offset
    && w.runs[|w.runs| - 1].size == Grown(va, gap, j)
    && w.runs[|w.runs| - 1].End() == frame(va / PAGE + j - 1) + PAGE
  }

  /** Pages that follow one another are taken one by one. */
  lemma {:induction false} GoesStraight(frame: Frames, va: nat, max: nat, gap: bool, size: nat, j: nat, all: nat)
    requires PAGE <= max && 1 <= j <= all && Placed(frame, va, gap, all) && j * PAGE - va % PAGE <= size
    requires Grown(va, gap, j) <= max
    ensures Straight(frame, va, max, gap, After(frame, va, size, max, j), j)
  {
    hide Straight, After, Placed, Grown;
    if j == 1 {
      StraightStart(frame, va, max, gap, size);
    } else {
      Shorter(va, gap, j);
      GoesStraight(frame, va, max, gap, size, j - 1, all);
      StraightStep(frame, va, max, gap, size, j - 1, all);
    }
  }

  lemma Shorter(va: nat, gap: bool, j: nat)
    requires j >= 2
    ensures Grown(va, gap, j - 1) <= Grown(va, gap, j)
  {
  }

  lemma StraightStart(frame: Frames, va: nat, max: nat, gap: bool, size: nat)
    requires PAGE <= max && PAGE - va % PAGE <= size
    ensures Straight(frame, va, max, gap, After(frame, va, size, max, 1), 1)
  {
    hide Flatten, After;
    FirstTurn(frame, va, size, max);
    var r := Run(frame(va / PAGE) + va % PAGE, PAGE - va % PAGE);
    FlattenSnoc([], r);
    assert [] + [r] == [r];
    NoBytes();
  }

  lemma NoBytes()
    ensures Flatten([]) == []
  {
  }

  /** On a page the pointer is right, looked up or not. */
  lemma PageHere(va: nat, w: Trail, j: nat)
    requires j >= 1 && w.offset == j * PAGE - va % PAGE && w.page == va / PAGE + j && w.runs != []
    ensures PageAt(va, w) == va / PAGE + j && Skew(va, w) == 0
  {
    assert va + w.offset == (va / PAGE + j) * PAGE;
    BigPage(va / PAGE + j);
  }

  lemma StraightStep(frame: Frames, va: nat, max: nat, gap: bool, size: nat, j: nat, all: nat)
    requires PAGE <= max && 1 <= j < all && Placed(frame, va, gap, all) && (j + 1) * PAGE - va % PAGE <= size
    requires Grown(va, gap, j + 1) <= max && Straight(frame, va, max, gap, After(frame, va, size, max, j), j)
    ensures Straight(frame, va, max, gap, After(frame, va, size, max, j + 1), j + 1)
  {
    hide Flatten, After;
    var w := After(frame, va, size, max, j);
    PageHere(va, w, j);
    assert ChunkAt(va, size, max, w) == PAGE;
    NextFollows(frame, va, gap, j, all);
    OneMore(frame, va, size, max, j);
    AddWhole(w.runs, frame(va / PAGE + j), PAGE, max);
  }

  lemma NextFollows(frame: Frames, va: nat, gap: bool, j: nat, all: nat)
    requires Placed(frame, va, gap, all) && 1 <= j <= all
    ensures frame(va / PAGE + j) == frame(va / PAGE + j - 1) + PAGE <==> !gap || j >= 2
  {
    var before, here := frame(va / PAGE + j - 1), frame(va / PAGE + j);
  }

  /** The page that is cut: the loop goes on by what the source computes. */
  lemma CutStep(frame: Frames, va: nat, max: nat, gap: bool, size: nat, j: nat)
    requires PAGE <= max && 1 <= j && (gap ==> j >= 2) && Placed(frame, va, gap, j) && j * PAGE - va % PAGE < size
    requires Grown(va, gap, j) < max && Straight(frame, va, max, gap, After(frame, va, size, max, j), j)
    requires Grown(va, gap, j) + Least(PAGE, size - (j * PAGE - va % PAGE)) > max
    ensures
      var w, c := After(frame, va, size, max, j + 1), Least(PAGE, size - (j * PAGE - va % PAGE));
      && w.offset == j * PAGE - va % PAGE + max - c && |Flatten(w.runs)| == j * PAGE - va % PAGE + c
      && w.page == va / PAGE + j + 1 && w.runs != [] && Bounded(w.runs, max)
      && w.runs[|w.runs| - 1].End() == frame(va / PAGE + j) + c
  {
    hide Flatten, After;
    var w := After(frame, va, size, max, j);
    PageHere(va, w, j);
    var c := Least(PAGE, size - (j * PAGE - va % PAGE));
    assert ChunkAt(va, size, max, w) == c;
    NextFollows(frame, va, gap, j, j);
    OneMore(frame, va, size, max, j);
    AddExact(w.runs, frame(va / PAGE + j), c, max);
  }

  /** Too far: the loop ends past the end of the request. */
  lemma Overshoots(frame: Frames, va: nat, max: nat, gap: bool, j: nat, c: nat)
    requires PAGE <= max && 1 <= j && (gap ==> j >= 2) && 0 < c <= PAGE && 2 * c < max && Placed(frame, va, gap, j)
    requires Grown(va, gap, j) < max < Grown(va, gap, j) + c
    ensures !Right(frame, va, j * PAGE - va % PAGE + c, max)
  {
    hide Flatten, Straight, After, Placed;
    var size := j * PAGE - va % PAGE + c;
    GoesStraight(frame, va, max, gap, size, j, j);
    CutStep(frame, va, max, gap, size, j);
    EndsWrong(frame, va, size, max, j + 1);
  }

  /** Not far enough: bytes of another page are added to make up for it. */
  lemma Undershoots(frame: Frames, va: nat, max: nat, gap: bool, j: nat)
    requires PAGE <= max < 2 * PAGE && 1 <= j && (gap ==> j >= 2) && Placed(frame, va, gap, j)
    requires Grown(va, gap, j) < max < Grown(va, gap, j) + PAGE
    ensures !Right(frame, va, (j + 1) * PAGE - va % PAGE, max)
  {
    hide Flatten, Straight, After;
    var size := (j + 1) * PAGE - va % PAGE;
    GoesStraight(frame, va, max, gap, size, j, j);
    CutStep(frame, va, max, gap, size, j);
    var w := After(frame, va, size, max, j + 1);
    var u := size - w.offset;
    OtherPage(frame, va, max, w, j);
    assert ChunkAt(va, size, max, w) == u;
    NewRun(frame, va, size, max, j + 1);
    FlattenSnoc(w.runs, Run(frame(PageAt(va, w)), u));
    EndsWrong(frame, va, size, max, j + 2);
  }

  /** The page read next does not follow the one that was cut. */
  lemma OtherPage(frame: Frames, va: nat, max: nat, w: Trail, j: nat)
    requires PAGE <= max < 2 * PAGE && j >= 1 && w.runs != [] && frame(va / PAGE + j + 1) != frame(va / PAGE + j) + PAGE
    requires w.offset == j * PAGE - va % PAGE + max - PAGE && w.page == va / PAGE + j + 1
    ensures frame(PageAt(va, w)) != frame(va / PAGE + j) + PAGE && Skew(va, w) == 0
  {
    var q := va / PAGE + j;
    assert va + w.offset == q * PAGE + (max - PAGE);
    InPage(q, max - PAGE);
    if max > PAGE { NotBig(va + w.offset); }
  }

  // ---------------------------------------------------------------- the exact limits

  /** A start on a page with a limit of whole pages, or a start on the last byte of a page
      with a limit of two pages. */
  predicate Exact(va: nat, max: nat) { (va % PAGE == 0 && max % PAGE == 0) || CutsHalf(va, max) }

  /** How many pages of a request are to follow one another for it to go wrong. */
  function Pages(max: nat): nat { if max % PAGE != 0 then max / PAGE + 1 else max / PAGE }

  /** Places of the pages for which a request of WrongSize goes wrong: any, if the limit is
      below the rest of the first page; below a page, if the second page does not follow the
      first; else, if as many pages follow one another as a run can take. */
  ghost predicate Misplaced(frame: Frames, va: nat, max: nat) {
    var p := va / PAGE;
    if max < PAGE then
      && frame(p) % PAGE == 0 && frame(p + 1) % PAGE == 0 && frame(p + 2) % PAGE == 0
      && (PAGE <= va % PAGE + max ==> frame(p) + PAGE != frame(p + 1))
    else Placed(frame, va, max % PAGE != 0, Pages(max))
  }

  function WrongSize(va: nat, max: nat): nat {
    var off := va % PAGE;
    if max < PAGE then if off + max < PAGE then max + 1 else PAGE - off + max + 1
    else Pages(max) * PAGE + (if max == 2 * PAGE then 1 else PAGE - off)
  }

  /** With pages in such places the request goes wrong. */
  lemma MisplacedWrong(frame: Frames, va: nat, max: nat)
    requires max > 0 && !Exact(va, max) && Misplaced(frame, va, max)
    ensures !Right(frame, va, WrongSize(va, max), max)
  {
    hide Right, Placed;
    var off, i := va % PAGE, max / PAGE;
    assert max == i * PAGE + max % PAGE;
    if max < PAGE {
      if off + max < PAGE { CutAtStart(frame, va, max); } else { CutInside(frame, va, max); }
    } else {
      var gap := max % PAGE != 0;
      var j := Pages(max);
      assert Grown(va, gap, j) == max - (if gap then max % PAGE else off);
      if max < 2 * PAGE {
        Undershoots(frame, va, max, gap, j);
      } else {
        Overshoots(frame, va, max, gap, j, if max == 2 * PAGE then off + 1 else PAGE);
      }
    }
  }

  /** Such places, all in the memory that entries can address. */
  function Places(va: nat, max: nat): Frames {
    (q: nat) => if max < PAGE then (if q == va / PAGE + 1 then 2 * PAGE else 0)
                else if From(va, max % PAGE != 0) <= q <= va / PAGE + Pages(max) then (q - From(va, max % PAGE != 0)) * PAGE
                else 0
  }

  lemma PlacesMisplaced(va: nat, max: nat)
    requires 0 < max < ADDR_LIMIT
    ensures OnPages(Places(va, max)) && Misplaced(Places(va, max), va, max)
  {
    var frame, p := Places(va, max), va / PAGE;
    var lo, j := From(va, max % PAGE != 0), Pages(max);
    forall q: nat ensures frame(q) % PAGE == 0 && frame(q) + PAGE <= ADDR_LIMIT {
      if max >= PAGE && lo <= q <= p + j { MultipleOfPage(q - lo); }
    }
    if max >= PAGE {
      assert frame(lo) == 0;
      assert frame(p + j) == (p + j - lo) * PAGE && frame(p + j + 1) == 0;
    }
  }

  lemma MultipleOfPage(x: nat)
    ensures x * PAGE % PAGE == 0
  {
  }

  /** paging_iovec goes right for every size, wherever in memory the pages lie, exactly if it
      starts on a page with a limit of whole pages, or on the last byte of a page with a limit
      of two, or if the limit is more than the memory that entries can address. */
  lemma RightIff(va: nat, max: nat)
    requires max > 0
    ensures (forall frame: Frames, size: nat :: OnPages(frame) ==> Right(frame, va, size, max))
            <==> Exact(va, max) || max >= ADDR_LIMIT
  {
    hide Right, OnPages, Misplaced, Places, WrongSize;
    if Exact(va, max) || max >= ADDR_LIMIT {
      forall frame: Frames, size: nat | OnPages(frame) ensures Right(frame, va, size, max) { GoodRight(frame, va, size, max); }
    } else {
      PlacesMisplaced(va, max);
      MisplacedWrong(Places(va, max), va, max);
    }
  }

  /** With a limit of zero the loop makes no progress. */
  lemma {:induction false} ZeroLimit(frame: Frames, va: nat, size: nat, n: nat)
    ensures After(frame, va, size, 0, n).offset == 0
  {
    hide Turn;
    if n > 0 {
      ZeroLimit(frame, va, size, n - 1);
      var w := After(frame, va, size, 0, n - 1);
      if w.offset < size { ZeroTurn(frame, va, size, w); }
    }
  }

  lemma ZeroTurn(frame: Frames, va: nat, size: nat, w: Trail)
    requires w.offset < size
    ensures Turn(frame, va, size, 0, w).offset == w.offset
  {
    hide PageAt, Skew, ChunkAt;
    assert ChunkAt(va, size, 0, w) == 0;
  }
}
