/** boot/paging.cc, the loop of paging_iovec, as a function of where the pages lie. */
module IovecWalk {
  import opened Modular
  import opened PageWalk

  datatype Run = Run(base: nat, size: nat) {
    function End(): nat { base + size }
  }

  // ------------------------------------------------------------ adding a chunk

  /** The runs after one more chunk, and how far the loop goes on. */
  datatype Added = Added(runs: seq<Run>, advance: int)

  /** Grow the last run as far as the limit allows if the chunk follows it. When
      only a part fits, the source advances by max - chunk rather than by chunk. */
  function AddChunk(runs: seq<Run>, base: nat, chunk: nat, max: nat): (a: Added)
    ensures chunk <= max ==> a.advance >= 0
  {
    if runs == [] then Added([Run(base, chunk)], chunk)
    else
      var init, last := runs[..|runs| - 1], runs[|runs| - 1];
      if last.End() != base then Added(runs + [Run(base, chunk)], chunk)
      else if max - last.size >= chunk then Added(init + [Run(last.base, last.size + chunk)], chunk)
      else if max - last.size > 0 then
        var part := max - last.size;
        Added(init + [Run(last.base, max), Run(base + part, chunk - part)], max - chunk)
      else Added(runs + [Run(base, chunk)], chunk)
  }

  /** The chunk either joins the last run whole or starts one: it is never split. */
  predicate Whole(runs: seq<Run>, base: nat, chunk: nat, max: nat) {
    runs != [] ==>
      var last := runs[|runs| - 1];
      last.End() == base ==> last.size + chunk <= max || last.size == max
  }

  predicate Bounded(runs: seq<Run>, max: nat) {
    forall i :: 0 <= i < |runs| ==> 0 < runs[i].size <= max
  }

  function Span1(base: nat, n: nat): (r: seq<int>)
    ensures |r| == n && forall i :: 0 <= i < n ==> r[i] == base + i
  {
    seq(n, i => base + i)
  }

  /** The physical bytes of a list of runs, in order. */
  function Flatten(runs: seq<Run>): seq<int> {
    if runs == [] then []
    else Flatten(runs[..|runs| - 1]) + Span1(runs[|runs| - 1].base, runs[|runs| - 1].size)
  }

  lemma FlattenSnoc(runs: seq<Run>, r: Run)
    ensures Flatten(runs + [r]) == Flatten(runs) + Span1(r.base, r.size)
  {
  }

  /** A chunk that is not split adds exactly its bytes. */
  lemma AddWhole(runs: seq<Run>, base: nat, chunk: nat, max: nat)
    requires Bounded(runs, max) && 0 < chunk <= max && Whole(runs, base, chunk, max)
    ensures
      var a := AddChunk(runs, base, chunk, max);
      && a.advance == chunk && Bounded(a.runs, max) && a.runs != []
      && Flatten(a.runs) == Flatten(runs) + Span1(base, chunk)
  {
  }

  /** Even a chunk that is split adds its bytes, but then the loop goes on as far
      as it should only if the limit is twice the chunk. */
  lemma AddExact(runs: seq<Run>, base: nat, chunk: nat, max: nat)
    requires Bounded(runs, max) && 0 < chunk <= max
    ensures
      var a := AddChunk(runs, base, chunk, max);
      && Flatten(a.runs) == Flatten(runs) + Span1(base, chunk)
      && Bounded(a.runs, max) && a.runs != [] && a.runs[|a.runs| - 1].End() == base + chunk
      && (a.advance == chunk <==> Whole(runs, base, chunk, max) || max == 2 * chunk)
  {
    hide Flatten;
    if Whole(runs, base, chunk, max) {
      AddWhole(runs, base, chunk, max);
    } else {
      var init, last := runs[..|runs| - 1], runs[|runs| - 1];
      var part := max - last.size;
      assert init + [last] == runs;
      FlattenGrow(init, last, part);
      FlattenSnoc(init + [Run(last.base, max)], Run(base + part, chunk - part));
      assert init + [Run(last.base, max)] + [Run(base + part, chunk - part)]
          == init + [Run(last.base, max), Run(base + part, chunk - part)];
      SpanSplit(base, part, chunk - part);
      Assoc(Flatten(runs), Span1(base, part), Span1(base + part, chunk - part));
    }
  }

  lemma FlattenGrow(init: seq<Run>, last: Run, chunk: nat)
    ensures Flatten(init + [Run(last.base, last.size + chunk)]) ==
            Flatten(init + [last]) + Span1(last.base + last.size, chunk)
  {
  }

  lemma Assoc(a: seq<int>, b: seq<int>, c: seq<int>)
    ensures a + (b + c) == (a + b) + c
  {
  }

  lemma SpanSplit(base: nat, n: nat, m: nat)
    ensures Span1(base, n + m) == Span1(base, n) + Span1(base + n, m)
  {
  }

  // ------------------------------------------------------------------ the loop

  /** Where a page's memory lies, by the number of the page. */
  type Frames = nat -> nat

  /** The loop before a turn: the runs so far, how far it went, the page whose entry the
      pointer is at, and whether the pointer ran past the end of a table. */
  datatype Trail = Trail(runs: seq<Run>, offset: nat, page: nat, lost: bool)

  /** The entry is looked up at the start and at 2 MiB boundaries. */
  predicate Seeks(va: nat, w: Trail) { w.runs == [] || (va + w.offset) % 0x20_0000 == 0 }

  function PageAt(va: nat, w: Trail): nat { if Seeks(va, w) then (va + w.offset) / PAGE else w.page }

  function Skew(va: nat, w: Trail): nat { if w.runs == [] then va % PAGE else 0 }

  function Least(x: nat, y: nat): nat { if x < y then x else y }

  /** The rest of the page, at most the limit, at most the rest of the request. */
  function ChunkAt(va: nat, size: nat, max: nat, w: Trail): (c: nat)
    requires w.offset < size
    ensures c <= max && c <= PAGE && w.offset + c <= size && (max > 0 ==> c > 0)
  {
    Least(Least(PAGE - Skew(va, w), max), size - w.offset)
  }

  function Turn(frame: Frames, va: nat, size: nat, max: nat, w: Trail): Trail
    requires w.offset < size
  {
    var page := PageAt(va, w);
    var a := AddChunk(w.runs, frame(page) + Skew(va, w), ChunkAt(va, size, max, w), max);
    Trail(a.runs, w.offset + a.advance, page + 1, w.lost || (!Seeks(va, w) && page % 512 == 0))
  }

  /** The loop after n turns, or after its end. */
  function After(frame: Frames, va: nat, size: nat, max: nat, n: nat): Trail {
    if n == 0 then Trail([], 0, va / PAGE, false)
    else
      var w := After(frame, va, size, max, n - 1);
      if w.offset < size then Turn(frame, va, size, max, w) else w
  }

  /** Where byte x of linear memory lies. */
  function FrameByte(frame: Frames, x: nat): int { frame(x / PAGE) + x % PAGE }

  function FrameBytes(frame: Frames, va: nat, n: nat): (r: seq<int>)
    ensures |r| == n && forall i :: 0 <= i < n ==> r[i] == FrameByte(frame, va + i)
  {
    seq(n, i requires 0 <= i < n => FrameByte(frame, va + i))
  }

  /** The loop ends with every byte of the range, in order, and its assertion holds. */
  ghost predicate Right(frame: Frames, va: nat, size: nat, max: nat) {
    exists n :: Ends(After(frame, va, size, max, n), FrameBytes(frame, va, size))
  }

  predicate Ends(w: Trail, bytes: seq<int>) { w.offset == |bytes| && !w.lost && Flatten(w.runs) == bytes }

  // ------------------------------------------------------- requests that go right

  /** The request is not cut at the limit: it fits one run, or it starts on a page and the
      limit is whole pages. */
  predicate NeverCut(va: nat, n: nat, max: nat) {
    n <= max || (va % PAGE == 0 && max % PAGE == 0)
  }

  /** What is cut at the limit is then a whole page, half the limit. */
  predicate CutsHalf(va: nat, max: nat) { va % PAGE == PAGE - 1 && max == 2 * PAGE }

  /** The limit ends on a page, and what is left after a run up to it fits another run. */
  predicate FitsTwo(va: nat, n: nat, max: nat) { (va + max) % PAGE == 0 && n <= max + (PAGE - va % PAGE) }

  /** What goes right wherever the pages lie. */
  predicate Good(va: nat, n: nat, max: nat) { NeverCut(va, n, max) || CutsHalf(va, max) || FitsTwo(va, n, max) }

  /** Frames as the entries of page tables can hold them. */
  ghost predicate OnPages(frame: Frames) { forall q: nat :: frame(q) % PAGE == 0 && frame(q) + PAGE <= ADDR_LIMIT }

  /** What goes right with pages at these places: also any request with a limit that no run
      in memory can reach. */
  ghost predicate Fine(frame: Frames, va: nat, n: nat, max: nat) {
    Good(va, n, max) || (max >= ADDR_LIMIT && OnPages(frame))
  }

  /** The bytes covered once j pages are done. */
  function Reached(va: nat, n: nat, j: nat): int {
    if j == 0 then 0 else if j * PAGE - va % PAGE < n then j * PAGE - va % PAGE else n
  }

  /** Before the end, the last run is no longer than what was covered; when the request does
      not fit one run it is whole pages, or with a limit of two pages also a byte more, or the
      rest of the limit is whole pages, or of the request. */
  predicate LastRun(runs: seq<Run>, offset: int, va: nat, size: nat, max: nat) {
    runs != [] && offset < size ==> SizeFits(runs[|runs| - 1].size, offset, va, size, max)
  }

  predicate SizeFits(l: int, offset: int, va: nat, size: nat, max: nat) {
    && l <= offset
    && (max < size ==>
          if CutsHalf(va, max) then l in {1, PAGE, PAGE + 1, 2 * PAGE}
          else if FitsTwo(va, size, max) then l + (PAGE - va % PAGE) <= offset || (max - l) % PAGE == 0
          else l % PAGE == 0)
  }

  /** The last run, for a good request or else in memory. */
  predicate RunFits(va: nat, size: nat, max: nat, w: Trail) {
    if Good(va, size, max) then LastRun(w.runs, w.offset, va, size, max)
    else w.runs != [] ==> w.runs[|w.runs| - 1].End() <= ADDR_LIMIT
  }

  /** After j pages everything is as it should be. */
  ghost predicate OnTrack(frame: Frames, va: nat, size: nat, max: nat, w: Trail, j: nat) {
    && w.offset == Reached(va, size, j) <= size && !w.lost && (w.offset < size ==> w.page == va / PAGE + j)
    && (w.runs == [] <==> j == 0)
    && Bounded(w.runs, max) && Flatten(w.runs) == FrameBytes(frame, va, w.offset)
    && RunFits(va, size, max, w)
  }

  /** Where the loop stands after j pages: at the start, or on a page. */
  lemma Stand(va: nat, size: nat, j: nat)
    requires Reached(va, size, j) < size
    ensures j > 0 ==> va + Reached(va, size, j) == (va / PAGE + j) * PAGE
    ensures j > 0 ==> ((va + Reached(va, size, j)) % 0x20_0000 == 0 <==> (va / PAGE + j) % 512 == 0)
    ensures (va + Reached(va, size, j)) / PAGE == va / PAGE + j
    ensures if j == 0 then Reached(va, size, j) == 0 else PAGE - va % PAGE <= Reached(va, size, j)
  {
    var q := va / PAGE + j;
    assert va == PAGE * (va / PAGE) + va % PAGE;
    if j > 0 { BigPage(q); }
  }

  lemma BigPage(q: nat)
    ensures q * PAGE % 0x20_0000 == 0 <==> q % 512 == 0
    ensures q * PAGE / PAGE == q
  {
    assert q == 512 * (q / 512) + q % 512;
    assert q * PAGE == 0x20_0000 * (q / 512) + q % 512 * PAGE;
    DivModUnique(q * PAGE, 0x20_0000, q / 512, q % 512 * PAGE);
  }

  /** What the next chunk comes to: the rest of its page, or of the request. */
  lemma NextChunk(va: nat, size: nat, max: nat, w: Trail, j: nat)
    requires max > 0 && (Good(va, size, max) || max >= PAGE)
    requires w.offset == Reached(va, size, j) < size && (w.runs == [] <==> j == 0)
    ensures
      var c := ChunkAt(va, size, max, w);
      && w.offset + c == Reached(va, size, j + 1) <= size
      && (w.offset + c < size ==> c == PAGE - Skew(va, w))
  {
  }

  lemma Joins(frame: Frames, va: nat, size: nat, max: nat, w: Trail, page: nat, c: nat)
    requires Fine(frame, va, size, max) && RunFits(va, size, max, w) && Bounded(w.runs, max)
    requires w.offset + c <= size && 0 < c <= PAGE && Skew(va, w) + c <= PAGE
    ensures Whole(w.runs, frame(page) + Skew(va, w), c, max) || max == 2 * c
  {
    if !Good(va, size, max) { assert frame(page) + PAGE <= ADDR_LIMIT; }
  }

  lemma RunFitsNext(frame: Frames, va: nat, size: nat, max: nat, w: Trail, page: nat, c: nat, w': Trail)
    requires Fine(frame, va, size, max) && RunFits(va, size, max, w) && Bounded(w.runs, max)
    requires 0 < c <= max && w.offset + c <= size && if w.runs == [] then w.offset == 0 else PAGE - va % PAGE <= w.offset
    requires Skew(va, w) + c <= PAGE
    requires w.offset + c < size ==> c == PAGE - Skew(va, w)
    requires w'.runs == AddChunk(w.runs, frame(page) + Skew(va, w), c, max).runs && w'.offset == w.offset + c
    ensures RunFits(va, size, max, w')
  {
    if Good(va, size, max) {
      LastRunNext(va, size, max, w, frame(page) + Skew(va, w), c);
    } else {
      assert frame(page) + PAGE <= ADDR_LIMIT;
      AddExact(w.runs, frame(page) + Skew(va, w), c, max);
    }
  }

  lemma LastRunNext(va: nat, size: nat, max: nat, w: Trail, base: nat, c: nat)
    requires Good(va, size, max) && LastRun(w.runs, w.offset, va, size, max) && Bounded(w.runs, max)
    requires 0 < c <= max && w.offset + c <= size && if w.runs == [] then w.offset == 0 else PAGE - va % PAGE <= w.offset
    requires w.offset + c < size ==> c == PAGE - Skew(va, w)
    ensures LastRun(AddChunk(w.runs, base, c, max).runs, w.offset + c, va, size, max)
  {
    hide SizeFits, Good;
    LastSize(w.runs, base, c, max);
    var runs' := AddChunk(w.runs, base, c, max).runs;
    if w.offset + c < size {
      if w.runs == [] {
        FirstFits(va, size, max, c);
      } else {
        NextFits(va, size, max, w.offset, w.runs[|w.runs| - 1].size, runs'[|runs'| - 1].size);
      }
    }
  }

  /** The last run is a new one, or grew, or took the rest of a chunk that was cut. */
  lemma LastSize(runs: seq<Run>, base: nat, c: nat, max: nat)
    requires Bounded(runs, max) && 0 < c <= max
    ensures
      var runs' := AddChunk(runs, base, c, max).runs;
      && runs' != []
      && (runs == [] ==> runs'[|runs'| - 1].size == c)
      && (runs != [] ==> NextSize(runs[|runs| - 1].size, c, max, runs'[|runs'| - 1].size))
  {
  }

  predicate NextSize(l: int, c: int, max: int, l': int) {
    l' == c || l' == l + c <= max || (l < max < l + c && l' == l + c - max)
  }

  lemma FirstFits(va: nat, size: nat, max: nat, c: nat)
    requires Good(va, size, max) && c == PAGE - va % PAGE < size
    ensures SizeFits(c, c, va, size, max)
  {
  }

  lemma NextFits(va: nat, size: nat, max: nat, offset: nat, l: nat, l': nat)
    requires Good(va, size, max) && SizeFits(l, offset, va, size, max) && NextSize(l, PAGE, max, l') && l <= max
    requires PAGE - va % PAGE <= offset && offset + PAGE < size && PAGE <= max
    ensures SizeFits(l', offset + PAGE, va, size, max)
  {
    if CutsHalf(va, max) {
    } else if FitsTwo(va, size, max) && max < size {
      if (max - l) % PAGE == 0 { PageSteps(max - l); }
    } else if max < size {
      PageSteps(max - l);
    }
  }

  /** A multiple of the page is zero or at least a page. */
  lemma PageSteps(x: int)
    requires x % PAGE == 0
    ensures x >= 0 ==> x == 0 || x >= PAGE
    ensures (x - PAGE) % PAGE == 0
  {
  }

  /** The bytes of one chunk all lie in one page. */
  lemma ChunkBytes(frame: Frames, va: nat, offset: nat, page: nat, skew: nat, c: nat)
    requires va + offset == page * PAGE + skew && skew + c <= PAGE
    ensures FrameBytes(frame, va, offset) + Span1(frame(page) + skew, c) == FrameBytes(frame, va, offset + c)
  {
    var left, right := FrameBytes(frame, va, offset) + Span1(frame(page) + skew, c), FrameBytes(frame, va, offset + c);
    forall i | 0 <= i < |right| ensures left[i] == right[i] {
      if i >= offset { InPage(page, skew + (i - offset)); }
    }
  }

  lemma InPage(page: nat, o: nat)
    requires o < PAGE
    ensures (page * PAGE + o) / PAGE == page && (page * PAGE + o) % PAGE == o
  {
  }

  lemma TrackStep(frame: Frames, va: nat, size: nat, max: nat, w: Trail, j: nat)
    requires max > 0 && Fine(frame, va, size, max) && OnTrack(frame, va, size, max, w, j) && w.offset < size
    ensures OnTrack(frame, va, size, max, Turn(frame, va, size, max, w), j + 1)
  {
    hide Flatten, FrameBytes, AddChunk, Reached, Whole, RunFits;
    var page, skew, c := PageAt(va, w), Skew(va, w), ChunkAt(va, size, max, w);
    assert page == va / PAGE + j && (!Seeks(va, w) ==> page % 512 != 0) by { Stand(va, size, j); StartsAt(va, size); }
    assert va + w.offset == page * PAGE + skew by { Stand(va, size, j); StartsAt(va, size); }
    assert if w.runs == [] then w.offset == 0 else PAGE - va % PAGE <= w.offset by { Stand(va, size, j); }
    assert Good(va, size, max) || max >= PAGE;
    hide ChunkAt, Skew, Good, Fine;
    NextChunk(va, size, max, w, j);
    SkewFits(va, size, max, w);
    Joins(frame, va, size, max, w, page, c);
    AddExact(w.runs, frame(page) + skew, c, max);
    RunFitsNext(frame, va, size, max, w, page, c, Turn(frame, va, size, max, w));
    ChunkBytes(frame, va, w.offset, page, skew, c);
  }

  lemma StartsAt(va: nat, size: nat)
    ensures Reached(va, size, 0) == 0 && va == va / PAGE * PAGE + va % PAGE
  {
  }

  lemma SkewFits(va: nat, size: nat, max: nat, w: Trail)
    requires w.offset < size
    ensures Skew(va, w) + ChunkAt(va, size, max, w) <= PAGE
  {
  }

  /** Whatever the number of turns, a fine request is on its way or done. */
  lemma {:induction false} StaysOnTrack(frame: Frames, va: nat, size: nat, max: nat, n: nat) returns (j: nat)
    requires max > 0 && Fine(frame, va, size, max)
    ensures OnTrack(frame, va, size, max, After(frame, va, size, max, n), j) && j <= n
    ensures j == n || After(frame, va, size, max, n).offset == size
  {
    hide Turn, Fine;
    j := 0;
    if n > 0 {
      j := StaysOnTrack(frame, va, size, max, n - 1);
      var w := After(frame, va, size, max, n - 1);
      if w.offset < size {
        TrackStep(frame, va, size, max, w, j);
        j := j + 1;
      }
    }
  }

  /** A fine request goes right. */
  lemma GoodRight(frame: Frames, va: nat, size: nat, max: nat)
    requires max > 0 && Fine(frame, va, size, max)
    ensures Right(frame, va, size, max)
  {
    hide After, Fine, Flatten, FrameBytes;
    var n := size + PAGE;
    var j := StaysOnTrack(frame, va, size, max, n);
    var w := After(frame, va, size, max, n);
    assert w.offset == size;
    assert Ends(w, FrameBytes(frame, va, size));
  }

  // ------------------------------------------------------------ how the loop ends

  /** The loop has ended, so more turns change nothing. */
  lemma {:induction false} Stays(frame: Frames, va: nat, size: nat, max: nat, n: nat, k: nat)
    requires After(frame, va, size, max, n).offset >= size
    ensures After(frame, va, size, max, n + k) == After(frame, va, size, max, n)
  {
    hide Turn;
    if k > 0 { Stays(frame, va, size, max, n, k - 1); }
  }

  /** A pointer past the end of a table stays lost. */
  lemma {:induction false} StaysLost(frame: Frames, va: nat, size: nat, max: nat, n: nat, k: nat)
    requires After(frame, va, size, max, n).lost
    ensures After(frame, va, size, max, n + k).lost
  {
    hide AddChunk, ChunkAt, Skew, PageAt, Seeks;
    if k > 0 { StaysLost(frame, va, size, max, n, k - 1); }
  }

  lemma EndsThere(w: Trail, bytes: seq<int>)
    requires Ends(w, bytes)
    ensures w.offset == |bytes| && !w.lost
  {
  }

  /** Where the loop ends decides whether it is right. */
  lemma RightAtEnd(frame: Frames, va: nat, size: nat, max: nat, n: nat)
    requires After(frame, va, size, max, n).offset >= size
    ensures Right(frame, va, size, max) <==> Ends(After(frame, va, size, max, n), FrameBytes(frame, va, size))
  {
    hide After, Ends, FrameBytes;
    forall m: nat | Ends(After(frame, va, size, max, m), FrameBytes(frame, va, size))
      ensures Ends(After(frame, va, size, max, n), FrameBytes(frame, va, size))
    {
      EndsThere(After(frame, va, size, max, m), FrameBytes(frame, va, size));
      if m <= n { Stays(frame, va, size, max, m, n - m); } else { Stays(frame, va, size, max, n, m - n); }
    }
  }

  /** A loop that is lost before its end is not right. */
  lemma LostWrong(frame: Frames, va: nat, size: nat, max: nat, n: nat)
    requires After(frame, va, size, max, n).offset < size && After(frame, va, size, max, n + 1).lost
    ensures !Right(frame, va, size, max)
  {
    hide After, Ends, FrameBytes;
    forall m: nat ensures !Ends(After(frame, va, size, max, m), FrameBytes(frame, va, size)) {
      if Ends(After(frame, va, size, max, m), FrameBytes(frame, va, size)) {
        EndsThere(After(frame, va, size, max, m), FrameBytes(frame, va, size));
        if m <= n { Stays(frame, va, size, max, m, n - m); } else { StaysLost(frame, va, size, max, n + 1, m - (n + 1)); }
      }
    }
  }
}
