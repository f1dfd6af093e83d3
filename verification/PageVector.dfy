/** boot/paging.cc, paging_iovec: turning a linear range into runs of physical memory. */
module PageVector {
  import opened Modular
  import opened PageWalk
  import opened Paging
  import opened PageCommit
  import opened IovecWalk
  import opened IovecLimits

  /** The address bits of a page's entry, whether present or not. */
  function FrameAt(s: Space, pn: int): nat {
    match FindFrom(s, 0, pn)
    case At(t) => if t in s.tables && |s.tables[t]| == 512 then s.tables[t][pn % 512].addr % ADDR_LIMIT else 0
    case _ => 0
  }

  /** The frames by page number, of which the walk uses 36 bits. */
  function FramesOf(s: Space): Frames { (q: nat) => FrameAt(s, q % LINEAR_PAGES) }

  /** The physical byte the loader computes for a linear byte. */
  function ByteOf(s: Space, va: nat): int { FrameAt(s, PageOf(va)) + va % PAGE }

  function BytesFrom(s: Space, va: nat, n: nat): (r: seq<int>)
    ensures |r| == n
  {
    seq(n, i requires 0 <= i < n => ByteOf(s, va + i))
  }

  lemma SameBytes(s: Space, va: nat, n: nat)
    ensures FrameBytes(FramesOf(s), va, n) == BytesFrom(s, va, n)
  {
    hide FrameAt;
    var l, r := FrameBytes(FramesOf(s), va, n), BytesFrom(s, va, n);
    forall i | 0 <= i < n ensures l[i] == r[i] { SameByte(s, va + i); }
  }

  lemma SameByte(s: Space, va: nat)
    ensures FrameByte(FramesOf(s), va) == ByteOf(s, va)
  {
  }

  /** The number of pages touched by n bytes from va on. */
  function PagesTouched(va: nat, n: nat): nat {
    if n == 0 then 0 else (va % PAGE + n - 1) / PAGE + 1
  }

  /** The linear range does not run over the top, and no large page lies in its way. */
  ghost predicate Readable(s: Space, va: nat, size: nat) {
    && PageOf(va) + PagesTouched(va, size) <= LINEAR_PAGES
    && Unblocked(s, 0, PageOf(va), PagesTouched(va, size))
  }

  /** Some page of the range has no page table. */
  ghost predicate Lacks(s: Space, va: nat, size: nat) {
    exists q :: PageOf(va) <= q < PageOf(va) + PagesTouched(va, size) && FindFrom(s, 0, q).Missing?
  }

  /** Where the rest of a range lies. */
  lemma TailPages(va: nat, size: nat, x: nat)
    requires x < size && PageOf(va) + PagesTouched(va, size) <= LINEAR_PAGES
    ensures PageOf(va) <= PageOf(va + x)
    ensures PageOf(va + x) + PagesTouched(va + x, size - x) == PageOf(va) + PagesTouched(va, size)
    ensures PagesTouched(va + x, size - x) > 0
  {
    var p, d := va / PAGE, (va % PAGE + x) / PAGE;
    assert va == PAGE * p + va % PAGE;
    assert (va + x) / PAGE == p + d && (va + x) % PAGE == (va % PAGE + x) % PAGE;
    assert PagesTouched(va, size) == PagesTouched(va + x, size - x) + d;
    NoWrap(p, d);
  }

  lemma NoWrap(p: nat, d: nat)
    requires p % LINEAR_PAGES + d < LINEAR_PAGES
    ensures (p + d) % LINEAR_PAGES == p % LINEAR_PAGES + d
  {
  }

  lemma TailReadable(s: Space, va: nat, size: nat, x: nat)
    requires Readable(s, va, size) && x < size
    ensures Readable(s, va + x, size - x) && !FindFrom(s, 0, PageOf(va + x)).Blocked?
    ensures Lacks(s, va + x, size - x) ==> Lacks(s, va, size)
    ensures FindFrom(s, 0, PageOf(va + x)).Missing? ==> Lacks(s, va, size)
  {
    TailPages(va, size, x);
    hide FindFrom, PagesTouched, PageOf;
    UnblockedAt(s, 0, PageOf(va), PagesTouched(va, size), PageOf(va + x));
  }

  // ------------------------------------------------------------------ the method

  /** How paging_iovec comes to an end: a page without a page table, an entry read past the
      end of a table, a failed assertion, or the runs. */
  datatype Outcome = NoTable | Overrun | Unequal | Complete

  /** The pointer is at the entry of the page, or past the end of its table. */
  ghost predicate PtrOk(s: Space, pte: PtePtr, w: Trail) {
    && (pte.Null? <==> w.runs == []) && !pte.Panic?
    && (pte.Entry? ==>
          if w.page % 512 == 0 then pte.slot == 512
          else pte.slot == w.page % 512 && FindFrom(s, 0, w.page % LINEAR_PAGES) == At(pte.table))
  }

  lemma PtrStart(s: Space, page: nat)
    ensures PtrOk(s, Null, Trail([], 0, page, false))
  {
  }

  /** One slot on, the pointer is at the entry of the next page. */
  lemma PtrNext(s: Space, page: nat, t: nat, w: Trail)
    requires FindFrom(s, 0, page % LINEAR_PAGES) == At(t) && w.page == page + 1 && w.runs != []
    ensures PtrOk(s, Entry(t, page % 512 + 1), w)
  {
    hide FindFrom;
    SlotNext(page);
    if (page + 1) % 512 != 0 { NextPage(page % LINEAR_PAGES, 0, 2, s, t); }
  }

  lemma SlotNext(page: nat)
    ensures (page + 1) % 512 == 0 <==> page % 512 == 511
    ensures page % LINEAR_PAGES % 512 == page % 512
    ensures (page + 1) % 512 != 0 ==>
              && (page + 1) % 512 == page % 512 + 1 && (page + 1) % LINEAR_PAGES == page % LINEAR_PAGES + 1 < LINEAR_PAGES
              && (page % LINEAR_PAGES + 1) % 512 != 0
  {
    var r, l := page % 512, page % LINEAR_PAGES;
    ModMod(page, 512, LINEAR_PAGES / 512);
    Successor(page, 512);
    Successor(l, 512);
    Successor(page, LINEAR_PAGES);
    assert (LINEAR_PAGES - 1) % 512 == 511;
  }

  lemma Successor(x: nat, d: nat)
    requires d > 1
    ensures (x + 1) % d == if x % d == d - 1 then 0 else x % d + 1
  {
    assert x == d * (x / d) + x % d;
    if x % d == d - 1 {
      assert x + 1 == d * (x / d + 1) + 0;
      DivModUnique(x + 1, d, x / d + 1, 0);
    } else {
      DivModUnique(x + 1, d, x / d, x % d + 1);
    }
  }

  /** What the loop reads from an entry. */
  lemma EntryFrame(s: Space, page: nat, t: nat)
    requires WellFormed(s) && FindFrom(s, 0, page % LINEAR_PAGES) == At(t)
    ensures t in s.tables && |s.tables[t]| == 512 && s.tables[t][page % 512].addr % ADDR_LIMIT == FramesOf(s)(page)
  {
    hide FindFrom, WellFormed;
    SlotNext(page);
    EntrySeen(s, page % LINEAR_PAGES, t);
  }

  /** What keeps the loop from going on without progress: a page looked up again no longer
      follows the last run, and the slots of a table come to an end. */
  function Slack(frame: Frames, va: nat, w: Trail): nat {
    if (va + w.offset) % 0x20_0000 == 0 then
      if w.runs != [] && w.runs[|w.runs| - 1].End() == frame((va + w.offset) / PAGE) then 1 else 0
    else SlotsLeft(w.page)
  }

  function SlotsLeft(page: nat): nat { if page % 512 == 0 then 0 else 512 - page % 512 }

  lemma Progress(frame: Frames, va: nat, size: nat, max: nat, w: Trail)
    requires max > 0 && w.offset < size && Bounded(w.runs, max)
    ensures
      var w' := Turn(frame, va, size, max, w);
      && Bounded(w'.runs, max) && w'.runs != [] && w'.offset >= w.offset
      && (!w'.lost && w'.offset == w.offset ==> Slack(frame, va, w') < Slack(frame, va, w))
  {
    hide ChunkAt, Flatten;
    var c := ChunkAt(va, size, max, w);
    AddExact(w.runs, frame(PageAt(va, w)) + Skew(va, w), c, max);
    SlotNext(w.page);
  }

  /** paging_iovec, whose loop is that of the trail over the frames of the page tables. Unless a
      page has no page table, it comes to its end with the translation of every byte, in order,
      in runs within the limit, exactly if the trail is right, as that of a good request is. */
  method Iovec(pt: PageTables, vaddr: nat, size: nat, max: nat) returns (o: Outcome, runs: seq<Run>, ghost n: nat)
    requires pt.Valid() && max > 0 && Readable(pt.View(), vaddr, size)
    modifies pt
    ensures pt.Valid() && pt.View() == old(pt.View())
    ensures
      var w := After(FramesOf(pt.View()), vaddr, size, max, n);
      && runs == w.runs && !w.lost && Bounded(runs, max)
      && match o
         case Complete => w.offset == size && (size > 0 ==> runs != [])
         case Unequal => w.offset > size
         case Overrun => w.offset < size && Turn(FramesOf(pt.View()), vaddr, size, max, w).lost
         case NoTable => w.offset < size && Lacks(pt.View(), vaddr, size)
    ensures !o.NoTable? ==>
              (o.Complete? && Flatten(runs) == BytesFrom(pt.View(), vaddr, size) <==> Right(FramesOf(pt.View()), vaddr, size, max))
    ensures Good(vaddr, size, max) ==> Right(FramesOf(pt.View()), vaddr, size, max)
  {
    hide WellFormed, FindFrom, Readable, Lacks, PageOf, Extends, Flatten, FrameBytes, BytesFrom, AddChunk, Good, PtrOk, Slack, FramesOf, After, Turn, Bounded;
    ghost var s, frame := pt.View(), FramesOf(pt.View());
    var misalignment := vaddr % PAGE;
    var pte := Null;
    var offset: nat := 0;
    runs, n := [], 0;
    ghost var w := Trail([], 0, vaddr / PAGE, false);
    PtrStart(s, vaddr / PAGE);
    NoTurns(frame, vaddr, size, max);
    assert Bounded([], max) by { NoRuns(max); }
    while offset < size
      invariant pt.Valid() && pt.View() == s && Readable(s, vaddr, size)
      invariant w == After(frame, vaddr, size, max, n) && !w.lost && runs == w.runs && offset == w.offset
      invariant Bounded(runs, max) && misalignment == Skew(vaddr, w) && PtrOk(s, pte, w) && (offset > 0 ==> runs != [])
      decreases size - offset, Slack(frame, vaddr, w)
    {
      ghost var page := PageAt(vaddr, w);
      PtrUse(s, pte, w);
      TurnShape(frame, vaddr, size, max, w);
      if pte.Null? || (vaddr + offset) % 0x20_0000 == 0 {
        TailReadable(s, vaddr, size, offset);
        PageFound(vaddr + offset);
        pte := pt.FindPte(vaddr + offset, 0, false);
        if pte.Null? { o := NoTable; break; }
      } else if pte.slot == 512 {
        o := Overrun;
        break;
      }
      EntryFrame(s, page, pte.table);
      var paddr := pt.tables[pte.table][pte.slot].addr % ADDR_LIMIT + misalignment;
      var chunk := PAGE - misalignment;
      misalignment := 0;
      if chunk > max { chunk := max; }
      if offset + chunk > size { chunk := size - offset; }
      Progress(frame, vaddr, size, max, w);
      NextTurn(frame, vaddr, size, max, n);
      PtrNext(s, page, pte.table, Turn(frame, vaddr, size, max, w));
      w, n := Turn(frame, vaddr, size, max, w), n + 1;
      var a := AddChunk(runs, paddr, chunk, max);
      runs := a.runs;
      offset := offset + a.advance;
      pte := Entry(pte.table, pte.slot + 1);
    }
    if offset >= size { o := if offset == size then Complete else Unequal; }
    if !o.NoTable? { EndsRight(s, vaddr, size, max, n); }
    if Good(vaddr, size, max) { GoodRight(frame, vaddr, size, max); }
  }

  lemma NoTurns(frame: Frames, va: nat, size: nat, max: nat)
    ensures After(frame, va, size, max, 0) == Trail([], 0, va / PAGE, false)
  {
  }

  lemma NoRuns(max: nat)
    ensures Bounded([], max)
  {
  }

  lemma TurnShape(frame: Frames, va: nat, size: nat, max: nat, w: Trail)
    requires w.offset < size
    ensures
      var page := PageAt(va, w);
      var a := AddChunk(w.runs, frame(page) + Skew(va, w), ChunkAt(va, size, max, w), max);
      Turn(frame, va, size, max, w) == Trail(a.runs, w.offset + a.advance, page + 1, w.lost || (!Seeks(va, w) && page % 512 == 0))
  {
  }

  lemma NextTurn(frame: Frames, va: nat, size: nat, max: nat, n: nat)
    requires After(frame, va, size, max, n).offset < size
    ensures After(frame, va, size, max, n + 1) == Turn(frame, va, size, max, After(frame, va, size, max, n))
  {
    hide Turn;
  }

  lemma PtrUse(s: Space, pte: PtePtr, w: Trail)
    requires PtrOk(s, pte, w)
    ensures (pte.Null? <==> w.runs == []) && !pte.Panic?
    ensures pte.Entry? ==> (pte.slot == 512 <==> w.page % 512 == 0)
    ensures pte.Entry? && pte.slot != 512 ==> pte.slot == w.page % 512 && FindFrom(s, 0, w.page % LINEAR_PAGES) == At(pte.table)
  {
    hide FindFrom;
  }

  lemma PageFound(at: nat)
    ensures PageOf(at) == at / PAGE % LINEAR_PAGES && Index(PageOf(at), 0) % 512 == at / PAGE % 512
  {
    SlotNext(at / PAGE);
  }

  /** What the end of the loop says. */
  lemma EndsRight(s: Space, va: nat, size: nat, max: nat, n: nat)
    requires
      var w := After(FramesOf(s), va, size, max, n);
      !w.lost && (w.offset >= size || Turn(FramesOf(s), va, size, max, w).lost)
    ensures
      var w := After(FramesOf(s), va, size, max, n);
      w.offset == size && Flatten(w.runs) == BytesFrom(s, va, size) <==> Right(FramesOf(s), va, size, max)
  {
    hide After, Turn, Flatten, FrameBytes, BytesFrom, FramesOf, Right;
    var frame := FramesOf(s);
    SameBytes(s, va, size);
    if After(frame, va, size, max, n).offset >= size {
      RightAtEnd(frame, va, size, max, n);
    } else {
      NextTurn(frame, va, size, max, n);
      LostWrong(frame, va, size, max, n);
    }
  }

  /** For every start and limit outside the exact ones: with page tables that place the pages
      of the request so, paging_iovec does not give its bytes. */
  method IovecMisplaced(pt: PageTables, vaddr: nat, max: nat) returns (o: Outcome, runs: seq<Run>)
    requires pt.Valid() && max > 0 && !Exact(vaddr, max) && Readable(pt.View(), vaddr, WrongSize(vaddr, max))
    requires Misplaced(FramesOf(pt.View()), vaddr, max)
    modifies pt
    ensures pt.View() == old(pt.View())
    ensures !(o.Complete? && Flatten(runs) == BytesFrom(pt.View(), vaddr, WrongSize(vaddr, max)))
  {
    hide WellFormed, Readable, Lacks, Flatten, BytesFrom, FramesOf, After, Turn, Misplaced, WrongSize, Right, Exact;
    MisplacedWrong(FramesOf(pt.View()), vaddr, max);
    ghost var n;
    o, runs, n := Iovec(pt, vaddr, WrongSize(vaddr, max), max);
  }

  /** For a page that is present and below the address limit of the loader, the
      byte computed is the one the processor reaches. */
  lemma ByteIsTranslated(s: Space, va: nat)
    requires WellFormed(s) && va < LINEAR_LIMIT && FindFrom(s, 0, PageOf(va)).At?
    requires
      var h := Hw(s, PageOf(va));
      h.Leaf? && h.entry.addr < ADDR_LIMIT && h.entry.addr % PAGE == 0
    ensures Translate(s, va).Reaches(ByteOf(s, va))
  {
    hide WellFormed, FindFrom, Hw;
    PageOfSmall(va);
    EntrySeen(s, PageOf(va), FindFrom(s, 0, PageOf(va)).table);
  }
}
