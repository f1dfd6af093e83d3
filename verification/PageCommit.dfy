/** boot/paging.cc, paging_map_range: committing memory to a linear range. A first
    pass counts the pages without memory, a second one hands the memory out. */
module PageCommit {
  import opened Modular
  import opened PageWalk
  import opened Paging

  /** A contiguous piece of physical memory from the page factory. */
  datatype Piece = Piece(base: nat, size: nat)

  /** The page factory: the piece it gives at its call number c when asked for n
      bytes for linear address a. */
  type Factory = (nat, nat, nat) -> Piece

  /** Pieces are whole pages, not empty and no larger than asked for. */
  ghost predicate Delivers(f: Factory) {
    forall c: nat, n: nat, a: nat :: n > 0 && n % PAGE == 0 ==> GoodPiece(f(c, n, a), n)
  }

  predicate GoodPiece(p: Piece, n: nat) {
    && 0 < p.size <= n && p.size % PAGE == 0 && p.base % PAGE == 0
    && p.base + p.size <= PHYS_LIMIT
  }

  /** Piece q was the factory's answer at its call number c. */
  ghost predicate CameFrom(f: Factory, c: nat, q: Piece) {
    exists n: nat, a: nat :: q == f(c, n, a) && GoodPiece(q, n)
  }

  ghost predicate AllCameFrom(f: Factory, pieces: seq<Piece>) {
    forall i :: 0 <= i < |pieces| ==> CameFrom(f, i, pieces[i])
  }

  /** The addresses of n pages from base on. */
  function Pages(base: nat, n: nat): (r: seq<nat>)
    ensures |r| == n && forall i :: 0 <= i < n ==> r[i] == base + i * PAGE
  {
    seq(n, i requires 0 <= i < n => base + i * PAGE)
  }

  /** The pages of a list of pieces, in order. */
  function PagesOf(pieces: seq<Piece>): seq<nat> {
    if pieces == [] then []
    else PagesOf(pieces[..|pieces| - 1]) + Pages(pieces[|pieces| - 1].base, pieces[|pieces| - 1].size / PAGE)
  }

  /** How many of the n pages from p on are not mapped. */
  function Unbacked(s: Space, p: int, n: nat): (r: nat)
    ensures r <= n
  {
    if n == 0 then 0 else Unbacked(s, p, n - 1) + (if Hw(s, p + n - 1).Unmapped? then 1 else 0)
  }

  lemma {:induction false} UnbackedGrows(s: Space, p: int, m: nat, n: nat)
    requires m <= n
    ensures Unbacked(s, p, m) <= Unbacked(s, p, n)
  {
    if m < n { UnbackedGrows(s, p, m, n - 1); }
  }

  /** Every page of the first j got the page of memory its rank among the
      unmapped pages gives it; nothing else changed. */
  ghost predicate Committed(s0: Space, s: Space, p: int, j: int, pages: seq<nat>, flags: Flags) {
    && (forall q :: p <= q < p + j && Hw(s0, q).Unmapped? ==> Unbacked(s0, p, q - p) < |pages|)
    && forall q {:trigger Hw(s, q)} :: IsPage(q) ==>
         Hw(s, q) == if p <= q < p + j && Hw(s0, q).Unmapped?
                     then Leaf(Pte(pages[Unbacked(s0, p, q - p)], flags.(present := true)), 0)
                     else Hw(s0, q)
  }

  /** Every page of the range has its page table. */
  ghost predicate TablesReady(s: Space, p: int, j: int) {
    forall q {:trigger FindFrom(s, 0, q)} :: p <= q < p + j ==> FindFrom(s, 0, q).At?
  }

  /** Page number p + j is that of the address j pages on. */
  lemma PageOfNext(linear: nat, j: nat)
    requires linear % PAGE == 0 && PageOf(linear) + j < LINEAR_PAGES
    ensures PageOf(linear + j * PAGE) == PageOf(linear) + j
    ensures (linear + j * PAGE) % 0x20_0000 == 0 <==> (PageOf(linear) + j) % 512 == 0
  {
    var q := linear / PAGE;
    assert linear == PAGE * q;
    DivModUnique(linear + j * PAGE, PAGE, q + j, 0);
    assert q == LINEAR_PAGES * (q / LINEAR_PAGES) + q % LINEAR_PAGES;
    DivModUnique(q + j, LINEAR_PAGES, q / LINEAR_PAGES, q % LINEAR_PAGES + j);
    ModMod(q + j, 512, 0x800_0000);
    LargePage(q + j);
  }

  lemma LargePage(q: nat)
    ensures (PAGE * q) % 0x20_0000 == 0 <==> q % 512 == 0
  {
  }

  /** The level-0 entry found for a page decides what the processor sees. */
  lemma EntrySeen(s: Space, pn: int, t: nat)
    requires WellFormed(s) && IsPage(pn) && FindFrom(s, 0, pn) == At(t)
    ensures t in s.tables && |s.tables[t]| == 512 && Hw(s, pn) == LeafOf(s.tables[t][pn % 512], 0)
  {
    RootServes(s, pn);
    FindServes(s, s.root, 3, 0, pn);
    assert TableOk(s, t);
    HwViaFind(s, s.root, 3, 0, pn);
  }

  /** Both passes keep a pointer into the current page table and look it up again
      at the start and at 2 MiB boundaries: it is always that of a fresh walk. */
  method Seek(pt: PageTables, pte: PtePtr, linear: nat, j: nat, ghost n: nat, create: bool) returns (r: PtePtr)
    requires pt.Valid() && linear % PAGE == 0 && j < n && PageOf(linear) + n <= LINEAR_PAGES
    requires Unblocked(pt.View(), 0, PageOf(linear), n) && Cached(pt.View(), pte, 0, PageOf(linear), j, n)
    modifies pt
    ensures pt.Valid() && Extends(old(pt.View()), pt.View()) && Unblocked(pt.View(), 0, PageOf(linear), n)
    ensures !create ==> pt.View() == old(pt.View()) && pt.pool == old(pt.pool)
    ensures r.Panic? ==> create && pt.pool == []
    ensures r.Null? <==> !create && FindFrom(old(pt.View()), 0, PageOf(linear) + j).Missing?
    ensures r.Entry? ==> r.slot == (PageOf(linear) + j) % 512
    ensures r.Entry? ==> FindFrom(pt.View(), 0, PageOf(linear) + j) == At(r.table)
  {
    hide WellFormed, HwWalk, Find, FindFrom, Hw, Extends, Unblocked, PageOf;
    ghost var p := PageOf(linear);
    PageOfNext(linear, j);
    r := pte;
    ghost var s := pt.View();
    ExtendsSelf(s);
    if pte.Null? || (linear + j * PAGE) % 0x20_0000 == 0 {
      UnblockedAt(s, 0, p, n, p + j);
      r := pt.FindPte(linear + j * PAGE, 0, create);
      StillUnblocked(s, pt.View(), p, n);
    }
  }

  lemma ExtendsSelf(s: Space)
    requires WellFormed(s)
    ensures Extends(s, s)
  {
  }

  lemma StillUnblocked(s: Space, s': Space, p: int, n: int)
    requires Extends(s, s') && Unblocked(s, 0, p, n)
    ensures Unblocked(s', 0, p, n)
  {
  }

  /** The pointer one slot on is the one for the next page. */
  lemma NextCached(s: Space, p: int, j: nat, n: nat, t: nat)
    requires 0 <= p && j < n && p + n <= LINEAR_PAGES && FindFrom(s, 0, p + j) == At(t)
    ensures Cached(s, Entry(t, (p + j) % 512 + 1), 0, p, j + 1, n)
  {
    hide FindFrom;
    if j + 1 < n && (p + j + 1) % 512 != 0 { NextPage(p + j, 0, n - j, s, t); }
  }

  /** First pass: builds missing page tables and counts the bytes needed. */
  method CountNeeded(pt: PageTables, linear: nat, n: nat) returns (ok: bool, needed: nat)
    requires pt.Valid() && linear % PAGE == 0 && PageOf(linear) + n <= LINEAR_PAGES
    requires Unblocked(pt.View(), 0, PageOf(linear), n)
    modifies pt
    ensures pt.Valid() && Extends(old(pt.View()), pt.View()) && Unblocked(pt.View(), 0, PageOf(linear), n)
    ensures !ok ==> pt.pool == []
    ensures ok ==> TablesReady(pt.View(), PageOf(linear), n)
    ensures ok ==> needed == Unbacked(old(pt.View()), PageOf(linear), n) * PAGE
  {
    hide WellFormed, HwWalk, Find, FindFrom, Hw, Extends, Unblocked, PageOf, TablesReady, Cached;
    ghost var p := PageOf(linear);
    var pte := Null;
    ok, needed := true, 0;
    var j := 0;
    CountStart(pt.View(), p, n);
    while j < n
      invariant 0 <= j <= n && pt.Valid()
      invariant Extends(old(pt.View()), pt.View()) && Unblocked(pt.View(), 0, p, n)
      invariant TablesReady(pt.View(), p, j) && Cached(pt.View(), pte, 0, p, j, n)
      invariant needed == Unbacked(old(pt.View()), p, j) * PAGE
    {
      ghost var s := pt.View();
      pte := Seek(pt, pte, linear, j, n, true);
      CountKeeps(old(pt.View()), s, pt.View(), p, j);
      if pte.Panic? { ok := false; return; }
      CountStep(old(pt.View()), pt.View(), p, j, pte.table);
      if !pt.tables[pte.table][pte.slot].flags.present { needed := needed + PAGE; }
      NextCached(pt.View(), p, j, n, pte.table);
      pte := Entry(pte.table, pte.slot + 1);
      j := j + 1;
    }
  }

  lemma CountStart(s: Space, p: int, n: int)
    requires WellFormed(s)
    ensures Extends(s, s) && TablesReady(s, p, 0) && Cached(s, Null, 0, p, 0, n)
  {
  }

  lemma CountKeeps(s0: Space, s: Space, s': Space, p: int, j: int)
    requires Extends(s0, s) && Extends(s, s') && TablesReady(s, p, j)
    requires WellFormed(s0) && WellFormed(s) && 0 <= p && p + j <= LINEAR_PAGES
    ensures Extends(s0, s') && TablesReady(s', p, j)
  {
  }

  /** One page counted: its entry is present exactly if it was mapped at the start. */
  lemma CountStep(s0: Space, s: Space, p: nat, j: nat, t: nat)
    requires WellFormed(s) && Extends(s0, s) && TablesReady(s, p, j) && p + j < LINEAR_PAGES
    requires FindFrom(s, 0, p + j) == At(t)
    ensures TablesReady(s, p, j + 1)
    ensures t in s.tables && |s.tables[t]| == 512
    ensures Unbacked(s0, p, j + 1) == Unbacked(s0, p, j) + if s.tables[t][(p + j) % 512].flags.present then 0 else 1
  {
    hide WellFormed, FindFrom, Hw;
    EntrySeen(s, p + j, t);
  }

  /** What the second pass knows after j of n pages: pages from c on of those
      delivered so far make up the current piece, and the rest is still to be asked for. */
  ghost predicate Handing(pages: seq<nat>, c: nat, cur: Piece, needed: nat, total: nat) {
    && cur.size % PAGE == 0 && |pages| == c + cur.size / PAGE && needed == (total - |pages|) * PAGE
    && (cur.base % PAGE == 0)
    && forall i :: 0 <= i < cur.size / PAGE ==> pages[c + i] == cur.base + i * PAGE
  }

  lemma PagesOfSnoc(pieces: seq<Piece>, q: Piece)
    ensures PagesOf(pieces + [q]) == PagesOf(pieces) + Pages(q.base, q.size / PAGE)
  {
  }

  /** The pages committed stay the same when more memory is delivered. */
  lemma CommittedMore(s0: Space, s: Space, p: int, j: int, pages: seq<nat>, more: seq<nat>, flags: Flags)
    requires Committed(s0, s, p, j, pages, flags)
    ensures Committed(s0, s, p, j, pages + more, flags)
  {
  }

  /** Nothing is done for a page that has memory already. */
  lemma CommittedSkip(s0: Space, s: Space, p: int, j: nat, pages: seq<nat>, flags: Flags, t: nat)
    requires WellFormed(s) && Committed(s0, s, p, j, pages, flags) && IsPage(p + j)
    requires FindFrom(s, 0, p + j) == At(t)
    ensures t in s.tables && |s.tables[t]| == 512
    ensures s.tables[t][(p + j) % 512].flags.present <==> !Hw(s0, p + j).Unmapped?
    ensures s.tables[t][(p + j) % 512].flags.present ==> Committed(s0, s, p, j + 1, pages, flags)
  {
    hide Hw, FindFrom, WellFormed;
    EntrySeen(s, p + j, t);
    assert Hw(s, p + j) == Hw(s0, p + j);
  }

  /** Writing the next page of memory into an unmapped page of the range. */
  lemma CommittedWrite(s0: Space, s: Space, p: int, j: nat, n: nat, pages: seq<nat>, flags: Flags, t: nat)
    requires WellFormed(s) && Committed(s0, s, p, j, pages, flags) && IsPage(p + j)
    requires TablesReady(s, p, n) && Unblocked(s, 0, p, n) && 0 <= p && p + n <= LINEAR_PAGES
    requires FindFrom(s, 0, p + j) == At(t) && Hw(s0, p + j).Unmapped? && Unbacked(s0, p, j) < |pages|
    ensures t in s.tables && |s.tables[t]| == 512
    ensures
      var s' := Written(s, t, (p + j) % 512, Pte(pages[Unbacked(s0, p, j)], flags.(present := true)));
      && Committed(s0, s', p, j + 1, pages, flags) && TablesReady(s', p, n) && Unblocked(s', 0, p, n)
      && FindFrom(s', 0, p + j) == At(t)
  {
    hide Hw, FindFrom, WellFormed, Unbacked, Committed, TablesReady, Unblocked;
    var e := Pte(pages[Unbacked(s0, p, j)], flags.(present := true));
    WrittenFrom(s, t, e, 0, p + j);
    var s' := Written(s, t, (p + j) % 512, e);
    CommittedStep(s0, s, s', p, j, pages, flags);
    SameTables(s, s', p, n);
  }

  lemma CommittedStep(s0: Space, s: Space, s': Space, p: int, j: nat, pages: seq<nat>, flags: Flags)
    requires Committed(s0, s, p, j, pages, flags)
    requires Hw(s0, p + j).Unmapped? && Unbacked(s0, p, j) < |pages|
    requires forall q {:trigger Hw(s', q)} :: IsPage(q) ==>
      Hw(s', q) == if q == p + j then Leaf(Pte(pages[Unbacked(s0, p, j)], flags.(present := true)), 0) else Hw(s, q)
    ensures Committed(s0, s', p, j + 1, pages, flags)
  {
    hide Hw, Unbacked;
  }

  lemma SameTables(s: Space, s': Space, p: int, n: int)
    requires TablesReady(s, p, n) && Unblocked(s, 0, p, n) && 0 <= p && p + n <= LINEAR_PAGES
    requires forall q {:trigger FindFrom(s', 0, q)} :: IsPage(q) ==> FindFrom(s', 0, q) == FindFrom(s, 0, q)
    ensures TablesReady(s', p, n) && Unblocked(s', 0, p, n)
  {
  }

  /** The next page of memory: of the current piece, or of a new one. */
  method TakePage(f: Factory, addr: nat, cur: Piece, needed: nat, calls: nat,
                  ghost pieces: seq<Piece>, ghost c: nat, ghost total: nat)
    returns (page: nat, cur': Piece, needed': nat, calls': nat, ghost pieces': seq<Piece>)
    requires Delivers(f) && c < total && |PagesOf(pieces)| <= total
    requires calls == |pieces| && AllCameFrom(f, pieces)
    requires Handing(PagesOf(pieces), c, cur, needed, total)
    ensures calls' == |pieces'| && AllCameFrom(f, pieces')
    ensures PagesOf(pieces) <= PagesOf(pieces') && c < |PagesOf(pieces')| <= total
    ensures page == PagesOf(pieces')[c] && page % PAGE == 0
    ensures Handing(PagesOf(pieces'), c + 1, cur', needed', total)
    ensures if cur.size > 0 then pieces' == pieces else |pieces'| == |pieces| + 1 && pieces <= pieces'
  {
    hide Handing;
    cur', needed', calls', pieces' := cur, needed, calls, pieces;
    if cur.size == 0 {
      HandingEmpty(PagesOf(pieces), c, cur, needed, total);
      assert GoodPiece(f(calls, needed, addr), needed) && CameFrom(f, calls, f(calls, needed, addr));
      cur' := f(calls, needed, addr);
      calls' := calls + 1;
      needed' := needed - cur'.size;
      PagesOfSnoc(pieces, cur');
      pieces' := pieces + [cur'];
      HandingNew(PagesOf(pieces), c, cur', needed', total);
    }
    page := cur'.base;
    HandingTake(PagesOf(pieces'), c, cur', needed', total);
    cur' := Piece(cur'.base + PAGE, cur'.size - PAGE);
  }

  lemma HandingEmpty(pages: seq<nat>, c: nat, cur: Piece, needed: nat, total: nat)
    requires Handing(pages, c, cur, needed, total) && cur.size == 0 && c < total
    ensures |pages| == c && needed > 0 && needed % PAGE == 0 && needed == (total - c) * PAGE
  {
  }

  lemma HandingNew(pages: seq<nat>, c: nat, q: Piece, rest: nat, total: nat)
    requires |pages| == c < total && q.size <= (total - c) * PAGE && rest == (total - c) * PAGE - q.size
    requires GoodPiece(q, (total - c) * PAGE)
    ensures c + q.size / PAGE <= total && Handing(pages + Pages(q.base, q.size / PAGE), c, q, rest, total)
  {
  }

  lemma HandingTake(pages: seq<nat>, c: nat, cur: Piece, needed: nat, total: nat)
    requires Handing(pages, c, cur, needed, total) && cur.size > 0
    ensures c < |pages| && pages[c] == cur.base && cur.size >= PAGE && cur.base % PAGE == 0
    ensures Handing(pages, c + 1, Piece(cur.base + PAGE, cur.size - PAGE), needed, total)
  {
    var m := cur.size / PAGE;
    assert (cur.size - PAGE) / PAGE == m - 1 && (cur.size - PAGE) % PAGE == 0 && (cur.base + PAGE) % PAGE == 0;
    assert pages[c + 0] == cur.base + 0 * PAGE;
    forall i | 0 <= i < m - 1 ensures pages[c + 1 + i] == cur.base + PAGE + i * PAGE {
      assert pages[c + (i + 1)] == cur.base + (i + 1) * PAGE;
    }
  }

  /** Second pass: gives every page of the range without memory the next page of
      the pieces the factory delivers, and uses up exactly what it asked for. */
  method Assign(pt: PageTables, f: Factory, linear: nat, n: nat, needed0: nat, flags: Flags)
    returns (ghost pieces: seq<Piece>)
    requires pt.Valid() && Delivers(f) && linear % PAGE == 0 && PageOf(linear) + n <= LINEAR_PAGES
    requires Unblocked(pt.View(), 0, PageOf(linear), n) && TablesReady(pt.View(), PageOf(linear), n)
    requires needed0 == Unbacked(pt.View(), PageOf(linear), n) * PAGE
    modifies pt
    ensures pt.Valid() && AllCameFrom(f, pieces)
    ensures |PagesOf(pieces)| == Unbacked(old(pt.View()), PageOf(linear), n)
    ensures Committed(old(pt.View()), pt.View(), PageOf(linear), n, PagesOf(pieces), flags)
  {
    hide WellFormed, HwWalk, Find, FindFrom, Hw, Extends, Unblocked, PageOf, TablesReady, Cached, Committed, Delivers, AllCameFrom,
         Handing, Unbacked, PagesOf;
    ghost var p := PageOf(linear);
    ghost var s0 := pt.View();
    ghost var total := Unbacked(s0, p, n);
    var pte := Null;
    var cur := Piece(0, 0);
    var needed := needed0;
    var calls := 0;
    pieces := [];
    var j := 0;
    AssignStart(s0, p, n, flags);
    HandingStart(f, total, s0, p);
    while j < n
      invariant 0 <= j <= n && pt.Valid() && Unblocked(pt.View(), 0, p, n) && TablesReady(pt.View(), p, n)
      invariant Cached(pt.View(), pte, 0, p, j, n) && calls == |pieces| && AllCameFrom(f, pieces)
      invariant |PagesOf(pieces)| <= total && Handing(PagesOf(pieces), Unbacked(s0, p, j), cur, needed, total)
      invariant Committed(s0, pt.View(), p, j, PagesOf(pieces), flags)
    {
      ReadyAt(pt.View(), p, j, n);
      pte := Seek(pt, pte, linear, j, n, false);
      ghost var s := pt.View();
      CommittedSkip(s0, s, p, j, PagesOf(pieces), flags, pte.table);
      UnbackedNext(s0, p, j);
      if !pt.tables[pte.table][pte.slot].flags.present {
        UnbackedGrows(s0, p, j + 1, n);
        ghost var before := PagesOf(pieces);
        var page;
        page, cur, needed, calls, pieces := TakePage(f, linear + j * PAGE, cur, needed, calls, pieces, Unbacked(s0, p, j), total);
        assert PagesOf(pieces) == before + PagesOf(pieces)[|before|..];
        CommittedMore(s0, s, p, j, before, PagesOf(pieces)[|before|..], flags);
        CommittedWrite(s0, s, p, j, n, PagesOf(pieces), flags, pte.table);
        pt.WriteLeaf(pte.table, pte.slot, Pte(page, flags.(present := true)), 0, p + j);
      }
      NextCached(pt.View(), p, j, n, pte.table);
      pte := Entry(pte.table, pte.slot + 1);
      j := j + 1;
    }
    HandingDone(PagesOf(pieces), total, cur, needed);
  }

  lemma UnbackedNext(s: Space, p: int, j: nat)
    ensures Unbacked(s, p, j + 1) == Unbacked(s, p, j) + if Hw(s, p + j).Unmapped? then 1 else 0
  {
  }

  lemma HandingStart(f: Factory, total: nat, s: Space, p: int)
    ensures PagesOf([]) == [] && Unbacked(s, p, 0) == 0 && AllCameFrom(f, []) && Handing([], 0, Piece(0, 0), total * PAGE, total)
  {
  }

  lemma HandingDone(pages: seq<nat>, total: nat, cur: Piece, needed: nat)
    requires Handing(pages, total, cur, needed, total) && |pages| <= total
    ensures |pages| == total
  {
  }

  lemma AssignStart(s: Space, p: int, n: int, flags: Flags)
    ensures Cached(s, Null, 0, p, 0, n) && Committed(s, s, p, 0, [], flags)
  {
  }

  lemma ReadyAt(s: Space, p: int, j: int, n: int)
    requires TablesReady(s, p, n) && 0 <= j < n
    ensures FindFrom(s, 0, p + j).At?
  {
  }

  /** paging_map_range: every page of the range ends mapped, pages that were mapped
      keep their memory, and the rest get the pages of the pieces delivered, in
      order and without remainder. */
  method MapRange(pt: PageTables, f: Factory, linear: nat, length: nat, flags: Flags)
    returns (ok: bool, ghost pieces: seq<Piece>)
    requires pt.Valid() && Delivers(f) && linear % PAGE == 0
    requires PageOf(linear) + PageCount(length) <= LINEAR_PAGES
    requires Unblocked(pt.View(), 0, PageOf(linear), PageCount(length))
    modifies pt
    ensures pt.Valid() && AllCameFrom(f, pieces)
    ensures !ok ==> pt.pool == []
    ensures ok ==> |PagesOf(pieces)| == Unbacked(old(pt.View()), PageOf(linear), PageCount(length))
    ensures ok ==> Committed(old(pt.View()), pt.View(), PageOf(linear), PageCount(length), PagesOf(pieces), flags)
  {
    hide WellFormed, Hw, FindFrom, Extends, Unblocked, PageOf, TablesReady, Committed, Delivers, CameFrom;
    var n := PageCount(length);
    ghost var s0 := pt.View();
    pieces := [];
    var needed;
    ok, needed := CountNeeded(pt, linear, n);
    if ok {
      ghost var s1 := pt.View();
      SameUnbacked(s0, s1, PageOf(linear), n);
      pieces := Assign(pt, f, linear, n, needed, flags);
      CommittedFrom(s0, s1, pt.View(), PageOf(linear), n, PagesOf(pieces), flags);
    }
  }

  function PageCount(length: nat): nat { (length + PAGE - 1) / PAGE }

  lemma {:induction false} SameUnbacked(s: Space, s': Space, p: int, n: nat)
    requires Extends(s, s') && 0 <= p && p + n <= LINEAR_PAGES
    ensures Unbacked(s', p, n) == Unbacked(s, p, n)
  {
    hide FindFrom, Hw;
    if n > 0 { SameUnbacked(s, s', p, n - 1); }
  }

  lemma CommittedFrom(s0: Space, s1: Space, s: Space, p: int, n: nat, pages: seq<nat>, flags: Flags)
    requires Extends(s0, s1) && Committed(s1, s, p, n, pages, flags) && 0 <= p && p + n <= LINEAR_PAGES
    ensures Committed(s0, s, p, n, pages, flags)
  {
    hide FindFrom, Hw, Unbacked;
    forall m: nat | m <= n ensures Unbacked(s1, p, m) == Unbacked(s0, p, m) {
      SameUnbacked(s0, s1, p, m);
    }
    forall q | p <= q < p + n && Hw(s0, q).Unmapped? ensures Unbacked(s0, p, q - p) < |pages| {
      assert Hw(s1, q).Unmapped?;
    }
  }

  ghost predicate Disjoint(pieces: seq<Piece>) {
    forall i, j :: 0 <= i < j < |pieces| ==>
      pieces[i].base + pieces[i].size <= pieces[j].base || pieces[j].base + pieces[j].size <= pieces[i].base
  }

  /** Every page of a list of pieces lies in one of them. */
  lemma {:induction false} PageInPiece(pieces: seq<Piece>, x: int) returns (i: int)
    requires 0 <= x < |PagesOf(pieces)|
    ensures 0 <= i < |pieces|
    ensures pieces[i].base <= PagesOf(pieces)[x] && PagesOf(pieces)[x] + PAGE <= pieces[i].base + pieces[i].size
  {
    var m := |pieces| - 1;
    if x < |PagesOf(pieces[..m])| {
      i := PageInPiece(pieces[..m], x);
    } else {
      i := m;
    }
  }

  lemma {:induction false} PagesDistinct(pieces: seq<Piece>, x: int, y: int)
    requires Disjoint(pieces) && 0 <= x < y < |PagesOf(pieces)|
    ensures PagesOf(pieces)[x] != PagesOf(pieces)[y]
  {
    var m := |pieces| - 1;
    if y < |PagesOf(pieces[..m])| {
      PagesDistinct(pieces[..m], x, y);
    } else if x < |PagesOf(pieces[..m])| {
      var i := PageInPiece(pieces[..m], x);
    }
  }

  /** Two pages of the range never share memory, if the factory never delivers
      the same memory twice. */
  lemma CommittedDistinct(s0: Space, s: Space, p: int, n: nat, pieces: seq<Piece>, flags: Flags, q: int, r: int)
    requires Committed(s0, s, p, n, PagesOf(pieces), flags) && Disjoint(pieces) && 0 <= p && p + n <= LINEAR_PAGES
    requires p <= q < r < p + n && Hw(s0, q).Unmapped? && Hw(s0, r).Unmapped?
    ensures Hw(s, q).Leaf? && Hw(s, r).Leaf? && Hw(s, q).entry.addr != Hw(s, r).entry.addr
  {
    hide Hw;
    UnbackedGrows(s0, p, q - p + 1, r - p);
    PagesDistinct(pieces, Unbacked(s0, p, q - p), Unbacked(s0, p, r - p));
  }
}
