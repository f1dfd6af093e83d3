/** kernel/arch/mmu.h: reaching page tables through the slot of the root table that
    points back to the root. */
module RecursiveMap {
  import opened PageWalk
  import opened Modular

  const WORD: int := 0x1_0000_0000_0000_0000
  const RECURSE: int := 256 // PT_RECURSE

  /** PT_ENTRY: the number of the first 64-bit entry of the table page reached by four slots. */
  function EntryNumber(i0: int, i1: int, i2: int, i3: int): int {
    ((((((i0 * 512) + i1) * 512) + i2) * 512) + i3) * 512
  }

  /** CANONICALIZE: bit 47 of a 48-bit address is copied into bits 63:48. */
  function Canonical(n: nat): (r: nat)
    ensures r % LINEAR_LIMIT == n % LINEAR_LIMIT && r < WORD
  {
    var x := n % LINEAR_LIMIT;
    if x < 0x8000_0000_0000 then x else WORD - LINEAR_LIMIT + x
  }

  /** PT0_ADDR to PT3_ADDR. Level 3 of the source is the page-table level. */
  function TableBase(k: nat): nat
    requires k <= 3
  {
    Canonical(8 * if k == 3 then EntryNumber(RECURSE, 0, 0, 0)
                  else if k == 2 then EntryNumber(RECURSE, RECURSE, 0, 0)
                  else if k == 1 then EntryNumber(RECURSE, RECURSE, RECURSE, 0)
                  else EntryNumber(RECURSE, RECURSE, RECURSE, RECURSE))
  }

  /** The linear address pte[k] that ptes_from_addr computes for an address. */
  function PteAddr(k: nat, addr: nat): nat
    requires k <= 3
  {
    TableBase(k) + 8 * Index(addr % LINEAR_LIMIT / PAGE, 3 - k)
  }

  /** ptes_from_addr: shifts the address down level by level. */
  method PtesFromAddr(pte: array<nat>, addr: nat)
    requires pte.Length == 4
    modifies pte
    ensures forall k :: 0 <= k < 4 ==> pte[k] == PteAddr(k, addr)
  {
    hide TableBase, Index;
    ghost var pn := addr % LINEAR_LIMIT / PAGE;
    IndexZero(pn);
    IndexUp(pn, 0);
    IndexUp(pn, 1);
    IndexUp(pn, 2);
    var a := (addr % LINEAR_LIMIT - addr % PAGE) / PAGE;
    PageNumber(addr);
    pte[3] := TableBase(3) + 8 * a;
    a := a / 512;
    pte[2] := TableBase(2) + 8 * a;
    a := a / 512;
    pte[1] := TableBase(1) + 8 * a;
    a := a / 512;
    pte[0] := TableBase(0) + 8 * a;
  }

  /** Subtracting the page offset first does not change the page number. */
  lemma PageNumber(addr: nat)
    ensures (addr % LINEAR_LIMIT - addr % PAGE) / PAGE == addr % LINEAR_LIMIT / PAGE
  {
  }

  lemma TableBases()
    ensures TableBase(3) == WORD - LINEAR_LIMIT + 0x8000_0000_0000
    ensures TableBase(2) == WORD - LINEAR_LIMIT + 0x8000_0000_0000 + 0x40_0000_0000
    ensures TableBase(1) == WORD - LINEAR_LIMIT + 0x8000_0000_0000 + 0x40_2000_0000
    ensures TableBase(0) == WORD - LINEAR_LIMIT + 0x8000_0000_0000 + 0x40_2010_0000
  {
  }

  /** The page number of an entry address: the table page numbers above it. */
  lemma PageOfEntry(k: nat, addr: nat)
    requires k <= 3
    ensures PteAddr(k, addr) % LINEAR_LIMIT / PAGE ==
            (TableBase(k) % LINEAR_LIMIT) / PAGE + Index(addr % LINEAR_LIMIT / PAGE, 3 - k) / 512
    ensures PteAddr(k, addr) % PAGE == 8 * (Index(addr % LINEAR_LIMIT / PAGE, 3 - k) % 512)
  {
    hide TableBase, Index;
    var x := Index(addr % LINEAR_LIMIT / PAGE, 3 - k);
    var b := TableBase(k) % LINEAR_LIMIT;
    EntryBounds(k, addr);
    DivModUnique(PteAddr(k, addr), LINEAR_LIMIT, TableBase(k) / LINEAR_LIMIT, b + 8 * x);
    DivModUnique(b + 8 * x, PAGE, b / PAGE + x / 512, 8 * (x % 512));
    ModMod(PteAddr(k, addr), PAGE, LINEAR_PAGES);
  }

  lemma EntryBounds(k: nat, addr: nat)
    requires k <= 3
    ensures TableBase(k) % PAGE == 0 && TableBase(k) % LINEAR_LIMIT % PAGE == 0
    ensures 0 <= Index(addr % LINEAR_LIMIT / PAGE, 3 - k) < LINEAR_PAGES
    ensures TableBase(k) % LINEAR_LIMIT + 8 * Index(addr % LINEAR_LIMIT / PAGE, 3 - k) < LINEAR_LIMIT
  {
  }

  /** The entry of an entry: one level up, the table entry is the page-table entry
      of the address at which the entry itself is seen. */
  lemma EntryOfEntry(k: nat, addr: nat)
    requires 1 <= k <= 3
    ensures PteAddr(k - 1, addr) == PteAddr(3, PteAddr(k, addr))
  {
    hide Index;
    PageOfEntry(k, addr);
    TableBases();
    IndexUp(addr % LINEAR_LIMIT / PAGE, 3 - k);
    IndexZero(PteAddr(k, addr) % LINEAR_LIMIT / PAGE);
  }

  lemma IndexZero(x: int)
    ensures Index(x, 0) == x
  {
  }

  /** Every entry address lies in the 512 GiB window of the recursive slot. */
  lemma InWindow(k: nat, addr: nat)
    requires k <= 3
    ensures
      var x := PteAddr(k, addr);
      && x < WORD && x == Canonical(x) && x % 8 == 0
      && Index(x % LINEAR_LIMIT / PAGE, 3) == RECURSE
  {
    hide TableBase, Index, Canonical;
    TableBases();
    EntrySmall(k, addr);
    var i := Index(addr % LINEAR_LIMIT / PAGE, 3 - k);
    WindowAddress(PteAddr(k, addr));
    EightTimes(TableBase(k), i);
  }

  lemma EightTimes(b: nat, i: int)
    requires b % 0x1000 == 0
    ensures (b + 8 * i) % 8 == 0
  {
  }

  lemma WindowAddress(x: nat)
    requires WORD - LINEAR_LIMIT + 0x8000_0000_0000 <= x < WORD - LINEAR_LIMIT + 0x8080_0000_0000
    ensures x == Canonical(x) && Index(x % LINEAR_LIMIT / PAGE, 3) == RECURSE
  {
  }

  /** There is room for the entries of one level between its base and the next. */
  lemma EntrySmall(k: nat, addr: nat)
    requires k <= 3
    ensures var x := Index(addr % LINEAR_LIMIT / PAGE, 3 - k);
            0 <= x && 8 * x < if k == 3 then 0x80_0000_0000 else if k == 2 then 0x4000_0000 else 0x20_0000
  {
  }

  // ------------------------------------------------------ the hardware's view

  /** Slot i of a table is a present pointer to another table. */
  predicate Points(s: Space, t: nat, i: int, u: nat) {
    && t in s.tables && |s.tables[t]| == 512 && 0 <= i < 512
    && s.tables[t][i].flags.present && !s.tables[t][i].flags.bit7 && s.tables[t][i].addr == u
  }

  /** The tables on the walk of page pn below the root. */
  predicate Path(s: Space, pn: int, t2: nat, t1: nat, t0: nat) {
    && Points(s, s.root, Index(pn, 3) % 512, t2)
    && Points(s, t2, Index(pn, 2) % 512, t1)
    && Points(s, t1, Index(pn, 1) % 512, t0)
  }

  /** The slots of the page that shows the page-table entry of page pn. */
  lemma SlotsOfEntry(addr: nat)
    ensures
      var pn := addr % LINEAR_LIMIT / PAGE;
      var qn := PteAddr(3, addr) % LINEAR_LIMIT / PAGE;
      && Index(qn, 3) % 512 == RECURSE && Index(qn, 2) % 512 == Index(pn, 3) % 512
      && Index(qn, 1) % 512 == Index(pn, 2) % 512 && Index(qn, 0) % 512 == Index(pn, 1) % 512
  {
    PageOfEntry(3, addr);
    TableBases();
    var pn := addr % LINEAR_LIMIT / PAGE;
    assert PteAddr(3, addr) % LINEAR_LIMIT / PAGE == 0x8_0000_0000 + pn / 512;
    WindowSlots(pn);
  }

  lemma WindowSlots(pn: int)
    requires IsPage(pn)
    ensures
      var qn := 0x8_0000_0000 + pn / 512;
      && Index(qn, 3) % 512 == RECURSE && Index(qn, 2) % 512 == Index(pn, 3) % 512
      && Index(qn, 1) % 512 == Index(pn, 2) % 512 && Index(qn, 0) % 512 == Index(pn, 1) % 512
  {
    IndexUp(pn, 0);
    IndexUp(pn, 1);
    IndexUp(pn, 2);
    var q := pn / 512;
    DivShift(q, 0x200, 0x400_0000);
    DivShift(q, 0x4_0000, 0x2_0000);
    DivShift(q, 0x800_0000, 0x100);
    DivShift(q / 0x200, 512, 0x2_0000);
    DivShift(q / 0x4_0000, 512, 0x100);
    DivShift(q, 512, 0x400_0000);
  }

  /** With the recursive slot in place, the processor's walk of pte[3] of an address
      ends at that address's own slot in its own page table. */
  lemma ReachesOwnSlot(s: Space, addr: nat, t2: nat, t1: nat, t0: nat)
    requires Points(s, s.root, RECURSE, s.root)
    requires Path(s, addr % LINEAR_LIMIT / PAGE, t2, t1, t0) && t0 % PAGE == 0
    ensures Translate(s, PteAddr(3, addr) % LINEAR_LIMIT).Reaches(t0 + 8 * (Index(addr % LINEAR_LIMIT / PAGE, 0) % 512))
    ensures Path(s, PteAddr(3, addr) % LINEAR_LIMIT / PAGE, s.root, t2, t1)
  {
    hide Index, TableBase;
    var qn := PteAddr(3, addr) % LINEAR_LIMIT / PAGE;
    SlotsOfEntry(addr);
    assert HwWalk(s, t1, 0, qn) == Leaf(s.tables[t1][Index(qn, 0) % 512], 0);
    assert HwWalk(s, t2, 1, qn) == HwWalk(s, t1, 0, qn);
    assert HwWalk(s, s.root, 2, qn) == HwWalk(s, t2, 1, qn);
    assert Hw(s, qn) == HwWalk(s, s.root, 2, qn);
    PageOfEntry(3, addr);
    OffsetKept(PteAddr(3, addr));
  }

  lemma OffsetKept(x: nat)
    ensures x % LINEAR_LIMIT % PAGE == x % PAGE
  {
  }

  /** The same for every level: pte[k] of an address shows its entry at that level. */
  lemma ReachesOwnEntries(s: Space, addr: nat, t2: nat, t1: nat, t0: nat)
    requires Points(s, s.root, RECURSE, s.root)
    requires Path(s, addr % LINEAR_LIMIT / PAGE, t2, t1, t0)
    requires t0 % PAGE == 0 && t1 % PAGE == 0 && t2 % PAGE == 0 && s.root % PAGE == 0
    ensures
      var pn := addr % LINEAR_LIMIT / PAGE;
      && Translate(s, PteAddr(3, addr) % LINEAR_LIMIT).Reaches(t0 + 8 * (Index(pn, 0) % 512))
      && Translate(s, PteAddr(2, addr) % LINEAR_LIMIT).Reaches(t1 + 8 * (Index(pn, 1) % 512))
      && Translate(s, PteAddr(1, addr) % LINEAR_LIMIT).Reaches(t2 + 8 * (Index(pn, 2) % 512))
      && Translate(s, PteAddr(0, addr) % LINEAR_LIMIT).Reaches(s.root + 8 * (Index(pn, 3) % 512))
  {
    hide Index, TableBase, Translate, Points;
    ReachesOwnSlot(s, addr, t2, t1, t0);
    var a3 := PteAddr(3, addr);
    SlotsOfEntry(addr);
    EntryOfEntry(3, addr);
    ReachesOwnSlot(s, a3, s.root, t2, t1);
    var a2 := PteAddr(2, addr);
    SlotsOfEntry(a3);
    EntryOfEntry(2, addr);
    ReachesOwnSlot(s, a2, s.root, s.root, t2);
    SlotsOfEntry(a2);
    EntryOfEntry(1, addr);
    ReachesOwnSlot(s, PteAddr(1, addr), s.root, s.root, s.root);
    SlotsOfEntry(PteAddr(1, addr));
  }
}
