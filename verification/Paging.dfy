/** boot/paging.cc: building page tables in place. */
module Paging {
  import opened Modular
  import opened PageWalk
  import opened PhysicalRuns

  /** Bytes covered by n entries at a level. */
  function Bytes(n: int, level: nat): int {
    if level == 0 then n * 0x1000 else if level == 1 then n * 0x20_0000
    else if level == 2 then n * 0x4000_0000 else n * 0x80_0000_0000
  }

  lemma BytesIndex(g: int, k: nat)
    requires k <= 2
    ensures Index(Bytes(g, k) / PAGE, k) == g && Bytes(g, k) % PAGE == 0
    ensures Bytes(g + 1, k) == Bytes(g, k) + Span(k)
    ensures Bytes(g, k) % Span(k + 1) == 0 <==> g % 512 == 0
  {
  }

  /** The page number a 64-bit linear address has within the 48 bits the walk uses. */
  function PageOf(linear: nat): (pn: int)
    ensures IsPage(pn)
  {
    linear / PAGE % LINEAR_PAGES
  }

  lemma SlotOfLinear(linear: nat, level: nat)
    requires level <= 3
    ensures linear / Span(level) % 512 == Index(PageOf(linear), level) % 512
  {
    var p := linear / PAGE;
    var q := p / LINEAR_PAGES;
    SlotMasked(q, PageOf(linear), level);
    assert linear / Span(level) == Index(p, level);
  }

  lemma SlotMasked(q: int, pn: int, level: nat)
    requires level <= 3
    ensures Index(q * LINEAR_PAGES + pn, level) % 512 == Index(pn, level) % 512
  {
    if level == 0 {
      DivShift(pn, 512, q * 0x800_0000);
    } else if level == 1 {
      DivShift(pn, 512, q * 0x800_0000);
      DivShift(pn / 512, 512, q * 0x4_0000);
    } else if level == 2 {
      DivShift(pn, 0x4_0000, q * 0x4_0000);
      DivShift(pn / 0x4_0000, 512, q * 512);
    } else {
      DivShift(pn, 0x800_0000, q * 512);
      DivShift(pn / 0x800_0000, 512, q);
    }
  }

  /** Result of paging_find_pte: the loader halted, no entry, or a pointer to one. */
  datatype PtePtr = Panic | Null | Entry(table: nat, slot: int)

  class PageTables {
    var root: nat
    var tables: map<nat, seq<Pte>>
    var pool: seq<nat> // pages alloc_high has left to give
    ghost var place: map<nat, Place>

    ghost function View(): Space
      reads this
    {
      Space(root, tables, place)
    }

    ghost predicate Valid()
      reads this
    {
      && WellFormed(View())
      && (forall i :: 0 <= i < |pool| ==> IsTable(pool[i]) && pool[i] !in tables)
      && (forall i, j :: 0 <= i < j < |pool| ==> pool[i] != pool[j])
    }

    constructor (root: nat, pool: seq<nat>)
      requires IsTable(root)
      requires forall i :: 0 <= i < |pool| ==> IsTable(pool[i]) && pool[i] != root
      requires forall i, j :: 0 <= i < j < |pool| ==> pool[i] != pool[j]
      ensures Valid() && this.root == root && this.pool == pool
      ensures forall pn :: IsPage(pn) ==> Hw(View(), pn) == Unmapped
    {
      this.root := root;
      this.pool := pool;
      tables := map[root := EmptyTable()];
      place := map[root := Place(3, 0)];
    }

    /** Hangs a cleared page from the pool into an empty slot. */
    method CreateTable(ref: nat, slot: int, linear: nat, ghost level: nat, ghost pn: int) returns (np: nat)
      requires Valid() && pool != [] && IsPage(pn) && 0 < level <= 3
      requires FindFrom(View(), level, pn) == At(ref) && slot == Index(pn, level) % 512
      requires ref in tables && |tables[ref]| == 512
      requires tables[ref][slot].addr % ADDR_LIMIT == 0 && !tables[ref][slot].flags.bit7
      modifies this
      ensures Valid() && Extends(old(View()), View()) && pool == old(pool)[1..]
      ensures FindFrom(View(), level - 1, pn) == At(np)
    {
      hide HwWalk, Find, SlotOk;
      np := pool[0];
      pool := pool[1..];
      var flags := Flags(true, true, linear < 0x8000_0000_0000_0000, false, 0);
      ghost var s := View();
      RootServes(s, pn);
      FindServes(s, s.root, 3, level, pn);
      StepServes(s, ref, level, pn);
      assert CanCreate(s, ref, slot, np, flags);
      place := place[np := Place(level - 1, place[ref].prefix * 512 + slot)];
      tables := tables[np := EmptyTable()];
      tables := tables[ref := tables[ref][slot := Pte(np, flags)]];
      assert View() == Created(s, ref, slot, np, flags);
      CreatedWellFormed(s, ref, slot, np, flags);
      CreatedExtends(s, ref, slot, np, flags);
      CreatedFound(s, ref, slot, np, flags, level, pn);
    }

    /** Walks to the entry of a linear address at level k, creating tables on the
        way when asked to; a large page must not lie on the walk. */
    method FindPte(linear: nat, k: nat, create: bool) returns (r: PtePtr)
      requires Valid() && k <= 2 && !FindFrom(View(), k, PageOf(linear)).Blocked?
      modifies this
      ensures Valid() && Extends(old(View()), View())
      ensures !create ==> View() == old(View()) && pool == old(pool)
      ensures r.Panic? ==> create && pool == []
      ensures r.Null? <==> !create && FindFrom(old(View()), k, PageOf(linear)).Missing?
      ensures r.Entry? ==>
        && FindFrom(View(), k, PageOf(linear)) == At(r.table)
        && r.slot == Index(PageOf(linear), k) % 512
    {
      hide WellFormed, HwWalk, Find;
      ghost var pn := PageOf(linear);
      var ref: nat := root;
      var level: nat := 3;
      RootFound(View(), pn);
      while level != k
        invariant k <= level <= 3 && Valid()
        invariant FindFrom(View(), level, pn) == At(ref)
        invariant Extends(old(View()), View())
        invariant !create ==> View() == old(View()) && pool == old(pool)
      {
        SlotOfLinear(linear, level);
        var slot := linear / Span(level) % 512;
        WalkOne(View(), ref, level, k, pn);
        var next: nat := tables[ref][slot].addr % ADDR_LIMIT;
        if next == 0 {
          if !create { return Null; }
          if pool == [] { return Panic; }
          ghost var s := View();
          next := CreateTable(ref, slot, linear, level, pn);
          ExtendsTrans(old(View()), s, View());
        }
        ref := next;
        level := level - 1;
      }
      SlotOfLinear(linear, k);
      r := Entry(ref, linear / Span(k) % 512);
    }

    /** Writes one leaf entry through a pointer. */
    method WriteLeaf(t: nat, slot: int, e: Pte, ghost k: nat, ghost pn: int)
      requires Valid() && IsPage(pn) && k <= 2 && FindFrom(View(), k, pn) == At(t)
      requires slot == Index(pn, k) % 512 && (k > 0 ==> e.flags.bit7)
      requires t in tables && |tables[t]| == 512
      modifies this
      ensures Valid() && pool == old(pool)
      ensures old(t in tables && |tables[t]| == 512) && View() == Written(old(View()), t, slot, e)
    {
      WrittenFrom(View(), t, e, k, pn);
      tables := tables[t := tables[t][slot := e]];
    }

    /** One turn of the loop of paging_map_physical_impl: look the entry up, at the
        start or when the address enters another table, and fill it. */
    method FillOne(pte: PtePtr, k: nat, vaddr: nat, phys: nat, flags: Flags,
                   ghost s0: Space, ghost g: nat, ghost j: nat, ghost n: nat, ghost addr: nat)
      returns (next: PtePtr)
      requires Valid() && k <= 2 && j < n && Bytes(g + n, k) <= LINEAR_LIMIT && (k > 0 ==> flags.bit7)
      requires vaddr == Bytes(g + j, k) && phys == addr + Bytes(j, k)
      requires Filled(s0, View(), k, g, j, addr, flags) && Unblocked(View(), k, g, n)
      requires Cached(View(), pte, k, g, j, n)
      modifies this
      ensures Valid() && !next.Null?
      ensures next.Panic? ==> pool == []
      ensures next.Entry? ==> Filled(s0, View(), k, g, j + 1, addr, flags) && Unblocked(View(), k, g, n)
      ensures next.Entry? ==> Cached(View(), next, k, g, j + 1, n)
    {
      hide WellFormed, HwWalk, Find, Extends, Filled, Unblocked, Hw, FindFrom;
      ghost var pn := vaddr / PAGE;
      BytesIndex(g + j, k);
      PageOfSmall(vaddr);
      UnblockedAt(View(), k, g, n, pn);
      next := pte;
      if pte.Null? || vaddr % Span(k + 1) == 0 {
        ghost var s := View();
        next := FindPte(vaddr, k, true);
        if next.Panic? { return; }
        LookupKeeps(s0, s, View(), k, g, j, n, addr, flags);
      }
      WriteKeeps(s0, View(), next.table, k, g, j, n, addr, flags, pn);
      WriteLeaf(next.table, next.slot, Pte(phys, flags), k, pn);
      next := Entry(next.table, next.slot + 1);
    }

    /** The loop of paging_map_physical_impl: n consecutive entries at level k from
        number g on. */
    method FillRun(k: nat, g: nat, n: nat, addr: nat, flags: Flags) returns (ok: bool)
      requires Valid() && k <= 2 && Bytes(g + n, k) <= LINEAR_LIMIT && (k > 0 ==> flags.bit7)
      requires Unblocked(View(), k, g, n)
      modifies this
      ensures Valid()
      ensures !ok ==> pool == []
      ensures ok ==> Filled(old(View()), View(), k, g, n, addr, flags)
    {
      hide WellFormed, HwWalk, Find;
      var vaddr := Bytes(g, k);
      var end := vaddr + Bytes(n, k);
      var phys: nat := addr;
      var pte := Null;
      ghost var j := 0;
      while vaddr < end
        invariant 0 <= j <= n && vaddr == Bytes(g + j, k) && phys == addr + Bytes(j, k)
        invariant Valid() && Filled(old(View()), View(), k, g, j, addr, flags)
        invariant Unblocked(View(), k, g, n) && Cached(View(), pte, k, g, j, n)
        decreases n - j
      {
        pte := FillOne(pte, k, vaddr, phys, flags, old(View()), g, j, n, addr);
        if pte.Panic? { return false; }
        phys := phys + Span(k);
        vaddr := vaddr + Span(k);
        j := j + 1;
      }
      ok := true;
    }

    /** paging_map_physical_impl: infer the page size, move the PAT bit of large
        pages, round to whole pages and fill them. */
    method MapInferred(phys: nat, linear64: nat, length: nat, flags: Flags) returns (ok: bool)
      requires Valid() && Rem(phys, 0) == Rem(linear64, 0)
      requires
        var linear := linear64 % LINEAR_LIMIT;
        var k := InferredLevel(phys, linear, length);
        && linear - Rem(linear, k) + RoundUp(length + Rem(linear, k), k) <= LINEAR_LIMIT
        && BytesUnblocked(View(), k, linear - Rem(linear, k), RoundUp(length + Rem(linear, k), k))
      modifies this
      ensures Valid()
      ensures !ok ==> pool == []
      ensures ok ==>
        var linear := linear64 % LINEAR_LIMIT;
        var k := InferredLevel(phys, linear, length);
        RunMapped(old(View()), View(), linear - Rem(linear, k), RoundUp(length + Rem(linear, k), k),
                  phys - Rem(linear, k), k, flags)
    {
      hide WellFormed, HwWalk, Find, Hw, FindFrom, Filled, Unblocked, BytesUnblocked, RunMapped, RoundUp, Translate;
      var linear := linear64 % LINEAR_LIMIT;
      var k := 2;
      while k > 0 && !(Aligned(phys, k) && Aligned(linear, k) && Aligned(length, k))
        invariant 0 <= k <= 2
        invariant InferredLevel(phys, linear, length) <= k
      {
        k := k - 1;
      }
      var pat := if k > 0 && flags.bit7 then PAGE else 0;
      var flags' := if k > 0 then flags.(bit7 := true) else flags;
      var misalignment := Rem(linear, k);
      InferredCongruent(phys, linear64, length);
      var lin: nat := linear - misalignment;
      var base: nat := phys - misalignment;
      var len: nat := RoundUp(length + misalignment, k);
      RunInEntries(lin, len, k);
      BytesToEntries(View(), k, lin, len);
      ghost var s := View();
      ok := FillRun(k, lin / Span(k), len / Span(k), base + pat, flags');
      if ok { FilledBytes(s, View(), k, lin, len, base, pat, flags'); }
    }

    /** Maps one of the five runs, if it is not empty. */
    method MapRun(phys: nat, linear: nat, length: nat, ghost k: nat, x: nat, y: nat, flags: Flags, ghost s0: Space)
      returns (ok: bool)
      requires Valid() && Mappable(phys, linear, length) && k <= 2
      requires InRun(Cut(phys, linear, length), k, x, y)
      requires MappedUpTo(s0, View(), phys, linear, length, flags, x)
      requires RangeUnblocked(s0, phys, linear, length)
      modifies this
      ensures Valid()
      ensures !ok ==> pool == []
      ensures ok ==> MappedUpTo(s0, View(), phys, linear, length, flags, y)
    {
      hide *;
      ok := true;
      if y > x {
        ghost var s := View();
        RunShape(phys, linear, length, k, x, y);
        RunReady(s0, s, phys, linear, length, flags, k, x, y);
        ok := MapInferred(x, x + linear - phys, y - x, flags);
        if ok { RunDone(s0, s, View(), phys, linear, length, flags, k, x, y); }
      } else {
        CutTiles(phys, linear, length);
        RunOrder(phys, linear, length, k, x, y);
      }
    }

    /** paging_map_physical: maps the 4 KiB pages of a physical range at a linear
        address with the largest pages that fit, and nothing else. */
    method MapPhysical(phys: nat, linear: nat, length: nat, flags: Flags) returns (r: MapResult)
      requires Valid()
      requires Rem(phys, 0) == Rem(linear, 0) ==>
        Mappable(phys, linear, length) && RangeUnblocked(View(), phys, linear, length)
      modifies this
      ensures Valid()
      ensures r.Rejected? <==> Rem(phys, 0) != Rem(linear, 0)
      ensures r.Rejected? ==> View() == old(View()) && pool == old(pool)
      ensures r.OutOfPages? ==> pool == []
      ensures r.Done? ==>
        forall va :: 0 <= va < LINEAR_LIMIT ==>
          Translate(View(), va) == Wanted(old(View()), phys, linear, length, flags, va)
    {
      hide WellFormed, Hw, FindFrom, Rem, Translate, MappedUpTo, RangeUnblocked, Cut, Span;
      if Rem(phys, 0) != Rem(linear, 0) { return Rejected; }
      var c := Cut(phys, linear, length);
      CutTiles(phys, linear, length);
      CutNatural(phys, linear, length);
      ghost var s0 := View();
      MappedNothing(s0, phys, linear, length, flags);
      var ok := MapRun(phys, linear, length, 0, c.a, c.b, flags, s0);
      if !ok { return OutOfPages; }
      ok := MapRun(phys, linear, length, 1, c.b, c.c, flags, s0);
      if !ok { return OutOfPages; }
      ok := MapRun(phys, linear, length, 2, c.c, c.d, flags, s0);
      if !ok { return OutOfPages; }
      ok := MapRun(phys, linear, length, 1, c.d, c.e, flags, s0);
      if !ok { return OutOfPages; }
      ok := MapRun(phys, linear, length, 0, c.e, c.f, flags, s0);
      if !ok { return OutOfPages; }
      MappedAll(s0, View(), phys, linear, length, flags);
      r := Done;
    }
  }

  /** No large page lies on the walk to any of n entries at level k from entry g on. */
  ghost predicate Unblocked(s: Space, k: nat, g: int, n: int) {
    forall pn :: IsPage(pn) && g <= Index(pn, k) < g + n ==> !FindFrom(s, k, pn).Blocked?
  }

  /** The kept pointer is what a fresh walk for entry g + j would give. */
  ghost predicate Cached(s: Space, pte: PtePtr, k: nat, g: int, j: int, n: int)
    requires k <= 2
  {
    && !pte.Panic?
    && (pte.Null? <==> j == 0)
    && (0 < j < n && (g + j) % 512 != 0 ==>
          FindFrom(s, k, Bytes(g + j, k) / PAGE) == At(pte.table) && pte.slot == (g + j) % 512)
  }

  /** s differs from s0 by j leaf entries at level k from entry g on, which map
      consecutive memory from addr on. Walks outside the run meet the same
      large pages as before. */
  ghost predicate Filled(s0: Space, s: Space, k: nat, g: int, j: int, addr: nat, flags: Flags)
    requires k <= 2
  {
    && s.root == s0.root
    && (forall pn {:trigger Hw(s, pn)} :: IsPage(pn) ==>
          Hw(s, pn) == if g <= Index(pn, k) < g + j
                       then LeafOf(RunEntry(addr, k, Index(pn, k) - g, flags), k) else Hw(s0, pn))
    && (forall c: nat, pn {:trigger FindFrom(s, c, pn)} ::
          c <= 3 && IsPage(pn) && !(g <= Index(pn, k) < g + j) && FindFrom(s, c, pn).Blocked? ==>
            FindFrom(s0, c, pn).Blocked?)
  }

  function RunEntry(addr: nat, k: nat, i: nat, flags: Flags): Pte
    requires k <= 2
  {
    Pte(addr + Bytes(i, k), flags)
  }

  lemma PageOfSmall(va: nat)
    requires va < LINEAR_LIMIT
    ensures PageOf(va) == va / PAGE
  {
  }

  lemma UnblockedAt(s: Space, k: nat, g: int, n: int, pn: int)
    requires Unblocked(s, k, g, n) && IsPage(pn) && g <= Index(pn, k) < g + n
    ensures !FindFrom(s, k, pn).Blocked?
  {
  }

  lemma LookupKeeps(s0: Space, s: Space, s': Space, k: nat, g: int, j: int, n: int, addr: nat, flags: Flags)
    requires k <= 2 && Filled(s0, s, k, g, j, addr, flags) && Unblocked(s, k, g, n) && Extends(s, s')
    ensures Filled(s0, s', k, g, j, addr, flags) && Unblocked(s', k, g, n)
  {
  }

  lemma WriteKeeps(s0: Space, s: Space, t: nat, k: nat, g: int, j: nat, n: nat, addr: nat, flags: Flags, pn: int)
    requires WellFormed(s) && k <= 2 && j < n && 0 <= g && Bytes(g + n, k) <= LINEAR_LIMIT
    requires Filled(s0, s, k, g, j, addr, flags) && Unblocked(s, k, g, n) && (k > 0 ==> flags.bit7)
    requires pn == Bytes(g + j, k) / PAGE && IsPage(pn) && Index(pn, k) == g + j && FindFrom(s, k, pn) == At(t)
    ensures t in s.tables && |s.tables[t]| == 512
    ensures
      var s' := Written(s, t, (g + j) % 512, RunEntry(addr, k, j, flags));
      && Filled(s0, s', k, g, j + 1, addr, flags) && Unblocked(s', k, g, n)
      && Cached(s', Entry(t, (g + j) % 512 + 1), k, g, j + 1, n)
  {
    hide WellFormed, Hw, FindFrom, Filled, Unblocked, LeafOf, Bytes, Index, IsPage;
    var e := RunEntry(addr, k, j, flags);
    WrittenFrom(s, t, e, k, pn);
    var s' := Written(s, t, (g + j) % 512, e);
    FilledStep(s0, s, s', k, g, j, n, addr, flags, pn);
    if j + 1 < n && (g + j + 1) % 512 != 0 {
      NextPage(g + j, k, n - j, s, t);
      assert FindFrom(s', k, Bytes(g + j + 1, k) / PAGE) == At(t);
    }
  }

  lemma FilledStep(s0: Space, s: Space, s': Space, k: nat, g: int, j: nat, n: nat, addr: nat, flags: Flags, pn: int)
    requires k <= 2 && Filled(s0, s, k, g, j, addr, flags) && Unblocked(s, k, g, n) && Index(pn, k) == g + j
    requires s'.root == s.root
    requires forall qn :: IsPage(qn) ==>
      Hw(s', qn) == if Index(qn, k) == Index(pn, k) then LeafOf(RunEntry(addr, k, j, flags), k) else Hw(s, qn)
    requires forall c: nat, qn :: c <= 3 && IsPage(qn) && (c >= k || Index(qn, k) != Index(pn, k)) ==>
      FindFrom(s', c, qn) == FindFrom(s, c, qn)
    ensures Filled(s0, s', k, g, j + 1, addr, flags) && Unblocked(s', k, g, n)
  {
  }

  /** The table found for entry g serves entry g + 1 too unless g + 1 starts another. */
  lemma NextPage(g: int, k: nat, n: nat, s: Space, t: nat)
    requires k <= 2 && 0 <= g && 1 < n && Bytes(g + n, k) <= LINEAR_LIMIT && (g + 1) % 512 != 0
    requires FindFrom(s, k, Bytes(g, k) / PAGE) == At(t)
    ensures IsPage(Bytes(g + 1, k) / PAGE)
    ensures FindFrom(s, k, Bytes(g + 1, k) / PAGE) == At(t)
  {
    BytesIndex(g, k);
    BytesIndex(g + 1, k);
    FindShared(s, s.root, 3, k, Bytes(g, k) / PAGE, Bytes(g + 1, k) / PAGE);
  }

  lemma RootFound(s: Space, pn: int)
    requires WellFormed(s)
    ensures FindFrom(s, 3, pn) == At(s.root)
  {
  }

  /** One step of the loader's walk from the root. */
  lemma WalkOne(s: Space, ref: nat, level: nat, k: nat, pn: int)
    requires WellFormed(s) && k < level <= 3 && IsPage(pn) && FindFrom(s, level, pn) == At(ref)
    requires !FindFrom(s, k, pn).Blocked?
    ensures ref in s.tables && |s.tables[ref]| == 512
    ensures
      var e := s.tables[ref][Index(pn, level) % 512];
      && !e.flags.bit7
      && (e.addr % ADDR_LIMIT == 0 ==> FindFrom(s, k, pn).Missing?)
      && (e.addr % ADDR_LIMIT != 0 ==> FindFrom(s, level - 1, pn) == At(e.addr % ADDR_LIMIT))
  {
    RootServes(s, pn);
    FindServes(s, s.root, 3, level, pn);
    StepServes(s, ref, level, pn);
    FindSplit(s, s.root, 3, level, k, pn);
    FindSplit(s, s.root, 3, level, level - 1, pn);
    var e := s.tables[ref][Index(pn, level) % 512];
    if e.addr % ADDR_LIMIT != 0 && !e.flags.bit7 {
      assert TableOk(s, e.addr);
      assert Find(s, ref, level, level - 1, pn) == Find(s, e.addr, level - 1, level - 1, pn);
    }
  }

  lemma ExtendsTrans(a: Space, b: Space, c: Space)
    requires Extends(a, b) && Extends(b, c) && WellFormed(a) && WellFormed(b)
    ensures Extends(a, c)
  {
  }

  // --------------------------------------------------------- runs in bytes

  function Shown(flags: Flags, phys: int, k: nat): Mapping {
    if flags.present then Mapped(phys, k, flags) else Fault
  }

  /** Exactly the bytes [lin, lin + len) are mapped anew, to consecutive memory
      from phys on, with pages of one size; walks outside meet no new large page. */
  ghost predicate RunMapped(s0: Space, s: Space, lin: int, len: int, phys: int, k: nat, flags: Flags) {
    && (forall va {:trigger Translate(s, va)} :: 0 <= va < LINEAR_LIMIT ==>
          Translate(s, va) == if lin <= va < lin + len then Shown(flags, phys + va - lin, k) else Translate(s0, va))
    && (forall c: nat, pn {:trigger FindFrom(s, c, pn)} ::
          c <= 3 && IsPage(pn) && !(lin <= pn * PAGE < lin + len) && FindFrom(s, c, pn).Blocked? ==>
            FindFrom(s0, c, pn).Blocked?)
  }

  /** No large page lies on the walk to the level-k entry of any byte of [lin, lin + len). */
  ghost predicate BytesUnblocked(s: Space, k: nat, lin: int, len: int) {
    forall pn {:trigger FindFrom(s, k, pn)} :: IsPage(pn) && lin <= pn * PAGE < lin + len ==> !FindFrom(s, k, pn).Blocked?
  }

  /** The source asserts that both addresses have the same offset in the inferred page. */
  lemma InferredCongruent(phys: nat, linear64: nat, length: nat)
    requires Rem(phys, 0) == Rem(linear64, 0)
    ensures
      var linear := linear64 % LINEAR_LIMIT;
      var k := InferredLevel(phys, linear, length);
      && Rem(phys, k) == Rem(linear, k) && Rem(linear, k) <= phys && Rem(linear, k) <= linear
      && Aligned(linear - Rem(linear, k), k) && Aligned(phys - Rem(linear, k), k)
  {
    var linear := linear64 % LINEAR_LIMIT;
    ModMod(linear64, PAGE, LINEAR_PAGES);
    var k := InferredLevel(phys, linear, length);
    ModRest(linear, Span(k));
    ModRest(phys, Span(k));
  }

  lemma RunInEntries(lin: nat, len: nat, k: nat)
    requires k <= 2 && Aligned(lin, k) && Aligned(len, k)
    ensures lin == Bytes(lin / Span(k), k) && len == Bytes(len / Span(k), k)
    ensures lin + len == Bytes(lin / Span(k) + len / Span(k), k)
  {
  }

  /** A byte is in a run of whole pages exactly if its entry is. */
  lemma InEntries(va: int, g: int, n: int, k: nat)
    requires k <= 2
    ensures Bytes(g, k) <= va < Bytes(g + n, k) <==> g <= Index(va / PAGE, k) < g + n
    ensures va == Bytes(Index(va / PAGE, k), k) + Rem(va, k)
  {
  }

  lemma BytesToEntries(s: Space, k: nat, lin: nat, len: nat)
    requires k <= 2 && Aligned(lin, k) && Aligned(len, k) && BytesUnblocked(s, k, lin, len)
    ensures Unblocked(s, k, lin / Span(k), len / Span(k))
  {
  }

  lemma FilledBytes(s0: Space, s: Space, k: nat, lin: nat, len: nat, base: nat, pat: nat, flags: Flags)
    requires k <= 2 && Aligned(lin, k) && Aligned(len, k) && Aligned(base, k)
    requires pat == 0 || (pat == PAGE && k > 0)
    requires Filled(s0, s, k, lin / Span(k), len / Span(k), base + pat, flags)
    requires k > 0 ==> flags.bit7
    ensures RunMapped(s0, s, lin, len, base, k, Asked(flags, k, pat))
  {
    hide FindFrom, Hw, Index, Rem, Translate, Bytes, Span;
    var g, n := lin / Span(k), len / Span(k);
    RunInEntries(lin, len, k);
    forall va | 0 <= va < LINEAR_LIMIT
      ensures Translate(s, va) == if lin <= va < lin + len then Shown(Asked(flags, k, pat), base + va - lin, k) else Translate(s0, va)
    {
      FilledByte(s0, s, k, g, n, base, pat, flags, va);
    }
    forall c: nat, pn | c <= 3 && IsPage(pn) && !(lin <= pn * PAGE < lin + len) && FindFrom(s, c, pn).Blocked?
      ensures FindFrom(s0, c, pn).Blocked?
    {
      InEntries(pn * PAGE, g, n, k);
      assert pn * PAGE / PAGE == pn;
    }
  }

  lemma FilledByte(s0: Space, s: Space, k: nat, g: nat, n: nat, base: nat, pat: nat, flags: Flags, va: int)
    requires k <= 2 && Aligned(base, k) && (pat == 0 || (pat == PAGE && k > 0))
    requires Filled(s0, s, k, g, n, base + pat, flags) && 0 <= va < LINEAR_LIMIT && (k > 0 ==> flags.bit7)
    ensures Translate(s, va) == if Bytes(g, k) <= va < Bytes(g + n, k)
                                then Shown(Asked(flags, k, pat), base + va - Bytes(g, k), k) else Translate(s0, va)
  {
    hide FindFrom, Hw, Index, Rem, Span;
    InEntries(va, g, n, k);
    assert IsPage(va / PAGE);
    if Bytes(g, k) <= va < Bytes(g + n, k) { LeafAddress(base, pat, k, Index(va / PAGE, k) - g); }
  }

  /** The flags asked for, when the PAT bit of a large page went into its address. */
  function Asked(flags: Flags, k: nat, pat: nat): Flags {
    if k == 0 then flags else flags.(bit7 := pat != 0)
  }

  /** Large pages begin at even page numbers, so bit 12 is the PAT bit alone. */
  lemma LargeAddress(base: nat, pat: nat, k: nat, i: nat)
    requires 0 < k <= 2 && Aligned(base, k) && (pat == 0 || pat == PAGE)
    ensures (base + pat + Bytes(i, k)) / PAGE % 2 == pat / PAGE
  {
    var half := Span(k) / (2 * PAGE);
    assert Span(k) == 2 * PAGE * half && base == Span(k) * (base / Span(k)) && Bytes(i, k) == Span(k) * i;
    var m := half * (base / Span(k)) + half * i;
    assert base + Bytes(i, k) == PAGE * (2 * m);
    DivShift(pat, PAGE, 2 * m);
    DivShift(pat / PAGE, 2, m);
  }

  /** Entry i of a run translates to page i of its memory: the PAT bit is no address bit. */
  lemma LeafAddress(base: nat, pat: nat, k: nat, i: nat)
    requires k <= 2 && Aligned(base, k) && (pat == 0 || (pat == PAGE && k > 0))
    ensures var a := base + pat + Bytes(i, k); a - Rem(a, k) == base + Bytes(i, k) && (k > 0 ==> (a / PAGE % 2 == 1 <==> pat != 0))
  {
    if k > 0 { LargeAddress(base, pat, k, i); }
    BytesSpan(i, k);
    hide Bytes, Span;
    var q := base / Span(k);
    assert base == Span(k) * q;
    DivModUnique(base + pat + Bytes(i, k), Span(k), q + i, pat);
  }

  lemma BytesSpan(i: int, k: nat)
    requires k <= 2
    ensures Bytes(i, k) == Span(k) * i && Span(k) >= PAGE && (k > 0 ==> Span(k) > PAGE)
  {
  }

  // ------------------------------------------- mapping a physical range

  datatype MapResult = Rejected | OutOfPages | Done

  /** Where the first page of the range goes in the 48-bit linear space. */
  function LinearStart(phys: nat, linear: nat): int { linear % LINEAR_LIMIT - linear % PAGE }

  /** The addresses agree in their page offset, the physical range is one a page
      table can hold, and the linear range does not run over the top. */
  predicate Mappable(phys: nat, linear: nat, length: nat) {
    var r := Cut(phys, linear, length);
    && Rem(phys, 0) == Rem(linear, 0) && phys + length <= PHYS_LIMIT
    && LinearStart(phys, linear) + r.f - r.a <= LINEAR_LIMIT
  }

  /** What a linear byte should reach once the range is mapped. */
  ghost function Wanted(s0: Space, phys: nat, linear: nat, length: nat, flags: Flags, va: int): Mapping {
    var r := Cut(phys, linear, length);
    var pa := r.a + va - LinearStart(phys, linear);
    if r.a <= pa < r.f then Shown(flags, pa, BestLevel(r, linear - phys, pa)) else Translate(s0, va)
  }

  /** No page of the range has to be mapped through an existing larger page. */
  ghost predicate RangeUnblocked(s: Space, phys: nat, linear: nat, length: nat) {
    var r := Cut(phys, linear, length);
    forall pn {:trigger IsPage(pn)} :: IsPage(pn) ==>
      var pa := r.a + pn * PAGE - LinearStart(phys, linear);
      r.a <= pa < r.f ==> !FindFrom(s, BestLevel(r, linear - phys, pa), pn).Blocked?
  }

  /** The part of the range below physical address x is mapped as wanted. */
  ghost predicate MappedUpTo(s0: Space, s: Space, phys: nat, linear: nat, length: nat, flags: Flags, x: int) {
    var r := Cut(phys, linear, length);
    && (forall va {:trigger Translate(s, va)} :: 0 <= va < LINEAR_LIMIT ==>
          Translate(s, va) == if va < LinearStart(phys, linear) + x - r.a
                              then Wanted(s0, phys, linear, length, flags, va) else Translate(s0, va))
    && (forall c: nat, pn {:trigger FindFrom(s, c, pn)} ::
          c <= 3 && IsPage(pn) && pn * PAGE >= LinearStart(phys, linear) + x - r.a && FindFrom(s, c, pn).Blocked? ==>
            FindFrom(s0, c, pn).Blocked?)
  }

  lemma CutNatural(phys: nat, linear: nat, length: nat)
    ensures 0 <= Cut(phys, linear, length).a
  {
    RoundDownGreatest(phys, 0, 0);
  }

  lemma RunOrder(phys: nat, linear: nat, length: nat, k: nat, x: int, y: int)
    requires k <= 2 && InRun(Cut(phys, linear, length), k, x, y)
    ensures Cut(phys, linear, length).a <= x <= y <= Cut(phys, linear, length).f
  {
    hide Cut;
    CutTiles(phys, linear, length);
  }

  lemma StartOfPage(phys: nat, linear: nat, a: int)
    requires Rem(phys, 0) == Rem(linear, 0) && Aligned(a, 0) && a <= phys < a + PAGE
    ensures a + linear - phys == linear - linear % PAGE
    ensures (linear - linear % PAGE) % LINEAR_LIMIT == LinearStart(phys, linear)
  {
  }

  /** What paging_map_physical_impl sees of one run. */
  lemma RunShape(phys: nat, linear: nat, length: nat, k: nat, x: nat, y: nat)
    requires k <= 2 && Mappable(phys, linear, length) && InRun(Cut(phys, linear, length), k, x, y) && x < y
    ensures 0 <= x + linear - phys && Rem(x, 0) == Rem(x + linear - phys, 0)
    ensures
      var lin := (x + linear - phys) % LINEAR_LIMIT;
      && lin == LinearStart(phys, linear) + x - Cut(phys, linear, length).a
      && InferredLevel(x, lin, y - x) == k && Rem(lin, k) == 0 && RoundUp(y - x + Rem(lin, k), k) == y - x
      && lin + y - x <= LINEAR_LIMIT
  {
    hide Cut, Rem, RoundUp;
    CutTiles(phys, linear, length);
    var a := Cut(phys, linear, length).a;
    RunOrder(phys, linear, length, k, x, y);
    StartOfPage(phys, linear, a);
    SmallMod(linear - linear % PAGE, x - a, LinearStart(phys, linear));
    CutInferred(phys, linear, length, k, x, y);
    SameRem(phys, linear, 0);
    SameRem(x, x + linear - phys, 0);
    AlignedSum(x, y, k);
    RoundUpLeast(y - x, y - x, k);
  }

  lemma SmallMod(v: nat, d: nat, start: nat)
    requires v % LINEAR_LIMIT == start && start + d < LINEAR_LIMIT
    ensures (v + d) % LINEAR_LIMIT == start + d
  {
  }

  lemma RunReady(s0: Space, s: Space, phys: nat, linear: nat, length: nat, flags: Flags, k: nat, x: nat, y: nat)
    requires k <= 2 && Mappable(phys, linear, length) && InRun(Cut(phys, linear, length), k, x, y) && x < y
    requires MappedUpTo(s0, s, phys, linear, length, flags, x) && RangeUnblocked(s0, phys, linear, length)
    ensures BytesUnblocked(s, k, LinearStart(phys, linear) + x - Cut(phys, linear, length).a, y - x)
  {
    hide Cut, Rem, FindFrom, Translate, BestLevel;
    var start := LinearStart(phys, linear);
    var a := Cut(phys, linear, length).a;
    RunOrder(phys, linear, length, k, x, y);
    forall pn | IsPage(pn) && start + x - a <= pn * PAGE < start + y - a ensures !FindFrom(s, k, pn).Blocked? {
      CutBest(phys, linear, length, k, x, y, a + pn * PAGE - start);
    }
  }

  lemma RunDone(s0: Space, s: Space, s': Space, phys: nat, linear: nat, length: nat, flags: Flags, k: nat, x: nat, y: nat)
    requires k <= 2 && Mappable(phys, linear, length) && InRun(Cut(phys, linear, length), k, x, y) && x < y
    requires MappedUpTo(s0, s, phys, linear, length, flags, x)
    requires RunMapped(s, s', LinearStart(phys, linear) + x - Cut(phys, linear, length).a, y - x, x, k, flags)
    ensures MappedUpTo(s0, s', phys, linear, length, flags, y)
  {
    hide Cut, Rem, FindFrom, Translate, BestLevel;
    var start := LinearStart(phys, linear);
    var a := Cut(phys, linear, length).a;
    RunOrder(phys, linear, length, k, x, y);
    forall va | 0 <= va < LINEAR_LIMIT
      ensures Translate(s', va) == if va < start + y - a
                                   then Wanted(s0, phys, linear, length, flags, va) else Translate(s0, va)
    {
      if start + x - a <= va < start + y - a { CutBest(phys, linear, length, k, x, y, a + va - start); }
    }
  }

  lemma MappedNothing(s0: Space, phys: nat, linear: nat, length: nat, flags: Flags)
    ensures MappedUpTo(s0, s0, phys, linear, length, flags, Cut(phys, linear, length).a)
  {
  }

  lemma MappedAll(s0: Space, s: Space, phys: nat, linear: nat, length: nat, flags: Flags)
    requires MappedUpTo(s0, s, phys, linear, length, flags, Cut(phys, linear, length).f)
    ensures forall va :: 0 <= va < LINEAR_LIMIT ==> Translate(s, va) == Wanted(s0, phys, linear, length, flags, va)
  {
  }
}
