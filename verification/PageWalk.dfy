/** Four-level page tables held in physical memory: the hardware walk, the
    software walk of the boot loader, and what one entry write does to both.

    A table is a page of 512 entries. Levels count upwards from the leaves:
    level 0 is a page table (4 KiB entries), 1 a page directory (2 MiB),
    2 a PDPT (1 GiB) and 3 the root PML4 (512 GiB). */
module PageWalk {
  const PAGE: int := 4096
  const LINEAR_LIMIT: int := 0x1_0000_0000_0000 // 48-bit linear addresses
  const LINEAR_PAGES: int := 0x10_0000_0000
  const ADDR_LIMIT: int := 0x100_0000_0000 // PTE_ADDR keeps bits 39:12
  const PHYS_LIMIT: int := 0x10_0000_0000_0000 // 52-bit physical addresses

  /** The flag bits of an entry that the walks look at, and the others. Bit 7
      is the page-size bit above level 0 and the PAT bit at level 0. */
  datatype Flags = Flags(present: bool, writable: bool, user: bool, bit7: bool, rest: nat)

  /** One 64-bit entry, split into its address bits 51:12 and its flag bits. */
  datatype Pte = Pte(addr: nat, flags: Flags)

  const NO_FLAGS := Flags(false, false, false, false, 0)
  const ZERO_PTE := Pte(0, NO_FLAGS)

  /** Which entries a table holds: those numbered 512 * prefix and up at its level. */
  datatype Place = Place(level: nat, prefix: int)

  /** The root, every table in memory, and the place each table serves. */
  datatype Space = Space(root: nat, tables: map<nat, seq<Pte>>, place: map<nat, Place>)

  /** Bytes mapped by one entry at a level. */
  function Span(level: nat): (r: int)
    ensures r > 0
  {
    if level == 0 then 0x1000 else if level == 1 then 0x20_0000
    else if level == 2 then 0x4000_0000 else 0x80_0000_0000
  }

  /** The offset of a byte within its page of the size used at a level. */
  function Rem(x: int, level: nat): (r: int)
    ensures 0 <= r < Span(level)
  {
    x % Span(level)
  }

  predicate Aligned(x: int, level: nat) { Rem(x, level) == 0 }

  /** The number of the entry that covers linear page pn at a level. */
  function Index(pn: int, level: nat): int {
    if level == 0 then pn else if level == 1 then pn / 0x200
    else if level == 2 then pn / 0x4_0000 else pn / 0x800_0000
  }

  lemma IndexUp(pn: int, level: nat)
    requires level < 3
    ensures Index(pn, level) / 512 == Index(pn, level + 1)
  {
  }

  predicate IsPage(pn: int) { 0 <= pn < LINEAR_PAGES }

  // ---------------------------------------------------------------- walks

  datatype Hit = Unmapped | Leaf(entry: Pte, level: nat)

  /** The walk of the processor (Intel SDM volume 3A, section 4.5) from table t. */
  function HwWalk(s: Space, t: nat, level: nat, pn: int): Hit
    decreases level
  {
    if t !in s.tables || |s.tables[t]| != 512 then Unmapped
    else
      var e := s.tables[t][Index(pn, level) % 512];
      if !e.flags.present then Unmapped
      else if level == 0 || (level < 3 && e.flags.bit7) then Leaf(e, level)
      else HwWalk(s, e.addr, level - 1, pn)
  }

  /** What a linear page hits from the root. */
  function Hw(s: Space, pn: int): Hit { HwWalk(s, s.root, 3, pn) }

  /** Where a linear byte leads: the physical byte, the size of the page used, and the flags
      of its entry as they would stand in the entry of a 4 KiB page. */
  datatype Mapping = Fault | Mapped(phys: int, level: nat, flags: Flags) {
    /** The byte is reached through a 4 KiB page. */
    predicate Reaches(p: int) { Mapped? && phys == p && level == 0 }
  }

  /** Bit 7 of the entry of a 4 KiB page is the PAT bit; a large page has it in bit 12. */
  function SmallFlags(e: Pte, level: nat): Flags {
    if level == 0 then e.flags else e.flags.(bit7 := e.addr / PAGE % 2 == 1)
  }

  /** Above level 0 the address bits below the page size are not address bits. */
  function Translate(s: Space, va: int): Mapping {
    match Hw(s, va / PAGE)
    case Unmapped => Fault
    case Leaf(e, level) => Mapped(e.addr - Rem(e.addr, level) + Rem(va, level), level, SmallFlags(e, level))
  }

  datatype Reach = Missing | Blocked | At(table: nat)

  /** The loader's own walk from table t down to the table at level k: an entry
      whose address bits are zero is missing. Blocked marks a walk that would
      step through the entry of a large page. */
  function Find(s: Space, t: nat, level: nat, k: nat, pn: int): Reach
    decreases level
  {
    if t !in s.tables || |s.tables[t]| != 512 then Missing
    else if level <= k then At(t)
    else
      var e := s.tables[t][Index(pn, level) % 512];
      if e.flags.bit7 then Blocked
      else if e.addr % ADDR_LIMIT == 0 then Missing
      else Find(s, e.addr % ADDR_LIMIT, level - 1, k, pn)
  }

  function FindFrom(s: Space, k: nat, pn: int): Reach { Find(s, s.root, 3, k, pn) }

  // ----------------------------------------------------------- well-formed

  predicate IsTable(a: nat) { 0 < a < ADDR_LIMIT && a % PAGE == 0 }

  /** Slot i of a table above level 0: nothing, a large page, or the one table
      that serves exactly the addresses of this slot. */
  predicate SlotOk(s: Space, at: Place, i: int, e: Pte) {
    if e.flags.bit7 then at.level < 3
    else if e.addr == 0 then !e.flags.present
    else
      && e.flags.present
      && e.addr in s.place
      && s.place[e.addr].level == at.level - 1
      && s.place[e.addr].prefix == at.prefix * 512 + i
  }

  predicate TableOk(s: Space, t: nat)
    requires t in s.tables && t in s.place
  {
    && IsTable(t) && |s.tables[t]| == 512 && s.place[t].level <= 3
    && (s.place[t].level > 0 ==>
          forall i :: 0 <= i < 512 ==> SlotOk(s, s.place[t], i, s.tables[t][i]))
  }

  predicate WellFormed(s: Space) {
    && s.tables.Keys == s.place.Keys
    && s.root in s.place && s.place[s.root] == Place(3, 0)
    && forall t :: t in s.tables ==> TableOk(s, t)
  }

  /** Table t lies on the walk of pn at this level. */
  predicate Serves(s: Space, t: nat, level: nat, pn: int) {
    t in s.place && s.place[t] == Place(level, Index(pn, level) / 512)
  }

  lemma RootServes(s: Space, pn: int)
    requires WellFormed(s) && IsPage(pn)
    ensures Serves(s, s.root, 3, pn)
  {
  }

  /** A table pointer met on the walk of pn leads to a table that serves pn. */
  lemma StepServes(s: Space, t: nat, level: nat, pn: int)
    requires WellFormed(s) && 0 < level <= 3 && Serves(s, t, level, pn)
    ensures t in s.tables && |s.tables[t]| == 512
    ensures
      var e := s.tables[t][Index(pn, level) % 512];
      !e.flags.bit7 ==>
        && e.addr % ADDR_LIMIT == e.addr
        && (e.addr != 0 ==> e.flags.present && IsTable(e.addr) && Serves(s, e.addr, level - 1, pn))
  {
  }

  /** The loader's walk ends in a table of the level asked for that serves pn. */
  lemma {:induction false} FindServes(s: Space, t: nat, level: nat, k: nat, pn: int)
    requires WellFormed(s) && k <= level <= 3 && Serves(s, t, level, pn)
    ensures Find(s, t, level, k, pn).At? ==> Serves(s, Find(s, t, level, k, pn).table, k, pn)
    decreases level
  {
    if level > k {
      StepServes(s, t, level, pn);
      var e := s.tables[t][Index(pn, level) % 512];
      if !e.flags.bit7 && e.addr != 0 { FindServes(s, e.addr, level - 1, k, pn); }
    }
  }

  /** The loader's walk may stop on the way and go on from there. */
  lemma {:induction false} FindSplit(s: Space, t: nat, level: nat, mid: nat, k: nat, pn: int)
    requires k <= mid <= level
    ensures Find(s, t, level, k, pn) ==
            var r := Find(s, t, level, mid, pn); if r.At? then Find(s, r.table, mid, k, pn) else r
    decreases level
  {
    if level > mid && t in s.tables && |s.tables[t]| == 512 {
      var e := s.tables[t][Index(pn, level) % 512];
      if !e.flags.bit7 && e.addr % ADDR_LIMIT != 0 {
        FindSplit(s, e.addr % ADDR_LIMIT, level - 1, mid, k, pn);
      }
    }
  }

  /** Two pages that share a table at level k share the walk down to it. */
  lemma {:induction false} FindShared(s: Space, t: nat, level: nat, k: nat, pn: int, qn: int)
    requires k <= level <= 3 && Index(pn, k) / 512 == Index(qn, k) / 512
    ensures Find(s, t, level, k, pn) == Find(s, t, level, k, qn)
    decreases level
  {
    if level > k && t in s.tables && |s.tables[t]| == 512 {
      IndexShared(pn, qn, k, level);
      var e := s.tables[t][Index(pn, level) % 512];
      FindShared(s, e.addr % ADDR_LIMIT, level - 1, k, pn, qn);
    }
  }

  lemma {:induction false} IndexShared(pn: int, qn: int, k: nat, level: nat)
    requires k < level <= 3 && Index(pn, k) / 512 == Index(qn, k) / 512
    ensures Index(pn, level) == Index(qn, level)
    decreases level - k
  {
    IndexUp(pn, k);
    IndexUp(qn, k);
    if k + 1 < level { IndexShared(pn, qn, k + 1, level); }
  }

  /** Below level 3, the hardware walk from the root continues from the table the
      loader's walk finds; on a missing table it faults. */
  lemma {:induction false} HwViaFind(s: Space, t: nat, level: nat, k: nat, pn: int)
    requires WellFormed(s) && k <= level <= 3 && Serves(s, t, level, pn)
    ensures match Find(s, t, level, k, pn)
            case Missing => HwWalk(s, t, level, pn) == Unmapped
            case At(u) => HwWalk(s, t, level, pn) == HwWalk(s, u, k, pn)
            case Blocked => true
    decreases level
  {
    if level > k {
      StepServes(s, t, level, pn);
      assert TableOk(s, t);
      var i := Index(pn, level) % 512;
      assert SlotOk(s, s.place[t], i, s.tables[t][i]);
      var e := s.tables[t][i];
      if !e.flags.bit7 && e.addr != 0 { HwViaFind(s, e.addr, level - 1, k, pn); }
    } else {
      assert TableOk(s, t);
    }
  }

  // ----------------------------------------------- creating a missing table

  function EmptyTable(): (r: seq<Pte>)
    ensures |r| == 512 && forall i :: 0 <= i < 512 ==> r[i] == ZERO_PTE
  {
    seq(512, i => ZERO_PTE)
  }

  /** Table np, all zero, is hung into slot i of table t. */
  function Created(s: Space, t: nat, i: int, np: nat, flags: Flags): Space
    requires t in s.tables && t in s.place && 0 <= i < |s.tables[t]| && s.place[t].level > 0
  {
    Space(s.root, s.tables[np := EmptyTable()][t := s.tables[t][i := Pte(np, flags)]],
          s.place[np := Place(s.place[t].level - 1, s.place[t].prefix * 512 + i)])
  }

  predicate CanCreate(s: Space, t: nat, i: int, np: nat, flags: Flags) {
    && WellFormed(s) && t in s.tables && 0 <= i < 512
    && TableOk(s, t) && s.place[t].level > 0
    && s.tables[t][i].addr == 0 && !s.tables[t][i].flags.bit7
    && IsTable(np) && np !in s.tables && flags.present && !flags.bit7
  }

  lemma CreatedWellFormed(s: Space, t: nat, i: int, np: nat, flags: Flags)
    requires CanCreate(s, t, i, np, flags)
    ensures WellFormed(Created(s, t, i, np, flags))
  {
    var s' := Created(s, t, i, np, flags);
    assert s'.tables.Keys == s.tables.Keys + {np};
    assert s'.place.Keys == s.place.Keys + {np};
    forall u | u in s'.tables ensures TableOk(s', u) {
      if u != np {
        assert TableOk(s, u);
        if s.place[u].level > 0 {
          forall j | 0 <= j < 512 ensures SlotOk(s', s'.place[u], j, s'.tables[u][j]) {
            assert SlotOk(s, s.place[u], j, s.tables[u][j]);
          }
        }
      }
    }
  }

  /** Creating a table changes no translation. */
  lemma {:induction false} CreatedHw(s: Space, t: nat, i: int, np: nat, flags: Flags, u: nat, level: nat, pn: int)
    requires CanCreate(s, t, i, np, flags) && level <= 3 && Serves(s, u, level, pn)
    ensures HwWalk(Created(s, t, i, np, flags), u, level, pn) == HwWalk(s, u, level, pn)
    decreases level
  {
    assert TableOk(s, u);
    var s' := Created(s, t, i, np, flags);
    var j := Index(pn, level) % 512;
    var e := s.tables[u][j];
    if level > 0 {
      StepServes(s, u, level, pn);
      if u == t && j == i {
        assert SlotOk(s, s.place[u], j, e);
        assert HwWalk(s', np, level - 1, pn) == Unmapped;
      } else if !e.flags.bit7 && e.addr != 0 {
        CreatedHw(s, t, i, np, flags, e.addr, level - 1, pn);
      } else {
        assert SlotOk(s, s.place[u], j, e);
      }
    }
  }

  /** Creating a table keeps every table the loader can find where it is, and
      neither puts a large page on a walk nor takes one off. */
  lemma {:induction false} CreatedFind(s: Space, t: nat, i: int, np: nat, flags: Flags,
                                       u: nat, level: nat, k: nat, pn: int)
    requires CanCreate(s, t, i, np, flags) && k <= level <= 3 && Serves(s, u, level, pn)
    ensures u in s.tables
    ensures
      var r := Find(s, u, level, k, pn);
      var r' := Find(Created(s, t, i, np, flags), u, level, k, pn);
      (!r.Missing? ==> r' == r) && (r.Missing? ==> !r'.Blocked?)
    decreases level
  {
    assert TableOk(s, u);
    if level > k {
      StepServes(s, u, level, pn);
      var s' := Created(s, t, i, np, flags);
      var j := Index(pn, level) % 512;
      var e := s.tables[u][j];
      if u == t && j == i {
        EmptyFind(s', np, level - 1, k, pn);
      } else if !e.flags.bit7 && e.addr != 0 {
        CreatedFind(s, t, i, np, flags, e.addr, level - 1, k, pn);
      }
    }
  }

  lemma EmptyFind(s: Space, t: nat, level: nat, k: nat, pn: int)
    requires t in s.tables && s.tables[t] == EmptyTable()
    ensures !Find(s, t, level, k, pn).Blocked?
  {
  }

  // -------------------------------------------------- writing a leaf entry

  function Written(s: Space, t: nat, i: int, e: Pte): Space
    requires t in s.tables && 0 <= i < |s.tables[t]|
  {
    s.(tables := s.tables[t := s.tables[t][i := e]])
  }

  /** A leaf entry e may go into slot i of table t: a present page, marked as a
      large one above level 0. */
  predicate CanWrite(s: Space, t: nat, i: int, e: Pte) {
    && WellFormed(s) && t in s.tables && 0 <= i < 512
    && TableOk(s, t) && s.place[t].level < 3
    && (s.place[t].level > 0 ==> e.flags.bit7)
  }

  lemma WrittenWellFormed(s: Space, t: nat, i: int, e: Pte)
    requires CanWrite(s, t, i, e)
    ensures WellFormed(Written(s, t, i, e))
  {
  }

  /** The entry written is the one the walk of pn from table u uses. */
  predicate Covers(s: Space, t: nat, i: int, u: nat, level: nat, pn: int)
    requires t in s.place
  {
    var l := s.place[t].level;
    level >= l && Find(s, u, level, l, pn) == At(t) && Index(pn, l) % 512 == i
  }

  /** Writing a leaf changes the translation of exactly the pages it covers. */
  lemma {:induction false} WrittenHw(s: Space, t: nat, i: int, e: Pte, u: nat, level: nat, pn: int)
    requires CanWrite(s, t, i, e) && level <= 3 && Serves(s, u, level, pn)
    ensures HwWalk(Written(s, t, i, e), u, level, pn) ==
            if Covers(s, t, i, u, level, pn)
            then if e.flags.present then Leaf(e, s.place[t].level) else Unmapped
            else HwWalk(s, u, level, pn)
    decreases level
  {
    assert TableOk(s, u);
    var l := s.place[t].level;
    var x := s.tables[u][Index(pn, level) % 512];
    if level > 0 && !(u == t && Index(pn, level) % 512 == i) {
      StepServes(s, u, level, pn);
      assert SlotOk(s, s.place[u], Index(pn, level) % 512, x);
      if !x.flags.bit7 && x.addr != 0 { WrittenHw(s, t, i, e, x.addr, level - 1, pn); }
    }
  }

  /** Writing a leaf moves no table that is not below the entry written. */
  lemma {:induction false} WrittenFind(s: Space, t: nat, i: int, e: Pte, u: nat, level: nat, k: nat, pn: int)
    requires CanWrite(s, t, i, e) && k <= level <= 3 && Serves(s, u, level, pn)
    requires k >= s.place[t].level || !Covers(s, t, i, u, level, pn)
    ensures Find(Written(s, t, i, e), u, level, k, pn) == Find(s, u, level, k, pn)
    decreases level
  {
    assert TableOk(s, u);
    if level > k {
      StepServes(s, u, level, pn);
      var x := s.tables[u][Index(pn, level) % 512];
      if !x.flags.bit7 && x.addr != 0 { WrittenFind(s, t, i, e, x.addr, level - 1, k, pn); }
    }
  }

  // ------------------------------------------------- effects seen from the root

  /** What a leaf entry makes the processor see. */
  function LeafOf(e: Pte, level: nat): Hit {
    if e.flags.present then Leaf(e, level) else Unmapped
  }

  /** s' maps what s maps, and every table of s is found where it was. */
  ghost predicate Extends(s: Space, s': Space) {
    && s'.root == s.root
    && (forall pn :: IsPage(pn) ==> Hw(s', pn) == Hw(s, pn))
    && (forall k: nat, pn :: k <= 3 && IsPage(pn) && !FindFrom(s, k, pn).Missing? ==>
          FindFrom(s', k, pn) == FindFrom(s, k, pn))
    && (forall k: nat, pn :: k <= 3 && IsPage(pn) && FindFrom(s', k, pn).Blocked? ==>
          FindFrom(s, k, pn).Blocked?)
    && (forall t :: t in s.tables && t in s.place && s.place[t].level == 0 ==>
          t in s'.tables && s'.tables[t] == s.tables[t])
    && (forall t :: t in s.place ==> t in s'.place && s'.place[t] == s.place[t])
  }

  lemma CreatedExtends(s: Space, t: nat, i: int, np: nat, flags: Flags)
    requires CanCreate(s, t, i, np, flags)
    ensures Extends(s, Created(s, t, i, np, flags))
  {
    var s' := Created(s, t, i, np, flags);
    forall pn | IsPage(pn) ensures Hw(s', pn) == Hw(s, pn) {
      RootServes(s, pn);
      CreatedHw(s, t, i, np, flags, s.root, 3, pn);
    }
    forall k: nat, pn | k <= 3 && IsPage(pn)
      ensures !FindFrom(s, k, pn).Missing? ==> FindFrom(s', k, pn) == FindFrom(s, k, pn)
      ensures FindFrom(s', k, pn).Blocked? ==> FindFrom(s, k, pn).Blocked?
    {
      RootServes(s, pn);
      CreatedFind(s, t, i, np, flags, s.root, 3, k, pn);
    }
  }

  /** The new table is the one the loader now finds for pn. */
  lemma CreatedFound(s: Space, t: nat, i: int, np: nat, flags: Flags, level: nat, pn: int)
    requires CanCreate(s, t, i, np, flags) && IsPage(pn) && 0 < level <= 3
    requires FindFrom(s, level, pn) == At(t) && i == Index(pn, level) % 512
    ensures FindFrom(Created(s, t, i, np, flags), level - 1, pn) == At(np)
  {
    var s' := Created(s, t, i, np, flags);
    RootServes(s, pn);
    CreatedStep(s, t, i, np, flags, level, pn);
    hide Find, WellFormed;
    CreatedFind(s, t, i, np, flags, s.root, 3, level, pn);
    FindSplit(s', s'.root, 3, level, level - 1, pn);
  }

  lemma CreatedStep(s: Space, t: nat, i: int, np: nat, flags: Flags, level: nat, pn: int)
    requires CanCreate(s, t, i, np, flags) && 0 < level <= 3 && i == Index(pn, level) % 512
    ensures Find(Created(s, t, i, np, flags), t, level, level - 1, pn) == At(np)
  {
    var s' := Created(s, t, i, np, flags);
    hide WellFormed;
    assert Find(s', np, level - 1, level - 1, pn) == At(np);
  }

  /** The effect of a leaf write through the pointer the loader's walk gives. */
  lemma WrittenFrom(s: Space, t: nat, e: Pte, k: nat, pn: int)
    requires WellFormed(s) && IsPage(pn) && k <= 2 && FindFrom(s, k, pn) == At(t)
    requires k > 0 ==> e.flags.bit7
    ensures t in s.tables && |s.tables[t]| == 512 && t in s.place && s.place[t].level == k
    ensures
      var s' := Written(s, t, Index(pn, k) % 512, e);
      && WellFormed(s')
      && (forall qn :: IsPage(qn) ==>
            Hw(s', qn) == if Index(qn, k) == Index(pn, k) then LeafOf(e, k) else Hw(s, qn))
      && (forall c: nat, qn :: c <= 3 && IsPage(qn) && (c >= k || Index(qn, k) != Index(pn, k)) ==>
            FindFrom(s', c, qn) == FindFrom(s, c, qn))
  {
    RootServes(s, pn);
    FindServes(s, s.root, 3, k, pn);
    assert TableOk(s, t);
    var i := Index(pn, k) % 512;
    var s' := Written(s, t, i, e);
    WrittenWellFormed(s, t, i, e);
    forall qn | IsPage(qn)
      ensures Hw(s', qn) == if Index(qn, k) == Index(pn, k) then LeafOf(e, k) else Hw(s, qn)
    {
      RootServes(s, qn);
      WrittenHw(s, t, i, e, s.root, 3, qn);
      CoversIff(s, t, k, pn, qn);
    }
    forall c: nat, qn | c <= 3 && IsPage(qn) && (c >= k || Index(qn, k) != Index(pn, k))
      ensures FindFrom(s', c, qn) == FindFrom(s, c, qn)
    {
      RootServes(s, qn);
      CoversIff(s, t, k, pn, qn);
      WrittenFind(s, t, i, e, s.root, 3, c, qn);
    }
  }

  lemma CoversIff(s: Space, t: nat, k: nat, pn: int, qn: int)
    requires WellFormed(s) && IsPage(pn) && IsPage(qn) && k <= 2
    requires FindFrom(s, k, pn) == At(t) && t in s.place && s.place[t].level == k
    ensures Covers(s, t, Index(pn, k) % 512, s.root, 3, qn) <==> Index(qn, k) == Index(pn, k)
  {
    RootServes(s, pn);
    RootServes(s, qn);
    FindServes(s, s.root, 3, k, pn);
    FindServes(s, s.root, 3, k, qn);
    if Index(qn, k) == Index(pn, k) { FindShared(s, s.root, 3, k, pn, qn); }
  }
}
