/** boot/malloc.cc: the layout of the boot heap. Memory is seen in units of 16 bytes,
    the size of a block header; every header and payload is made of whole units. */
module HeapShape {
  import opened Modular

  const WORD: int := 0x1_0000_0000 // 32-bit header fields
  const HDR: int := 16

  /** A unit holds a block header or payload. */
  datatype Unit = Header(size: nat, used: bool, negSize: nat, self: nat) | Payload(value: int)

  /** A header as set_size and make_valid write it. */
  function Make(a: nat, size: nat, used: bool): (u: Unit)
    ensures u.Header? && u.size == size && u.used == used && (size <= WORD ==> !Invalid(u, a))
  {
    Header(size, used, (WORD - size) % WORD, a % WORD)
  }

  /** make_invalid. */
  function Spoilt(u: Unit): Unit
    requires u.Header?
  {
    Header(0xBAD1_1111, u.used, 0, 0)
  }

  /** blk_hdr_t::invalid. */
  predicate Invalid(u: Unit, a: nat) {
    !u.Header? || (u.size + u.negSize) % WORD != 0 || u.self != a % WORD
  }

  /** The heap: its bounds, its memory, the addresses of its blocks in order with the
      end sentinel last, and the size of every block in use. */
  datatype Heap = Heap(st: nat, en: nat, units: map<nat, Unit>, blocks: seq<nat>, live: map<nat, nat>) {
    /** Block i is a valid header whose size reaches exactly to the next block. */
    predicate BlockOk(i: int)
      requires 0 <= i < |blocks| - 1
    {
      && blocks[i] % HDR == 0 && blocks[i] < blocks[i + 1] && blocks[i] in units
      && units[blocks[i]] == Make(blocks[i], blocks[i + 1] - blocks[i], blocks[i] in live)
      && (blocks[i] in live ==> live[blocks[i]] == blocks[i + 1] - blocks[i])
    }

    predicate Bounds() {
      && 0 < st < en < st + WORD && en % HDR == 0
      && |blocks| >= 2 && blocks[0] == st && blocks[|blocks| - 1] == en
      && en in units && units[en] == Make(en, 0, true) && en !in live
    }

    predicate Ordered() { forall i, j :: 0 <= i < j < |blocks| ==> blocks[i] < blocks[j] }

    predicate AllOk() { forall i :: 0 <= i < |blocks| - 1 ==> BlockOk(i) }

    predicate LiveListed() { forall a :: a in live ==> a in blocks }

    predicate Backed() { forall a: nat :: st <= a <= en && a % HDR == 0 ==> a in units }

    /** The blocks tile the heap from its start to the sentinel. */
    predicate Tiled() { Bounds() && Ordered() && AllOk() && LiveListed() && Backed() }
  }

  /** Every block below address a is in use. */
  predicate NoFreeBelow(h: Heap, a: nat) {
    forall i :: 0 <= i < |h.blocks| && h.blocks[i] < a ==> h.blocks[i] in h.live
  }

  /** The rover points to a block, and no free block lies below it. */
  predicate RoverOk(h: Heap, rover: nat) { rover in h.blocks && rover < h.en && NoFreeBelow(h, rover) }

  // ------------------------------------------------------- live payloads

  /** Unit a is payload of the block in use at b. */
  predicate InPayload(h: Heap, b: nat, a: nat) { b in h.live && b + HDR <= a < b + h.live[b] && a % HDR == 0 }

  /** Payload that is in use before and after is the same before and after. */
  ghost predicate Kept(h: Heap, h': Heap) {
    forall b, a {:trigger InPayload(h', b, a)} :: InPayload(h, b, a) && InPayload(h', b, a) ==>
      a in h.units && a in h'.units && h'.units[a] == h.units[a]
  }

  lemma UnitsApart(a: nat, b: nat)
    requires a % HDR == 0 && b % HDR == 0 && a < b
    ensures a + HDR <= b
  {
  }

  /** Every block starts on a unit, so it holds at least its header. */
  lemma BlockSize(h: Heap, i: int)
    requires h.Tiled() && 0 <= i < |h.blocks| - 1
    ensures h.BlockOk(i) && h.blocks[i + 1] % HDR == 0 && h.blocks[i] + HDR <= h.blocks[i + 1] <= h.en && h.st <= h.blocks[i]
  {
    assert h.BlockOk(i);
    if i + 1 < |h.blocks| - 1 { assert h.BlockOk(i + 1); }
    hide Make;
    UnitsApart(h.blocks[i], h.blocks[i + 1]);
  }

  lemma LiveBlock(h: Heap, a: nat) returns (i: int)
    requires h.Tiled() && a in h.live
    ensures 0 <= i < |h.blocks| - 1 && h.blocks[i] == a && a + h.live[a] == h.blocks[i + 1]
    ensures h.st <= a && a % HDR == 0 && h.live[a] >= HDR && a + h.live[a] <= h.en && (a + h.live[a]) % HDR == 0
  {
    i :| 0 <= i < |h.blocks| && h.blocks[i] == a;
    hide Make;
    BlockSize(h, i);
  }

  /** Blocks in use are disjoint, lie in the heap and start on a unit. */
  lemma LiveDisjoint(h: Heap, a: nat, b: nat)
    requires h.Tiled() && a in h.live && b in h.live && a < b
    ensures h.st <= a && a + h.live[a] <= b && b + h.live[b] <= h.en
    ensures a % HDR == 0 && b % HDR == 0 && h.live[a] >= HDR && h.live[b] >= HDR
  {
    hide Make, h.BlockOk;
    var i := LiveBlock(h, a);
    var j := LiveBlock(h, b);
    if i + 1 < j { assert h.blocks[i + 1] < h.blocks[j]; }
  }

  // ------------------------------------------------------------------ gaps

  /** [x, y) is a maximal stretch of the heap without a block in use: a maximal run
      of free blocks, however it is cut into blocks. */
  ghost predicate Gap(h: Heap, x: nat, y: nat) {
    && h.st <= x < y <= h.en
    && (forall b :: b in h.live ==> b + h.live[b] <= x || y <= b)
    && (x == h.st || exists b :: b in h.live && b + h.live[b] == x)
    && (y == h.en || y in h.live)
  }

  /** The least multiple of n from p on. */
  function Ceil(p: nat, n: nat): (c: nat)
    requires n > 0
    ensures c % n == 0 && p <= c < p + n
  {
    var q := (p + n - 1) / n;
    DivModUnique(q * n, n, q, 0);
    assert p + n - 1 == n * q + (p + n - 1) % n;
    q * n
  }

  /** Bytes needed before the header so that the payload is aligned. */
  function AlignAdjust(a: nat, alignment: nat): nat
    requires alignment > 0
  {
    Ceil(a + HDR, alignment) - (a + HDR)
  }

  /** The gap has room for a block of n bytes with an aligned payload. */
  predicate Fits(x: nat, y: nat, n: nat, alignment: nat)
    requires alignment > 0
  {
    x <= y && y - x >= n + AlignAdjust(x, alignment)
  }

  // ------------------------------------------------- merging two free blocks

  /** Block k takes in block k + 1, as malloc_coalesce does. */
  function Merged(h: Heap, k: int): Heap
    requires 0 <= k && k + 2 < |h.blocks| && h.blocks[k] < h.blocks[k + 2]
    requires h.blocks[k + 1] in h.units && h.units[h.blocks[k + 1]].Header?
  {
    var a, b, c := h.blocks[k], h.blocks[k + 1], h.blocks[k + 2];
    h.(units := h.units[a := Make(a, c - a, false)][b := Spoilt(h.units[b])],
       blocks := h.blocks[..k + 1] + h.blocks[k + 2..])
  }

  /** Merging free blocks keeps the heap tiled; no block in use is touched. */
  lemma MergedTiled(h: Heap, k: int)
    requires h.Tiled() && 0 <= k && k + 2 < |h.blocks| && h.blocks[k] !in h.live && h.blocks[k + 1] !in h.live
    requires h.BlockOk(k) && h.BlockOk(k + 1)
    ensures Merged(h, k).Tiled()
  {
    var h' := Merged(h, k);
    hide Make, Spoilt, Heap.BlockOk, Heap.Bounds, Heap.Ordered, Heap.LiveListed, Heap.Backed;
    MergedOrder(h, k);
    MergedListed(h, k);
    forall i | 0 <= i < |h'.blocks| - 1 ensures h'.BlockOk(i) { MergedBlockOk(h, k, i); }
  }

  lemma MergedOrder(h: Heap, k: int)
    requires h.Tiled() && 0 <= k && k + 2 < |h.blocks| && h.blocks[k] !in h.live
    requires h.blocks[k + 1] in h.units && h.units[h.blocks[k + 1]].Header?
    ensures h.blocks[k] % HDR == 0 && h.blocks[k] < h.blocks[k + 2]
    ensures Merged(h, k).Bounds() && Merged(h, k).Ordered() && Merged(h, k).Backed()
  {
    assert h.BlockOk(k);
    assert h.blocks[k] < h.blocks[k + 2];
    assert h.blocks[k] < h.blocks[|h.blocks| - 1] && h.blocks[k + 1] < h.blocks[|h.blocks| - 1];
    hide Make, Spoilt, Heap.BlockOk, Heap.AllOk;
    MergedBlocks(h, k);
    MergedUnits(h, k);
    assert Merged(h, k).Ordered() by { MergedInOrder(h, k); }
  }

  lemma MergedInOrder(h: Heap, k: int)
    requires h.Ordered() && 0 <= k && k + 2 < |h.blocks| && h.blocks[k] < h.blocks[k + 2]
    requires h.blocks[k + 1] in h.units && h.units[h.blocks[k + 1]].Header?
    ensures Merged(h, k).Ordered()
  {
  }

  /** The sentinel and the memory outside the two headers stay. */
  lemma MergedUnits(h: Heap, k: int)
    requires 0 <= k && k + 2 < |h.blocks| && h.blocks[k] < h.blocks[k + 2]
    requires h.blocks[k + 1] in h.units && h.units[h.blocks[k + 1]].Header?
    ensures
      var h' := Merged(h, k);
      && h'.st == h.st && h'.en == h.en && h'.live == h.live && (forall a :: a in h.units ==> a in h'.units)
      && (h.en in h.units && h.en != h.blocks[k] && h.en != h.blocks[k + 1] ==> h'.units[h.en] == h.units[h.en])
  {
  }

  lemma MergedListed(h: Heap, k: int)
    requires h.LiveListed() && 0 <= k && k + 2 < |h.blocks| && h.blocks[k] < h.blocks[k + 2]
    requires h.blocks[k + 1] in h.units && h.units[h.blocks[k + 1]].Header? && h.blocks[k + 1] !in h.live
    ensures Merged(h, k).LiveListed()
  {
  }

  lemma MergedBlockOk(h: Heap, k: int, i: int)
    requires h.Ordered() && 0 <= k && k + 2 < |h.blocks| && h.blocks[k] !in h.live
    requires h.blocks[k + 1] in h.units && h.units[h.blocks[k + 1]].Header? && h.blocks[k] % HDR == 0
    requires 0 <= i < |h.blocks| - 2 && h.AllOk()
    ensures h.blocks[k] < h.blocks[k + 2] && i < |Merged(h, k).blocks| - 1 && Merged(h, k).BlockOk(i)
  {
    hide Make, Spoilt;
    MergedBlocks(h, k);
    if i < k { assert h.BlockOk(i); } else if i > k { assert h.BlockOk(i + 1); }
  }

  lemma MergedBlocks(h: Heap, k: int)
    requires 0 <= k && k + 2 < |h.blocks| && h.blocks[k] < h.blocks[k + 2]
    requires h.blocks[k + 1] in h.units && h.units[h.blocks[k + 1]].Header?
    ensures
      var b := Merged(h, k).blocks;
      |b| == |h.blocks| - 1 && forall i :: 0 <= i < |b| ==> b[i] == if i <= k then h.blocks[i] else h.blocks[i + 1]
  {
  }

  // ------------------------------------------------------- splitting a block

  /** Block k is cut at address x: it keeps its first part, the rest becomes a free block. */
  function Cut(h: Heap, k: int, x: nat): Heap
    requires 0 <= k < |h.blocks| - 1 && h.blocks[k] < x < h.blocks[k + 1]
  {
    var a, c := h.blocks[k], h.blocks[k + 1];
    h.(units := h.units[a := Make(a, x - a, a in h.live)][x := Make(x, c - x, false)],
       blocks := h.blocks[..k + 1] + [x] + h.blocks[k + 1..],
       live := if a in h.live then h.live[a := x - a] else h.live)
  }

  lemma CutBlocks(h: Heap, k: int, x: nat)
    requires 0 <= k < |h.blocks| - 1 && h.blocks[k] < x < h.blocks[k + 1]
    ensures
      var b := Cut(h, k, x).blocks;
      |b| == |h.blocks| + 1 &&
      forall i :: 0 <= i < |b| ==> b[i] == if i <= k then h.blocks[i] else if i == k + 1 then x else h.blocks[i - 1]
  {
  }

  predicate CanCut(h: Heap, k: int, x: nat) {
    h.Tiled() && 0 <= k < |h.blocks| - 1 && h.blocks[k] < x < h.blocks[k + 1] && x % HDR == 0
  }

  lemma CutOrder(h: Heap, k: int, x: nat)
    requires CanCut(h, k, x)
    ensures x !in h.live && x != h.en && Cut(h, k, x).Bounds() && Cut(h, k, x).Ordered() && Cut(h, k, x).Backed()
  {
    NotBlock(h, k, x);
    CutBacked(h, k, x);
    hide Make, Heap.BlockOk, Heap.AllOk, Heap.LiveListed, Heap.Backed;
    CutBlocks(h, k, x);
    assert h.blocks[k] < h.blocks[|h.blocks| - 1];
  }

  lemma CutBacked(h: Heap, k: int, x: nat)
    requires CanCut(h, k, x)
    ensures Cut(h, k, x).Backed()
  {
    hide Make, Heap.BlockOk, Heap.Bounds, Heap.Ordered, Heap.AllOk, Heap.LiveListed;
  }

  /** An address strictly inside a block is no block. */
  lemma NotBlock(h: Heap, k: int, x: nat)
    requires h.Tiled() && 0 <= k < |h.blocks| - 1 && h.blocks[k] < x < h.blocks[k + 1]
    ensures x !in h.blocks && x !in h.live
  {
  }

  lemma CutListed(h: Heap, k: int, x: nat)
    requires CanCut(h, k, x)
    ensures Cut(h, k, x).LiveListed()
  {
  }

  lemma CutBlockOk(h: Heap, k: int, x: nat, i: int)
    requires CanCut(h, k, x) && 0 <= i < |h.blocks|
    ensures |Cut(h, k, x).blocks| == |h.blocks| + 1 && Cut(h, k, x).BlockOk(i)
  {
    hide Make, Cut, Heap.BlockOk, Heap.Backed, Heap.LiveListed, Heap.Bounds;
    CutBlocks(h, k, x);
    NotBlock(h, k, x);
    assert h.BlockOk(k);
    var j := if i <= k then i else i - 1;
    if i == k || i == k + 1 {
      CutHere(h, k, x);
    } else {
      assert h.BlockOk(j) && h.blocks[j] != h.blocks[k] && h.blocks[j] != x;
      CutElsewhere(h, k, x, j);
    }
  }

  lemma CutHere(h: Heap, k: int, x: nat)
    requires 0 <= k < |h.blocks| - 1 && h.blocks[k] < x < h.blocks[k + 1] && h.BlockOk(k) && x % HDR == 0 && x !in h.live
    ensures |Cut(h, k, x).blocks| == |h.blocks| + 1 && Cut(h, k, x).BlockOk(k) && Cut(h, k, x).BlockOk(k + 1)
  {
  }

  lemma CutElsewhere(h: Heap, k: int, x: nat, j: int)
    requires 0 <= k < |h.blocks| - 1 && h.blocks[k] < x < h.blocks[k + 1]
    requires 0 <= j < |h.blocks| - 1 && j != k && h.BlockOk(j) && h.blocks[j] != h.blocks[k] && h.blocks[j] != x
    ensures |Cut(h, k, x).blocks| == |h.blocks| + 1 && Cut(h, k, x).BlockOk(if j < k then j else j + 1)
  {
  }

  /** Cutting a block keeps the heap tiled. */
  lemma CutTiled(h: Heap, k: int, x: nat)
    requires CanCut(h, k, x)
    ensures Cut(h, k, x).Tiled()
  {
    var h' := Cut(h, k, x);
    CutBlocks(h, k, x);
    hide Make, Heap.BlockOk, Heap.Bounds, Heap.Ordered, Heap.LiveListed, Heap.Backed;
    CutOrder(h, k, x);
    CutListed(h, k, x);
    forall i | 0 <= i < |h'.blocks| - 1 ensures h'.BlockOk(i) { CutBlockOk(h, k, x, i); }
  }

  // ------------------------------------------------- using and freeing a block

  /** Block k is marked as in use or free. */
  function Marked(h: Heap, k: int, used: bool): Heap
    requires 0 <= k < |h.blocks| - 1 && h.blocks[k] < h.blocks[k + 1]
  {
    var a, c := h.blocks[k], h.blocks[k + 1];
    h.(units := h.units[a := Make(a, c - a, used)], live := if used then h.live[a := c - a] else h.live - {a})
  }

  lemma MarkedTiled(h: Heap, k: int, used: bool)
    requires h.Tiled() && 0 <= k < |h.blocks| - 1 && h.blocks[k] < h.blocks[k + 1]
    ensures Marked(h, k, used).Tiled()
  {
    hide Make;
    var h' := Marked(h, k, used);
    assert h.blocks[k] < h.blocks[|h.blocks| - 1];
    forall i | 0 <= i < |h'.blocks| - 1 ensures h'.BlockOk(i) {
      assert h.BlockOk(i) && h.BlockOk(k);
    }
  }

  // ------------------------------------------------ what each change keeps

  /** No header is payload. */
  lemma HeaderIsNoPayload(h: Heap, i: int, b: nat)
    requires h.Tiled() && 0 <= i < |h.blocks|
    ensures !InPayload(h, b, h.blocks[i])
  {
    hide Make, Heap.BlockOk;
    if b in h.live {
      var j := LiveBlock(h, b);
      if j < i && j + 1 < i { assert h.blocks[j + 1] < h.blocks[i]; }
      if i < j { assert h.blocks[i] < h.blocks[j]; }
    }
  }

  lemma PayloadBacked(h: Heap, b: nat, a: nat)
    requires h.Tiled() && InPayload(h, b, a)
    ensures a in h.units
  {
    hide Make, Heap.BlockOk;
    var j := LiveBlock(h, b);
  }

  lemma MergedKept(h: Heap, k: int)
    requires h.Tiled() && 0 <= k && k + 2 < |h.blocks| && h.blocks[k] < h.blocks[k + 2]
    requires h.blocks[k + 1] in h.units && h.units[h.blocks[k + 1]].Header?
    ensures Kept(h, Merged(h, k))
  {
    hide Make, Spoilt, Heap.Tiled;
    forall b, a | InPayload(h, b, a)
      ensures a in h.units && a in Merged(h, k).units && Merged(h, k).units[a] == h.units[a]
    {
      HeaderIsNoPayload(h, k, b);
      HeaderIsNoPayload(h, k + 1, b);
      PayloadBacked(h, b, a);
    }
  }

  lemma CutKept(h: Heap, k: int, x: nat)
    requires CanCut(h, k, x)
    ensures Kept(h, Cut(h, k, x))
  {
    hide Make, Heap.Tiled;
    var h' := Cut(h, k, x);
    forall b, a | InPayload(h, b, a) && InPayload(h', b, a)
      ensures a in h.units && a in h'.units && h'.units[a] == h.units[a]
    {
      HeaderIsNoPayload(h, k, b);
      PayloadBacked(h, b, a);
      CutTiled(h, k, x);
      CutBlocks(h, k, x);
      HeaderIsNoPayload(h', k + 1, b);
    }
  }

  lemma MarkedKept(h: Heap, k: int, used: bool)
    requires h.Tiled() && 0 <= k < |h.blocks| - 1 && h.blocks[k] < h.blocks[k + 1]
    ensures Kept(h, Marked(h, k, used))
  {
    hide Make, Heap.Tiled;
    var h' := Marked(h, k, used);
    forall b, a | InPayload(h, b, a) && InPayload(h', b, a)
      ensures a in h.units && a in h'.units && h'.units[a] == h.units[a]
    {
      HeaderIsNoPayload(h, k, b);
      PayloadBacked(h, b, a);
    }
  }

  lemma KeptTrans(h: Heap, h': Heap, h'': Heap)
    requires Kept(h, h') && Kept(h', h'')
    requires forall b :: b in h.live && b in h''.live ==> b in h'.live && (h'.live[b] >= h.live[b] || h'.live[b] >= h''.live[b])
    ensures Kept(h, h'')
  {
    forall b, a | InPayload(h, b, a) && InPayload(h'', b, a)
      ensures a in h.units && a in h''.units && h''.units[a] == h.units[a]
    {
      assert InPayload(h', b, a);
    }
  }

  // -------------------------------------------------------- gaps and blocks

  /** Free block i is followed by a block in use or the end. */
  predicate Closed(h: Heap, i: int)
    requires 0 <= i < |h.blocks| - 1
  {
    h.blocks[i + 1] in h.live || h.blocks[i + 1] == h.en
  }

  /** A free block between blocks in use is a gap. */
  lemma BlockIsGap(h: Heap, k: int)
    requires h.Tiled() && 0 <= k < |h.blocks| - 1 && h.blocks[k] !in h.live && Closed(h, k)
    requires k == 0 || h.blocks[k - 1] in h.live
    ensures Gap(h, h.blocks[k], h.blocks[k + 1])
  {
    hide Make;
    var x, y := h.blocks[k], h.blocks[k + 1];
    BlockSize(h, k);
    forall b | b in h.live ensures b + h.live[b] <= x || y <= b {
      var j := LiveBlock(h, b);
      if j + 1 < k { assert h.blocks[j + 1] < h.blocks[k]; }
      if k + 1 < j { assert h.blocks[k + 1] < h.blocks[j]; }
    }
    if k > 0 { assert h.BlockOk(k - 1); }
  }

  /** A gap starts with a block. */
  lemma GapIndex(h: Heap, x: nat, y: nat) returns (i: int)
    requires h.Tiled() && Gap(h, x, y)
    ensures 0 <= i < |h.blocks| - 1 && h.blocks[i] == x
  {
    hide Make, Heap.BlockOk;
    if x == h.st {
      i := 0;
    } else {
      var b :| b in h.live && b + h.live[b] == x;
      var j := LiveBlock(h, b);
      i := j + 1;
    }
  }

  /** Once free blocks are merged, every gap is one free block. */
  lemma GapIsBlock(h: Heap, x: nat, y: nat) returns (k: int)
    requires h.Tiled() && Gap(h, x, y)
    requires forall i :: 0 <= i < |h.blocks| - 1 && h.blocks[i] !in h.live ==> Closed(h, i)
    ensures 0 <= k < |h.blocks| - 1 && h.blocks[k] == x && h.blocks[k + 1] == y && x !in h.live
  {
    hide Make, Heap.BlockOk;
    k := GapIndex(h, x, y);
    GapStart(h, x, y);
    GapEnd(h, x, y, k);
  }

  lemma GapStart(h: Heap, x: nat, y: nat)
    requires h.Tiled() && Gap(h, x, y)
    ensures x !in h.live
  {
    hide Make, Heap.BlockOk;
    if x in h.live { var j := LiveBlock(h, x); }
  }

  lemma GapEnd(h: Heap, x: nat, y: nat, k: int)
    requires h.Tiled() && Gap(h, x, y) && 0 <= k < |h.blocks| - 1 && h.blocks[k] == x && Closed(h, k)
    ensures h.blocks[k + 1] == y
  {
  }
}
