/** boot/x86_bios/pxemain.cc, radix_tree_t: a three-level tree of pages, keyed by page
    number, that grows on demand. */
module RadixCache {

  const PAGE := 4096

  /** Pages of n slots for the inner levels, pages of bytes at the bottom; 0 is no page. */
  datatype Memory = Memory(root: nat, slots: map<nat, seq<nat>>, bytes: map<nat, seq<bv8>>)

  function Slot(m: Memory, t: nat, i: nat): nat {
    if t in m.slots && i < |m.slots[t]| then m.slots[t][i] else 0
  }

  /** The page that a path of slot indices leads to. */
  function Walk(m: Memory, path: seq<nat>): nat {
    if path == [] then m.root else Slot(m, Walk(m, path[..|path| - 1]), path[|path| - 1])
  }

  /** Each page of the tree stands in one place of it. */
  ghost predicate Placed(m: Memory, place: map<nat, seq<nat>>, n: nat) {
    && n > 0 && 0 !in place
    && (m.root != 0 ==> m.root in place && place[m.root] == [])
    && (forall t :: t in m.slots ==> TableOk(m, place, n, t))
    && (forall p :: p in m.bytes ==> p in place && |place[p]| == 3 && |m.bytes[p]| == PAGE)
    && (forall p :: p in place ==> |place[p]| <= 3 && (if |place[p]| == 3 then p in m.bytes else p in m.slots))
  }

  ghost predicate TableOk(m: Memory, place: map<nat, seq<nat>>, n: nat, t: nat)
    requires t in m.slots
  {
    && t in place && |place[t]| < 3 && |m.slots[t]| == n
    && forall i :: 0 <= i < n && m.slots[t][i] != 0 ==> m.slots[t][i] in place && place[m.slots[t][i]] == place[t] + [i]
  }

  /** What a path leads to stands at the end of that path: so different paths lead to
      different pages. */
  lemma {:induction false} WalkPlace(m: Memory, place: map<nat, seq<nat>>, n: nat, path: seq<nat>)
    requires Placed(m, place, n)
    ensures Walk(m, path) != 0 ==> Walk(m, path) in place && place[Walk(m, path)] == path
  {
    if path != [] {
      WalkPlace(m, place, n, path[..|path| - 1]);
      var t := Walk(m, path[..|path| - 1]);
      if t in m.slots {
        assert TableOk(m, place, n, t);
        assert path == path[..|path| - 1] + [path[|path| - 1]];
      }
    }
  }

  function Zeros(n: nat): (r: seq<nat>)
    ensures |r| == n && forall i :: 0 <= i < n ==> r[i] == 0
  {
    seq(n, _ => 0)
  }

  function Blank(): (r: seq<bv8>)
    ensures |r| == PAGE && forall i :: 0 <= i < PAGE ==> r[i] == 0
  {
    seq(PAGE, _ => 0)
  }

  /** A cleared page p is hung into slot i of table t, as a table or at the bottom. */
  function Hung(m: Memory, n: nat, t: nat, i: nat, p: nat, bottom: bool): Memory
    requires t in m.slots && i < |m.slots[t]|
  {
    var table: seq<nat> := m.slots[t][i := p];
    var slots := m.slots[t := table];
    if bottom then m.(slots := slots, bytes := m.bytes[p := Blank()]) else m.(slots := slots[p := Zeros(n)])
  }

  lemma HungPlaced(m: Memory, place: map<nat, seq<nat>>, n: nat, t: nat, i: nat, p: nat)
    requires Placed(m, place, n) && t in m.slots && i < n && p != 0 && p !in place && |m.slots[t]| == n && t in place
    ensures Placed(Hung(m, n, t, i, p, |place[t]| == 2), place[p := place[t] + [i]], n)
  {
    var m', place' := Hung(m, n, t, i, p, |place[t]| == 2), place[p := place[t] + [i]];
    assert TableOk(m, place, n, t);
    forall u | u in m'.slots ensures TableOk(m', place', n, u) {
      if u != p { assert TableOk(m, place, n, u); }
    }
  }

  lemma HungSlot(m: Memory, n: nat, t: nat, i: nat, p: nat, bottom: bool, u: nat, j: nat)
    requires t in m.slots && i < |m.slots[t]| && p !in m.slots
    ensures Slot(Hung(m, n, t, i, p, bottom), u, j) == if u == t && j == i then p else Slot(m, u, j)
  {
  }

  /** Hanging in a page changes where its own path leads, and no other. */
  lemma {:induction false} HungWalk(m: Memory, place: map<nat, seq<nat>>, n: nat, t: nat, i: nat, p: nat, q: seq<nat>)
    requires Placed(m, place, n) && t in m.slots && i < n && p != 0 && p !in place
    requires t in place && |m.slots[t]| == n && Walk(m, place[t]) == t && m.slots[t][i] == 0
    ensures Walk(Hung(m, n, t, i, p, |place[t]| == 2), q) == if q == place[t] + [i] then p else Walk(m, q)
    decreases |q|
  {
    hide Placed, Hung, Slot;
    NotTable(m, place, n, p);
    if q != [] {
      var r, j := q[..|q| - 1], q[|q| - 1];
      assert q == r + [j];
      HungWalk(m, place, n, t, i, p, r);
      WalkPlace(m, place, n, r);
      HungSlot(m, n, t, i, p, |place[t]| == 2, Walk(m, r), j);
      HungSlot(m, n, t, i, p, |place[t]| == 2, p, j);
      EmptySlots(m, place, n, p, j);
      if r == place[t] + [i] {
        EmptyPath(m, place[t], i, t);
      } else {
        assert r == place[t] <==> Walk(m, r) == t;
      }
    } else {
      SameRoot(m, n, t, i, p, |place[t]| == 2);
    }
  }

  lemma SameRoot(m: Memory, n: nat, t: nat, i: nat, p: nat, bottom: bool)
    requires t in m.slots && i < |m.slots[t]|
    ensures Hung(m, n, t, i, p, bottom).root == m.root
  {
  }

  lemma EmptyPath(m: Memory, path: seq<nat>, i: nat, t: nat)
    requires Walk(m, path) == t && t in m.slots && i < |m.slots[t]| && m.slots[t][i] == 0
    ensures Walk(m, path + [i]) == 0
  {
  }

  lemma NotTable(m: Memory, place: map<nat, seq<nat>>, n: nat, p: nat)
    requires Placed(m, place, n) && p !in place
    ensures p !in m.slots && 0 !in m.slots
  {
  }

  lemma EmptySlots(m: Memory, place: map<nat, seq<nat>>, n: nat, p: nat, j: nat)
    requires Placed(m, place, n) && p !in place
    ensures Slot(m, p, j) == 0 && Slot(m, 0, j) == 0
  {
  }

  // ---------------------------------------------------------------------- keys

  function Quot(x: nat, d: nat): nat
    requires d > 0
  {
    x / d
  }

  function Rest(x: nat, d: nat): (r: nat)
    requires d > 0
    ensures r < d
  {
    x % d
  }

  /** The slot indices of page number k, from the root down. */
  function PathOf(n: nat, k: nat): (path: seq<nat>)
    requires n > 0
    ensures |path| == 3 && path[0] < n && path[1] < n && path[2] < n
  {
    [Rest(Quot(Quot(k, n), n), n), Rest(Quot(k, n), n), Rest(k, n)]
  }

  predicate InTree(n: nat, k: nat)
    requires n > 0
  {
    Quot(Quot(k, n), n) < n
  }

  /** Page numbers of the tree's range have different paths. */
  lemma PathsDiffer(n: nat, k: nat, k': nat)
    requires n > 0 && InTree(n, k) && InTree(n, k') && PathOf(n, k) == PathOf(n, k')
    ensures k == k'
  {
    hide Quot, Rest;
    assert PathOf(n, k)[0] == PathOf(n, k')[0] && PathOf(n, k)[1] == PathOf(n, k')[1] && PathOf(n, k)[2] == PathOf(n, k')[2];
    SmallRest(Quot(Quot(k, n), n), n);
    SmallRest(Quot(Quot(k', n), n), n);
    SameQuotient(Quot(k, n), Quot(k', n), n);
    SameQuotient(k, k', n);
  }

  lemma SmallRest(x: nat, d: nat)
    requires x < d
    ensures Rest(x, d) == x
  {
  }

  lemma SameQuotient(x: nat, y: nat, d: nat)
    requires d > 0 && Quot(x, d) == Quot(y, d) && Rest(x, d) == Rest(y, d)
    ensures x == y
  {
  }

  class Tree {
    const n: nat
    var m: Memory
    /** The pages that the physical allocator has left. */
    var pool: seq<nat>
    ghost var place: map<nat, seq<nat>>

    ghost predicate Valid()
      reads this
    {
      Placed(m, place, n) && Fresh(pool, place)
    }

    constructor (n: nat, pool: seq<nat>)
      requires n > 0 && Fresh(pool, map[])
      ensures Valid() && this.n == n && m == Memory(0, map[], map[])
    {
      this.n, this.pool := n, pool;
      m, place := Memory(0, map[], map[]), map[];
    }

    /** commit: the next free page, cleared, in slot i of table t. */
    method Commit(t: nat, i: nat, bottom: bool) returns (p: nat)
      requires Valid() && t in m.slots && t in place && i < n && m.slots[t][i] == 0
      requires Walk(m, place[t]) == t && (bottom <==> |place[t]| == 2)
      modifies this
      ensures Valid() && t in m.slots && |m.slots[t]| == n
      ensures p == 0 ==> m == old(m) && place == old(place) && pool == [] == old(pool)
      ensures p != 0 ==> p !in old(place) && m == Hung(old(m), n, t, i, p, bottom) && place == old(place)[p := old(place[t]) + [i]]
      ensures forall q :: Walk(m, q) == if p != 0 && q == old(place[t]) + [i] then p else Walk(old(m), q)
    {
      hide Placed, Walk, Hung, Fresh;
      TableSize(m, place, n, t);
      FreshNext(pool, place);
      if pool == [] { return 0; }
      p := pool[0];
      HungPlaced(m, place, n, t, i, p);
      forall q ensures Walk(Hung(m, n, t, i, p, bottom), q) == if q == place[t] + [i] then p else Walk(m, q) {
        HungWalk(m, place, n, t, i, p, q);
      }
      FreshTaken(pool, place, place[t] + [i]);
      HungTable(m, n, t, i, p, bottom);
      pool := pool[1..];
      place := place[p := place[t] + [i]];
      m := Hung(m, n, t, i, p, bottom);
    }

    /** The page in slot i of table t, at a given path, that is there or is made. */
    method Below(t: nat, i: nat, bottom: bool, ghost path: seq<nat>) returns (p: nat)
      requires Valid() && t in place && place[t] == path && i < n && |path| < 3 && Walk(m, path) == t && (bottom <==> |path| == 2)
      modifies this
      ensures Valid()
      ensures p == 0 ==> m == old(m) && pool == []
      ensures p != 0 ==> p in place && place[p] == path + [i] && Walk(m, path + [i]) == p
      ensures Grew(old(m), m, path + [i])
    {
      hide Fresh, Placed, Walk, Hung;
      SlotBelow(m, place, n, t, i);
      p := m.slots[t][i];
      if p == 0 {
        ghost var place0 := place;
        p := Commit(t, i, bottom);
        if p != 0 { HungGrew(old(m), place0, n, t, i, p, m); }
      }
    }

    /** The root, made when it is missing. */
    method Root() returns (p: nat)
      requires Valid()
      modifies this
      ensures Valid()
      ensures p == 0 ==> m == old(m) && pool == []
      ensures p != 0 ==> p in place && place[p] == [] && Walk(m, []) == p
      ensures Quiet(old(m), m)
    {
      hide Placed, Walk, Fresh;
      if m.root == 0 {
        FreshNext(pool, place);
        if pool == [] { return 0; }
        RootWalk(m, place, n, pool[0]);
        FreshTaken(pool, place, []);
        place := place[pool[0] := []];
        m := Memory(pool[0], m.slots[pool[0] := Zeros(n)], m.bytes);
        pool := pool[1..];
      }
      p := m.root;
      RootPlaced(m, place, n);
    }

    /** radix_tree_t::lookup with commit_pages: a page for the key. */
    method Lookup(k: nat) returns (p: nat)
      requires Valid() && n > 0
      modifies this
      ensures Valid()
      ensures p == 0 ==> pool == []
      ensures p != 0 ==> Walk(m, PathOf(n, k)) == p && p in m.bytes && |m.bytes[p]| == PAGE
      ensures Stable(old(m), m, PathOf(n, k))
    {
      hide Placed, Walk, Fresh, PathOf, Grew, Quiet, Stable;
      var path := PathOf(n, k);
      ghost var path1, path2 := [path[0]], [path[0], path[1]];
      assert [] + [path[0]] == path1 && path1 + [path[1]] == path2 && path2 + [path[2]] == path;
      var root := Root();
      QuietStable(old(m), m, m, path);
      if root == 0 { return 0; }
      ghost var m0 := m;
      var level1 := Below(root, path[0], false, []);
      GrewQuiet(m0, m, path1);
      QuietStable(old(m), m0, m, path);
      if level1 == 0 { return 0; }
      ghost var m1 := m;
      var level2 := Below(level1, path[1], false, path1);
      GrewQuiet(m1, m, path2);
      QuietStable(old(m), m1, m, path);
      if level2 == 0 { return 0; }
      ghost var m2 := m;
      p := Below(level2, path[2], true, path2);
      GrewStable(old(m), m2, m, path);
      if p != 0 { BottomPage(m, place, n, path); }
    }

    /** radix_tree_t::lookup without commit_pages. */
    method Find(k: nat) returns (p: nat)
      requires Valid() && n > 0
      ensures p == Walk(m, PathOf(n, k)) && (p != 0 ==> p in m.bytes && |m.bytes[p]| == PAGE)
    {
      var path := PathOf(n, k);
      var level1 := Slot(m, m.root, path[0]);
      var level2 := Slot(m, level1, path[1]);
      p := Slot(m, level2, path[2]);
      assert path[..2] == [path[0], path[1]] && path[..2][..1] == [path[0]] && path[..2][..1][..0] == [];
      assert Walk(m, [path[0]]) == level1;
      assert Walk(m, path[..2]) == level2;
      WalkPlace(m, place, n, path);
    }
  }

  /** Free pages are pages, and none of them is in use. */
  ghost predicate Fresh(pool: seq<nat>, place: map<nat, seq<nat>>) {
    && (forall i :: 0 <= i < |pool| ==> pool[i] != 0 && pool[i] !in place)
    && (forall i, j :: 0 <= i < j < |pool| ==> pool[i] != pool[j])
  }

  lemma FreshNext(pool: seq<nat>, place: map<nat, seq<nat>>)
    requires Fresh(pool, place)
    ensures pool != [] ==> pool[0] != 0 && pool[0] !in place
  {
  }

  lemma FreshTaken(pool: seq<nat>, place: map<nat, seq<nat>>, path: seq<nat>)
    requires Fresh(pool, place) && pool != []
    ensures Fresh(pool[1..], place[pool[0] := path])
  {
  }

  lemma TableSize(m: Memory, place: map<nat, seq<nat>>, n: nat, t: nat)
    requires Placed(m, place, n) && t in m.slots
    ensures |m.slots[t]| == n
  {
  }

  lemma HungTable(m: Memory, n: nat, t: nat, i: nat, p: nat, bottom: bool)
    requires t in m.slots && i < |m.slots[t]| == n
    ensures t in Hung(m, n, t, i, p, bottom).slots && |Hung(m, n, t, i, p, bottom).slots[t]| == n
  {
  }

  lemma SlotBelow(m: Memory, place: map<nat, seq<nat>>, n: nat, t: nat, i: nat)
    requires Placed(m, place, n) && t in place && |place[t]| < 3 && Walk(m, place[t]) == t && i < n
    ensures t in m.slots && |m.slots[t]| == n && Walk(m, place[t] + [i]) == m.slots[t][i]
    ensures m.slots[t][i] != 0 ==> m.slots[t][i] in place && place[m.slots[t][i]] == place[t] + [i]
  {
  }

  lemma HungGrew(m: Memory, place: map<nat, seq<nat>>, n: nat, t: nat, i: nat, p: nat, m': Memory)
    requires Placed(m, place, n) && t in place && t in m.slots && i < |m.slots[t]| && p !in place && p != 0 && |place[t]| < 3
    requires m' == Hung(m, n, t, i, p, |place[t]| == 2)
    requires forall q :: Walk(m', q) == if q == place[t] + [i] then p else Walk(m, q)
    requires Walk(m, place[t] + [i]) == 0
    ensures Grew(m, m', place[t] + [i])
  {
  }

  /** A step of the tree's growth: at most the page at the given path is new, and blank. */
  ghost predicate Grew(m: Memory, m': Memory, path: seq<nat>) {
    && (forall q {:trigger Walk(m', q)} :: q != path || Walk(m, q) != 0 ==> Walk(m', q) == Walk(m, q))
    && (forall p :: p in m.bytes ==> p in m'.bytes && m'.bytes[p] == m.bytes[p])
    && (|path| < 3 ==> m'.bytes == m.bytes)
    && (|path| == 3 ==> NewIsBlank(m, m', path))
  }

  ghost predicate NewIsBlank(m: Memory, m': Memory, path: seq<nat>) {
    var p := Walk(m', path);
    Walk(m, path) == 0 && p != 0 ==> p in m'.bytes && m'.bytes[p] == Blank()
  }

  /** Nothing happened at the bottom of the tree. */
  ghost predicate Quiet(m: Memory, m': Memory) {
    m'.bytes == m.bytes && forall q {:trigger Walk(m', q)} :: |q| == 3 ==> Walk(m', q) == Walk(m, q)
  }

  /** Pages at the bottom stay where they are, with what they hold; the one page that may
      be new is blank. */
  ghost predicate Stable(m: Memory, m': Memory, path: seq<nat>) {
    && (forall q {:trigger Walk(m', q)} :: |q| == 3 && (q != path || Walk(m, q) != 0) ==> Walk(m', q) == Walk(m, q))
    && (forall p :: p in m.bytes ==> p in m'.bytes && m'.bytes[p] == m.bytes[p])
    && NewIsBlank(m, m', path)
  }

  lemma GrewQuiet(m: Memory, m': Memory, path: seq<nat>)
    requires Grew(m, m', path) && |path| < 3
    ensures Quiet(m, m')
  {
  }

  lemma QuietStable(m: Memory, m1: Memory, m': Memory, path: seq<nat>)
    requires Quiet(m, m1) && (m1 == m' || Quiet(m1, m')) && |path| == 3
    ensures Quiet(m, m') && Stable(m, m', path)
  {
  }

  lemma GrewStable(m: Memory, m1: Memory, m': Memory, path: seq<nat>)
    requires Quiet(m, m1) && Grew(m1, m', path) && |path| == 3
    ensures Stable(m, m', path)
  {
  }

  lemma NoRoot(m: Memory, place: map<nat, seq<nat>>, n: nat)
    requires Placed(m, place, n)
    ensures 0 !in m.slots
  {
  }

  /** A new root: nothing is reached yet. */
  lemma RootWalk(m: Memory, place: map<nat, seq<nat>>, n: nat, p: nat)
    requires Placed(m, place, n) && m.root == 0 && p != 0 && p !in place
    ensures Placed(Memory(p, m.slots[p := Zeros(n)], m.bytes), place[p := []], n)
    ensures forall q :: q != [] ==> Walk(m, q) == 0 && Walk(Memory(p, m.slots[p := Zeros(n)], m.bytes), q) == 0
  {
    var m', place' := Memory(p, m.slots[p := Zeros(n)], m.bytes), place[p := []];
    forall t | t in m'.slots ensures TableOk(m', place', n, t) {
      if t != p { assert TableOk(m, place, n, t); }
    }
    forall q | q != [] ensures Walk(m, q) == 0 && Walk(m', q) == 0 { Nothing(m, place, n, p, q); }
  }

  lemma {:induction false} Nothing(m: Memory, place: map<nat, seq<nat>>, n: nat, p: nat, q: seq<nat>)
    requires Placed(m, place, n) && m.root == 0 && p != 0 && q != []
    ensures Walk(m, q) == 0 && Walk(Memory(p, m.slots[p := Zeros(n)], m.bytes), q) == 0
  {
    NoRoot(m, place, n);
    if |q| > 1 { Nothing(m, place, n, p, q[..|q| - 1]); }
  }

  lemma RootPlaced(m: Memory, place: map<nat, seq<nat>>, n: nat)
    requires Placed(m, place, n) && m.root != 0
    ensures m.root in place && place[m.root] == [] && Walk(m, []) == m.root
  {
  }

  lemma BottomPage(m: Memory, place: map<nat, seq<nat>>, n: nat, path: seq<nat>)
    requires Placed(m, place, n) && |path| == 3 && Walk(m, path) != 0
    ensures Walk(m, path) in m.bytes && |m.bytes[Walk(m, path)]| == PAGE
  {
    WalkPlace(m, place, n, path);
  }
}
