/** boot/paging.cc, paging_iovec_read: a part of a file is read into linear memory. */
module PageLoad {
  import opened PageWalk
  import opened Paging
  import opened IovecWalk
  import opened PageVector

  type Memory = map<int, bv8>

  /** Physical memory after data was stored at the given addresses, one after the other. */
  function Stored(mem: Memory, addrs: seq<int>, data: seq<bv8>): Memory
    requires |addrs| == |data|
  {
    if addrs == [] then mem
    else
      var last := |addrs| - 1;
      Stored(mem, addrs[..last], data[..last])[addrs[last] := data[last]]
  }

  lemma {:induction false} StoredConcat(mem: Memory, a: seq<int>, x: seq<bv8>, b: seq<int>, y: seq<bv8>)
    requires |a| == |x| && |b| == |y|
    ensures Stored(Stored(mem, a, x), b, y) == Stored(mem, a + b, x + y)
  {
    if b == [] {
      assert a + b == a && x + y == x;
    } else {
      var last := |b| - 1;
      assert (a + b)[..|a + b| - 1] == a + b[..last] && (x + y)[..|x + y| - 1] == x + y[..last];
      StoredConcat(mem, a, x, b[..last], y[..last]);
    }
  }

  /** Every address holds what was stored there last, and what it held before otherwise. */
  lemma {:induction false} StoredAt(mem: Memory, addrs: seq<int>, data: seq<bv8>, i: nat)
    requires |addrs| == |data| && i < |addrs| && forall j :: i < j < |addrs| ==> addrs[j] != addrs[i]
    ensures addrs[i] in Stored(mem, addrs, data) && Stored(mem, addrs, data)[addrs[i]] == data[i]
  {
    var last := |addrs| - 1;
    if i < last { StoredAt(mem, addrs[..last], data[..last], i); }
  }

  lemma {:induction false} StoredElsewhere(mem: Memory, addrs: seq<int>, data: seq<bv8>, a: int)
    requires |addrs| == |data| && a !in addrs
    ensures (a in Stored(mem, addrs, data) <==> a in mem) && (a in mem ==> Stored(mem, addrs, data)[a] == mem[a])
  {
    if addrs != [] { StoredElsewhere(mem, addrs[..|addrs| - 1], data[..|addrs| - 1], a); }
  }

  lemma FlattenNext(runs: seq<Run>, i: nat)
    requires i < |runs|
    ensures Flatten(runs[..i + 1]) == Flatten(runs[..i]) + Span1(runs[i].base, runs[i].size)
    ensures |Flatten(runs[..i + 1])| == |Flatten(runs[..i])| + runs[i].size
  {
    assert runs[..i + 1] == runs[..i] + [runs[i]];
    FlattenSnoc(runs[..i], runs[i]);
  }

  lemma {:induction false} FlattenPrefix(runs: seq<Run>, i: nat)
    requires i <= |runs|
    ensures |Flatten(runs[..i])| <= |Flatten(runs)|
    decreases |runs| - i
  {
    if i == |runs| {
      assert runs[..i] == runs;
    } else {
      FlattenNext(runs, i);
      FlattenPrefix(runs, i + 1);
    }
  }

  /** paging_iovec_read: each run is read from the file where the last one ended. Where the
      trail over the page tables is right, as for a good request, it halts only for a page
      without a page table, or when the file is too short, and memory is then as if every byte
      had been stored at its place. */
  method IovecRead(pt: PageTables, mem: Memory, file: seq<bv8>, fileOffset: nat, vaddr: nat, size: nat, max: nat)
    returns (ok: bool, mem': Memory)
    requires pt.Valid() && max > 0 && Readable(pt.View(), vaddr, size)
    modifies pt
    ensures pt.Valid() && pt.View() == old(pt.View())
    ensures Good(vaddr, size, max) ==> Right(FramesOf(pt.View()), vaddr, size, max)
    ensures ok && Right(FramesOf(pt.View()), vaddr, size, max) ==> size == 0 || fileOffset + size <= |file|
    ensures ok && Right(FramesOf(pt.View()), vaddr, size, max) ==>
              mem' == if size == 0 then mem
                      else Stored(mem, BytesFrom(pt.View(), vaddr, size), file[fileOffset..fileOffset + size])
    ensures !ok && Right(FramesOf(pt.View()), vaddr, size, max) ==> Lacks(pt.View(), vaddr, size) || fileOffset + size > |file|
  {
    hide WellFormed, Readable, Lacks, BytesFrom, Good, Flatten, Stored, After, Turn, Bounded, Right, FramesOf;
    if Good(vaddr, size, max) { GoodRight(FramesOf(pt.View()), vaddr, size, max); }
    NoneRead(mem);
    mem' := mem;
    ok := true;
    var offset := 0;
    while offset < size
      invariant pt.Valid() && pt.View() == old(pt.View()) && Readable(pt.View(), vaddr, size) && ok
      invariant Right(FramesOf(pt.View()), vaddr, size, max) ==> offset == 0 || (offset == size && fileOffset + size <= |file|)
      invariant Right(FramesOf(pt.View()), vaddr, size, max) ==>
                  mem' == if offset == 0 then mem
                          else Stored(mem, BytesFrom(pt.View(), vaddr, size), file[fileOffset..fileOffset + size])
    {
      TailReadable(pt.View(), vaddr, size, offset);
      var o, runs, _ := Iovec(pt, vaddr + offset, size - offset, max);
      ok := o.Complete?;
      if !ok { return; }
      SomeBytes(runs, max);
      var read;
      ok, mem', read := ReadRuns(mem', runs, file, fileOffset + offset);
      if !ok { return; }
      offset := offset + read;
    }
  }

  lemma SomeBytes(runs: seq<Run>, max: nat)
    requires runs != [] && Bounded(runs, max)
    ensures |Flatten(runs)| > 0 && forall i :: 0 <= i < |runs| ==> runs[i].size > 0
  {
  }

  /** The loop over the runs. */
  method ReadRuns(mem: Memory, runs: seq<Run>, file: seq<bv8>, fileOffset: nat) returns (ok: bool, mem': Memory, offset: nat)
    requires forall i :: 0 <= i < |runs| ==> runs[i].size > 0
    ensures ok <==> runs == [] || fileOffset + |Flatten(runs)| <= |file|
    ensures ok && runs != [] ==>
              mem' == Stored(mem, Flatten(runs), file[fileOffset..fileOffset + |Flatten(runs)|])
    ensures runs == [] ==> mem' == mem
    ensures ok ==> offset == |Flatten(runs)|
  {
    hide Flatten, Stored;
    mem' := mem;
    offset := 0;
    NoneRead(mem);
    assert runs[..0] == [] && runs[..|runs|] == runs;
    for i := 0 to |runs|
      invariant offset == |Flatten(runs[..i])| && (i > 0 ==> fileOffset + offset <= |file|)
      invariant i == 0 ==> mem' == mem
      invariant i > 0 ==> mem' == Stored(mem, Flatten(runs[..i]), file[fileOffset..fileOffset + offset])
    {
      FlattenNext(runs, i);
      FlattenPrefix(runs, i + 1);
      var at := fileOffset + offset;
      assert i == 0 ==> offset == 0;
      if at + runs[i].size > |file| { return false, mem', offset; }
      var data := file[at..at + runs[i].size];
      if i == 0 { assert file[fileOffset..fileOffset + offset] == []; }
      ReadMore(mem, mem', Flatten(runs[..i]), file, fileOffset, offset, runs[i]);
      mem' := Stored(mem', Span1(runs[i].base, runs[i].size), data);
      offset := offset + runs[i].size;
    }
    ok := true;
  }

  lemma NoneRead(mem: Memory)
    ensures Flatten([]) == [] && Stored(mem, [], []) == mem
  {
  }

  lemma ReadMore(mem: Memory, m: Memory, addrs: seq<int>, file: seq<bv8>, from: nat, offset: nat, r: Run)
    requires offset == |addrs| && from + offset + r.size <= |file|
    requires m == Stored(mem, addrs, file[from..from + offset])
    ensures Stored(m, Span1(r.base, r.size), file[from + offset..from + offset + r.size]) ==
            Stored(mem, addrs + Span1(r.base, r.size), file[from..from + offset + r.size])
  {
    hide Stored;
    var x, y := file[from..from + offset], file[from + offset..from + offset + r.size];
    StoredConcat(mem, addrs, x, Span1(r.base, r.size), y);
    assert x + y == file[from..from + offset + r.size];
  }

  /** When no two bytes of the range share memory, the processor finds byte i of the file's
      part at byte i of the range. */
  lemma Loaded(s: Space, mem: Memory, file: seq<bv8>, fileOffset: nat, vaddr: nat, size: nat, i: nat)
    requires WellFormed(s) && i < size && vaddr + size <= LINEAR_LIMIT && fileOffset + size <= |file|
    requires var addrs := BytesFrom(s, vaddr, size); forall x, y :: 0 <= x < y < size ==> addrs[x] != addrs[y]
    requires FindFrom(s, 0, PageOf(vaddr + i)).At?
    requires var h := Hw(s, PageOf(vaddr + i)); h.Leaf? && h.entry.addr < ADDR_LIMIT && h.entry.addr % PAGE == 0
    ensures var m := Stored(mem, BytesFrom(s, vaddr, size), file[fileOffset..fileOffset + size]);
            var b := ByteOf(s, vaddr + i);
            Translate(s, vaddr + i).Reaches(b) && b in m && m[b] == file[fileOffset + i]
  {
    hide WellFormed, FindFrom, Hw, ByteOf, Translate;
    ByteIsTranslated(s, vaddr + i);
    var addrs := BytesFrom(s, vaddr, size);
    assert addrs[i] == ByteOf(s, vaddr + i);
    StoredAt(mem, addrs, file[fileOffset..fileOffset + size], i);
  }
}
