/** boot/x86_bios/pxemain.cc, pxe_openfile_t: a file fetched over TFTP as far as it is
    needed, and kept in a radix tree of pages. */
module PxeFile {
  import opened Modular
  import opened RadixCache
  import opened Buffers

  const LAST_BLOCK := 0xFFFF

  /** The block after k whole ones: the last is shorter than the others, or empty. */
  function Block(file: seq<bv8>, size: nat, k: nat): (r: seq<bv8>)
    requires k * size <= |file|
    ensures |r| <= size
    ensures |r| < size ==> k * size + |r| == |file|
  {
    if k * size + size <= |file| then file[k * size..k * size + size] else file[k * size..]
  }

  /** The TFTP server of RFC 1350: it sends block after block as they are asked for by
      consecutive 16-bit numbers from 1 on, and is done after one that is not full. A request
      that is out of turn gets nothing. */
  class Server {
    const file: seq<bv8>
    const blockSize: nat
    /** Which of the requests, in the order they are made, fail. */
    const fails: nat -> bool
    var tries: nat
    var failures: nat
    var strays: nat
    var answered: nat
    var ended: bool

    constructor (file: seq<bv8>, blockSize: nat, fails: nat -> bool)
      ensures this.file == file && this.blockSize == blockSize && answered == 0 && !ended && failures == 0 && strays == 0
    {
      this.file, this.blockSize, this.fails := file, blockSize, fails;
      tries, failures, strays, answered, ended := 0, 0, 0, 0, false;
    }

    method Read(sequence: nat) returns (got: int, data: seq<bv8>)
      requires !ended && answered * blockSize <= |file|
      modifies this
      ensures old(failures) <= failures && (got < 0 <==> failures > old(failures) || sequence != old(answered) + 1)
      ensures strays == old(strays) + if sequence != old(answered) + 1 then 1 else 0
      ensures sequence != old(answered) + 1 ==> failures == old(failures)
      ensures got < 0 ==> answered == old(answered) && !ended
      ensures got >= 0 ==> data == Block(file, blockSize, old(answered)) && got == |data|
      ensures got >= 0 ==> answered == old(answered) + 1 && ended == (got < blockSize)
    {
      var failed := fails(tries);
      tries := tries + 1;
      if sequence != answered + 1 {
        strays := strays + 1;
        return -1, [];
      }
      if failed {
        failures := failures + 1;
        return -1, [];
      }
      data := Block(file, blockSize, answered);
      got := |data|;
      answered := answered + 1;
      ended := got < blockSize;
    }
  }

  // ------------------------------------------------------------------- the cache

  function PageNumber(x: nat): nat { x / PAGE }

  ghost predicate Covers(n: nat, x: nat) { n > 0 && InTree(n, PageNumber(x)) }

  function CachePage(m: Memory, n: nat, x: nat): nat {
    if n == 0 then 0 else Walk(m, PathOf(n, PageNumber(x)))
  }

  /** The byte the cache has for offset x; 0 where nothing was stored. */
  function CacheAt(m: Memory, n: nat, x: nat): bv8 {
    var p := CachePage(m, n, x);
    if p != 0 && p in m.bytes && x % PAGE < |m.bytes[p]| then m.bytes[p][x % PAGE] else 0
  }

  /** The cache holds the first r bytes of the file and nothing else. */
  ghost predicate Holds(m: Memory, n: nat, file: seq<bv8>, r: nat)
    requires r <= |file|
  {
    && (forall x: nat :: x < r ==> CachePage(m, n, x) != 0 && CacheAt(m, n, x) == file[x])
    && (forall x: nat :: x >= r && Covers(n, x) ==> CacheAt(m, n, x) == 0)
  }

  /** Growing the tree changes no byte of the cache. */
  lemma StableCache(m: Memory, m': Memory, place: map<nat, seq<nat>>, n: nat, k: nat, x: nat)
    requires n > 0 && Placed(m, place, n) && Stable(m, m', PathOf(n, k))
    ensures CacheAt(m', n, x) == CacheAt(m, n, x)
    ensures CachePage(m, n, x) != 0 ==> CachePage(m', n, x) != 0
  {
    hide Walk, PathOf;
    var q := PathOf(n, PageNumber(x));
    WalkPlaceAll(m, place, n, q);
  }

  lemma WalkPlaceAll(m: Memory, place: map<nat, seq<nat>>, n: nat, q: seq<nat>)
    requires Placed(m, place, n) && |q| == 3
    ensures Walk(m, q) != 0 ==> Walk(m, q) in m.bytes
  {
    WalkPlace(m, place, n, q);
  }

  /** Bytes stored in a page appear at their offsets in the cache and nowhere else. */
  function Stored(m: Memory, p: nat, at: nat, data: seq<bv8>): Memory
    requires p in m.bytes && at + |data| <= |m.bytes[p]|
  {
    m.(bytes := m.bytes[p := Over(m.bytes[p], at, data)])
  }

  lemma {:induction false} StoredWalk(m: Memory, p: nat, at: nat, data: seq<bv8>, q: seq<nat>)
    requires p in m.bytes && at + |data| <= |m.bytes[p]|
    ensures Walk(Stored(m, p, at, data), q) == Walk(m, q)
  {
    if q != [] { StoredWalk(m, p, at, data, q[..|q| - 1]); }
  }

  lemma StoredCache(m: Memory, place: map<nat, seq<nat>>, n: nat, p: nat, x: nat, data: seq<bv8>, y: nat)
    requires Placed(m, place, n) && Covers(n, x) && p == CachePage(m, n, x) && p in m.bytes && |m.bytes[p]| == PAGE
    requires x % PAGE + |data| <= PAGE && Covers(n, y)
    ensures CachePage(Stored(m, p, x % PAGE, data), n, y) == CachePage(m, n, y)
    ensures CacheAt(Stored(m, p, x % PAGE, data), n, y) == if x <= y < x + |data| then data[y - x] else CacheAt(m, n, y)
  {
    hide Walk, PathOf, InTree, Placed;
    StoredWalk(m, p, x % PAGE, data, PathOf(n, PageNumber(y)));
    WalkPlace(m, place, n, PathOf(n, PageNumber(y)));
    WalkPlace(m, place, n, PathOf(n, PageNumber(x)));
    NotZero(m, place, n, p);
    if CachePage(m, n, y) == p { PathsDiffer(n, PageNumber(x), PageNumber(y)); }
  }

  lemma NotZero(m: Memory, place: map<nat, seq<nat>>, n: nat, p: nat)
    requires Placed(m, place, n) && p in m.bytes
    ensures p != 0
  {
  }

  lemma StoredPlaced(m: Memory, place: map<nat, seq<nat>>, n: nat, p: nat, at: nat, data: seq<bv8>)
    requires Placed(m, place, n) && p in m.bytes && at + |data| <= |m.bytes[p]|
    ensures Placed(Stored(m, p, at, data), place, n)
  {
  }

  /** The cache after data was stored at offset x. */
  ghost predicate Wrote(m: Memory, m': Memory, n: nat, x: nat, data: seq<bv8>) {
    && (forall y: nat :: Covers(n, y) ==>
          CacheAt(m', n, y) == if x <= y < x + |data| then data[y - x] else CacheAt(m, n, y))
    && (forall y: nat :: Covers(n, y) && CachePage(m, n, y) != 0 ==> CachePage(m', n, y) != 0)
    && (forall y: nat :: x <= y < x + |data| ==> CachePage(m', n, y) != 0)
  }

  lemma HoldsMore(m: Memory, m': Memory, n: nat, file: seq<bv8>, r: nat, data: seq<bv8>)
    requires r + |data| <= |file| && Holds(m, n, file, r) && data == file[r..r + |data|] && Wrote(m, m', n, r, data)
    requires forall x: nat :: x < |file| ==> Covers(n, x)
    ensures Holds(m', n, file, r + |data|)
  {
  }

  lemma LookedUpAndStored(m: Memory, m1: Memory, place: map<nat, seq<nat>>, place1: map<nat, seq<nat>>, n: nat, p: nat,
                          x: nat, data: seq<bv8>)
    requires Covers(n, x) && Placed(m, place, n) && Placed(m1, place1, n) && Stable(m, m1, PathOf(n, PageNumber(x)))
    requires p != 0 && Walk(m1, PathOf(n, PageNumber(x))) == p && p in m1.bytes && |m1.bytes[p]| == PAGE
    requires x % PAGE + |data| <= PAGE
    ensures Wrote(m, Stored(m1, p, x % PAGE, data), n, x, data)
  {
    hide CacheAt, CachePage, Covers, Stable, Walk, Stored, Placed;
    var m' := Stored(m1, p, x % PAGE, data);
    IsCachePage(m1, n, x);
    forall y: nat | Covers(n, y)
      ensures CacheAt(m', n, y) == if x <= y < x + |data| then data[y - x] else CacheAt(m, n, y)
      ensures CachePage(m, n, y) != 0 ==> CachePage(m', n, y) != 0
    {
      StableCache(m, m1, place, n, PageNumber(x), y);
      StoredCache(m1, place1, n, p, x, data, y);
    }
    forall y: nat | x <= y < x + |data| ensures CachePage(m', n, y) != 0 {
      SamePage(m1, n, x, y);
      StoredCache(m1, place1, n, p, x, data, y);
    }
  }

  lemma IsCachePage(m: Memory, n: nat, x: nat)
    requires Covers(n, x)
    ensures CachePage(m, n, x) == Walk(m, PathOf(n, PageNumber(x)))
  {
  }

  lemma SamePage(m: Memory, n: nat, x: nat, y: nat)
    requires x <= y < x + PAGE - x % PAGE && Covers(n, x)
    ensures Covers(n, y) && CachePage(m, n, y) == CachePage(m, n, x)
  {
  }

  lemma CoversBelow(n: nat, x: nat, y: nat)
    requires Covers(n, y) && x <= y
    ensures Covers(n, x)
  {
    QuotMono(PageNumber(x), PageNumber(y), n);
    QuotMono(Quot(PageNumber(x), n), Quot(PageNumber(y), n), n);
  }

  lemma QuotMono(x: nat, y: nat, d: nat)
    requires x <= y && d > 0
    ensures Quot(x, d) <= Quot(y, d)
  {
    DivMono(x, y, d);
  }

  /** The file padded with zeros. */
  function Padded(file: seq<bv8>, x: nat): bv8 { if x < |file| then file[x] else 0 }

  function Min(x: nat, y: nat): nat { if x < y then x else y }

  class OpenFile {
    const tree: Tree
    var server: Server
    var size: int
    var received: nat
    /** What the files opened before left in the slot. */
    ghost var kept: seq<bv8>

    /** What reads are answered from, as far as it was received. */
    ghost function Contents(): seq<bv8>
      reads this
    {
      kept + server.file
    }

    /** The cache holds what was received, and the transfer is just that far. */
    ghost predicate Valid()
      reads this, tree, server
    {
      && tree.Valid() && server.blockSize > 0
      && |kept| <= received <= |Contents()| && Covers(tree.n, |Contents()|) && Holds(tree.m, tree.n, Contents(), received)
      && (if server.ended then received == |Contents()| == size
          else
            (size == -1 || size == |server.file|) && received == |kept| + server.answered * server.blockSize)
      && server.answered <= LAST_BLOCK && received <= |kept| + server.answered * server.blockSize
    }

    /** open on a slot that was not used before; the size is -1 when the server does not
        tell it. */
    constructor (tree: Tree, server: Server, size: int)
      requires tree.Valid() && tree.m == Memory(0, map[], map[]) && server.blockSize > 0 && Covers(tree.n, |server.file|)
      requires server.answered == 0 && !server.ended && (size == -1 || size == |server.file|)
      ensures Valid() && this.tree == tree && this.server == server && received == 0 && kept == []
    {
      this.tree, this.server, this.size, this.received, this.kept := tree, server, size, 0, [];
      new;
      assert Contents() == server.file;
      EmptyCache(tree.n, server.file);
    }

    /** open on a slot whose file was closed: the cache and the count of what was received
        stay as they are, while a new transfer begins. */
    method Open(server': Server, size': int)
      requires Valid() && server'.blockSize > 0 && server'.answered == 0 && !server'.ended
      requires Covers(tree.n, received + |server'.file|) && (size' == -1 || size' == |server'.file|)
      modifies this
      ensures Valid() && server == server' && size == size' && received == old(received)
      ensures kept == old(Contents()[..received])
    {
      hide Placed, Fresh, Covers;
      kept := Contents()[..received];
      HoldsSame(tree.m, tree.n, Contents(), kept + server'.file, received);
      server, size := server', size';
    }

    /** A part of a block that does not cross a page boundary goes into the cache. */
    method Put(x: nat, data: seq<bv8>) returns (ok: bool)
      requires tree.Valid() && Covers(tree.n, x) && x % PAGE + |data| <= PAGE
      modifies tree
      ensures ok ==> tree.Valid() && Wrote(old(tree.m), tree.m, tree.n, x, data)
      ensures !ok ==> tree.pool == []
    {
      hide Placed, Stable, Wrote, Walk, Stored, Fresh, PathOf;
      ghost var place := tree.place;
      var p := tree.Lookup(PageNumber(x));
      if p == 0 { return false; }
      LookedUpAndStored(old(tree.m), tree.m, place, tree.place, tree.n, p, x, data);
      StoredPlaced(tree.m, tree.place, tree.n, p, x % PAGE, data);
      tree.m := Stored(tree.m, p, x % PAGE, data);
      ok := true;
    }

    /** The bounce buffer is moved into the cache, page by page. */
    method CopyBlock(data: seq<bv8>) returns (ok: bool)
      requires tree.Valid() && received + |data| <= |Contents()| && Covers(tree.n, |Contents()|)
      requires data == Contents()[received..received + |data|] && Holds(tree.m, tree.n, Contents(), received)
      modifies tree
      ensures ok ==> tree.Valid() && Holds(tree.m, tree.n, Contents(), received + |data|)
      ensures !ok ==> tree.pool == []
    {
      hide Placed, Fresh, Holds, Covers, Wrote;
      ghost var all := Contents();
      forall x: nat | x <= |all| ensures Covers(tree.n, x) { CoversBelow(tree.n, x, |all|); }
      var cached: nat := 0;
      var first := true;
      while first || cached < |data|
        invariant cached <= |data| && tree.Valid()
        invariant Holds(tree.m, tree.n, all, received + cached)
        decreases |data| - cached, first
      {
        first := false;
        var at := received + cached;
        var xfer := PAGE - at % PAGE;
        if cached + xfer > |data| { xfer := |data| - cached; }
        var part := data[cached..cached + xfer];
        PartOfBlock(all, received, data, cached, xfer);
        ghost var was := tree.m;
        ok := Put(at, part);
        if !ok { return; }
        HoldsMore(was, tree.m, tree.n, all, at, part);
        cached := cached + xfer;
      }
      ok := true;
    }

    /** One more block is asked for and cached. The server is asked out of turn exactly if
        what the slot had received before the file was opened puts the number off, or if all
        65535 numbers are used up. */
    method Fetch() returns (ok: bool, done: bool)
      requires Valid() && !server.ended
      modifies this, tree, server
      ensures server == old(server) && kept == old(kept) && old(server.failures) <= server.failures
      ensures old(server.strays) <= server.strays
      ensures server.strays > old(server.strays) <==> old(server.answered) == LAST_BLOCK || !InTurn(|kept|, server.blockSize)
      ensures ok ==> Valid() && server.failures == old(server.failures) && server.strays == old(server.strays) && received >= old(received)
      ensures ok ==> done == server.ended && (!done ==> received == old(received) + server.blockSize && size == old(size))
      ensures server.strays > old(server.strays) ==> !ok && server.failures == old(server.failures) && Valid()
      ensures !ok ==> server.strays == old(server.strays) || server.answered == old(server.answered)
      ensures !ok ==> || tree.pool == []
                      || ((server.failures > old(server.failures) || server.strays > old(server.strays)) && Valid() && received == old(received))
    {
      hide Placed, Fresh, Holds, Covers, InTurn;
      done := false;
      NextBlock(server.answered, server.blockSize, |kept|, received);
      var got, data := server.Read((received / server.blockSize + 1) % 0x1_0000);
      if got < 0 { return false, false; }
      OneBlock(server.answered, server.blockSize);
      BlockAt(kept, server.file, server.blockSize, server.answered - 1, received);
      ok := CopyBlock(data);
      if !ok { return; }
      received := received + got;
      if got < server.blockSize {
        size := received;
        done := true;
      }
    }

    /** read_until: the cache holds the contents up to the offset, or up to the end of the
        file. The server is not asked for what was received before. */
    method ReadUntil(offset: nat) returns (ok: bool)
      requires Valid()
      modifies this, tree, server
      ensures server == old(server) && kept == old(kept)
      ensures old(server.failures) <= server.failures && old(server.strays) <= server.strays
      ensures server.strays > old(server.strays) ==> old(received) < offset && OutOfTurn(|kept|, server.blockSize, offset)
      ensures old(received) < offset <= |server.file| && !InTurn(|kept|, server.blockSize) ==> server.strays > old(server.strays)
      ensures ok ==> Valid() && server.failures == old(server.failures) && server.strays == old(server.strays)
      ensures ok ==> received >= Min(offset, |server.file|) && received >= old(received)
      ensures offset <= old(received) ==> ok && server.tries == old(server.tries)
      ensures !ok ==> || tree.pool == []
                      || ((server.failures > old(server.failures) || server.strays > old(server.strays)) && Valid())
    {
      hide Placed, Fresh, Holds, Covers, InTurn;
      var until: int := offset;
      if size >= 0 && offset > size { until := size; }
      ok := true;
      while received < until
        invariant server == old(server) && kept == old(kept)
        invariant Valid() && ok && server.failures == old(server.failures) && server.strays == old(server.strays)
        invariant received >= old(received)
        invariant offset <= old(received) ==> received == old(received) && server.tries == old(server.tries)
        invariant !InTurn(|kept|, server.blockSize) ==> received == old(received)
        invariant server.ended ==> received >= until
        invariant until == offset || |server.file| <= until == size < offset
        decreases |Contents()| - received
      {
        var done;
        ok, done := Fetch();
        if !ok { return; }
        if done { break; }
      }
    }

    /** pread. What is delivered are the bytes of the contents: those of the file if the slot
        was not used before, with zeros past its end. A request that lies in the file is
        answered whole, unless the server fails or is asked out of turn or memory runs out;
        one that does not may be refused. */
    method Pread(buf: array<bv8>, bytes: nat, ofs: nat) returns (r: int)
      requires Valid() && bytes <= buf.Length && Covers(tree.n, ofs + bytes)
      modifies this, tree, server, buf
      ensures server == old(server) && kept == old(kept)
      ensures old(server.failures) <= server.failures && old(server.strays) <= server.strays
      ensures server.failures > old(server.failures) || server.strays > old(server.strays) ==> r == -1
      ensures server.strays > old(server.strays) ==> old(received) < ofs + bytes && OutOfTurn(|kept|, server.blockSize, ofs + bytes)
      ensures old(received) < ofs + bytes <= |server.file| && !InTurn(|kept|, server.blockSize) ==> server.strays > old(server.strays)
      ensures |kept| + LAST_BLOCK * server.blockSize < ofs + bytes <= |server.file| ==> r == -1
      ensures ofs + bytes <= old(received) ==> server.tries == old(server.tries)
      ensures server.failures == old(server.failures) && server.strays == old(server.strays) ==>
                || (Valid() && r == Int32(bytes) && buf[bytes..] == old(buf[bytes..]) && IsPadded(buf[..bytes], Contents()[..received], ofs)
                    && received >= Min(ofs + bytes, |server.file|) && (kept == [] ==> IsPadded(buf[..bytes], server.file, ofs)))
                || (r == -1 && (tree.pool == [] || (Valid() && ofs + bytes > |server.file|)))
    {
      hide Placed, Fresh, Holds, Covers, Int32, IsPadded, InTurn;
      var ok := ReadUntil(ofs + bytes);
      if !ok { return -1; }
      LessBlocks(server.answered, server.blockSize);
      r := CopyOut(buf, bytes, ofs);
      if kept == [] { WholeFile(buf[..bytes], Contents(), server.file, received, ofs); }
    }

    /** The second part of pread, from the cache to the caller's buffer. */
    method CopyOut(buf: array<bv8>, bytes: nat, ofs: nat) returns (r: int)
      requires Valid() && bytes <= buf.Length && Covers(tree.n, ofs + bytes) && received >= Min(ofs + bytes, |server.file|)
      modifies buf
      ensures || (r == Int32(bytes) && buf[bytes..] == old(buf[bytes..]) && IsPadded(buf[..bytes], Contents()[..received], ofs))
              || (r == -1 && ofs + bytes > |server.file|)
    {
      hide Placed, Fresh, Holds, Covers, Int32, CacheAt, CachePage, PathOf, Over, IsPadded, Walk;
      Int32Zero();
      r := 0;
      var at: nat, left: nat := ofs, bytes;
      ghost var was, done, all := buf[..], [], Contents()[..received];
      HoldsSame(tree.m, tree.n, Contents(), all, received);
      OverNothing(was);
      NonePadded(all, ofs);
      while left > 0
        invariant at + left == ofs + bytes && at == ofs + |done| && r == Int32(|done|)
        invariant buf[..] == Over(was, 0, done) && IsPadded(done, all, ofs)
      {
        CoversBelow(tree.n, at, ofs + bytes);
        IsCachePage(tree.m, tree.n, at);
        CoversTree(tree.n, at);
        var page := tree.Find(PageNumber(at));
        if page == 0 {
          Fetched(tree.m, tree.n, all, received, at);
          return -1;
        }
        var xfer := PAGE - at % PAGE;
        if xfer > left { xfer := left; }
        var data := tree.m.bytes[page][at % PAGE..at % PAGE + xfer];
        PageBytes(tree.m, tree.n, all, received, at, page, xfer);
        CopyIn(buf, at - ofs, data);
        OverOver(was, done, data);
        PaddedConcat(done, data, all, ofs);
        Int32Sum(|done|, xfer);
        done := done + data;
        at, left := at + xfer, left - xfer;
        r := Int32(r + xfer);
      }
      OverFront(was, done);
      assert buf[..bytes] == buf[..][..bytes] == done && buf[bytes..] == buf[..][bytes..];
    }
  }

  /** The cache of what was received depends on nothing that was not. */
  lemma HoldsSame(m: Memory, n: nat, file: seq<bv8>, file': seq<bv8>, r: nat)
    requires r <= |file| && r <= |file'| && file'[..r] == file[..r] && Holds(m, n, file, r)
    ensures Holds(m, n, file', r)
  {
    hide CacheAt, CachePage;
    assert forall x: nat :: x < r ==> file'[x] == file'[..r][x] == file[..r][x] == file[x];
  }

  lemma WholeFile(data: seq<bv8>, all: seq<bv8>, file: seq<bv8>, r: nat, x: nat)
    requires all == [] + file && r <= |all| && r >= Min(x + |data|, |file|)
    ensures IsPadded(data, all[..r], x) ==> IsPadded(data, file, x)
  {
    if IsPadded(data, all[..r], x) {
      forall i | 0 <= i < |data| ensures data[i] == Padded(file, x + i) {
        assert data[i] == Padded(all[..r], x + i);
      }
    }
  }

  lemma NonePadded(file: seq<bv8>, x: nat)
    ensures IsPadded([], file, x)
  {
  }

  lemma PartOfBlock(file: seq<bv8>, r: nat, data: seq<bv8>, from: nat, n: nat)
    requires r + |data| <= |file| && data == file[r..r + |data|] && from + n <= |data|
    ensures data[from..from + n] == file[r + from..r + from + n]
  {
    var x, y := data[from..from + n], file[r + from..r + from + n];
    forall i | 0 <= i < n ensures x[i] == y[i] {
      assert data[from + i] == file[r..r + |data|][from + i];
    }
  }

  lemma CoversTree(n: nat, x: nat)
    requires Covers(n, x)
    ensures n > 0
  {
  }

  lemma EmptyCache(n: nat, file: seq<bv8>)
    ensures Holds(Memory(0, map[], map[]), n, file, 0)
  {
  }

  /** An offset without a page was not received. */
  lemma Fetched(m: Memory, n: nat, file: seq<bv8>, r: nat, x: nat)
    requires r <= |file| && Holds(m, n, file, r) && CachePage(m, n, x) == 0
    ensures x >= r
  {
  }

  /** Data as the padded file has it from offset x on. */
  ghost predicate IsPadded(data: seq<bv8>, file: seq<bv8>, x: nat) {
    forall i :: 0 <= i < |data| ==> data[i] == Padded(file, x + i)
  }

  lemma PaddedConcat(a: seq<bv8>, b: seq<bv8>, file: seq<bv8>, x: nat)
    requires IsPadded(a, file, x) && IsPadded(b, file, x + |a|)
    ensures IsPadded(a + b, file, x)
  {
  }

  lemma PageBytes(m: Memory, n: nat, file: seq<bv8>, r: nat, x: nat, page: nat, xfer: nat)
    requires r <= |file| && Holds(m, n, file, r) && page == CachePage(m, n, x) != 0 && page in m.bytes
    requires |m.bytes[page]| == PAGE && x % PAGE + xfer <= PAGE && Covers(n, x)
    requires r >= Min(x + xfer, |file|)
    ensures IsPadded(m.bytes[page][x % PAGE..x % PAGE + xfer], file, x)
  {
    hide Covers, Holds;
    var data := m.bytes[page][x % PAGE..x % PAGE + xfer];
    forall i | 0 <= i < |data| ensures data[i] == Padded(file, x + i) {
      SamePage(m, n, x, x + i);
      assert (x + i) % PAGE == x % PAGE + i;
      HeldByte(m, n, file, r, x + i);
    }
  }

  lemma HeldByte(m: Memory, n: nat, file: seq<bv8>, r: nat, x: nat)
    requires r <= |file| && Holds(m, n, file, r) && Covers(n, x) && (x < r || x >= |file|)
    ensures CacheAt(m, n, x) == Padded(file, x)
  {
  }

  /** What was kept does not put the 16-bit block number off. */
  predicate InTurn(kept: nat, size: nat)
    requires size > 0
  {
    kept / size % 0x1_0000 == 0
  }

  /** To read up to an offset, a block that was not received is asked for by a wrong number, or
      one past the last number is needed. */
  predicate OutOfTurn(kept: nat, size: nat, offset: nat)
    requires size > 0
  {
    !InTurn(kept, size) || kept + LAST_BLOCK * size < offset
  }

  /** The number sent is that of the next block exactly if what was kept does not put it off
      and fewer than 65535 blocks came before. */
  lemma NextBlock(k: nat, size: nat, kept: nat, received: nat)
    requires size > 0 && received == kept + k * size && k <= LAST_BLOCK
    ensures (received / size + 1) % 0x1_0000 == k + 1 <==> k < LAST_BLOCK && InTurn(kept, size)
  {
    DivShift(kept, size, k);
    assert received / size == k + kept / size;
    NumberOff(k, kept / size);
  }

  lemma NumberOff(k: nat, m: nat)
    requires k <= LAST_BLOCK
    ensures (k + m + 1) % 0x1_0000 == k + 1 <==> k < LAST_BLOCK && m % 0x1_0000 == 0
  {
  }

  lemma OneBlock(k: nat, size: nat)
    requires k > 0
    ensures (k - 1) * size + size == k * size
  {
  }

  lemma LessBlocks(k: nat, size: nat)
    ensures k <= LAST_BLOCK ==> k * size <= LAST_BLOCK * size
  {
  }

  lemma BlockAt(kept: seq<bv8>, file: seq<bv8>, size: nat, k: nat, received: nat)
    requires |kept| + k * size == received && k * size <= |file|
    ensures var b := Block(file, size, k); received + |b| <= |kept + file| && b == (kept + file)[received..received + |b|]
  {
  }

  // ------------------------------------------------------------ opening a used slot

  /** Every read in the file is answered with its bytes: it was received before or the
      server can be asked for it in turn, and the contents of the slot begin with it. */
  ghost predicate Serves(kept: seq<bv8>, file: seq<bv8>, blockSize: nat)
    requires blockSize > 0
  {
    && (|file| <= |kept| || !OutOfTurn(|kept|, blockSize, |file|))
    && (kept + file)[..|file|] == file
  }

  function Wrapped(x: nat, d: nat): (r: nat)
    requires d > 0
    ensures r < d
  {
    x % d
  }

  /** The file is what was kept, over and over. */
  ghost predicate Repeats(kept: seq<bv8>, file: seq<bv8>)
    requires kept != []
  {
    forall x :: 0 <= x < |file| ==> file[x] == kept[Wrapped(x, |kept|)]
  }

  /** A slot serves the next file exactly if nothing was received in it before and the file has
      at most 65535 blocks, or if the file was already received whole, or if the file repeats
      what was received and that does not put the block number off. */
  lemma ServesIff(kept: seq<bv8>, file: seq<bv8>, blockSize: nat)
    requires blockSize > 0
    ensures Serves(kept, file, blockSize) <==>
              || (kept == [] && |file| <= LAST_BLOCK * blockSize)
              || (|file| <= |kept| && file == kept[..|file|])
              || (kept != [] && InTurn(|kept|, blockSize) && |file| <= |kept| + LAST_BLOCK * blockSize && Repeats(kept, file))
  {
    var all := kept + file;
    if kept == [] {
      assert all == file && all[..|file|] == file;
      assert 0 / blockSize == 0;
    } else {
      if |file| <= |kept| { assert all[..|file|] == kept[..|file|]; }
      RepeatsIff(kept, file);
    }
  }

  /** Less than a block, as a short last file leaves it, does not put the number off. */
  lemma ShortKept(kept: nat, size: nat)
    requires size > 0
    ensures kept < size ==> InTurn(kept, size)
    ensures size <= kept < 0x1_0000 * size ==> !InTurn(kept, size)
  {
    assert kept == size * (kept / size) + kept % size;
    LessFactor(kept / size, 0x1_0000, size);
    if kept < size { DivModUnique(kept, size, 0, kept); }
    if size <= kept { LessFactor(0, kept / size, size); }
  }

  lemma RepeatsIff(kept: seq<bv8>, file: seq<bv8>)
    requires kept != []
    ensures Repeats(kept, file) <==> (kept + file)[..|file|] == file
  {
    hide Wrapped;
    var all := kept + file;
    if Repeats(kept, file) {
      forall x: nat | x < |file| ensures all[..|file|][x] == file[x] { WrapStep(x, |kept|); }
    }
    if all[..|file|] == file {
      forall x: nat | x < |file| ensures file[x] == kept[Wrapped(x, |kept|)] { Repeated(kept, file, x); }
    }
  }

  lemma {:induction false} Repeated(kept: seq<bv8>, file: seq<bv8>, x: nat)
    requires kept != [] && (kept + file)[..|file|] == file && x < |file|
    ensures file[x] == kept[Wrapped(x, |kept|)]
    decreases x
  {
    hide Wrapped;
    assert file[x] == (kept + file)[..|file|][x];
    WrapStep(x, |kept|);
    if x >= |kept| { Repeated(kept, file, x - |kept|); }
  }

  lemma WrapStep(x: nat, d: nat)
    requires d > 0
    ensures Wrapped(x, d) == if x < d then x else Wrapped(x - d, d)
  {
    if x < d {
      DivModUnique(x, d, 0, x);
    } else {
      assert x == d * (x / d) + x % d;
      assert x - d == d * (x / d - 1) + x % d;
      DivModUnique(x - d, d, x / d - 1, x % d);
    }
  }

  /** In a slot that serves its file, every read in the file is answered with its bytes, unless
      the server fails or memory runs out. */
  method ReadServed(f: OpenFile, buf: array<bv8>, bytes: nat, ofs: nat) returns (r: int)
    requires f.Valid() && Serves(f.kept, f.server.file, f.server.blockSize)
    requires bytes <= buf.Length && ofs + bytes <= |f.server.file|
    modifies f, f.tree, f.server, buf
    ensures f.server == old(f.server) && Serves(f.kept, f.server.file, f.server.blockSize)
    ensures f.server.strays == old(f.server.strays)
    ensures f.server.failures == old(f.server.failures) ==>
              || (f.Valid() && r == Int32(bytes) && buf[..bytes] == f.server.file[ofs..ofs + bytes] && buf[bytes..] == old(buf[bytes..]))
              || (r == -1 && f.tree.pool == [])
  {
    hide Covers, Placed, Fresh, Holds, IsPadded, Int32, InTurn;
    CoversBelow(f.tree.n, ofs + bytes, |f.Contents()|);
    r := f.Pread(buf, bytes, ofs);
    if f.received >= ofs + bytes && f.received <= |f.Contents()| {
      ServedBytes(buf[..bytes], f.Contents(), f.server.file, f.received, ofs);
    }
  }

  lemma ServedBytes(data: seq<bv8>, all: seq<bv8>, file: seq<bv8>, r: nat, x: nat)
    requires x + |data| <= r <= |all| && x + |data| <= |file| <= |all|
    ensures IsPadded(data, all[..r], x) ==> data == all[x..x + |data|]
    ensures all[..|file|] == file ==> all[x..x + |data|] == file[x..x + |data|]
  {
    if IsPadded(data, all[..r], x) {
      forall i | 0 <= i < |data| ensures data[i] == all[x + i] {
        assert data[i] == Padded(all[..r], x + i);
      }
    }
    if all[..|file|] == file {
      forall i | x <= i < x + |data| ensures all[i] == file[i] { assert all[..|file|][i] == file[i]; }
    }
  }

  /** In a slot that does not serve the file just opened, a read of the whole file is refused,
      or does not deliver it. */
  method ReadUnserved(f: OpenFile, buf: array<bv8>) returns (r: int)
    requires f.Valid() && f.received == |f.kept| && !Serves(f.kept, f.server.file, f.server.blockSize)
    requires |f.server.file| <= buf.Length
    modifies f, f.tree, f.server, buf
    ensures f.server == old(f.server) && (r == -1 || buf[..|f.server.file|] != f.server.file)
  {
    hide Covers, Placed, Fresh, Holds, IsPadded, Int32, InTurn;
    ghost var file := f.server.file;
    CoversBelow(f.tree.n, |file|, |f.Contents()|);
    r := f.Pread(buf, |f.server.file|, 0);
    if r != -1 {
      ServedBytes(buf[..|file|], f.Contents(), file, f.received, 0);
      assert f.Contents()[0..|file|] == f.Contents()[..|file|];
    }
  }

  /** A file of two blocks, opened again after its first block was read: the next request
      is out of turn, although the bytes kept are those of the file. */
  method ReadReopened(f: OpenFile, server: Server, size: int, buf: array<bv8>) returns (r: int)
    requires f.Valid() && f.kept == [] && server.file == f.server.file && f.received == server.blockSize > 0
    requires |server.file| == 2 * server.blockSize && server.answered == 0 && !server.ended
    requires (size == -1 || size == |server.file|) && buf.Length == |server.file|
    requires Covers(f.tree.n, 3 * server.blockSize)
    modifies f, f.tree, f.server, server, buf
    ensures r == -1 && server.strays > old(server.strays)
    ensures !Serves(f.kept, server.file, server.blockSize) && f.kept == server.file[..server.blockSize]
  {
    hide Covers, Placed, Fresh, Holds, IsPadded;
    CoversBelow(f.tree.n, 2 * server.blockSize, 3 * server.blockSize);
    assert f.Contents() == server.file;
    ShortKept(server.blockSize, server.blockSize);
    f.Open(server, size);
    r := f.Pread(buf, buf.Length, 0);
  }

  /** Different pages of a file are cached in different pages of memory. */
  lemma DistinctPages(m: Memory, place: map<nat, seq<nat>>, n: nat, x: nat, y: nat)
    requires Placed(m, place, n) && Covers(n, x) && Covers(n, y) && PageNumber(x) != PageNumber(y)
    requires CachePage(m, n, x) != 0
    ensures CachePage(m, n, x) != CachePage(m, n, y)
  {
    hide Walk, PathOf, InTree, Placed;
    WalkPlace(m, place, n, PathOf(n, PageNumber(x)));
    WalkPlace(m, place, n, PathOf(n, PageNumber(y)));
    if CachePage(m, n, x) == CachePage(m, n, y) { PathsDiffer(n, PageNumber(x), PageNumber(y)); }
  }
}
