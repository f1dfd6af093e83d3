/** boot/fs/fat32.cc, the reader itself: the FAT cache, the cluster lists of open files and
    reads into a caller's buffer. */
module FatReader {
  import opened Modular
  import opened Options
  import opened DiskPlan
  import opened Fat32
  import opened Buffers

  const EMPTY := 0xFFFF_FFFF

  /** The buffered FAT sector is the one it is labelled with; the label is 32 bits wide. */
  ghost predicate CacheOk(disk: nat -> Sector, g: Geometry, held: Option<nat>, tag: nat, buffer: Sector) {
    match held
    case None => tag == 0 || tag == EMPTY
    case Some(lba) => g.firstFat <= lba <= LastFat(g) && tag == lba % TWO32 && buffer == disk(lba)
  }

  /** A label that matches the wanted sector means that the sector is in the buffer. */
  lemma HitIsRight(disk: nat -> Sector, g: Geometry, held: Option<nat>, tag: nat, buffer: Sector, cluster: nat)
    requires GeometryOk(g) && CacheOk(disk, g, held, tag, buffer) && !Eof(cluster) && tag == FatLba(g, cluster)
    ensures buffer == disk(FatLba(g, cluster)) && tag == FatLba(g, cluster) % TWO32
  {
    hide FatLba, LastFat;
    FatRange(g, cluster);
    if held.Some? {
      CloseResidues(held.value, FatLba(g, cluster));
    }
  }

  lemma CloseResidues(x: nat, y: nat)
    requires x % TWO32 == y && x < y + TWO32
    ensures x == y
  {
  }

  // ----------------------------------------------------- the disk reads of a walk

  /** The label of the FAT buffer once the entries of the first k clusters were looked up. */
  function TagAfter(g: Geometry, tag: nat, chain: seq<nat>, k: nat): nat
    requires k <= |chain|
  {
    if k == 0 then tag else FatLba(g, chain[k - 1]) % TWO32
  }

  /** The entry of cluster k is not in the buffer. */
  predicate Miss(g: Geometry, tag: nat, chain: seq<nat>, k: nat)
    requires k < |chain|
  {
    TagAfter(g, tag, chain, k) != FatLba(g, chain[k])
  }

  /** The disk reads that looking up the first k entries takes. */
  function Misses(g: Geometry, tag: nat, chain: seq<nat>, k: nat): nat
    requires k <= |chain|
  {
    if k == 0 then 0 else Misses(g, tag, chain, k - 1) + if Miss(g, tag, chain, k - 1) then 1 else 0
  }

  lemma {:induction false} MissesGrow(g: Geometry, tag: nat, chain: seq<nat>, i: nat, k: nat)
    requires i <= k <= |chain|
    ensures Misses(g, tag, chain, i) <= Misses(g, tag, chain, k)
    decreases k
  {
    if i < k { MissesGrow(g, tag, chain, i, k - 1); }
  }

  /** None of n reads from number t on fails. */
  predicate NoFails(fails: nat -> bool, t: nat, n: nat) { forall i: nat :: t <= i < t + n ==> !fails(i) }

  /** The first read that fails is the one for the entry of cluster k. */
  predicate WalkFails(fails: nat -> bool, g: Geometry, tag: nat, chain: seq<nat>, t: nat, k: nat) {
    && k < |chain| && Miss(g, tag, chain, k)
    && fails(t + Misses(g, tag, chain, k)) && NoFails(fails, t, Misses(g, tag, chain, k))
  }

  predicate Walked(fails: nat -> bool, g: Geometry, tag: nat, chain: seq<nat>, t: nat, k: nat, tries: nat, now: nat)
    requires k <= |chain|
  {
    && tries == t + Misses(g, tag, chain, k) && NoFails(fails, t, Misses(g, tag, chain, k))
    && now == TagAfter(g, tag, chain, k)
  }

  /** One step of a walk, and the walk that ends at a failed read. */
  lemma WalkStep(fails: nat -> bool, g: Geometry, tag: nat, chain: seq<nat>, t: nat, k: nat, tries: nat, now: nat)
    requires k < |chain| && Walked(fails, g, tag, chain, t, k, tries, now)
    ensures
      var hit := now == FatLba(g, chain[k]);
      if hit || !fails(tries) then
        Walked(fails, g, tag, chain, t, k + 1, tries + if hit then 0 else 1, FatLba(g, chain[k]) % TWO32)
      else
        && WalkFails(fails, g, tag, chain, t, k) && tries == t + Misses(g, tag, chain, k)
        && !NoFails(fails, t, Misses(g, tag, chain, |chain|))
  {
    hide FatLba;
    MissesGrow(g, tag, chain, k + 1, |chain|);
  }

  lemma WalkBegins(fails: nat -> bool, g: Geometry, tag: nat, chain: seq<nat>, t: nat)
    ensures Walked(fails, g, tag, chain, t, 0, t, tag)
  {
  }

  lemma WalkEnd(fails: nat -> bool, g: Geometry, tag: nat, chain: seq<nat>, t: nat, tries: nat, now: nat)
    requires Walked(fails, g, tag, chain, t, |chain|, tries, now)
    ensures tries == t + Misses(g, tag, chain, |chain|) && now == TagAfter(g, tag, chain, |chain|)
    ensures NoFails(fails, t, Misses(g, tag, chain, |chain|))
  {
  }

  lemma FillStep(chain: seq<nat>, list: seq<nat>, k: nat)
    requires k < |chain| == |list|
    ensures (chain[..k] + list[k..])[k := chain[k]] == chain[..k + 1] + list[k + 1..]
  {
  }

  /** There is no memory for the list once the chain was counted; none is given for no bytes. */
  predicate Halts(fails: nat -> bool, g: Geometry, tag: nat, chain: seq<nat>, t: nat, room: nat -> bool) {
    NoFails(fails, t, Misses(g, tag, chain, |chain|)) && (chain == [] || !room(4 * |chain|))
  }

  function Memory(junk: nat -> nat, i: nat, n: nat): seq<nat> { seq(n, k requires 0 <= k => junk(i + k)) }

  /** The list that fat32_sector_iterator_begin leaves: none when the first walk fails, the
      chain when neither does, else the chain up to cluster at and old memory after it. */
  ghost predicate Left(fails: nat -> bool, g: Geometry, tag: nat, chain: seq<nat>, t: nat, now: nat, at: nat, junk: nat -> nat,
                       before: Option<seq<nat>>, after: Option<seq<nat>>)
  {
    var m := Misses(g, tag, chain, |chain|);
    var tag' := TagAfter(g, tag, chain, |chain|);
    if !NoFails(fails, t, m) then after == before
    else if NoFails(fails, t + m, Misses(g, tag', chain, |chain|)) then after == Some(chain)
    else
      && WalkFails(fails, g, tag', chain, t + m, at) && after == Some(Filled(chain, junk, at + 1))
      && now == t + m + Misses(g, tag', chain, at) + 1
  }

  lemma FilledList(chain: seq<nat>, junk: nat -> nat, n: nat)
    requires n <= |chain|
    ensures chain[..n] + Memory(junk, 0, |chain|)[n..] == Filled(chain, junk, n)
  {
  }

  function Filled(chain: seq<nat>, junk: nat -> nat, n: nat): (list: seq<nat>)
    requires n <= |chain|
    ensures |list| == |chain|
  {
    chain[..n] + Memory(junk, n, |chain| - n)
  }

  class Volume {
    const g: Geometry
    const disk: nat -> Sector
    /** Which of the reads, in the order they are made, fail. */
    const fails: nat -> bool
    var tries: nat
    var failures: nat
    var fatBuffer: Sector
    var fatBufferLba: nat
    ghost var held: Option<nat>
    var handles: seq<Handle>

    ghost predicate Valid()
      reads this
    {
      GeometryOk(g) && Sectors(disk, g.size) && CacheOk(disk, g, held, fatBufferLba, fatBuffer)
    }

    /** fat32_use_fs, with the parameter block read. */
    constructor (g: Geometry, disk: nat -> Sector, fails: nat -> bool, handles: seq<Handle>)
      requires GeometryOk(g) && Sectors(disk, g.size)
      ensures Valid() && this.g == g && this.disk == disk && this.handles == handles && failures == 0
    {
      this.g, this.disk, this.fails, this.handles := g, disk, fails, handles;
      tries, failures := 0, 0;
      fatBuffer, fatBufferLba, held := [], 0, None;
    }

    /** disk_read_lba: a read fails, or delivers what the disk holds. */
    method ReadDisk(lba: nat, count: nat) returns (ok: bool, data: Sector)
      modifies this`tries, this`failures
      ensures old(failures) <= failures && (ok <==> failures == old(failures)) && tries == old(tries) + 1
      ensures ok <==> !fails(old(tries))
      ensures ok ==> data == Run(disk, lba, count)
    {
      ok := !fails(tries);
      tries := tries + 1;
      if !ok { failures := failures + 1; }
      data := Run(disk, lba, count);
    }

    /** read_fat */
    method ReadFat(lba: nat) returns (ok: bool)
      requires Valid() && g.firstFat <= lba <= LastFat(g)
      modifies this`tries, this`failures, this`fatBuffer, this`fatBufferLba, this`held
      ensures Valid()
      ensures old(failures) <= failures && (ok <==> failures == old(failures)) && tries == old(tries) + 1
      ensures ok <==> !fails(old(tries))
      ensures ok ==> fatBuffer == disk(lba) && fatBufferLba == lba % TWO32
    {
      var data;
      ok, data := ReadDisk(lba, 1);
      assert Run(disk, lba, 1) == Run(disk, lba, 0) + disk(lba);
      if ok {
        fatBuffer := data;
        fatBufferLba, held := lba % TWO32, Some(lba);
      } else {
        fatBufferLba, held := EMPTY, None;
      }
    }

    /** next_cluster: through the cache, exactly what the FAT on the disk says. The disk is
        read only if the sector is not the one looked up last. */
    method NextCluster(cluster: nat) returns (next: nat, ok: bool)
      requires Valid() && !Eof(cluster)
      modifies this`tries, this`failures, this`fatBuffer, this`fatBufferLba, this`held
      ensures Valid()
      ensures old(failures) <= failures && (ok <==> failures == old(failures))
      ensures tries == old(tries) + if old(fatBufferLba) == FatLba(g, cluster) then 0 else 1
      ensures ok <==> old(fatBufferLba) == FatLba(g, cluster) || !fails(old(tries))
      ensures ok ==> next == Next(disk, g, cluster) && fatBufferLba == FatLba(g, cluster) % TWO32
      ensures !ok ==> next == 0xFFFF_FFFF
    {
      hide GeometryOk, FatLba, LastFat, CacheOk;
      var lba := FatLba(g, cluster);
      FatRange(g, cluster);
      ok := true;
      if fatBufferLba != lba {
        ok := ReadFat(lba);
        if !ok { return 0xFFFF_FFFF, false; }
      } else {
        HitIsRight(disk, g, held, fatBufferLba, fatBuffer, cluster);
      }
      next := EntryIn(fatBuffer, g, cluster);
      if Eof(next) { next := 0; }
    }

    /** The first walk of fat32_sector_iterator_begin: how long the chain is. It fails exactly
        if one of the disk reads it needs does. */
    method CountChain(cluster: nat, ghost chain: seq<nat>) returns (count: nat, ok: bool)
      requires Valid() && Chain(disk, g, cluster, chain)
      modifies this`tries, this`failures, this`fatBuffer, this`fatBufferLba, this`held
      ensures Valid()
      ensures old(failures) <= failures && (ok <==> failures == old(failures))
      ensures ok <==> NoFails(fails, old(tries), Misses(g, old(fatBufferLba), chain, |chain|))
      ensures ok ==> tries == old(tries) + Misses(g, old(fatBufferLba), chain, |chain|)
      ensures ok ==> count == |chain| && fatBufferLba == TagAfter(g, old(fatBufferLba), chain, |chain|)
    {
      hide GeometryOk, CacheOk, Next, FatLba, Misses, NoFails, WalkFails, TagAfter;
      ghost var t, tag := tries, fatBufferLba;
      WalkBegins(fails, g, tag, chain, t);
      hide Walked;
      count, ok := 0, true;
      var walk := cluster;
      while !Eof(walk)
        invariant Valid() && ok && failures == old(failures)
        invariant count <= |chain| && walk == Reached(disk, g, cluster, chain, count)
        invariant Walked(fails, g, tag, chain, t, count, tries, fatBufferLba)
        decreases |chain| - count
      {
        assert count < |chain| && chain[count] == walk;
        WalkStep(fails, g, tag, chain, t, count, tries, fatBufferLba);
        walk, ok := NextCluster(walk);
        if !ok { return; }
        count := count + 1;
      }
      WalkEnd(fails, g, tag, chain, t, tries, fatBufferLba);
    }

    /** The second walk: the chain is copied into the list. If a disk read fails, the list
        is filled up to and including the cluster whose entry was wanted. */
    method FillChain(file: nat, cluster: nat, ghost chain: seq<nat>) returns (ok: bool, ghost at: nat)
      requires Valid() && Chain(disk, g, cluster, chain) && file < |handles|
      requires handles[file].clusters.Some? && |handles[file].clusters.value| == |chain|
      modifies this
      ensures Valid() && |handles| == old(|handles|)
      ensures old(failures) <= failures && (ok <==> failures == old(failures))
      ensures ok <==> NoFails(fails, old(tries), Misses(g, old(fatBufferLba), chain, |chain|))
      ensures !ok ==> WalkFails(fails, g, old(fatBufferLba), chain, old(tries), at)
      ensures !ok ==> tries == old(tries) + Misses(g, old(fatBufferLba), chain, at) + 1
      ensures ok ==> tries == old(tries) + Misses(g, old(fatBufferLba), chain, |chain|)
      ensures
        var n := if ok then |chain| else at + 1;
        && n <= |chain|
        && handles == old(handles)[file := old(handles[file]).(clusters := Some(chain[..n] + old(handles[file]).clusters.value[n..]))]
    {
      hide GeometryOk, CacheOk, Next, FatLba, Misses, NoFails, WalkFails, TagAfter;
      ghost var t, tag := tries, fatBufferLba;
      WalkBegins(fails, g, tag, chain, t);
      hide Walked;
      ghost var list := handles[file].clusters.value;
      ok, at := true, 0;
      var walk := cluster;
      var k := 0;
      assert chain[..0] + list == list;
      while !Eof(walk)
        invariant Valid() && ok && failures == old(failures)
        invariant k <= |chain| && walk == Reached(disk, g, cluster, chain, k)
        invariant Walked(fails, g, tag, chain, t, k, tries, fatBufferLba)
        invariant handles == old(handles)[file := old(handles[file]).(clusters := Some(chain[..k] + list[k..]))]
        decreases |chain| - k
      {
        assert k < |chain| && chain[k] == walk;
        FillStep(chain, list, k);
        WalkStep(fails, g, tag, chain, t, k, tries, fatBufferLba);
        handles := handles[file := handles[file].(clusters := Some(handles[file].clusters.value[k := walk]))];
        walk, ok := NextCluster(walk);
        if !ok { at := k; return; }
        k := k + 1;
      }
      WalkEnd(fails, g, tag, chain, t, tries, fatBufferLba);
    }

    /** fat32_sector_iterator_begin. The loader halts when it gets no memory for the list, and so
        for an empty chain, for which it asks for none. The memory of the new list holds
        whatever it held before, and a read that fails during the second walk leaves it there
        in part. */
    method Begin(file: nat, cluster: nat, junk: nat -> nat, room: nat -> bool, ghost chain: seq<nat>)
      returns (halted: bool, status: int, sector: Sector, ghost at: nat)
      requires Valid() && Chain(disk, g, cluster, chain) && file < |handles|
      modifies this
      ensures halted <==> Halts(fails, g, old(fatBufferLba), chain, old(tries), room)
      ensures Valid() && |handles| == old(|handles|) && old(failures) <= failures
      ensures !halted ==> status == if failures > old(failures) then -1 else 1
      ensures !halted && status == 1 ==> sector == disk(SignExtended(ClusterLba(g, cluster)))
      ensures !halted ==>
                Left(fails, g, old(fatBufferLba), chain, old(tries), tries, at, junk, old(handles[file]).clusters, handles[file].clusters)
      ensures handles == old(handles)[file := Handle(cluster, handles[file].clusters)]
      ensures !halted && status == 1 ==> handles[file].clusters == Some(chain) && chain != []
      ensures old(Sure()) ==> failures == old(failures) && Sure()
    {
      hide GeometryOk, CacheOk, Next, SignExtended, ClusterLba, FatLba, Misses;
      halted, status, sector, at := false, -1, [], 0;
      handles := handles[file := handles[file].(cluster := cluster)];
      var count, ok := CountChain(cluster, chain);
      if !ok { return; }
      if count == 0 || !room(4 * count) {
        halted := true;
        return;
      }
      handles := handles[file := handles[file].(clusters := Some(Memory(junk, 0, count)))];
      ok, at := FillChain(file, cluster, chain);
      if !ok { FilledList(chain, junk, at + 1); return; }
      assert chain[..|chain|] + Memory(junk, 0, |chain|)[|chain|..] == chain;
      assert !Eof(cluster) by {
        assert chain[0] == Reached(disk, g, cluster, chain, 0) == cluster;
      }
      var lba := SignExtended(ClusterLba(g, cluster));
      ok, sector := ReadDisk(lba, 1);
      assert Run(disk, lba, 1) == Run(disk, lba, 0) + disk(lba);
      if ok { status := 1; }
    }

    /** No disk read fails any more. */
    ghost predicate Sure()
      reads this
    {
      forall n: nat :: n >= tries ==> !fails(n)
    }

    /** The first loop of fat32_boot_pread: a plan for the request. A plan of more than 32769
        transfers is written past the memory of its list, unless memory runs out before. */
    method MakePlan(chain: seq<nat>, plan: Plan, ofs: nat, bytes: nat) returns (ok: bool, outside: bool)
      requires plan.Valid() && plan.Entries() == [] && plan.size == g.size && GeometryOk(g)
      requires InRange(g, chain, ofs, bytes)
      modifies plan
      ensures !outside ==> plan.Valid()
      ensures ok ==> !outside && plan.Entries() == PlanFrom(g, chain, [], ofs, bytes) && |plan.Entries()| <= 32769
      ensures outside ==> |PlanFrom(g, chain, [], ofs, bytes)| > 32769
      ensures !ok && !outside ==> exists n :: !plan.granted(n)
    {
      hide GeometryOk, InRange, Part, Added, Grown, PlanFrom;
      ghost var whole := PlanFrom(g, chain, [], ofs, bytes);
      var at: nat, left: nat := ofs, bytes;
      GrownRoom(plan.count, plan.capacity, |plan.vec|);
      while left != 0
        invariant plan.Valid() && plan.count <= |plan.vec|
        invariant InRange(g, chain, at, left) && PlanFrom(g, chain, plan.Entries(), at, left) == whole
        decreases left
      {
        var v := Part(g, chain, at, left);
        RestInRange(g, chain, at, left, v.len);
        PlanStep(g, chain, plan.Entries(), at, left);
        GrownRoom(plan.count, plan.capacity, |plan.vec|);
        AddedRoom(plan.Entries(), g.size, v);
        ok, outside := plan.Add(v.lba, v.count, v.ofs, v.len);
        if !ok { return; }
        GrownRoom(plan.count, plan.capacity, |plan.vec|);
        at, left := at + v.len, left - v.len;
      }
      PlanDone(g, chain, plan.Entries(), at);
      GrownRoom(plan.count, plan.capacity, |plan.vec|);
      return true, false;
    }

    /** One transfer of a plan: whole sectors directly, a part of one through a buffer. */
    method Transfer1(item: Transfer, buf: array<bv8>, dest: nat) returns (ok: bool)
      requires Sectors(disk, g.size) && Sound(item, g.size) && dest + item.len * item.count <= buf.Length
      modifies this`tries, this`failures, buf
      ensures old(failures) <= failures && (ok <==> failures == old(failures))
      ensures |Bytes(disk, g.size, item)| == item.len * item.count
      ensures old(tries) <= tries && (old(Sure()) ==> ok && Sure())
      ensures ok ==> buf[..] == Over(old(buf[..]), dest, Bytes(disk, g.size, item))
    {
      hide Sound, Bytes, Run;
      BytesLength(disk, g.size, item);
      ghost var was := buf[..];
      var data;
      if item.ofs == 0 && item.len == g.size {
        ok, data := ReadDisk(item.lba, item.count);
        if !ok { return; }
        WholeBytes(disk, g.size, item);
      } else {
        ok, data := ReadDisk(item.lba, 1);
        if !ok { return; }
        PartialBytes(disk, g.size, item);
        data := data[item.ofs..item.ofs + item.len];
      }
      CopyIn(buf, dest, data);
    }

    /** The second loop of fat32_boot_pread: the plan is carried out. */
    method Execute(es: seq<Transfer>, buf: array<bv8>) returns (total: int)
      requires Valid() && AllSound(es, g.size)
      requires |AllBytes(disk, g.size, es)| <= buf.Length && |AllBytes(disk, g.size, es)| < TWO32
      modifies this`tries, this`failures, buf
      ensures Valid() && old(failures) <= failures && old(tries) <= tries
      ensures old(Sure()) ==> failures == old(failures)
      ensures failures > old(failures) ==> total == 0
      ensures failures == old(failures) ==>
                var data := AllBytes(disk, g.size, es);
                total == Int32(|data|) && buf[..] == Over(old(buf[..]), 0, data)
    {
      hide GeometryOk, CacheOk, Sound, Int32, AllBytes, Bytes, Over;
      var dest := 0;
      total := 0;
      Int32Zero();
      EmptyBytes(disk, g.size);
      OverNothing(buf[..]);
      assert es[..0] == [] && es[..|es|] == es;
      for i := 0 to |es|
        invariant Valid() && failures == old(failures) && old(tries) <= tries && (old(Sure()) ==> Sure())
        invariant dest == |AllBytes(disk, g.size, es[..i])| <= buf.Length && total == Int32(dest)
        invariant buf[..] == Over(old(buf[..]), 0, AllBytes(disk, g.size, es[..i]))
      {
        PrefixBytes(disk, g.size, es, i);
        BytesLength(disk, g.size, es[i]);
        ghost var done, next := AllBytes(disk, g.size, es[..i]), Bytes(disk, g.size, es[i]);
        var ok := Transfer1(es[i], buf, dest);
        if !ok { return 0; }
        OverOver(old(buf[..]), done, next);
        var xfer := es[i].len * es[i].count % TWO32;
        Int32Sum(dest, xfer);
        dest := dest + xfer;
        total := Int32(total + xfer);
      }
    }

    /** fat32_boot_pread. The caller's buffer gets the requested slice of the concatenated
        clusters of the list and nothing past it, unless a disk read fails or the heap has no
        room for the plan. The list is made by the first read, which may halt the loader, and
        kept, also when making it failed. The count returned went through an int. */
    method Pread(file: nat, buf: array<bv8>, bytes: nat, ofs: nat, granted: nat -> bool, junk: nat -> nat, room: nat -> bool,
                 ghost chain: seq<nat>)
      returns (halted: bool, outside: bool, r: int, ghost at: nat, ghost now: nat)
      requires Valid() && file < |handles| && bytes <= buf.Length && bytes < TWO32
      requires handles[file].clusters == None ==> Chain(disk, g, handles[file].cluster, chain)
      requires InRange(g, ListOf(handles[file], chain), ofs, bytes)
      modifies this, buf
      ensures halted <==> old(handles[file]).clusters == None && Halts(fails, g, old(fatBufferLba), chain, old(tries), room)
      ensures Valid() && old(failures) <= failures && |handles| == old(|handles|)
      ensures outside ==> !halted && |PlanFrom(g, ListOf(old(handles[file]), chain), [], ofs, bytes)| > 32769
      ensures !outside && old(handles[file]).clusters.Some? ==>
                |PlanFrom(g, ListOf(old(handles[file]), chain), [], ofs, bytes)| <= 32769 || exists n :: !granted(n)
      ensures failures > old(failures) ==> r == -1 || r == 0
      ensures handles == old(handles)[file := old(handles[file]).(clusters := handles[file].clusters)]
      ensures !halted ==>
                if old(handles[file]).clusters.Some? then handles == old(handles)
                else now <= tries && Left(fails, g, old(fatBufferLba), chain, old(tries), now, at, junk, None, handles[file].clusters)
      ensures !halted && failures == old(failures) ==>
                var list := ListOf(old(handles[file]), chain);
                && handles[file].clusters == Some(list)
                && (|| (outside && |PlanFrom(g, list, [], ofs, bytes)| > 32769)
                    || (r == Int32(bytes) && |PlanFrom(g, list, [], ofs, bytes)| <= 32769 && IsSlice(disk, g, list, ofs, buf[..bytes]) && buf[bytes..] == old(buf[bytes..]))
                    || (r == 0 && exists n :: !granted(n)))
      ensures old(Sure()) ==> failures == old(failures)
    {
      hide GeometryOk, CacheOk, Chain, InRange, PlanFrom, IsSlice, Int32, Over, Left, Halts;
      ghost var list := ListOf(handles[file], chain);
      halted, outside, r, at, now := false, false, -1, 0, 0;
      if handles[file].clusters == None {
        var panicked, status, _, stop := Begin(file, handles[file].cluster, junk, room, chain);
        halted, at, now := panicked, stop, tries;
        if halted || status < 0 { return; }
      }
      outside, r := ReadList(handles[file].clusters.value, buf, bytes, ofs, granted);
    }

    /** The two loops of fat32_boot_pread. */
    method ReadList(list: seq<nat>, buf: array<bv8>, bytes: nat, ofs: nat, granted: nat -> bool) returns (outside: bool, r: int)
      requires Valid() && bytes <= buf.Length && bytes < TWO32 && InRange(g, list, ofs, bytes)
      modifies this`tries, this`failures, buf
      ensures Valid() && old(failures) <= failures && old(tries) <= tries && (failures > old(failures) ==> r == 0)
      ensures outside ==> |PlanFrom(g, list, [], ofs, bytes)| > 32769
      ensures !outside ==> |PlanFrom(g, list, [], ofs, bytes)| <= 32769 || exists n :: !granted(n)
      ensures failures == old(failures) ==>
                || outside
                || (r == Int32(bytes) && |PlanFrom(g, list, [], ofs, bytes)| <= 32769
                    && IsSlice(disk, g, list, ofs, buf[..bytes]) && buf[bytes..] == old(buf[bytes..]))
                || (r == 0 && exists n :: !granted(n))
      ensures old(Sure()) ==> failures == old(failures)
    {
      hide GeometryOk, CacheOk, InRange, PlanFrom, IsSlice, Int32, Over;
      var plan := new Plan(g.size, granted);
      var ok;
      ok, outside := MakePlan(list, plan, ofs, bytes);
      if !ok { return outside, 0; }
      PlanSlice(disk, g, list, ofs, bytes);
      GrownRoom(plan.count, plan.capacity, |plan.vec|);
      ghost var was := buf[..];
      r := Execute(plan.Entries(), buf);
      if failures == old(failures) {
        OverFront(was, AllBytes(disk, g.size, PlanFrom(g, list, [], ofs, bytes)));
      }
    }
  }

  /** The list a read uses: the one the file has, or its chain. */
  ghost function ListOf(h: Handle, chain: seq<nat>): seq<nat> {
    if h.clusters.Some? then h.clusters.value else chain
  }

  /** A file of more than 32769 clusters of one sector, every other one on the disk, is read
      whole: the plan is written past its memory. */
  method LongRead(v: Volume, buf: array<bv8>, n: nat) returns (outside: bool)
    requires v.Valid() && v.g.perCluster == 1 && v.handles == [Handle(2, Some(EveryOther(n)))]
    requires 32769 < n < TWO32 && v.g.begin + 2 + 2 * n < TWO32 && n * v.g.size == buf.Length < TWO32
    modifies v, buf
    ensures outside
  {
    hide CacheOk, InRange, PlanFrom, IsSlice, Int32, Sectors;
    assert v.g.size > 0;
    hide GeometryOk;
    LongPlan(v.g, n);
    var halted, out, r, at, now := v.Pread(0, buf, buf.Length, 0, m => true, i => 0, m => true, []);
    outside := out;
  }

  // ------------------------------------------------------ reading with another list

  /** Reads with a list deliver what reads with the chain would, for every byte of the file,
      exactly if every sector they find has the contents of the right one. */
  lemma ListReads(disk: nat -> Sector, g: Geometry, list: seq<nat>, chain: seq<nat>)
    requires Sectors(disk, g.size) && g.size > 0 && g.perCluster > 0 && |list| == |chain|
    ensures (forall x: nat :: InFile(g, chain, x) ==> ByteAt(disk, g, list, x) == ByteAt(disk, g, chain, x))
            <==> forall s: nat :: s < TWO32 && s / g.perCluster < |chain| ==> SameSectors(disk, g, list, chain, s)
  {
    hide SectorLba, OffsetIn;
    if forall x: nat :: InFile(g, chain, x) ==> ByteAt(disk, g, list, x) == ByteAt(disk, g, chain, x) {
      forall s: nat | s < TWO32 && s / g.perCluster < |chain| ensures SameSectors(disk, g, list, chain, s) {
        SectorFromBytes(disk, g, list, chain, s);
      }
    }
    if forall s: nat :: s < TWO32 && s / g.perCluster < |chain| ==> SameSectors(disk, g, list, chain, s) {
      forall x: nat | InFile(g, chain, x) ensures ByteAt(disk, g, list, x) == ByteAt(disk, g, chain, x) {
        assert SameSectors(disk, g, list, chain, SectorOf(g, x));
      }
    }
  }

  /** A read is right when the list agrees with the chain on the clusters it touches. */
  lemma AgreesOnTouched(disk: nat -> Sector, g: Geometry, list: seq<nat>, chain: seq<nat>, ofs: nat, s: Sector)
    requires g.size > 0 && g.perCluster > 0 && |list| == |chain|
    requires forall x: nat :: ofs <= x < ofs + |s| ==> InFile(g, chain, x) && Touches(g, list, x) == Touches(g, chain, x)
    ensures IsSlice(disk, g, list, ofs, s) <==> IsSlice(disk, g, chain, ofs, s)
  {
    hide ByteAt, InFile;
    forall x: nat | ofs <= x < ofs + |s| ensures ByteAt(disk, g, list, x) == ByteAt(disk, g, chain, x) {
      SameCluster(disk, g, list, chain, x);
    }
  }

  /** The cluster of a list that byte x lies in. */
  function Touches(g: Geometry, list: seq<nat>, x: nat): nat
    requires g.size > 0 && g.perCluster > 0
  {
    var c := SectorOf(g, x) / g.perCluster;
    if c < |list| then list[c] else 0
  }

  lemma SameCluster(disk: nat -> Sector, g: Geometry, list: seq<nat>, chain: seq<nat>, x: nat)
    requires g.size > 0 && g.perCluster > 0 && |list| == |chain| && Touches(g, list, x) == Touches(g, chain, x)
    ensures ByteAt(disk, g, list, x) == ByteAt(disk, g, chain, x)
  {
    hide OffsetIn, SectorOf;
  }

  /** A read that touches only the clusters filled in is right, whatever the memory of the list
      held before. */
  lemma FilledReads(disk: nat -> Sector, g: Geometry, chain: seq<nat>, junk: nat -> nat, n: nat, ofs: nat, s: Sector)
    requires g.size > 0 && g.perCluster > 0 && n <= |chain|
    requires forall x: nat :: ofs <= x < ofs + |s| ==> InFile(g, chain, x) && SectorOf(g, x) / g.perCluster < n
    ensures IsSlice(disk, g, Filled(chain, junk, n), ofs, s) <==> IsSlice(disk, g, chain, ofs, s)
  {
    var list := Filled(chain, junk, n);
    assert forall i :: 0 <= i < n ==> list[i] == chain[i];
    hide Filled, InFile, SectorOf, IsSlice;
    AgreesOnTouched(disk, g, list, chain, ofs, s);
  }

  predicate SameSectors(disk: nat -> Sector, g: Geometry, list: seq<nat>, chain: seq<nat>, s: nat) {
    disk(SectorLba(g, list, s)) == disk(SectorLba(g, chain, s))
  }

  lemma SectorFromBytes(disk: nat -> Sector, g: Geometry, list: seq<nat>, chain: seq<nat>, s: nat)
    requires Sectors(disk, g.size) && g.size > 0 && g.perCluster > 0
    requires s < TWO32 && s / g.perCluster < |chain|
    requires forall x: nat :: InFile(g, chain, x) ==> ByteAt(disk, g, list, x) == ByteAt(disk, g, chain, x)
    ensures SameSectors(disk, g, list, chain, s)
  {
    hide SectorLba;
    var a, b := disk(SectorLba(g, list, s)), disk(SectorLba(g, chain, s));
    forall o | 0 <= o < g.size ensures a[o] == b[o] {
      var x: nat := g.size * s + o;
      DivModUnique(x, g.size, s, o);
      assert InFile(g, chain, x);
    }
  }

  /** A volume with a file of two clusters whose FAT entries lie in two sectors. */
  function TwoSectorFat(lba: nat): (r: Sector)
    ensures |r| == 512
  {
    if lba == 1 then seq(512, i => if i == 8 then 128 else 0)
    else if lba == 2 then [255, 255, 255, 15] + seq(508, i => 0)
    else seq(512, i => if lba == 228 then 1 else 0)
  }

  lemma EntriesIn(g: Geometry)
    requires g.size == 512
    ensures PerSector(g) == 128
  {
  }

  lemma TwoClusters(g: Geometry, chain: seq<nat>)
    requires PerSector(g) == 128 && g.firstFat == 1 && chain == [2, 128]
    ensures Chain(TwoSectorFat, g, 2, chain)
  {
    hide FatLba, PerSector, EntryAt, Next, TwoSectorFat;
    TwoEntries(g, PerSector(g));
    EntryOf(g, 2, 1, 2, 128);
    EntryOf(g, 128, 2, 0, 0x0FFF_FFFF);
    assert Reached(TwoSectorFat, g, 2, chain, 0) == 2 && Reached(TwoSectorFat, g, 2, chain, 1) == 128
           && Reached(TwoSectorFat, g, 2, chain, 2) == 0;
  }

  lemma EntryOf(g: Geometry, cluster: nat, lba: nat, at: nat, value: nat)
    requires FatLba(g, cluster) == lba && EntryAt(g, cluster) == at < 128
    requires (lba == 1 && at == 2 && value == 128) || (lba == 2 && at == 0 && value == 0x0FFF_FFFF)
    ensures Next(TwoSectorFat, g, cluster) == if Eof(value) then 0 else value
  {
    hide FatLba, PerSector;
    assert EntryIn(TwoSectorFat(lba), g, cluster) == value by { FatBytes(lba, at, value); }
  }

  lemma FatBytes(lba: nat, at: nat, value: nat)
    requires (lba == 1 && at == 2 && value == 128) || (lba == 2 && at == 0 && value == 0x0FFF_FFFF)
    ensures Le32(TwoSectorFat(lba), 4 * at) == value
  {
    var b := TwoSectorFat(lba);
    if lba == 1 {
      assert b[8] == 128 && b[9] == 0 && b[10] == 0 && b[11] == 0;
    } else {
      assert b[0] == 255 && b[1] == 255 && b[2] == 255 && b[3] == 15;
    }
  }

  /** The third disk read fails, while the list is filled. The next read of the file finds
      a list, uses it, and delivers another sector than that of the second cluster. */
  method ReadAfterFailure(v: Volume, buf: array<bv8>, junk: nat) returns (r: int)
    requires v.Valid() && v.g == Geometry(512, 1, 1, 100) && v.disk == TwoSectorFat
    requires v.handles == [Handle(2, None)] && v.fatBufferLba == 0 && v.tries == 0
    requires forall n: nat :: v.fails(n) <==> n == 2
    requires buf.Length == 512 && 100 + junk < TWO32
    modifies v, buf
    ensures r == 512 && IsSlice(v.disk, v.g, [2, junk], 512, buf[..])
    ensures junk != 128 ==> !IsSlice(v.disk, v.g, [2, 128], 512, buf[..])
  {
    hide TwoSectorFat, GeometryOk, CacheOk, Chain, InRange, PlanFrom, IsSlice, Int32, Left, Halts, Sectors, FatLba, PerSector, EntryAt, LastFat;
    ghost var chain: seq<nat> := [2, 128];
    EntriesIn(v.g);
    TwoClusters(v.g, chain);
    FileRequest([2, 128]);
    FileRequest([2, junk]);
    ghost var fails := v.fails;
    TwoEntries(v.g, 128);
    var halted, outside, _, at, now := v.Pread(0, buf, 512, 512, n => true, i => junk, n => true, chain);
    NotHalted(fails, v.g, chain);
    FirstFailure(fails, v.g, chain, at, now, i => junk, v.handles[0].clusters);
    halted, outside, r, at, now := v.Pread(0, buf, 512, 512, n => true, i => junk, n => true, chain);
    assert buf[..512] == buf[..];
    Small(512);
    OtherSector(v.g, [2, junk], chain, buf[..]);
  }

  lemma TwoEntries(g: Geometry, n: nat)
    requires n == PerSector(g) == 128 && g.firstFat == 1
    ensures FatLba(g, 2) == 1 && FatLba(g, 128) == 2 && EntryAt(g, 2) == 2 && EntryAt(g, 128) == 0
  {
    hide FatLba, PerSector, EntryAt;
    Place(g, 2, n, 0, 2);
    Place(g, 128, n, 1, 0);
  }

  function EntryAt(g: Geometry, cluster: nat): nat { cluster % PerSector(g) }

  lemma Place(g: Geometry, c: nat, n: nat, q: nat, r: nat)
    requires PerSector(g) == n > 0 && c == n * q + r && r < n
    ensures FatLba(g, c) == g.firstFat + q && EntryAt(g, c) == r
  {
    DivModUnique(c, n, q, r);
  }

  lemma Small(x: nat)
    requires x < 0x8000_0000
    ensures Int32(x) == x
  {
  }

  lemma NotHalted(fails: nat -> bool, g: Geometry, chain: seq<nat>)
    requires chain != []
    ensures !Halts(fails, g, 0, chain, 0, n => true)
  {
  }

  lemma FirstFailure(fails: nat -> bool, g: Geometry, chain: seq<nat>, at: nat, now: nat, junk: nat -> nat, after: Option<seq<nat>>)
    requires forall n: nat :: fails(n) <==> n == 2
    requires |chain| == 2 && FatLba(g, chain[0]) == 1 && FatLba(g, chain[1]) == 2
    requires Left(fails, g, 0, chain, 0, now, at, junk, None, after)
    ensures now == 3 && after == Some([chain[0], junk(1)])
  {
    TwoMisses(g, chain);
    hide Misses, FatLba, Miss, TagAfter;
    assert fails(2);
    assert at == 0;
    assert Filled(chain, junk, 1) == [chain[0], junk(1)];
  }

  lemma OtherSector(g: Geometry, list: seq<nat>, chain: seq<nat>, b: Sector)
    requires g.size == 512 && g.perCluster == 1 && g.begin == 100 && |list| == |chain| == 2 && 100 + list[1] < TWO32 && chain[1] == 128
    requires |b| == 512 && IsSlice(TwoSectorFat, g, list, 512, b)
    ensures list[1] != 128 ==> !IsSlice(TwoSectorFat, g, chain, 512, b)
  {
    SecondSector(g, list);
    SecondSector(g, chain);
    hide ByteAt, TwoSectorFat;
    assert b[0] == ByteAt(TwoSectorFat, g, list, 512 + 0);
    assert IsSlice(TwoSectorFat, g, chain, 512, b) ==> b[0] == ByteAt(TwoSectorFat, g, chain, 512 + 0);
  }

  lemma SecondSector(g: Geometry, list: seq<nat>)
    requires g.size == 512 && g.perCluster == 1 && g.begin == 100 && |list| == 2 && 100 + list[1] < TWO32
    ensures ByteAt(TwoSectorFat, g, list, 512) == if list[1] == 128 then 1 else 0
  {
    assert SectorOf(g, 512) == 1 && OffsetIn(g, 512) == 0 && SectorLba(g, list, 1) == 100 + list[1];
    hide SectorOf, OffsetIn, SectorLba;
  }

  lemma FileRequest(list: seq<nat>)
    requires |list| == 2
    ensures var g := Geometry(512, 1, 1, 100); InRange(g, list, 512, 512) && |PlanFrom(g, list, [], 512, 512)| <= 32769
  {
    PlanShort(Geometry(512, 1, 1, 100), list, 512, 512, 1);
  }

  lemma TwoMisses(g: Geometry, chain: seq<nat>)
    requires |chain| == 2 && FatLba(g, chain[0]) == 1 && FatLba(g, chain[1]) == 2
    ensures Misses(g, 0, chain, 2) == 2 && TagAfter(g, 0, chain, 2) == 2
    ensures Miss(g, 2, chain, 0) && Misses(g, 2, chain, 0) == 0 && Misses(g, 2, chain, 1) == 1 && Misses(g, 2, chain, 2) == 2
  {
    hide FatLba;
    assert Misses(g, 0, chain, 1) == 1;
    assert Misses(g, 2, chain, 1) == 1;
  }

  lemma PlanSlice(disk: nat -> Sector, g: Geometry, chain: seq<nat>, ofs: nat, bytes: nat)
    requires InRange(g, chain, ofs, bytes) && Sectors(disk, g.size)
    ensures var p := PlanFrom(g, chain, [], ofs, bytes);
            && AllSound(p, g.size) && |AllBytes(disk, g.size, p)| == bytes
            && IsSlice(disk, g, chain, ofs, AllBytes(disk, g.size, p))
  {
    hide PlanFrom, InRange;
    PlanDelivers(disk, g, chain, [], ofs, ofs, bytes);
  }

  lemma EmptyBytes(disk: nat -> Sector, size: nat)
    requires Sectors(disk, size)
    ensures AllBytes(disk, size, []) == []
  {
  }

  lemma PartialBytes(disk: nat -> Sector, size: nat, v: Transfer)
    requires Sound(v, size) && Sectors(disk, size) && !Full(v, size)
    ensures Run(disk, v.lba, 1) == disk(v.lba) && v.ofs + v.len <= |Run(disk, v.lba, 1)|
    ensures Bytes(disk, size, v) == Run(disk, v.lba, 1)[v.ofs..v.ofs + v.len]
  {
  }

  lemma WholeBytes(disk: nat -> Sector, size: nat, v: Transfer)
    requires Sound(v, size) && Sectors(disk, size)
    ensures Full(v, size) ==> Bytes(disk, size, v) == Run(disk, v.lba, v.count)
  {
  }

  lemma PrefixBytes(disk: nat -> Sector, size: nat, es: seq<Transfer>, i: nat)
    requires AllSound(es, size) && Sectors(disk, size) && i < |es|
    ensures AllBytes(disk, size, es[..i + 1]) == AllBytes(disk, size, es[..i]) + Bytes(disk, size, es[i])
    ensures |AllBytes(disk, size, es[..i + 1])| <= |AllBytes(disk, size, es)|
  {
    assert es[..i + 1][..i] == es[..i];
    PrefixShorter(disk, size, es, i + 1);
  }

  lemma {:induction false} PrefixShorter(disk: nat -> Sector, size: nat, es: seq<Transfer>, i: nat)
    requires AllSound(es, size) && Sectors(disk, size) && i <= |es|
    ensures |AllBytes(disk, size, es[..i])| <= |AllBytes(disk, size, es)|
    decreases |es| - i
  {
    if i == |es| {
      assert es[..i] == es;
    } else {
      assert es[..i + 1][..i] == es[..i];
      PrefixShorter(disk, size, es, i + 1);
    }
  }

  lemma PlanStep(g: Geometry, chain: seq<nat>, es: seq<Transfer>, ofs: nat, bytes: nat)
    requires InRange(g, chain, ofs, bytes) && bytes > 0
    ensures var v := Part(g, chain, ofs, bytes);
            && InRange(g, chain, ofs + v.len, bytes - v.len)
            && PlanFrom(g, chain, es, ofs, bytes) == PlanFrom(g, chain, Added(es, g.size, v), ofs + v.len, bytes - v.len)
            && |Added(es, g.size, v)| <= |PlanFrom(g, chain, es, ofs, bytes)|
  {
    var v := Part(g, chain, ofs, bytes);
    RestInRange(g, chain, ofs, bytes, v.len);
    PlanLonger(g, chain, Added(es, g.size, v), ofs + v.len, bytes - v.len);
  }

  lemma PlanDone(g: Geometry, chain: seq<nat>, es: seq<Transfer>, ofs: nat)
    requires InRange(g, chain, ofs, 0)
    ensures PlanFrom(g, chain, es, ofs, 0) == es
  {
  }

  /** An addition that does not lengthen the plan joins. */
  lemma AddedRoom(es: seq<Transfer>, size: nat, v: Transfer)
    ensures |Added(es, size, v)| > |es| || (es != [] && Joins(es[|es| - 1], |es|, size, v))
  {
  }
}
