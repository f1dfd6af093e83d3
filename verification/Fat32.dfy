/** boot/fs/fat32.cc: following cluster chains through a one-sector cache of the FAT, and
    reading any part of a file through a plan of disk transfers. */
module Fat32 {
  import opened Options
  import opened DiskPlan
  import opened Modular

  /** From the BIOS parameter block: bytes in a sector, sectors in a cluster, where the
      FAT begins and where cluster 0 would. */
  datatype Geometry = Geometry(size: nat, perCluster: nat, firstFat: nat, begin: nat)

  /** Sector and cluster sizes of the FAT32 specification. The FAT begins after the boot
      sector and does not include sector 0xFFFFFFFF, which the cache uses to mark itself
      empty. */
  predicate GeometryOk(g: Geometry) {
    && g.size in {512, 1024, 2048, 4096} && g.perCluster in {1, 2, 4, 8, 16, 32, 64, 128}
    && 0 < g.firstFat && !(g.firstFat <= 0xFFFF_FFFF <= LastFat(g))
  }

  // ------------------------------------------------------------------- the FAT

  predicate Eof(cluster: nat) { cluster < 2 || cluster >= 0x0FFF_FFF8 }

  function PerSector(g: Geometry): nat { if g.size < 4 then 1 else g.size / 4 }

  function FatLba(g: Geometry, cluster: nat): nat { g.firstFat + cluster / PerSector(g) }

  /** The last sector that an entry of a cluster in a chain lies in. */
  function LastFat(g: Geometry): nat { FatLba(g, 0x0FFF_FFF7) }

  function Le32(b: Sector, i: nat): nat
    requires i + 4 <= |b|
  {
    (b[i] as nat) + (b[i + 1] as nat) * 0x100 + (b[i + 2] as nat) * 0x1_0000 + (b[i + 3] as nat) * 0x100_0000
  }

  /** The entry of a cluster in a FAT sector, 28 bits of it. */
  function EntryIn(b: Sector, g: Geometry, cluster: nat): nat {
    var i := 4 * (cluster % PerSector(g));
    if i + 4 <= |b| then Le32(b, i) % 0x1000_0000 else 0
  }

  /** The cluster after a given one as the FAT on the disk has it, 0 for the end. */
  function Next(disk: nat -> Sector, g: Geometry, cluster: nat): nat {
    var e := EntryIn(disk(FatLba(g, cluster)), g, cluster);
    if Eof(e) then 0 else e
  }

  /** The cluster that the FAT leads to after k clusters of a list. */
  function Reached(disk: nat -> Sector, g: Geometry, cluster: nat, list: seq<nat>, k: nat): nat
    requires k <= |list|
  {
    if k == 0 then cluster else Next(disk, g, list[k - 1])
  }

  /** The clusters from a given one to the end of its chain. */
  ghost predicate Chain(disk: nat -> Sector, g: Geometry, cluster: nat, chain: seq<nat>) {
    && (forall k {:trigger Reached(disk, g, cluster, chain, k)} :: 0 <= k < |chain| ==>
          chain[k] == Reached(disk, g, cluster, chain, k) && !Eof(chain[k]))
    && Eof(Reached(disk, g, cluster, chain, |chain|))
  }

  lemma FatRange(g: Geometry, cluster: nat)
    requires cluster < 0x0FFF_FFF8
    ensures g.firstFat <= FatLba(g, cluster) <= LastFat(g)
    ensures LastFat(g) < g.firstFat + TWO32
  {
    assert PerSector(g) >= 1;
    DivMono(cluster, 0x0FFF_FFF7, PerSector(g));
    DivSmaller(0x0FFF_FFF7, PerSector(g));
  }

  /** What an open file has: its first cluster and, once read, the list of its clusters. */
  datatype Handle = Handle(cluster: nat, clusters: Option<seq<nat>>)

  function SignExtended(lba: nat): nat {
    if 0x8000_0000 <= lba < TWO32 then lba + 0xFFFF_FFFF_0000_0000 else lba
  }

  function ClusterLba(g: Geometry, cluster: nat): nat { (g.begin + cluster * g.perCluster) % TWO32 }

  // -------------------------------------------------------- the contents of a file

  function SectorLba(g: Geometry, chain: seq<nat>, s: nat): nat {
    if g.perCluster == 0 || s / g.perCluster >= |chain| then 0
    else (ClusterLba(g, chain[s / g.perCluster]) + s % g.perCluster) % TWO32
  }

  /** Byte x lies in a cluster of the file; sectors are numbered with 32 bits. */
  predicate InFile(g: Geometry, chain: seq<nat>, x: nat) {
    g.size > 0 && g.perCluster > 0 && x / g.size / g.perCluster < |chain| && x / g.size < TWO32
  }

  function OffsetIn(g: Geometry, x: nat): (r: nat)
    ensures g.size > 0 ==> r < g.size
  {
    if g.size == 0 then 0 else x % g.size
  }

  function SectorOf(g: Geometry, x: nat): nat {
    if g.size == 0 then 0 else x / g.size
  }

  function ByteAt(disk: nat -> Sector, g: Geometry, chain: seq<nat>, x: nat): bv8 {
    var b := disk(SectorLba(g, chain, SectorOf(g, x)));
    if OffsetIn(g, x) < |b| then b[OffsetIn(g, x)] else 0
  }

  /** The request lies in the file. */
  predicate InRange(g: Geometry, chain: seq<nat>, ofs: nat, bytes: nat) {
    g.size > 0 && (bytes > 0 ==> InFile(g, chain, ofs + bytes - 1))
  }

  /** The bytes of the concatenated clusters from ofs on. */
  ghost predicate IsSlice(disk: nat -> Sector, g: Geometry, chain: seq<nat>, ofs: nat, s: Sector) {
    forall i :: 0 <= i < |s| ==> s[i] == ByteAt(disk, g, chain, ofs + i)
  }

  // ------------------------------------------------------------------ the plan

  /** The part of a request that lies in its first sector. */
  function Part(g: Geometry, chain: seq<nat>, ofs: nat, bytes: nat): (v: Transfer)
    requires InRange(g, chain, ofs, bytes) && bytes > 0
    ensures 0 < v.len <= bytes && v.len <= g.size - OffsetIn(g, ofs) && Sound(v, g.size) && v.count == 1
  {
    var rest := g.size - OffsetIn(g, ofs);
    Transfer(SectorLba(g, chain, SectorOf(g, ofs)), 1, OffsetIn(g, ofs), if rest > bytes then bytes else rest)
  }

  lemma RestInRange(g: Geometry, chain: seq<nat>, ofs: nat, bytes: nat, n: nat)
    requires InRange(g, chain, ofs, bytes) && n <= bytes
    ensures InRange(g, chain, ofs + n, bytes - n)
  {
  }

  /** The plan for a request, after those in es. */
  function PlanFrom(g: Geometry, chain: seq<nat>, es: seq<Transfer>, ofs: nat, bytes: nat): seq<Transfer>
    requires InRange(g, chain, ofs, bytes)
    decreases bytes
  {
    if bytes == 0 then es
    else
      var v := Part(g, chain, ofs, bytes);
      RestInRange(g, chain, ofs, bytes, v.len);
      PlanFrom(g, chain, Added(es, g.size, v), ofs + v.len, bytes - v.len)
  }

  lemma {:induction false} PlanLonger(g: Geometry, chain: seq<nat>, es: seq<Transfer>, ofs: nat, bytes: nat)
    requires InRange(g, chain, ofs, bytes)
    ensures |PlanFrom(g, chain, es, ofs, bytes)| >= |es|
    decreases bytes
  {
    hide Part, InRange, Added;
    if bytes > 0 {
      var v := Part(g, chain, ofs, bytes);
      RestInRange(g, chain, ofs, bytes, v.len);
      PlanLonger(g, chain, Added(es, g.size, v), ofs + v.len, bytes - v.len);
    }
  }

  /** A request for n sectors' worth of bytes takes at most n + 1 transfers. */
  lemma PlanShort(g: Geometry, chain: seq<nat>, ofs: nat, bytes: nat, n: nat)
    requires InRange(g, chain, ofs, bytes) && bytes <= n * g.size
    ensures |PlanFrom(g, chain, [], ofs, bytes)| <= n + 1
  {
    hide InRange;
    if bytes > 0 {
      var v := Part(g, chain, ofs, bytes);
      RestInRange(g, chain, ofs, bytes, v.len);
      if v.len < bytes {
        NextSector(g, ofs);
        assert bytes - v.len <= n * g.size;
      }
      PlanAligned(g, chain, Added([], g.size, v), ofs + v.len, bytes - v.len, n);
    }
  }

  lemma NextSector(g: Geometry, ofs: nat)
    requires g.size > 0
    ensures OffsetIn(g, ofs + (g.size - OffsetIn(g, ofs))) == 0
  {
    ModRest(ofs, g.size);
    ModSum(ofs - ofs % g.size, g.size, g.size);
  }

  lemma {:induction false} PlanAligned(g: Geometry, chain: seq<nat>, es: seq<Transfer>, ofs: nat, bytes: nat, n: nat)
    requires InRange(g, chain, ofs, bytes) && bytes <= n * g.size && (bytes > 0 ==> OffsetIn(g, ofs) == 0)
    ensures |PlanFrom(g, chain, es, ofs, bytes)| <= |es| + n
    decreases n
  {
    hide InRange;
    if bytes > 0 {
      var v := Part(g, chain, ofs, bytes);
      RestInRange(g, chain, ofs, bytes, v.len);
      assert n > 0 && (n - 1) * g.size == n * g.size - g.size;
      NextSector(g, ofs);
      PlanAligned(g, chain, Added(es, g.size, v), ofs + v.len, bytes - v.len, n - 1);
    }
  }

  /** No sector of the first n follows the one before it. */
  predicate Scattered(g: Geometry, chain: seq<nat>, n: nat) {
    forall s: nat :: 0 < s < n ==> SectorLba(g, chain, s) != SectorLba(g, chain, s - 1) + 1
  }

  /** Then whole sectors of the file take a transfer each. */
  lemma {:induction false} PlanScattered(g: Geometry, chain: seq<nat>, es: seq<Transfer>, s: nat, n: nat)
    requires g.size > 0 && Scattered(g, chain, s + n) && InRange(g, chain, s * g.size, n * g.size)
    requires es != [] ==> s > 0 && es[|es| - 1] == Transfer(SectorLba(g, chain, s - 1), 1, 0, g.size)
    ensures |PlanFrom(g, chain, es, s * g.size, n * g.size)| == |es| + n
    decreases n
  {
    hide InRange, SectorLba;
    if n > 0 {
      var ofs: nat, bytes: nat := s * g.size, n * g.size;
      WholeSector(g, s, n);
      var v := Part(g, chain, ofs, bytes);
      assert v == Transfer(SectorLba(g, chain, s), 1, 0, g.size);
      RestInRange(g, chain, ofs, bytes, v.len);
      assert Added(es, g.size, v) == es + [v];
      PlanScattered(g, chain, es + [v], s + 1, n - 1);
    } else {
      assert n * g.size == 0;
    }
  }

  lemma WholeSector(g: Geometry, s: nat, n: nat)
    requires g.size > 0 && n > 0
    ensures SectorOf(g, s * g.size) == s && OffsetIn(g, s * g.size) == 0
    ensures n * g.size >= g.size && n * g.size - g.size == (n - 1) * g.size && s * g.size + g.size == (s + 1) * g.size
  {
    DivModUnique(s * g.size, g.size, s, 0);
    LessFactor(0, n, g.size);
  }

  /** A file on every other cluster. */
  function EveryOther(n: nat): (chain: seq<nat>)
    ensures |chain| == n && forall i :: 0 <= i < n ==> chain[i] == 2 + 2 * i
  {
    seq(n, i requires 0 <= i => 2 + 2 * i)
  }

  /** Read whole, it takes as many transfers as it has clusters of a sector: 32770 is one more
      than a plan holds. */
  lemma LongPlan(g: Geometry, n: nat)
    requires g.size > 0 && g.perCluster == 1 && n < TWO32 && g.begin + 2 + 2 * n < TWO32
    ensures InRange(g, EveryOther(n), 0, n * g.size) && |PlanFrom(g, EveryOther(n), [], 0, n * g.size)| == n
  {
    var chain := EveryOther(n);
    assert InRange(g, chain, 0, n * g.size) by { if n > 0 { LastByte(g, n); } }
    assert Scattered(g, chain, n) by {
      forall s: nat | s < n ensures SectorLba(g, chain, s) == g.begin + 2 + 2 * s { OwnSector(g, chain, s); }
    }
    hide InRange, Scattered, SectorLba;
    assert 0 * g.size == 0;
    PlanScattered(g, chain, [], 0, n);
  }

  lemma OwnSector(g: Geometry, chain: seq<nat>, s: nat)
    requires g.perCluster == 1 && s < |chain| && g.begin + chain[s] < TWO32
    ensures SectorLba(g, chain, s) == g.begin + chain[s]
  {
  }

  lemma LastByte(g: Geometry, n: nat)
    requires g.size > 0 && n > 0
    ensures n * g.size > 0 && (n * g.size - 1) / g.size == n - 1
  {
    LessFactor(0, n, g.size);
    assert n * g.size - 1 == g.size * (n - 1) + (g.size - 1);
    DivModUnique(n * g.size - 1, g.size, n - 1, g.size - 1);
  }

  /** The part of a request in one sector is a slice of the file. */
  lemma PartIsSlice(disk: nat -> Sector, g: Geometry, chain: seq<nat>, ofs: nat, bytes: nat)
    requires InRange(g, chain, ofs, bytes) && bytes > 0 && Sectors(disk, g.size)
    ensures var v := Part(g, chain, ofs, bytes); IsSlice(disk, g, chain, ofs, disk(v.lba)[v.ofs..v.ofs + v.len])
  {
    hide InFile, ByteAt, SectorLba, OffsetIn, SectorOf;
    var v := Part(g, chain, ofs, bytes);
    var s := disk(v.lba)[v.ofs..v.ofs + v.len];
    forall i | 0 <= i < |s| ensures s[i] == ByteAt(disk, g, chain, ofs + i) {
      ByteInSector(disk, g, chain, ofs, i);
    }
  }

  lemma ByteInSector(disk: nat -> Sector, g: Geometry, chain: seq<nat>, ofs: nat, i: nat)
    requires Sectors(disk, g.size) && OffsetIn(g, ofs) + i < g.size
    ensures ByteAt(disk, g, chain, ofs + i) == disk(SectorLba(g, chain, SectorOf(g, ofs)))[OffsetIn(g, ofs) + i]
  {
    hide SectorLba;
    SameSector(ofs, i, g.size);
  }

  lemma SameSector(x: nat, i: nat, d: nat)
    requires d > 0 && x % d + i < d
    ensures (x + i) / d == x / d && (x + i) % d == x % d + i
  {
    assert x == d * (x / d) + x % d;
    DivModUnique(x + i, d, x / d, x % d + i);
  }

  lemma SliceConcat(disk: nat -> Sector, g: Geometry, chain: seq<nat>, ofs: nat, s: Sector, r: Sector)
    requires IsSlice(disk, g, chain, ofs, s) && IsSlice(disk, g, chain, ofs + |s|, r)
    ensures IsSlice(disk, g, chain, ofs, s + r)
  {
  }

  /** Carried out in order, the plan delivers the requested slice of the file. */
  lemma {:induction false} PlanDelivers(disk: nat -> Sector, g: Geometry, chain: seq<nat>, es: seq<Transfer>, start: nat, ofs: nat, bytes: nat)
    requires InRange(g, chain, ofs, bytes) && Sectors(disk, g.size) && AllSound(es, g.size)
    requires forall i :: 0 <= i < |es| ==> es[i].count < TWO32
    requires start + |AllBytes(disk, g.size, es)| == ofs && IsSlice(disk, g, chain, start, AllBytes(disk, g.size, es))
    ensures var p := PlanFrom(g, chain, es, ofs, bytes);
            && AllSound(p, g.size) && |AllBytes(disk, g.size, p)| == ofs + bytes - start
            && IsSlice(disk, g, chain, start, AllBytes(disk, g.size, p))
    decreases bytes
  {
    hide Added, AllBytes, AllSound, IsSlice, Part, InRange;
    if bytes > 0 {
      var v := Part(g, chain, ofs, bytes);
      RestInRange(g, chain, ofs, bytes, v.len);
      AddedBytes(disk, g.size, es, v);
      PartIsSlice(disk, g, chain, ofs, bytes);
      var s := disk(v.lba)[v.ofs..v.ofs + v.len];
      SliceConcat(disk, g, chain, start, AllBytes(disk, g.size, es), s);
      PlanDelivers(disk, g, chain, Added(es, g.size, v), start, ofs + v.len, bytes - v.len);
    }
  }
}
