/** boot/fs.cc, disk_io_plan_t: a list of disk transfers in which whole sectors that
    follow each other are joined. */
module DiskPlan {
  const TWO32 := 0x1_0000_0000

  type Sector = seq<bv8>

  /** disk_vec_t: count sectors from lba on; when only a part of a sector is wanted, len
      bytes from offset ofs of one sector. */
  datatype Transfer = Transfer(lba: nat, count: nat, ofs: nat, len: nat)

  predicate Full(v: Transfer, size: nat) { v.ofs == 0 && v.len == size }

  /** The added sector continues the last transfer of n. */
  predicate Joins(last: Transfer, n: nat, size: nat, v: Transfer) {
    last.lba + last.count == v.lba && Full(last, size) && Full(v, size) && 0xFFFF_FFFF - n > last.count
  }

  function Added(es: seq<Transfer>, size: nat, v: Transfer): (r: seq<Transfer>)
    ensures |es| <= |r| <= |es| + 1
  {
    if es != [] && Joins(es[|es| - 1], |es|, size, v)
    then es[|es| - 1 := es[|es| - 1].(count := (es[|es| - 1].count + v.count) % TWO32)]
    else es + [v]
  }

  // ------------------------------------------------------------- growing the list

  /** The size asked for when the list is full, and what a 16-bit capacity keeps of it. */
  function Larger(capacity: nat): nat { if capacity >= 16 then capacity * 2 else 16 }

  function Stored(capacity: nat): nat { capacity % 0x1_0000 }

  /** The capacities the list goes through, and the allocation behind them. */
  predicate Grown(count: nat, capacity: nat, room: nat) {
    && count <= room
    && (capacity in {0, 16, 32, 64, 128, 256, 512, 1024, 2048, 4096, 8192, 16384, 32768})
    && (if count <= 32768 then room == capacity else count == 32769 && capacity == 0 && room == 65536)
  }

  lemma GrownRoom(count: nat, capacity: nat, room: nat)
    requires Grown(count, capacity, room)
    ensures count <= room && count <= 32769
  {
  }

  lemma GrownStep(count: nat, capacity: nat, room: nat)
    requires Grown(count, capacity, room) && count < 32769
    ensures count <= room
    ensures if count + 1 > capacity then room <= Larger(capacity) && Grown(count + 1, Stored(Larger(capacity)), Larger(capacity))
            else Grown(count + 1, capacity, room)
  {
  }

  class Plan {
    var vec: seq<Transfer>
    var count: nat
    var capacity: nat
    const size: nat
    /** Whether the heap has room for a list of so many entries. */
    const granted: nat -> bool

    ghost predicate Valid()
      reads this
    {
      Grown(count, capacity, |vec|)
    }

    function Entries(): seq<Transfer>
      requires count <= |vec|
      reads this
    {
      vec[..count]
    }

    constructor (size: nat, granted: nat -> bool)
      ensures Valid() && Entries() == [] && this.size == size && this.granted == granted
    {
      vec, count, capacity := [], 0, 0;
      this.size, this.granted := size, granted;
    }

    /** realloc: what fits is kept, the rest is unspecified. */
    method Realloc(entries: nat) returns (ok: bool)
      modifies this`vec
      ensures ok == granted(entries)
      ensures !ok ==> vec == old(vec)
      ensures ok ==> |vec| == entries && forall i :: 0 <= i < |vec| && i < |old(vec)| ==> vec[i] == old(vec)[i]
    {
      ok := granted(entries);
      if ok {
        var was := vec;
        vec := seq(entries, i requires 0 <= i => if i < |was| then was[i] else Transfer(0, 0, 0, 0));
      }
    }

    /** Room for one more entry, as far as a 16-bit capacity tells: with 32769 entries it reads
        0, and the list is shrunk to 16. */
    method Grow() returns (ok: bool)
      requires Valid()
      modifies this`vec, this`capacity
      ensures ok && count < 32769 ==> Grown(count + 1, capacity, |vec|) && vec[..count] == old(vec[..count])
      ensures ok && count == 32769 ==> |vec| == 16
      ensures !ok ==> vec == old(vec) && capacity == old(capacity)
      ensures !ok ==> !granted(Larger(capacity))
      ensures count == 32769 ==> (ok <==> granted(16))
    {
      hide Grown, Larger, Stored;
      GrownFull(count, capacity, |vec|);
      if count < 32769 { GrownStep(count, capacity, |vec|); }
      if count + 1 > capacity {
        var larger := Larger(capacity);
        ok := Realloc(larger);
        if !ok { return; }
        capacity := Stored(larger);
      }
      return true;
    }

    /** disk_io_plan_t::add. The list holds 32769 transfers: another that does not join the last
        is written past the memory the list has then. */
    method Add(lba: nat, sectors: nat, ofs: nat, len: nat) returns (ok: bool, outside: bool)
      requires Valid()
      modifies this
      ensures outside <==> old(count) == 32769 && granted(16)
                           && !Joins(old(Entries()[32768]), 32769, size, Transfer(lba, sectors, ofs, len))
      ensures !outside ==> Valid()
      ensures ok ==> !outside && Entries() == Added(old(Entries()), size, Transfer(lba, sectors, ofs, len))
      ensures !ok && !outside ==> Entries() == old(Entries()) && !granted(Larger(old(capacity)))
    {
      hide Grown, Larger;
      GrownRoom(count, capacity, |vec|);
      outside := false;
      if count > 0 {
        var prev := vec[count - 1];
        if prev.lba + prev.count == lba && prev.ofs == 0 && ofs == 0 && prev.len == size && len == size
           && 0xFFFF_FFFF - count > prev.count {
          vec := vec[count - 1 := prev.(count := (prev.count + sectors) % TWO32)];
          return true, false;
        }
      }
      ok := Grow();
      if !ok { return; }
      if count < 32769 { GrownRoom(count + 1, capacity, |vec|); }
      if count >= |vec| { return false, true; }
      vec := vec[count := Transfer(lba, sectors, ofs, len)];
      count := count + 1;
      return true, false;
    }
  }

  lemma GrownFull(count: nat, capacity: nat, room: nat)
    requires Grown(count, capacity, room)
    ensures count <= 32769 && (count == 32769 ==> capacity == 0 && Larger(capacity) == 16)
  {
  }

  /** One more transfer after the 32769th shrinks the list below what it holds. */
  lemma LastGrowth(count: nat, capacity: nat, room: nat)
    requires Grown(count, capacity, room)
    ensures count + 1 > capacity ==> (count < Larger(capacity) <==> count < 32769)
  {
  }

  // ------------------------------------------------------------ what it transfers

  ghost predicate Sectors(disk: nat -> Sector, size: nat) { forall l: nat :: |disk(l)| == size }

  function Run(disk: nat -> Sector, lba: nat, n: nat): Sector {
    if n == 0 then [] else Run(disk, lba, n - 1) + disk(lba + n - 1)
  }

  lemma {:induction false} RunLength(disk: nat -> Sector, size: nat, lba: nat, n: nat)
    requires Sectors(disk, size)
    ensures |Run(disk, lba, n)| == n * size
  {
    if n > 0 { RunLength(disk, size, lba, n - 1); }
  }

  /** A transfer that stays in its sectors. */
  predicate Sound(v: Transfer, size: nat) {
    v.ofs + v.len <= size && (Full(v, size) || v.count == 1)
  }

  ghost predicate AllSound(es: seq<Transfer>, size: nat) { forall i :: 0 <= i < |es| ==> Sound(es[i], size) }

  function Bytes(disk: nat -> Sector, size: nat, v: Transfer): Sector
    requires Sound(v, size) && |disk(v.lba)| == size
  {
    if Full(v, size) then Run(disk, v.lba, v.count) else disk(v.lba)[v.ofs..v.ofs + v.len]
  }

  ghost function AllBytes(disk: nat -> Sector, size: nat, es: seq<Transfer>): Sector
    requires AllSound(es, size) && Sectors(disk, size)
  {
    if es == [] then [] else AllBytes(disk, size, es[..|es| - 1]) + Bytes(disk, size, es[|es| - 1])
  }

  lemma BytesLength(disk: nat -> Sector, size: nat, v: Transfer)
    requires Sound(v, size) && Sectors(disk, size)
    ensures |Bytes(disk, size, v)| == v.count * v.len
  {
    if Full(v, size) { RunLength(disk, size, v.lba, v.count); }
  }

  lemma SnocBytes(disk: nat -> Sector, size: nat, es: seq<Transfer>, v: Transfer)
    requires AllSound(es, size) && Sectors(disk, size) && Sound(v, size)
    ensures AllSound(es + [v], size)
    ensures AllBytes(disk, size, es + [v]) == AllBytes(disk, size, es) + Bytes(disk, size, v)
  {
  }

  lemma OneSector(disk: nat -> Sector, size: nat, v: Transfer)
    requires Sound(v, size) && Sectors(disk, size) && v.count == 1
    ensures Bytes(disk, size, v) == disk(v.lba)[v.ofs..v.ofs + v.len]
  {
    assert Run(disk, v.lba, 1) == Run(disk, v.lba, 0) + disk(v.lba);
    if Full(v, size) { assert disk(v.lba)[0..size] == disk(v.lba); }
  }

  lemma JoinedBytes(disk: nat -> Sector, size: nat, last: Transfer, n: nat, v: Transfer)
    requires Sound(last, size) && Sectors(disk, size) && Joins(last, n, size, v) && v.count == 1
    ensures var w := last.(count := last.count + 1);
            Sound(w, size) && Bytes(disk, size, w) == Bytes(disk, size, last) + disk(v.lba)[v.ofs..v.ofs + v.len]
  {
  }

  /** Joined or not, an added part of a sector comes after all that was planned before. */
  lemma AddedBytes(disk: nat -> Sector, size: nat, es: seq<Transfer>, v: Transfer)
    requires AllSound(es, size) && Sectors(disk, size) && Sound(v, size) && v.count == 1
    requires forall i :: 0 <= i < |es| ==> es[i].count < TWO32
    ensures AllSound(Added(es, size, v), size) && forall i :: 0 <= i < |Added(es, size, v)| ==> Added(es, size, v)[i].count < TWO32
    ensures AllBytes(disk, size, Added(es, size, v)) == AllBytes(disk, size, es) + disk(v.lba)[v.ofs..v.ofs + v.len]
  {
    hide AllBytes, Bytes;
    if es != [] && Joins(es[|es| - 1], |es|, size, v) {
      var last, front := es[|es| - 1], es[..|es| - 1];
      var w := last.(count := last.count + 1);
      JoinedBytes(disk, size, last, |es|, v);
      assert es == front + [last];
      assert Added(es, size, v) == front + [w];
      SnocBytes(disk, size, front, last);
      SnocBytes(disk, size, front, w);
      ConcatThree(AllBytes(disk, size, front), Bytes(disk, size, last), disk(v.lba)[v.ofs..v.ofs + v.len]);
    } else {
      OneSector(disk, size, v);
      SnocBytes(disk, size, es, v);
    }
  }

  lemma ConcatThree(a: Sector, b: Sector, c: Sector)
    ensures a + (b + c) == a + b + c
  {
  }
}
