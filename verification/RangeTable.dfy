/** boot/include/physmem_data.h: tables of typed physical address ranges, what they
    cover and what they add up to. */
module RangeTable {
  const NORMAL: nat := 1
  const ALLOCATED: nat := 6
  const NORMAL_2M: nat := 8
  const NORMAL_1G: nat := 9

  const PAGE: int := 4096
  const MB1: int := 0x10_0000
  const GB4: int := 0x1_0000_0000

  datatype Range = Range(base: nat, size: nat, kind: nat) {
    function End(): nat { base + size }

    /** is_normal: free memory of any page size. */
    predicate IsNormal() { kind == NORMAL || kind == NORMAL_1G || kind == NORMAL_2M }
  }

  // -------------------------------------------------------------- coverage

  /** The kinds asked about: one kind, every kind but one, or free memory. */
  datatype Kinds = Only(k: nat) | Except(k: nat) | AnyNormal {
    predicate Has(r: Range) {
      match this
      case Only(k) => r.kind == k
      case Except(k) => r.kind != k
      case AnyNormal => r.IsNormal()
    }
  }

  predicate PageRange(r: Range) { r.base % PAGE == 0 && r.size % PAGE == 0 }

  predicate Hits(r: Range, kinds: Kinds, a: int) { kinds.Has(r) && r.base <= a < r.End() }

  /** Some range of one of these kinds holds address a. */
  ghost predicate Covered(s: seq<Range>, kinds: Kinds, a: int) {
    exists i :: 0 <= i < |s| && Hits(s[i], kinds, a)
  }

  lemma CoveredConcat(s: seq<Range>, t: seq<Range>, kinds: Kinds, a: int)
    ensures Covered(s + t, kinds, a) <==> Covered(s, kinds, a) || Covered(t, kinds, a)
  {
    if Covered(s, kinds, a) {
      var i :| 0 <= i < |s| && Hits(s[i], kinds, a);
      assert Hits((s + t)[i], kinds, a);
    }
    if Covered(t, kinds, a) {
      var i :| 0 <= i < |t| && Hits(t[i], kinds, a);
      assert Hits((s + t)[|s| + i], kinds, a);
    }
  }

  lemma CoveredOne(r: Range, kinds: Kinds, a: int)
    ensures Covered([r], kinds, a) <==> Hits(r, kinds, a)
  {
    if Hits(r, kinds, a) { assert Hits([r][0], kinds, a); }
  }

  lemma CoveredTwo(p: Range, r: Range, kinds: Kinds, a: int)
    ensures Covered([p, r], kinds, a) <==> Hits(p, kinds, a) || Hits(r, kinds, a)
  {
    assert [p, r] == [p] + [r];
    CoveredConcat([p], [r], kinds, a);
    CoveredOne(p, kinds, a);
    CoveredOne(r, kinds, a);
  }

  lemma CoveredSplice(pre: seq<Range>, mid: seq<Range>, post: seq<Range>, kinds: Kinds, a: int)
    ensures Covered(pre + mid + post, kinds, a) <==>
            Covered(pre, kinds, a) || Covered(mid, kinds, a) || Covered(post, kinds, a)
  {
    CoveredConcat(pre + mid, post, kinds, a);
    CoveredConcat(pre, mid, kinds, a);
  }

  // ------------------------------------------------------------------- sums

  function Weight(s: seq<Range>, w: Range -> nat): nat {
    if s == [] then 0 else w(s[0]) + Weight(s[1..], w)
  }

  lemma {:induction false} WeightConcat(s: seq<Range>, t: seq<Range>, w: Range -> nat)
    ensures Weight(s + t, w) == Weight(s, w) + Weight(t, w)
  {
    if s == [] {
      assert s + t == t;
    } else {
      assert (s + t)[1..] == s[1..] + t;
      WeightConcat(s[1..], t, w);
    }
  }

  lemma WeightSplice(pre: seq<Range>, mid: seq<Range>, post: seq<Range>, w: Range -> nat)
    ensures Weight(pre + mid + post, w) == Weight(pre, w) + Weight(mid, w) + Weight(post, w)
  {
    WeightConcat(pre + mid, post, w);
    WeightConcat(pre, mid, w);
  }

  function SizeOf(r: Range): nat { r.size }
  function EmptyOf(r: Range): nat { if r.size == 0 then 1 else 0 }
  function FreeOf(r: Range): nat { if r.IsNormal() then r.size else 0 }
  function BelowOf(limit: int): Range -> nat { (r: Range) => if r.base < limit then 1 else 0 }

  /** physmap_check_freespace. */
  function FreeSpace(s: seq<Range>): nat { Weight(s, FreeOf) }

  /** The number of ranges that start below a limit. */
  function CountBelow(s: seq<Range>, limit: int): nat { Weight(s, BelowOf(limit)) }

  // ---------------------------------------------------------------- sorting

  predicate Sorted(s: seq<Range>) {
    forall i, j :: 0 <= i < j < |s| ==> s[i].base <= s[j].base
  }

  /** In a sorted table the ranges below a limit are the first ones. */
  lemma {:induction false} BelowIsPrefix(s: seq<Range>, limit: int, i: int)
    requires Sorted(s) && 0 <= i < |s|
    ensures CountBelow(s, limit) <= |s|
    ensures s[i].base < limit <==> i < CountBelow(s, limit)
  {
    var first := if s[0].base < limit then 1 else 0;
    assert CountBelow(s, limit) == first + CountBelow(s[1..], limit);
    if |s| > 1 {
      var j := if i == 0 then 0 else i - 1;
      assert s[1..][j] == s[j + 1] && s[0].base <= s[j + 1].base;
      BelowIsPrefix(s[1..], limit, j);
    } else {
      assert s[1..] == [];
    }
  }

  function Removed(s: seq<Range>, i: int): seq<Range>
    requires 0 <= i < |s|
  {
    s[..i] + s[i + 1..]
  }

  function Inserted(s: seq<Range>, i: int, r: Range): seq<Range>
    requires 0 <= i <= |s|
  {
    s[..i] + [r] + s[i..]
  }

  lemma Cut3(s: seq<Range>, i: int)
    requires 0 <= i < |s|
    ensures s == s[..i] + [s[i]] + s[i + 1..]
  {
  }

  lemma WeightRemoved(s: seq<Range>, i: int, w: Range -> nat)
    requires 0 <= i < |s|
    ensures Weight(s, w) == Weight(Removed(s, i), w) + w(s[i])
  {
    Cut3(s, i);
    WeightSplice(s[..i], [s[i]], s[i + 1..], w);
    WeightConcat(s[..i], s[i + 1..], w);
    assert Weight([s[i]], w) == w(s[i]) + Weight([], w);
  }

  lemma WeightInserted(s: seq<Range>, i: int, r: Range, w: Range -> nat)
    requires 0 <= i <= |s|
    ensures Weight(Inserted(s, i, r), w) == Weight(s, w) + w(r)
  {
    assert s == s[..i] + s[i..];
    WeightSplice(s[..i], [r], s[i..], w);
    WeightConcat(s[..i], s[i..], w);
    assert Weight([r], w) == w(r) + Weight([], w);
  }

  lemma CoveredRemoved(s: seq<Range>, i: int, kinds: Kinds, a: int)
    requires 0 <= i < |s|
    ensures Covered(s, kinds, a) <==> Covered(Removed(s, i), kinds, a) || Hits(s[i], kinds, a)
  {
    Cut3(s, i);
    CoveredSplice(s[..i], [s[i]], s[i + 1..], kinds, a);
    CoveredConcat(s[..i], s[i + 1..], kinds, a);
    CoveredOne(s[i], kinds, a);
  }

  lemma CoveredInserted(s: seq<Range>, i: int, r: Range, kinds: Kinds, a: int)
    requires 0 <= i <= |s|
    ensures Covered(Inserted(s, i, r), kinds, a) <==> Covered(s, kinds, a) || Hits(r, kinds, a)
  {
    assert s == s[..i] + s[i..];
    CoveredSplice(s[..i], [r], s[i..], kinds, a);
    CoveredConcat(s[..i], s[i..], kinds, a);
    CoveredOne(r, kinds, a);
  }

  // ------------------------------------------------- how many ranges hold an address

  function HitOf(kinds: Kinds, a: int): Range -> nat { (r: Range) => if Hits(r, kinds, a) then 1 else 0 }

  /** The number of ranges of these kinds that hold address a. */
  function Holders(s: seq<Range>, kinds: Kinds, a: int): nat { Weight(s, HitOf(kinds, a)) }

  ghost predicate SameHolders(s: seq<Range>, t: seq<Range>) {
    forall kinds, a :: Holders(t, kinds, a) == Holders(s, kinds, a)
  }

  lemma {:induction false} HoldersCovered(s: seq<Range>, kinds: Kinds, a: int)
    ensures Covered(s, kinds, a) <==> Holders(s, kinds, a) > 0
  {
    if s != [] {
      HoldersCovered(s[1..], kinds, a);
      assert s == [s[0]] + s[1..];
      CoveredConcat([s[0]], s[1..], kinds, a);
      CoveredOne(s[0], kinds, a);
    }
  }

  /** Two ranges that hold the same address are two of its holders. */
  lemma TwoHolders(s: seq<Range>, i: int, j: int, kinds: Kinds, a: int)
    requires 0 <= i < j < |s| && Hits(s[i], kinds, a) && Hits(s[j], kinds, a)
    ensures Holders(s, kinds, a) >= 2
  {
    WeightRemoved(s, j, HitOf(kinds, a));
    assert Removed(s, j)[i] == s[i];
    WeightRemoved(Removed(s, j), i, HitOf(kinds, a));
  }
}
