/** Tables of disjoint ranges, and what replacing a few neighbours does to the kind
    of every address. */
module RangeSplice {
  import opened RangeTable

  /** In order, disjoint, no empty range; memory the allocator deals in is whole pages. */
  predicate Tidy(s: seq<Range>) {
    && (forall i :: 0 <= i < |s| ==> s[i].size > 0)
    && (forall i, j :: 0 <= i < j < |s| ==> s[i].End() <= s[j].base)
    && (forall i :: 0 <= i < |s| && (s[i].IsNormal() || s[i].kind == ALLOCATED) ==> PageRange(s[i]))
  }

  /** Exactly the addresses [lo, hi) change kind, all of them from one kind to another. */
  ghost predicate Retyped(s: seq<Range>, t: seq<Range>, lo: int, hi: int, from: nat, to: nat) {
    && (forall a :: lo <= a < hi ==> Covered(s, Only(from), a))
    && (forall k: nat, a ::
          Covered(t, Only(k), a) <==> if lo <= a < hi then k == to else Covered(s, Only(k), a))
  }

  /** No other range of a tidy table holds an address held by the middle part. */
  lemma TidyUnique(pre: seq<Range>, mid: seq<Range>, post: seq<Range>, k: nat, k': nat, a: int)
    requires Tidy(pre + mid + post) && Covered(mid, Only(k), a)
    ensures !Covered(pre, Only(k'), a) && !Covered(post, Only(k'), a)
  {
    var s := pre + mid + post;
    var i :| 0 <= i < |mid| && Hits(mid[i], Only(k), a);
    assert s[|pre| + i] == mid[i];
    assert forall j :: 0 <= j < |pre| ==> s[j] == pre[j];
    assert forall j :: 0 <= j < |post| ==> s[|pre| + |mid| + j] == post[j];
  }

  /** Retyping the middle part retypes the whole table. */
  lemma SpliceRetyped(pre: seq<Range>, mid: seq<Range>, mid': seq<Range>, post: seq<Range>,
                      lo: int, hi: int, from: nat, to: nat)
    requires Tidy(pre + mid + post) && Retyped(mid, mid', lo, hi, from, to)
    ensures Retyped(pre + mid + post, pre + mid' + post, lo, hi, from, to)
  {
    hide Covered, Tidy;
    forall a | lo <= a < hi ensures Covered(pre + mid + post, Only(from), a) {
      CoveredSplice(pre, mid, post, Only(from), a);
    }
    forall k: nat, a
      ensures Covered(pre + mid' + post, Only(k), a) <==>
              if lo <= a < hi then k == to else Covered(pre + mid + post, Only(k), a)
    {
      CoveredSplice(pre, mid, post, Only(k), a);
      CoveredSplice(pre, mid', post, Only(k), a);
      if lo <= a < hi { TidyUnique(pre, mid, post, from, k, a); }
    }
  }

  predicate Before(s: seq<Range>, t: seq<Range>) {
    forall i, j :: 0 <= i < |s| && 0 <= j < |t| ==> s[i].End() <= t[j].base
  }

  lemma TidyConcat(s: seq<Range>, t: seq<Range>)
    ensures Tidy(s + t) <==> Tidy(s) && Tidy(t) && Before(s, t)
  {
    var u := s + t;
    assert forall j :: 0 <= j < |t| ==> u[|s| + j] == t[j];
    assert forall i :: 0 <= i < |s| ==> u[i] == s[i];
    if Tidy(u) {
      forall i, j | 0 <= i < |s| && 0 <= j < |t| ensures s[i].End() <= t[j].base {
        assert u[i].End() <= u[|s| + j].base;
      }
      forall i, j | 0 <= i < j < |t| ensures t[i].End() <= t[j].base {
        assert u[|s| + i].End() <= u[|s| + j].base;
      }
    }
    if Tidy(s) && Tidy(t) && Before(s, t) {
      forall i, j | 0 <= i < j < |u| ensures u[i].End() <= u[j].base {
        if i >= |s| { assert t[i - |s|].End() <= t[j - |s|].base; }
        else if j >= |s| { assert s[i].End() <= t[j - |s|].base; }
      }
    }
  }

  /** A tidy replacement within the bounds of what it replaces keeps the table tidy. */
  lemma SpliceTidy(pre: seq<Range>, mid: seq<Range>, mid': seq<Range>, post: seq<Range>)
    requires Tidy(pre + mid + post) && Tidy(mid') && mid != [] && mid' != []
    requires mid[0].base <= mid'[0].base && mid'[|mid'| - 1].End() <= mid[|mid| - 1].End()
    ensures Tidy(pre + mid' + post)
  {
    hide Tidy;
    TidyConcat(pre + mid, post);
    TidyConcat(pre, mid);
    WithinBounds(mid');
    assert Before(pre, mid');
    TidyConcat(pre, mid');
    assert Before(pre + mid', post) by {
      assert (pre + mid)[|pre| + |mid| - 1] == mid[|mid| - 1];
      assert forall i :: 0 <= i < |pre| ==> (pre + mid)[i] == pre[i];
    }
    TidyConcat(pre + mid', post);
  }

  lemma WithinBounds(s: seq<Range>)
    requires Tidy(s) && s != []
    ensures forall i :: 0 <= i < |s| ==> s[0].base <= s[i].base && s[i].End() <= s[|s| - 1].End()
  {
  }

  lemma CoveredThree(p: Range, q: Range, r: Range, kinds: Kinds, a: int)
    ensures Covered([p, q, r], kinds, a) <==> Hits(p, kinds, a) || Hits(q, kinds, a) || Hits(r, kinds, a)
  {
    assert [p, q, r] == [p, q] + [r];
    CoveredConcat([p, q], [r], kinds, a);
    CoveredTwo(p, q, kinds, a);
    CoveredOne(r, kinds, a);
  }

  lemma WeightOne(r: Range, w: Range -> nat)
    ensures Weight([r], w) == w(r)
  {
  }

  lemma WeightTwo(p: Range, r: Range, w: Range -> nat)
    ensures Weight([p, r], w) == w(p) + w(r)
  {
    assert [p, r][1..] == [r];
    WeightOne(r, w);
  }

  lemma WeightThree(p: Range, q: Range, r: Range, w: Range -> nat)
    ensures Weight([p, q, r], w) == w(p) + w(q) + w(r)
  {
    assert [p, q, r][1..] == [q, r];
    WeightTwo(q, r, w);
  }

  /** Two retypings of touching or nested address ranges in a row. */
  lemma RetypedBack(s: seq<Range>, t: seq<Range>, u: seq<Range>, lo: int, mid: int, hi: int, from: nat, to: nat)
    requires Tidy(s) && lo <= mid <= hi
    requires Retyped(s, t, lo, hi, from, to) && Retyped(t, u, lo, mid, to, from)
    ensures Retyped(s, u, mid, hi, from, to)
  {
    hide Covered, Tidy;
    forall k: nat, a
      ensures Covered(u, Only(k), a) <==> if mid <= a < hi then k == to else Covered(s, Only(k), a)
    {
      if lo <= a < mid { TidyOneKind(s, from, k, a); }
    }
  }

  lemma TidyOneKind(s: seq<Range>, k: nat, k': nat, a: int)
    requires Tidy(s) && Covered(s, Only(k), a)
    ensures Covered(s, Only(k'), a) <==> k' == k
  {
  }

  // ---------------------------------------------- replacing n ranges from index i on

  function Spliced(s: seq<Range>, i: int, n: int, mid': seq<Range>): seq<Range>
    requires 0 <= i && 0 <= n && i + n <= |s|
  {
    s[..i] + mid' + s[i + n..]
  }

  lemma SplicedChange(s: seq<Range>, i: int, n: int, mid': seq<Range>, lo: int, hi: int, from: nat, to: nat)
    requires Tidy(s) && 0 <= i && 0 < n && i + n <= |s|
    requires Retyped(s[i..i + n], mid', lo, hi, from, to)
    ensures Retyped(s, Spliced(s, i, n, mid'), lo, hi, from, to)
    ensures Tidy(mid') && mid' != [] && s[i].base <= mid'[0].base && mid'[|mid'| - 1].End() <= s[i + n - 1].End() ==>
              Tidy(Spliced(s, i, n, mid'))
  {
    hide Tidy, Retyped;
    var pre, mid, post := s[..i], s[i..i + n], s[i + n..];
    assert s == pre + mid + post;
    SpliceRetyped(pre, mid, mid', post, lo, hi, from, to);
    if Tidy(mid') && mid' != [] && s[i].base <= mid'[0].base && mid'[|mid'| - 1].End() <= s[i + n - 1].End() {
      SpliceTidy(pre, mid, mid', post);
    }
  }

  lemma SplicedWeight(s: seq<Range>, i: int, n: int, mid': seq<Range>, w: Range -> nat)
    requires 0 <= i && 0 <= n && i + n <= |s|
    ensures Weight(Spliced(s, i, n, mid'), w) + Weight(s[i..i + n], w) == Weight(s, w) + Weight(mid', w)
  {
    var pre, mid, post := s[..i], s[i..i + n], s[i + n..];
    assert s == pre + mid + post;
    WeightSplice(pre, mid, post, w);
    WeightSplice(pre, mid', post, w);
  }

  // ------------------------------------------------------- the shapes of a change

  /** The whole of a range changes kind. */
  lemma Retype(e: Range, to: nat)
    requires e.size > 0 && e.kind != to
    ensures Retyped([e], [e.(kind := to)], e.base, e.End(), e.kind, to)
  {
    forall k: nat, a ensures Covered([e.(kind := to)], Only(k), a) <==> Hits(e.(kind := to), Only(k), a)
      ensures Covered([e], Only(k), a) <==> Hits(e, Only(k), a) {
      CoveredOne(e, Only(k), a);
      CoveredOne(e.(kind := to), Only(k), a);
    }
  }

  /** The first n bytes of a range become a range of another kind. */
  lemma SplitFront(e: Range, n: nat, to: nat)
    requires 0 < n < e.size && e.kind != to
    ensures Retyped([e], [Range(e.base, n, to), Range(e.base + n, e.size - n, e.kind)], e.base, e.base + n, e.kind, to)
  {
    var x, y := Range(e.base, n, to), Range(e.base + n, e.size - n, e.kind);
    forall k: nat, a ensures Covered([x, y], Only(k), a) <==> Hits(x, Only(k), a) || Hits(y, Only(k), a)
      ensures Covered([e], Only(k), a) <==> Hits(e, Only(k), a) {
      CoveredOne(e, Only(k), a);
      CoveredTwo(x, y, Only(k), a);
    }
  }

  /** The last n bytes of a range become a range of another kind. */
  lemma SplitTail(e: Range, n: nat, to: nat)
    requires 0 < n <= e.size && e.kind != to
    ensures Retyped([e], [Range(e.base, e.size - n, e.kind), Range(e.End() - n, n, to)], e.End() - n, e.End(), e.kind, to)
  {
    var x, y := Range(e.base, e.size - n, e.kind), Range(e.End() - n, n, to);
    forall k: nat, a ensures Covered([x, y], Only(k), a) <==> Hits(x, Only(k), a) || Hits(y, Only(k), a)
      ensures Covered([e], Only(k), a) <==> Hits(e, Only(k), a) {
      CoveredOne(e, Only(k), a);
      CoveredTwo(x, y, Only(k), a);
    }
  }

  /** Bytes in the middle of a range become a range of another kind. */
  lemma Punch(e: Range, lo: nat, hi: nat, to: nat)
    requires e.base < lo < hi < e.End() && e.kind != to
    ensures Retyped([e], [Range(e.base, lo - e.base, e.kind), Range(lo, hi - lo, to), Range(hi, e.End() - hi, e.kind)],
                    lo, hi, e.kind, to)
  {
    var x, y, z := Range(e.base, lo - e.base, e.kind), Range(lo, hi - lo, to), Range(hi, e.End() - hi, e.kind);
    forall k: nat, a
      ensures Covered([x, y, z], Only(k), a) <==> Hits(x, Only(k), a) || Hits(y, Only(k), a) || Hits(z, Only(k), a)
      ensures Covered([e], Only(k), a) <==> Hits(e, Only(k), a) {
      CoveredOne(e, Only(k), a);
      CoveredThree(x, y, z, Only(k), a);
    }
  }

  /** A range grows by the first n bytes of the touching one of another kind. */
  lemma GrowUp(p: Range, e: Range, n: nat)
    requires p.End() == e.base && 0 < n < e.size && p.kind != e.kind
    ensures Retyped([p, e], [Range(p.base, p.size + n, p.kind), Range(e.base + n, e.size - n, e.kind)],
                    e.base, e.base + n, e.kind, p.kind)
  {
    var x, y := Range(p.base, p.size + n, p.kind), Range(e.base + n, e.size - n, e.kind);
    forall k: nat, a ensures Covered([x, y], Only(k), a) <==> Hits(x, Only(k), a) || Hits(y, Only(k), a)
      ensures Covered([p, e], Only(k), a) <==> Hits(p, Only(k), a) || Hits(e, Only(k), a) {
      CoveredTwo(p, e, Only(k), a);
      CoveredTwo(x, y, Only(k), a);
    }
  }

  /** A range grows down over the last n bytes of the touching one before it. */
  lemma GrowDown(e: Range, p: Range, n: nat)
    requires e.End() == p.base && 0 < n <= e.size && p.kind != e.kind
    ensures Retyped([e, p], [Range(e.base, e.size - n, e.kind), Range(p.base - n, p.size + n, p.kind)],
                    e.End() - n, e.End(), e.kind, p.kind)
  {
    var x, y := Range(e.base, e.size - n, e.kind), Range(p.base - n, p.size + n, p.kind);
    forall k: nat, a ensures Covered([x, y], Only(k), a) <==> Hits(x, Only(k), a) || Hits(y, Only(k), a)
      ensures Covered([e, p], Only(k), a) <==> Hits(e, Only(k), a) || Hits(p, Only(k), a) {
      CoveredTwo(e, p, Only(k), a);
      CoveredTwo(x, y, Only(k), a);
    }
  }

  /** Two touching ranges become one of the kind of the first or the second. */
  lemma Absorb(p: Range, e: Range, to: nat)
    requires p.End() == e.base && (p.kind == to || e.kind == to) && p.size > 0 && e.size > 0
    ensures
      var lo := if p.kind != to then p.base else e.base;
      var hi := if e.kind != to then e.End() else p.End();
      var from := if p.kind != to then p.kind else e.kind;
      Retyped([p, e], [Range(p.base, p.size + e.size, to)], lo, hi, from, to)
  {
    var x := Range(p.base, p.size + e.size, to);
    forall k: nat, a ensures Covered([x], Only(k), a) <==> Hits(x, Only(k), a)
      ensures Covered([p, e], Only(k), a) <==> Hits(p, Only(k), a) || Hits(e, Only(k), a) {
      CoveredTwo(p, e, Only(k), a);
      CoveredOne(x, Only(k), a);
    }
  }
}
