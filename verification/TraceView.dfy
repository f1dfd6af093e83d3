/** pif-trace/pif-trace.cc: indents kept in 16 bits, the folding of calls found by
    comparing indents, call paths and the hottest call. */
module TraceView {
  import opened Options
  import opened TraceNesting
  import opened TraceTimes

  /** A value stored in an int16_t. */
  function Int16(x: int): (r: int)
    ensures -32768 <= r < 32768
  {
    (x + 32768) % 65536 - 32768
  }

  lemma Int16Of(x: int, d: int)
    ensures Int16(Int16(x) + d) == Int16(x + d)
  {
  }

  lemma Int16Same(x: int, y: int)
    ensures Int16(x) == Int16(y) <==> (x - y) % 65536 == 0
  {
  }

  // ---------------------------------------------------------- loading the indents

  /** load_trace, the indent of every record from the one before it. */
  method Indents(t: seq<Event>) returns (indent: seq<int>)
    ensures |indent| == |t|
    ensures forall k :: 0 <= k < |t| ==> indent[k] == Int16(Depth(t, k))
  {
    hide Int16, Balance;
    indent := [];
    var prevCall, prev := false, 0;
    for k := 0 to |t|
      invariant |indent| == k
      invariant forall m :: 0 <= m < k ==> indent[m] == Int16(Depth(t, m))
      invariant k == 0 ==> prev == 0 && !prevCall
      invariant k > 0 ==> prev == indent[k - 1] && prevCall == t[k - 1].call
    {
      FirstDepth(t);
      if k > 0 { DepthStep(t, k); Int16Of(Depth(t, k - 1), 1); Int16Of(Depth(t, k - 1), -1); }
      var next;
      if prevCall && t[k].call {
        next := Int16(prev + 1);
      } else if !prevCall && !t[k].call {
        next := Int16(prev - 1);
      } else {
        next := prev;
      }
      indent := indent + [next];
      prevCall, prev := t[k].call, next;
    }
  }

  lemma FirstDepth(t: seq<Event>)
    ensures t != [] ==> Depth(t, 0) == (if t[0].call then 0 else -1) && Int16(0) == 0 && Int16(0 - 1) == Int16(-1) == -1
  {
  }

  function Least(s: seq<int>): (r: int)
    requires s != []
    ensures r in s && forall k :: 0 <= k < |s| ==> r <= s[k]
  {
    var last := s[|s| - 1];
    if |s| == 1 then last
    else
      var r := Least(s[..|s| - 1]);
      assert forall k :: 0 <= k < |s| - 1 ==> s[..|s| - 1][k] == s[k];
      if last < r then last else r
  }

  lemma LeastStep(s: seq<int>, i: nat)
    requires i < |s|
    ensures Least(s[..i + 1]) == if i == 0 || Least(s[..i]) > s[i] then s[i] else Least(s[..i])
  {
    assert s[..i + 1][..i] == s[..i];
  }

  /** load_trace, indents shifted so that the least one is 0. */
  method Normalize(a: array<int>)
    requires forall k :: 0 <= k < a.Length ==> -32768 <= a[k] < 32768
    modifies a
    ensures a.Length > 0 ==>
              forall k :: 0 <= k < a.Length ==> a[k] == Int16(old(a[k]) - Least(old(a[..])))
  {
    hide Int16, Least;
    ghost var s := a[..];
    var least := if a.Length > 0 then a[0] else 0;
    for i := 0 to a.Length
      invariant forall k :: 0 <= k < a.Length ==> a[k] == s[k]
      invariant i == 0 && a.Length > 0 ==> least == s[0]
      invariant i > 0 ==> least == Least(s[..i])
    {
      LeastStep(s, i);
      least := if least > a[i] then a[i] else least;
    }
    assert s[..a.Length] == s;
    if least == 0 {
      forall k | 0 <= k < a.Length ensures a[k] == Int16(a[k] - 0) { InRange(a[k]); }
      return;
    }
    for i := 0 to a.Length
      invariant forall k :: 0 <= k < i ==> a[k] == Int16(old(a[k]) - least)
      invariant forall k :: i <= k < a.Length ==> a[k] == old(a[k])
    {
      a[i] := Int16(a[i] - least);
    }
  }

  lemma InRange(x: int)
    ensures Int16(x) == x <==> -32768 <= x < 32768
  {
  }

  /** Indents that tell depths apart as far as 16 bits can. */
  ghost predicate Faithful(t: seq<Event>, indent: seq<int>) {
    && |indent| == |t|
    && forall i, j :: 0 <= i < |t| && 0 <= j < |t| ==>
         (indent[i] == indent[j] <==> (Depth(t, i) - Depth(t, j)) % 65536 == 0)
  }

  /** Loaded indents are faithful, before and after they are normalized. */
  lemma NormalizedFaithful(t: seq<Event>, indent: seq<int>, least: int)
    requires |indent| == |t| && forall k :: 0 <= k < |t| ==> indent[k] == Int16(Int16(Depth(t, k)) - least)
    ensures Faithful(t, indent)
  {
    hide Int16, Depth;
    forall i, j | 0 <= i < |t| && 0 <= j < |t|
      ensures indent[i] == indent[j] <==> (Depth(t, i) - Depth(t, j)) % 65536 == 0
    {
      Int16Of(Depth(t, i), -least);
      Int16Of(Depth(t, j), -least);
      Int16Same(Depth(t, i) - least, Depth(t, j) - least);
    }
  }

  /** When the depths span less than half of the 16 bits, normalized indents are the depths
      above the least one. */
  lemma NormalizedExact(t: seq<Event>, indent: seq<int>, least: int, k: int)
    requires 0 <= k < |t| == |indent| && indent[k] == Int16(Int16(Depth(t, k)) - Int16(least))
    ensures indent[k] == Depth(t, k) - least <==> -32768 <= Depth(t, k) - least < 32768
  {
  }

  // ------------------------------------------------------------ scanning for equals

  /** The first record from m on whose indent is v, or the end. */
  function Scan(indent: seq<int>, v: int, m: nat): (e: nat)
    requires m <= |indent|
    ensures m <= e <= |indent| && (e < |indent| ==> indent[e] == v)
    ensures forall x :: m <= x < e ==> indent[x] != v
    decreases |indent| - m
  {
    if m == |indent| || indent[m] == v then m else Scan(indent, v, m + 1)
  }

  /** Depth changes by at most one from record to record. */
  lemma {:induction false} Passes(t: seq<Event>, i: int, m: int, h: nat)
    requires 0 <= i <= m < |t| && Depth(t, m) >= Depth(t, i) + h
    ensures exists x :: i <= x <= m && Depth(t, x) == Depth(t, i) + h
    decreases m - i
  {
    hide Depth;
    if Depth(t, m) != Depth(t, i) + h {
      assert i < m;
      DepthStep(t, m);
      Passes(t, i, m - 1, h);
    }
  }

  /** Call i is e's: record e is its return, or it never returns and e is the end. */
  ghost predicate EndsAt(t: seq<Event>, i: int, e: int) {
    (e < |t| && Matches(t, i, e)) || (e == |t| && Open(t, i, |t|))
  }

  /** While the call is open, the records reach just 65536 levels deeper. */
  ghost predicate Wraps(t: seq<Event>, i: int)
    requires 0 <= i < |t|
  {
    exists m :: i < m < |t| && Open(t, i, m) && Depth(t, m) == Depth(t, i) + 65536
  }

  lemma EndExists(t: seq<Event>, i: nat) returns (e: nat)
    requires i < |t| && t[i].call
    ensures i < e <= |t| && EndsAt(t, i, e)
  {
    OpenOrReturned(t, i, |t|);
    if Open(t, i, |t|) {
      e := |t|;
    } else {
      e :| e < |t| && Matches(t, i, e);
    }
  }

  /** Inside a call, records are deeper; at its end they are as deep as the call. */
  lemma InsideDeeper(t: seq<Event>, i: nat, e: nat)
    requires i < |t| && EndsAt(t, i, e)
    ensures forall m :: i < m < e ==> Depth(t, m) > Depth(t, i) && Open(t, i, m)
    ensures e < |t| ==> Depth(t, e) == Depth(t, i)
  {
    hide Depth, Since;
    if e < |t| {
      MatchDepth(t, i, e);
    } else {
      forall m | i < m < e ensures Depth(t, m) > Depth(t, i) { NeverReturns(t, i, m); }
    }
  }

  /** tree_collapse, tree_expand and tree_expand_all look for the end of a call by its
      indent: they find it exactly when nothing in the call lies 65536 levels deeper. */
  lemma ScanFindsEnd(t: seq<Event>, indent: seq<int>, i: nat)
    requires Faithful(t, indent) && i < |t| && t[i].call
    ensures EndsAt(t, i, Scan(indent, indent[i], i + 1)) <==> !Wraps(t, i)
  {
    var r := Scan(indent, indent[i], i + 1);
    hide Depth, Open, Matches, Faithful, Scan, Wraps;
    var e := EndExists(t, i);
    ScanNotPast(t, indent, i, e);
    if Wraps(t, i) {
      WrapMissed(t, indent, i, r);
    } else {
      NoneInside(t, indent, i, e);
    }
  }

  /** The scan stops at the end of the call or before. */
  lemma ScanNotPast(t: seq<Event>, indent: seq<int>, i: nat, e: nat)
    requires Faithful(t, indent) && i < e <= |t| && EndsAt(t, i, e)
    ensures Scan(indent, indent[i], i + 1) <= e
  {
    hide Depth, Open, Matches;
    InsideDeeper(t, i, e);
  }

  /** A record 65536 levels deeper stops it too early. */
  lemma WrapMissed(t: seq<Event>, indent: seq<int>, i: nat, r: nat)
    requires Faithful(t, indent) && i < |t| && Wraps(t, i) && r == Scan(indent, indent[i], i + 1)
    ensures !EndsAt(t, i, r)
  {
    hide Depth, Open, Matches;
    var m :| i < m < |t| && Open(t, i, m) && Depth(t, m) == Depth(t, i) + 65536;
    assert indent[m] == indent[i];
    if EndsAt(t, i, r) { EndsAfter(t, i, r, m); }
  }

  /** Without one, no record in the call has its indent. */
  lemma NoneInside(t: seq<Event>, indent: seq<int>, i: nat, e: nat)
    requires Faithful(t, indent) && i < e <= |t| && EndsAt(t, i, e) && !Wraps(t, i)
    ensures Scan(indent, indent[i], i + 1) >= e
  {
    hide Open, Matches, Depth;
    InsideDeeper(t, i, e);
    forall m | i < m < e ensures indent[m] != indent[i] {
      if Depth(t, m) >= Depth(t, i) + 65536 { Passes(t, i, m, 65536); }
    }
  }

  /** A call does not end before a deeper record in it. */
  lemma EndsAfter(t: seq<Event>, i: nat, r: nat, m: nat)
    requires i < m < |t| && EndsAt(t, i, r) && Open(t, i, m) && Depth(t, m) != Depth(t, i)
    ensures m < r
  {
    if r < m { MatchCloses(t, i, r, m); }
    if r == m { MatchDepth(t, i, r); }
  }

  /** tree_left on a return walks back to an equal indent: the call that returned. */
  method BackToCall(t: seq<Event>, indent: seq<int>, j: nat) returns (i: nat)
    requires Faithful(t, indent) && j < |t| && !t[j].call
    ensures forall c: nat :: Matches(t, c, j) ==> (i == c <==> !Wraps(t, c))
    ensures j > 0 && i > 0 ==> i < j && indent[i] == indent[j]
  {
    i := j;
    while i != 0
      invariant i <= j && forall x :: i <= x < j ==> indent[x] != indent[j]
    {
      i := i - 1;
      if indent[i] == indent[j] { break; }
    }
    assert forall x :: i < x < j ==> indent[x] != indent[j];
    assert i < j && i > 0 ==> indent[i] == indent[j];
    forall c: nat | Matches(t, c, j) ensures i == c <==> !Wraps(t, c) {
      BackFinds(t, indent, c, j, i);
    }
  }

  lemma BackFinds(t: seq<Event>, indent: seq<int>, c: nat, j: nat, i: nat)
    requires Faithful(t, indent) && Matches(t, c, j) && i < j
    requires (i == 0 || indent[i] == indent[j]) && forall x :: i < x < j ==> indent[x] != indent[j]
    ensures i == c <==> !Wraps(t, c)
  {
    hide Depth, Open;
    MatchDepth(t, c, j);
    assert indent[c] == indent[j];
    assert c <= i;
    if Wraps(t, c) {
      var m :| c < m < |t| && Open(t, c, m) && Depth(t, m) == Depth(t, c) + 65536;
      EndsAfter(t, c, j, m);
      assert indent[m] == indent[j];
    } else if c < i {
      assert indent[i] == indent[j] && Depth(t, i) > Depth(t, c);
      Passes(t, c, i, 65536);
      var x :| c <= x <= i && Depth(t, x) == Depth(t, c) + 65536;
      InsideDeeper(t, c, j);
    }
  }

  // ------------------------------------------------------------------- folding

  /** tree_collapse: what the call contains, and its return, is no longer shown. */
  method Collapse(indent: seq<int>, expandable: seq<bool>, show: array<bool>, expanded: array<bool>, sel: nat)
    requires |indent| == |expandable| == show.Length == expanded.Length && sel < |indent| && show != expanded
    modifies show, expanded
    ensures var e := Scan(indent, indent[sel], sel + 1);
            var fold := old(expanded[sel]) && expandable[sel];
            && (forall m :: 0 <= m < |indent| ==> show[m] == (old(show[m]) && !(fold && sel < m <= e)))
            && (forall m :: 0 <= m < |indent| ==> expanded[m] == (old(expanded[m]) && !(fold && sel <= m <= e)))
  {
    if expanded[sel] && expandable[sel] {
      expanded[sel] := false;
      ghost var e := Scan(indent, indent[sel], sel + 1);
      var scan := sel + 1;
      while scan != |indent|
        invariant sel < scan <= e <= |indent|
        invariant forall m :: 0 <= m < |indent| ==> show[m] == (old(show[m]) && !(sel < m < scan))
        invariant forall m :: 0 <= m < |indent| ==> expanded[m] == (old(expanded[m]) && !(sel <= m < scan))
      {
        show[scan] := false;
        expanded[scan] := false;
        if indent[scan] == indent[sel] { break; }
        scan := scan + 1;
      }
    }
  }

  /** tree_expand_all: the call and everything in it is opened up again. */
  method ExpandAll(indent: seq<int>, expandable: seq<bool>, showable: seq<bool>,
                   show: array<bool>, expanded: array<bool>, sel: nat)
    requires |indent| == |expandable| == |showable| == show.Length == expanded.Length && sel < |indent| && show != expanded
    modifies show, expanded
    ensures var e := Scan(indent, indent[sel], sel + 1);
            && (forall m :: 0 <= m < |indent| ==> show[m] == if sel < m <= e then showable[m] else old(show[m]))
            && (forall m :: 0 <= m < |indent| ==>
                  expanded[m] == if sel < m <= e then expandable[m] else m == sel || old(expanded[m]))
  {
    expanded[sel] := true;
    ghost var e := Scan(indent, indent[sel], sel + 1);
    var scan := sel + 1;
    while scan != |indent|
      invariant sel < scan <= e <= |indent|
      invariant forall m :: 0 <= m < |indent| ==> show[m] == if sel < m < scan then showable[m] else old(show[m])
      invariant forall m :: 0 <= m < |indent| ==>
                  expanded[m] == if sel < m < scan then expandable[m] else m == sel || old(expanded[m])
    {
      show[scan] := showable[scan];
      expanded[scan] := expandable[scan];
      if indent[scan] == indent[sel] {
        show[scan] := showable[scan];
        break;
      }
      scan := scan + 1;
    }
  }

  // ---------------------------------------------------------------- call paths

  /** The open calls before record k, found by playing the records. */
  function StackAt(t: seq<Event>, k: nat): seq<nat>
    requires k <= |t|
  {
    if k == 0 then [] else Step(StackAt(t, k - 1), t[k - 1].call, k - 1)
  }

  lemma NoneOpen(t: seq<Event>)
    ensures StackOk(t, 0, [])
  {
  }

  lemma {:induction false} StackAtOk(t: seq<Event>, k: nat)
    requires k <= |t|
    ensures StackOk(t, k, StackAt(t, k))
  {
    NoneOpen(t);
    hide StackOk, Step;
    if k > 0 {
      StackAtOk(t, k - 1);
      StackStep(t, k - 1, StackAt(t, k - 1));
    }
  }

  /** When the top call was entered, the calls below it were the open ones. */
  lemma StackBelow(t: seq<Event>, k: nat, s: seq<nat>)
    requires k <= |t| && StackOk(t, k, s) && s != []
    ensures StackOk(t, s[|s| - 1], s[..|s| - 1])
  {
    hide Balance;
    var i := s[|s| - 1];
    var s' := s[..|s| - 1];
    assert Open(t, i, k);
    forall p | 0 <= p < |s'| ensures Open(t, s'[p], i) && Since(t, s'[p], i) == |s'| - 1 - p {
      assert Open(t, s[p], k) && s[p] < i;
      OpenBefore(t, s[p], i, k);
      SinceSplit(t, s[p], i, k);
    }
    forall x | Open(t, x, i) ensures x in s' {
      forall m | x < m <= k ensures Since(t, x, m) >= 0 {
        if m > i { SinceSplit(t, x, i, m); }
      }
      assert Open(t, x, k);
      var p :| 0 <= p < |s| && s[p] == x;
      assert s'[p] == x;
    }
  }

  lemma SinceSplit(t: seq<Event>, x: int, i: int, m: int)
    requires 0 <= x < i < m <= |t| && t[i].call
    ensures Since(t, x, m) == Since(t, x, i) + 1 + Since(t, i, m)
  {
    BalanceSplit(t, x + 1, i, m);
    BalanceSplit(t, i, i + 1, m);
  }

  function Addresses(t: seq<Event>, s: seq<nat>): (r: seq<nat>)
    requires forall p :: 0 <= p < |s| ==> s[p] < |t|
    ensures |r| == |s| && forall p :: 0 <= p < |s| ==> r[p] == t[s[p]].fn
  {
    if s == [] then [] else Addresses(t, s[..|s| - 1]) + [t[s[|s| - 1]].fn]
  }

  function Reversed(s: seq<nat>): seq<nat> {
    if s == [] then [] else [s[|s| - 1]] + Reversed(s[..|s| - 1])
  }

  /** callpath_t: following the caller indices from a record gives exactly the calls open
      at it, outermost first, and then the record itself. */
  method CallPath(t: seq<Event>, d: seq<Detail>, leaf: nat) returns (path: seq<nat>)
    requires leaf < |t| == |d| && CallersOk(t, d, |t|)
    ensures var s := StackAt(t, leaf);
            && (forall p :: 0 <= p < |s| ==> s[p] < |t|)
            && path == Addresses(t, s) + [t[leaf].fn]
  {
    hide StackOk, CallerOk, StackAt;
    StackAtOk(t, leaf);
    ghost var s := StackAt(t, leaf);
    StackIndices(t, leaf, s);
    ghost var open: seq<nat> := s;
    path := [t[leaf].fn];
    var at: nat := leaf;
    ghost var whole := Addresses(t, s) + [t[leaf].fn];
    assert Reversed(path) == [t[leaf].fn];
    CallerIsTop(t, d, at, open);
    while d[at].caller.Some?
      invariant at < |t| && StackOk(t, at, open) && (forall p :: 0 <= p < |open| ==> open[p] < |t|)
      invariant Addresses(t, open) + Reversed(path) == whole
      invariant d[at].caller == if open == [] then None else Some(open[|open| - 1])
      decreases |open|
    {
      StackBelow(t, at, open);
      at := d[at].caller.value;
      ghost var below := open[..|open| - 1];
      assert Addresses(t, open) == Addresses(t, below) + [t[at].fn];
      assert (path + [t[at].fn])[..|path|] == path;
      path := path + [t[at].fn];
      open := below;
      CallerIsTop(t, d, at, open);
    }
    assert open == [];
    path := Reversed(path);
  }

  lemma CallerIsTop(t: seq<Event>, d: seq<Detail>, k: nat, s: seq<nat>)
    requires k < |t| == |d| && CallerOk(t, d, k) && StackOk(t, k, s)
    ensures d[k].caller == if s == [] then None else Some(s[|s| - 1])
  {
  }

  // --------------------------------------------------------------- the hot call

  /** Among the records of a call, its direct calls are those one level deeper. */
  lemma DirectCall(t: seq<Event>, c: nat, j: nat, k: nat)
    requires Matches(t, c, j) && c < k < j && t[k].call
    ensures Depth(t, k) == Depth(t, c) + 1 <==> Innermost(t, c, k)
  {
    OpenBefore(t, c, k, j);
    BalanceSplit(t, 0, c, k);
    BalanceSplit(t, c, c + 1, k);
  }

  /** Record h took longest of the records between c and j one level in, and is the first
      that did. */
  ghost predicate IsHottest(d: seq<Detail>, indent: seq<int>, c: nat, j: nat, h: nat)
    requires |d| == |indent| && j <= |d|
  {
    && c < h < j && indent[h] == indent[c] + 1 && d[h].total > 0
    && forall k :: c < k < j && indent[k] == indent[c] + 1 ==>
         d[k].total < d[h].total || (d[k].total == d[h].total && h <= k)
  }

  /** load_trace, at record j that returns from call c: the hottest of the records that are
      indented one level more, if any took time. */
  method Hottest(d: seq<Detail>, indent: seq<int>, c: nat, j: nat) returns (hot: Option<nat>)
    requires |d| == |indent| && c < j < |d|
    ensures hot.None? <==> forall k :: c < k < j && indent[k] == indent[c] + 1 ==> d[k].total == 0
    ensures hot.Some? ==> IsHottest(d, indent, c, j, hot.value)
  {
    var index: nat, time: nat := |d|, 0;
    for k := c + 1 to j
      invariant c < k <= j
      invariant time == 0 <==> index == |d|
      invariant time == 0 ==> forall m :: c < m < k && indent[m] == indent[c] + 1 ==> d[m].total == 0
      invariant time > 0 ==> c < index < k && d[index].total == time && indent[index] == indent[c] + 1
      invariant time > 0 ==> forall m :: c < m < k && indent[m] == indent[c] + 1 ==>
                                           d[m].total < time || (d[m].total == time && index <= m)
    {
      if indent[c] == indent[k] - 1 {
        if time < d[k].total {
          time := d[k].total;
          index := k;
        }
      }
    }
    hot := if index != |d| then Some(index) else None;
  }

  /** Where indents tell depths, the records that took time one level in are exactly the
      direct calls that did. */
  lemma HottestIsDirect(t: seq<Event>, d: seq<Detail>, indent: seq<int>, c: nat, j: nat, k: nat)
    requires |t| == |d| == |indent| && Matches(t, c, j) && CallersOk(t, d, j) && c < k < j
    requires t[k].call || d[k].total == 0
    requires indent[k] - indent[c] == Depth(t, k) - Depth(t, c)
    ensures indent[k] == indent[c] + 1 && d[k].total > 0 <==> t[k].call && d[k].caller == Some(c) && d[k].total > 0
  {
    hide Depth, Matches, CallerOk;
    CalleesAreDirect(t, d, c, j);
  }

  lemma CalleesAreDirect(t: seq<Event>, d: seq<Detail>, c: nat, j: nat)
    requires |t| == |d| && Matches(t, c, j) && CallersOk(t, d, j)
    ensures c < j < |t|
    ensures forall k :: c < k < j && t[k].call ==> (d[k].caller == Some(c) <==> Depth(t, k) == Depth(t, c) + 1)
  {
    forall k | c < k < j && t[k].call
      ensures d[k].caller == Some(c) <==> Depth(t, k) == Depth(t, c) + 1
    {
      DirectCall(t, c, j, k);
      StackAtOk(t, k);
      CallerIsTop(t, d, k, StackAt(t, k));
      TopInnermost(t, k, StackAt(t, k), c);
    }
  }
}
