/** pif-trace/pif-trace.cc: how the call and return records of one thread nest. */
module TraceNesting {
  /** A record: a function entered or left at a time stamp. */
  datatype Event = Event(fn: nat, call: bool, tsc: nat)

  /** Calls minus returns among records i to j - 1. */
  function Balance(t: seq<Event>, i: int, j: int): int
    requires 0 <= i && j <= |t|
    decreases j - i
  {
    if j <= i then 0 else Balance(t, i, j - 1) + (if t[j - 1].call then 1 else -1)
  }

  lemma {:induction false} BalanceSplit(t: seq<Event>, i: int, m: int, j: int)
    requires 0 <= i <= m <= j <= |t|
    ensures Balance(t, i, j) == Balance(t, i, m) + Balance(t, m, j)
    decreases j - m
  {
    if m < j { BalanceSplit(t, i, m, j - 1); }
  }

  /** Calls minus returns after record i and before record j. */
  function Since(t: seq<Event>, i: int, j: int): int
    requires -1 <= i && j <= |t|
  {
    Balance(t, i + 1, j)
  }

  /** Call i has not returned before record k. */
  ghost predicate Open(t: seq<Event>, i: int, k: int)
    requires k <= |t|
  {
    0 <= i < k && t[i].call && forall m :: i < m <= k ==> Since(t, i, m) >= 0
  }

  /** Call i is the innermost one that has not returned before record k. */
  ghost predicate Innermost(t: seq<Event>, i: int, k: int)
    requires k <= |t|
  {
    Open(t, i, k) && Since(t, i, k) == 0
  }

  /** Record j is the return of call i. */
  ghost predicate Matches(t: seq<Event>, i: int, j: int) {
    0 <= i < j < |t| && !t[j].call && Innermost(t, i, j)
  }

  lemma OpenBefore(t: seq<Event>, i: int, k: int, k': int)
    requires k <= k' <= |t| && Open(t, i, k') && i < k
    ensures Open(t, i, k)
  {
  }

  /** A call that returned is not open afterwards, so it returns only once. */
  lemma MatchCloses(t: seq<Event>, i: int, j: int, k: int)
    requires Matches(t, i, j) && j < k <= |t|
    ensures !Open(t, i, k)
  {
    assert Since(t, i, j + 1) == -1;
  }

  /** A call is open or has returned. */
  lemma {:induction false} OpenOrReturned(t: seq<Event>, i: nat, k: nat)
    requires i < k <= |t| && t[i].call
    ensures Open(t, i, k) || exists j :: j < k && Matches(t, i, j)
    decreases k
  {
    if k == i + 1 {
      assert Open(t, i, k);
    } else {
      OpenOrReturned(t, i, k - 1);
      if Open(t, i, k - 1) && !Open(t, i, k) {
        assert Since(t, i, k - 1) >= 0 && Since(t, i, k) == Since(t, i, k - 1) + (if t[k - 1].call then 1 else -1);
        assert Matches(t, i, k - 1);
      }
    }
  }

  // ------------------------------------------------------------ the call stack

  /** The calls open before record k, outermost first. */
  ghost predicate StackOk(t: seq<Event>, k: int, s: seq<nat>)
    requires k <= |t|
  {
    && (forall p :: 0 <= p < |s| ==> Open(t, s[p], k) && Since(t, s[p], k) == |s| - 1 - p)
    && (forall p, q :: 0 <= p < q < |s| ==> s[p] < s[q])
    && (forall i :: Open(t, i, k) ==> i in s)
  }

  /** The stack after one more record: a return without an open call is dropped. */
  function Step(s: seq<nat>, call: bool, k: nat): seq<nat> {
    if call then s + [k] else if s == [] then s else s[..|s| - 1]
  }

  lemma StackStep(t: seq<Event>, k: nat, s: seq<nat>)
    requires k < |t| && StackOk(t, k, s)
    ensures StackOk(t, k + 1, Step(s, t[k].call, k))
  {
    var s' := Step(s, t[k].call, k);
    forall p | 0 <= p < |s'|
      ensures Open(t, s'[p], k + 1) && Since(t, s'[p], k + 1) == |s'| - 1 - p
    {
      if p < |s| { assert Open(t, s[p], k); }
    }
    forall i | Open(t, i, k + 1) ensures i in s' {
      if i < k {
        OpenBefore(t, i, k, k + 1);
        var p :| 0 <= p < |s| && s[p] == i;
        assert Since(t, i, k + 1) >= 0;
        assert s'[p] == i;
      } else {
        assert s'[|s|] == i;
      }
    }
  }

  /** The top of the stack is the innermost open call, and the only one. */
  lemma TopInnermost(t: seq<Event>, k: nat, s: seq<nat>, i: int)
    requires k <= |t| && StackOk(t, k, s)
    ensures Innermost(t, i, k) <==> s != [] && s[|s| - 1] == i
  {
  }

  // ------------------------------------------------------------------- indents

  /** The depth of a record: that before a call, that after a return. */
  function Depth(t: seq<Event>, k: int): int
    requires 0 <= k < |t|
  {
    Balance(t, 0, k) - (if t[k].call then 0 else 1)
  }

  /** The indent rule: one more after call and call, one less after return and return. */
  lemma DepthStep(t: seq<Event>, k: int)
    requires 0 < k < |t|
    ensures Depth(t, k) == Depth(t, k - 1) + if t[k - 1].call && t[k].call then 1
                                             else if !t[k - 1].call && !t[k].call then -1 else 0
  {
  }

  /** While a call is open, everything lies deeper than it. */
  lemma DeeperInside(t: seq<Event>, i: int, m: int)
    requires i < m < |t| && Open(t, i, m) && (t[m].call || Open(t, i, m + 1))
    ensures Depth(t, m) > Depth(t, i)
  {
    BalanceSplit(t, 0, i, m);
    BalanceSplit(t, i, i + 1, m);
    assert Since(t, i, m) >= 0;
    if !t[m].call { assert Since(t, i, m + 1) >= 0; }
  }

  /** A call and its return have the same depth, and everything between lies deeper. */
  lemma MatchDepth(t: seq<Event>, i: int, j: int)
    requires Matches(t, i, j)
    ensures Depth(t, i) == Depth(t, j)
    ensures forall m :: i < m < j ==> Depth(t, m) > Depth(t, i)
  {
    BalanceSplit(t, 0, i, j);
    BalanceSplit(t, i, i + 1, j);
    forall m | i < m < j ensures Depth(t, m) > Depth(t, i) {
      OpenBefore(t, i, m, j);
      OpenBefore(t, i, m + 1, j);
      DeeperInside(t, i, m);
    }
  }

  /** A call that never returns is followed only by deeper records. */
  lemma NeverReturns(t: seq<Event>, i: int, m: int)
    requires Open(t, i, |t|) && i < m < |t|
    ensures Depth(t, m) > Depth(t, i)
  {
    OpenBefore(t, i, m, |t|);
    OpenBefore(t, i, m + 1, |t|);
    DeeperInside(t, i, m);
  }
}
