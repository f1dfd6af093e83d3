/** pif-trace/pif-trace.cc, load_trace: callers, and the time spent in every call. */
module TraceTimes {
  import opened Options
  import opened TraceNesting

  /** What the analysis records: the caller's index, the time from call to return and
      the part of it spent in calls made directly. */
  datatype Detail = Detail(caller: Option<nat>, total: nat, child: nat)

  /** Time stamps do not go back. */
  predicate Ordered(t: seq<Event>) { forall i, j :: 0 <= i <= j < |t| ==> t[i].tsc <= t[j].tsc }

  /** The total times of the calls made directly by call i, among the first k records. */
  function ChildSum(t: seq<Event>, d: seq<Detail>, i: nat, k: nat): nat
    requires k <= |t| == |d|
  {
    if k == 0 then 0
    else ChildSum(t, d, i, k - 1) + (if t[k - 1].call && d[k - 1].caller == Some(i) then d[k - 1].total else 0)
  }

  /** Sums over the calls among the first k records. */
  function SumOf(t: seq<Event>, d: seq<Detail>, f: Detail -> nat, k: nat): nat
    requires k <= |t| == |d|
  {
    if k == 0 then 0 else SumOf(t, d, f, k - 1) + (if t[k - 1].call then f(d[k - 1]) else 0)
  }

  function TotalOf(d: Detail): nat { d.total }
  function ChildOf(d: Detail): nat { d.child }
  function OuterOf(d: Detail): nat { if d.caller.None? then d.total else 0 }

  lemma {:induction false} SumUpdate(t: seq<Event>, d: seq<Detail>, f: Detail -> nat, k: nat, c: nat, x: Detail)
    requires k <= |t| == |d| && c < |d| && t[c].call
    ensures SumOf(t, d[c := x], f, k) == SumOf(t, d, f, k) + if c < k then f(x) - f(d[c]) else 0
  {
    if k > 0 { SumUpdate(t, d, f, k - 1, c, x); }
  }

  lemma {:induction false} ChildSumUpdate(t: seq<Event>, d: seq<Detail>, i: nat, k: nat, c: nat, x: Detail)
    requires k <= |t| == |d| && c < |d| && t[c].call && x.caller == d[c].caller
    ensures ChildSum(t, d[c := x], i, k) ==
            ChildSum(t, d, i, k) + if c < k && x.caller == Some(i) then x.total - d[c].total else 0
  {
    if k > 0 { ChildSumUpdate(t, d, i, k - 1, c, x); }
  }

  lemma {:induction false} ChildSumSame(t: seq<Event>, d: seq<Detail>, d': seq<Detail>, i: nat, k: nat)
    requires k <= |t| == |d| == |d'| && forall c :: 0 <= c < k ==> d'[c] == d[c]
    ensures ChildSum(t, d', i, k) == ChildSum(t, d, i, k)
  {
    if k > 0 { ChildSumSame(t, d, d', i, k - 1); }
  }

  lemma {:induction false} SumSame(t: seq<Event>, d: seq<Detail>, d': seq<Detail>, f: Detail -> nat, k: nat)
    requires k <= |t| == |d| == |d'| && forall c :: 0 <= c < k ==> d'[c] == d[c]
    ensures SumOf(t, d', f, k) == SumOf(t, d, f, k)
  {
    if k > 0 { SumSame(t, d, d', f, k - 1); }
  }

  // ------------------------------------------------------- what is known so far

  /** Callers are the innermost open calls. */
  ghost predicate CallersOk(t: seq<Event>, d: seq<Detail>, k: nat)
    requires k <= |t| == |d|
  {
    forall j :: 0 <= j < k ==> CallerOk(t, d, j)
  }

  ghost predicate CallerOk(t: seq<Event>, d: seq<Detail>, j: nat)
    requires j < |t| == |d|
  {
    match d[j].caller
    case Some(i) => Innermost(t, i, j)
    case None => forall i :: !Open(t, i, j)
  }

  /** A call that returned before record k has its time, any other has none yet. */
  ghost predicate TotalsOk(t: seq<Event>, d: seq<Detail>, k: nat)
    requires k <= |t| == |d|
  {
    && (forall i, j :: 0 <= i < j < k && Matches(t, i, j) ==> d[i].total == t[j].tsc - t[i].tsc)
    && (forall i :: 0 <= i < |d| && (i >= k || !t[i].call || Open(t, i, k)) ==> d[i].total == 0)
  }

  ghost predicate ChildrenOk(t: seq<Event>, d: seq<Detail>, k: nat)
    requires k <= |t| == |d|
  {
    && (forall i :: 0 <= i < k && t[i].call ==> d[i].child == ChildSum(t, d, i, k))
    && (forall i :: k <= i < |d| ==> d[i].child == 0)
    && SumOf(t, d, TotalOf, k) == SumOf(t, d, ChildOf, k) + SumOf(t, d, OuterOf, k)
  }

  /** A closed call spent no more time in its calls than it took. */
  ghost predicate ClosedBounded(t: seq<Event>, d: seq<Detail>, k: nat)
    requires k <= |t| == |d|
  {
    forall i :: 0 <= i < k && t[i].call && !Open(t, i, k) ==> d[i].child <= d[i].total
  }

  /** An open call spent no more time in its calls than has passed until its current
      call began, or until now. */
  ghost predicate OpenBounded(t: seq<Event>, d: seq<Detail>, k: nat, s: seq<nat>)
    requires k <= |t| == |d| && forall p :: 0 <= p < |s| ==> s[p] < k
  {
    forall p {:trigger Until(s, p, k)} :: 0 <= p < |s| ==> d[s[p]].child <= t[Until(s, p, k)].tsc - t[s[p]].tsc
  }

  /** The record up to which the time of the open call at depth p is accounted for. */
  function Until(s: seq<nat>, p: nat, k: nat): int
    requires p < |s|
  {
    if p == |s| - 1 then k - 1 else s[p + 1]
  }

  /** The caller of an open call is the one below it on the stack. */
  ghost predicate Linked(d: seq<Detail>, s: seq<nat>)
    requires forall p :: 0 <= p < |s| ==> s[p] < |d|
  {
    forall p {:trigger Below(s, p)} :: 0 <= p < |s| ==> d[s[p]].caller == Below(s, p)
  }

  function Below(s: seq<nat>, p: nat): Option<nat>
    requires p < |s|
  {
    if p == 0 then None else Some(s[p - 1])
  }

  ghost predicate Known(t: seq<Event>, d: seq<Detail>, k: nat, s: seq<nat>)
  {
    && k <= |t| == |d| && StackOk(t, k, s) && CallersOk(t, d, k) && TotalsOk(t, d, k)
    && ChildrenOk(t, d, k) && ClosedBounded(t, d, k) && OpenBounded(t, d, k, s) && Linked(d, s)
  }

  // ---------------------------------------------------------- one more record

  /** Record k with its caller noted. */
  function Noted(d: seq<Detail>, k: nat, s: seq<nat>): seq<Detail>
    requires k < |d|
  {
    d[k := d[k].(caller := if s == [] then None else Some(s[|s| - 1]))]
  }

  /** Noting the caller changes nothing that was known. */
  lemma NotedKnown(t: seq<Event>, d: seq<Detail>, k: nat, s: seq<nat>)
    requires Known(t, d, k, s) && k < |t|
    ensures Known(t, Noted(d, k, s), k, s) && CallersOk(t, Noted(d, k, s), k + 1)
  {
    hide StackOk, Innermost, Open, Matches;
    var d' := Noted(d, k, s);
    StackIndices(t, k, s);
    NotedCaller(t, d, k, s);
    forall j | 0 <= j < k ensures CallerOk(t, d', j) { assert CallerOk(t, d, j); }
    forall i: nat | i < k && t[i].call ensures d'[i].child == ChildSum(t, d', i, k) { ChildSumSame(t, d, d', i, k); }
    SumSame(t, d, d', TotalOf, k);
    SumSame(t, d, d', ChildOf, k);
    SumSame(t, d, d', OuterOf, k);
  }

  lemma StackIndices(t: seq<Event>, k: nat, s: seq<nat>)
    requires k <= |t| && StackOk(t, k, s)
    ensures forall p :: 0 <= p < |s| ==> s[p] < k && t[s[p]].call
    ensures forall p, q :: 0 <= p < q < |s| ==> s[p] < s[q]
  {
  }

  lemma NotedCaller(t: seq<Event>, d: seq<Detail>, k: nat, s: seq<nat>)
    requires k < |t| == |d| && StackOk(t, k, s)
    ensures CallerOk(t, Noted(d, k, s), k)
  {
  }

  /** A caller comes before what it calls. */
  lemma CallerEarlier(t: seq<Event>, d: seq<Detail>, j: nat)
    requires j < |t| == |d| && CallerOk(t, d, j)
    ensures d[j].caller.Some? ==> d[j].caller.value < j && t[d[j].caller.value].call
  {
  }

  lemma {:induction false} NoCalleeYet(t: seq<Event>, d: seq<Detail>, i: nat, k: nat)
    requires k <= |t| == |d| && CallersOk(t, d, k) && k <= i + 1
    ensures ChildSum(t, d, i, k) == 0
  {
    if k > 0 {
      NoCalleeYet(t, d, i, k - 1);
      CallerEarlier(t, d, k - 1);
    }
  }

  /** A call opens. */
  lemma CallKnown(t: seq<Event>, d: seq<Detail>, k: nat, s: seq<nat>)
    requires Known(t, d, k, s) && k < |t| && t[k].call && CallersOk(t, d, k + 1) && Ordered(t)
    requires d[k].caller == if s == [] then None else Some(s[|s| - 1])
    ensures Known(t, d, k + 1, s + [k])
  {
    hide Open, Innermost, StackOk, CallersOk, TotalsOk, ChildrenOk, ClosedBounded, OpenBounded, Linked, Matches;
    StackStep(t, k, s);
    StackIndices(t, k, s);
    OpenAfter(t, k);
    CallTotals(t, d, k, s);
    CallChildren(t, d, k);
    CallBounded(t, d, k, s);
    CallLinked(d, k, s);
  }

  lemma CallTotals(t: seq<Event>, d: seq<Detail>, k: nat, s: seq<nat>)
    requires k < |t| == |d| && t[k].call && StackOk(t, k, s) && TotalsOk(t, d, k) && ClosedBounded(t, d, k)
    ensures TotalsOk(t, d, k + 1) && ClosedBounded(t, d, k + 1)
  {
  }

  lemma CallChildren(t: seq<Event>, d: seq<Detail>, k: nat)
    requires k < |t| == |d| && t[k].call && ChildrenOk(t, d, k) && TotalsOk(t, d, k) && CallersOk(t, d, k + 1)
    ensures ChildrenOk(t, d, k + 1) && d[k].child == 0
  {
    hide CallerOk, Matches, Open;
    NoCalleeYet(t, d, k, k + 1);
  }

  lemma CallLinked(d: seq<Detail>, k: nat, s: seq<nat>)
    requires k < |d| && (forall p :: 0 <= p < |s| ==> s[p] < k) && Linked(d, s)
    requires d[k].caller == if s == [] then None else Some(s[|s| - 1])
    ensures Linked(d, s + [k])
  {
    forall p | 0 <= p < |s| + 1 ensures d[(s + [k])[p]].caller == Below(s + [k], p) {
      if p < |s| { assert Below(s + [k], p) == Below(s, p); }
    }
  }

  /** What is open after record k was open before it, or is record k itself. */
  lemma OpenAfter(t: seq<Event>, k: nat)
    requires k < |t|
    ensures forall i :: Open(t, i, k + 1) ==> i == k || Open(t, i, k)
    ensures t[k].call ==> Open(t, k, k + 1)
    ensures t[k].call ==> forall i :: Open(t, i, k) ==> Open(t, i, k + 1)
    ensures !t[k].call ==> !Open(t, k, k + 1)
  {
    forall i | Open(t, i, k + 1) && i != k ensures Open(t, i, k) { OpenBefore(t, i, k, k + 1); }
    if t[k].call {
      forall i | Open(t, i, k) ensures Open(t, i, k + 1) {
        assert Since(t, i, k) >= 0;
      }
    }
  }

  /** Record k can only be the return of the top of the stack. */
  lemma NoMatchAt(t: seq<Event>, k: nat, s: seq<nat>)
    requires k < |t| && StackOk(t, k, s)
    ensures forall i :: Matches(t, i, k) ==> !t[k].call && s != [] && i == s[|s| - 1]
    ensures !t[k].call && s != [] ==> Matches(t, s[|s| - 1], k)
    ensures s != [] ==> var top := s[|s| - 1]; forall j :: Matches(t, top, j) ==> j >= k
  {
    forall i | Matches(t, i, k) ensures !t[k].call && s != [] && i == s[|s| - 1] { TopInnermost(t, k, s, i); }
    if s != [] {
      TopInnermost(t, k, s, s[|s| - 1]);
      var top := s[|s| - 1];
      forall j | Matches(t, top, j) ensures j >= k {
        if j < k { MatchCloses(t, top, j, k); }
      }
    }
  }

  /** A return without an open call changes nothing. */
  lemma StrayReturnKnown(t: seq<Event>, d: seq<Detail>, k: nat)
    requires Known(t, d, k, []) && k < |t| && !t[k].call && CallersOk(t, d, k + 1)
    ensures Known(t, d, k + 1, [])
  {
  }

  /** The time of the call on top is noted, and charged to its caller. */
  function Charged(t: seq<Event>, d: seq<Detail>, k: nat, s: seq<nat>): seq<Detail>
    requires k < |t| == |d| && s != [] && (forall p :: 0 <= p < |s| ==> s[p] < |d|) && t[s[|s| - 1]].tsc <= t[k].tsc
  {
    var i := s[|s| - 1];
    var elapsed := t[k].tsc - t[i].tsc;
    var d1 := d[i := d[i].(total := d[i].total + elapsed)];
    if |s| == 1 then d1 else var q := s[|s| - 2]; d1[q := d1[q].(child := d1[q].child + elapsed)]
  }

  lemma ChargedTotals(t: seq<Event>, d: seq<Detail>, k: nat, s: seq<nat>)
    requires Known(t, d, k, s) && k < |t| && !t[k].call && s != [] && t[s[|s| - 1]].tsc <= t[k].tsc
    ensures (forall p :: 0 <= p < |s| ==> s[p] < |d|) && TotalsOk(t, Charged(t, d, k, s), k + 1)
    ensures d[s[|s| - 1]].total == 0
  {
    hide Innermost, Open, CallersOk, ChildrenOk, ClosedBounded, OpenBounded, Matches;
    StackIndices(t, k, s);
    OpenAfter(t, k);
    NoMatchAt(t, k, s);
    assert Open(t, s[|s| - 1], k);
    TopCloses(t, k, s);
  }

  lemma TopCloses(t: seq<Event>, k: nat, s: seq<nat>)
    requires k < |t| && StackOk(t, k, s) && !t[k].call && s != []
    ensures !Open(t, s[|s| - 1], k + 1)
    ensures forall p :: 0 <= p < |s| - 1 ==> Open(t, s[p], k + 1)
  {
    NoMatchAt(t, k, s);
    MatchCloses(t, s[|s| - 1], k, k + 1);
    StackStep(t, k, s);
    var s' := Step(s, false, k);
    assert forall p :: 0 <= p < |s'| ==> Open(t, s'[p], k + 1);
  }

  lemma ChargedChildren(t: seq<Event>, d: seq<Detail>, k: nat, s: seq<nat>)
    requires Known(t, d, k, s) && k < |t| && !t[k].call && s != [] && t[s[|s| - 1]].tsc <= t[k].tsc
    ensures (forall p :: 0 <= p < |s| ==> s[p] < |d|) && ChildrenOk(t, Charged(t, d, k, s), k + 1)
  {
    hide StackOk, CallersOk, TotalsOk, ClosedBounded, OpenBounded;
    StackIndices(t, k, s);
    var i := s[|s| - 1];
    var e := t[k].tsc - t[i].tsc;
    var x := d[i].(total := d[i].total + e);
    var d1 := d[i := x];
    ChargedSums(t, d, k, i, x);
    assert d[i].caller == Below(s, |s| - 1);
    if |s| > 1 {
      var q := s[|s| - 2];
      ChargedSums(t, d1, k, q, d1[q].(child := d1[q].child + e));
    }
  }

  /** Changing the times of call c, seen in every sum. */
  lemma ChargedSums(t: seq<Event>, d: seq<Detail>, k: nat, c: nat, x: Detail)
    requires k <= |t| == |d| && c < k && t[c].call && x.caller == d[c].caller
    ensures forall i: nat :: ChildSum(t, d[c := x], i, k) ==
              ChildSum(t, d, i, k) + if x.caller == Some(i) then x.total - d[c].total else 0
    ensures SumOf(t, d[c := x], TotalOf, k) == SumOf(t, d, TotalOf, k) + x.total - d[c].total
    ensures SumOf(t, d[c := x], ChildOf, k) == SumOf(t, d, ChildOf, k) + x.child - d[c].child
    ensures SumOf(t, d[c := x], OuterOf, k) == SumOf(t, d, OuterOf, k) + OuterOf(x) - OuterOf(d[c])
  {
    forall i: nat ensures ChildSum(t, d[c := x], i, k) ==
              ChildSum(t, d, i, k) + if x.caller == Some(i) then x.total - d[c].total else 0 {
      ChildSumUpdate(t, d, i, k, c, x);
    }
    SumUpdate(t, d, TotalOf, k, c, x);
    SumUpdate(t, d, ChildOf, k, c, x);
    SumUpdate(t, d, OuterOf, k, c, x);
  }

  lemma TopBound(t: seq<Event>, d: seq<Detail>, k: nat, s: seq<nat>)
    requires k < |t| == |d| && s != [] && (forall p :: 0 <= p < |s| ==> s[p] < k)
    requires OpenBounded(t, d, k, s) && Ordered(t)
    ensures d[s[|s| - 1]].child <= t[k].tsc - t[s[|s| - 1]].tsc
  {
    var p := |s| - 1;
    assert s[p] < k && t[k - 1].tsc <= t[k].tsc;
    assert d[s[p]].child <= t[Until(s, p, k)].tsc - t[s[p]].tsc;
  }

  lemma CallBounded(t: seq<Event>, d: seq<Detail>, k: nat, s: seq<nat>)
    requires k < |t| == |d| && (forall p :: 0 <= p < |s| ==> s[p] < k)
    requires OpenBounded(t, d, k, s) && Ordered(t) && d[k].child == 0
    ensures OpenBounded(t, d, k + 1, s + [k])
  {
    var s' := s + [k];
    forall p | 0 <= p < |s'| ensures d[s'[p]].child <= t[Until(s', p, k + 1)].tsc - t[s'[p]].tsc {
      if p == |s| - 1 {
        TopBound(t, d, k, s);
      } else if p < |s| {
        assert Until(s, p, k) == Until(s', p, k + 1);
      }
    }
  }

  lemma ReturnBounded(t: seq<Event>, d: seq<Detail>, k: nat, s: seq<nat>)
    requires k < |t| == |d| && s != [] && (forall p :: 0 <= p < |s| ==> s[p] < k)
    requires OpenBounded(t, d, k, s) && Ordered(t) && forall p, q :: 0 <= p < q < |s| ==> s[p] < s[q]
    ensures OpenBounded(t, Charged(t, d, k, s), k + 1, s[..|s| - 1])
  {
    var s', d' := s[..|s| - 1], Charged(t, d, k, s);
    forall p | 0 <= p < |s'| ensures d'[s'[p]].child <= t[Until(s', p, k + 1)].tsc - t[s'[p]].tsc {
      assert d[s[p]].child <= t[Until(s, p, k)].tsc - t[s[p]].tsc;
      assert s[p] < s[|s| - 1] && (p == |s| - 2 || s[p] < s[|s| - 2]);
    }
  }

  lemma ReturnClosed(t: seq<Event>, d: seq<Detail>, k: nat, s: seq<nat>)
    requires k < |t| == |d| && StackOk(t, k, s) && !t[k].call && s != [] && Ordered(t) && d[s[|s| - 1]].total == 0
    requires (forall p :: 0 <= p < |s| ==> s[p] < k) && ClosedBounded(t, d, k) && OpenBounded(t, d, k, s)
    ensures ClosedBounded(t, Charged(t, d, k, s), k + 1)
  {
    hide Open, OpenBounded;
    StackIndices(t, k, s);
    TopCloses(t, k, s);
    StillOpen(t, k, s);
    TopBound(t, d, k, s);
    assert |s| > 1 ==> Open(t, s[|s| - 2], k + 1);
  }

  lemma ReturnLinked(t: seq<Event>, d: seq<Detail>, k: nat, s: seq<nat>)
    requires k < |t| == |d| && s != [] && (forall p :: 0 <= p < |s| ==> s[p] < k) && Linked(d, s)
    requires t[s[|s| - 1]].tsc <= t[k].tsc
    ensures Linked(Charged(t, d, k, s), s[..|s| - 1])
  {
    var s', d' := s[..|s| - 1], Charged(t, d, k, s);
    forall p | 0 <= p < |s'| ensures d'[s'[p]].caller == Below(s', p) {
      assert d[s[p]].caller == Below(s, p);
    }
  }

  /** Below the top, what was open stays open. */
  lemma StillOpen(t: seq<Event>, k: nat, s: seq<nat>)
    requires k < |t| && StackOk(t, k, s) && !t[k].call && s != []
    ensures forall i :: Open(t, i, k) && i != s[|s| - 1] ==> Open(t, i, k + 1)
  {
  }

  lemma ReturnCallers(t: seq<Event>, d: seq<Detail>, k: nat, s: seq<nat>)
    requires k < |t| == |d| && s != [] && (forall p :: 0 <= p < |s| ==> s[p] < k) && CallersOk(t, d, k + 1)
    requires t[s[|s| - 1]].tsc <= t[k].tsc
    ensures CallersOk(t, Charged(t, d, k, s), k + 1)
  {
    hide Open, Innermost;
    var d' := Charged(t, d, k, s);
    forall j: nat | j < k + 1 ensures CallerOk(t, d', j) { assert CallerOk(t, d, j); }
  }

  /** A call closes. */
  lemma ReturnKnown(t: seq<Event>, d: seq<Detail>, k: nat, s: seq<nat>)
    requires Known(t, d, k, s) && k < |t| && !t[k].call && s != [] && CallersOk(t, d, k + 1) && Ordered(t)
    ensures (forall p :: 0 <= p < |s| ==> s[p] < |d|) && Known(t, Charged(t, d, k, s), k + 1, s[..|s| - 1])
  {
    StackIndices(t, k, s);
    hide StackOk, CallersOk, TotalsOk, ChildrenOk, ClosedBounded, OpenBounded, Linked, Charged;
    StackStep(t, k, s);
    assert Step(s, false, k) == s[..|s| - 1];
    ChargedTotals(t, d, k, s);
    ChargedChildren(t, d, k, s);
    ReturnCallers(t, d, k, s);
    ReturnClosed(t, d, k, s);
    ReturnBounded(t, d, k, s);
    ReturnLinked(t, d, k, s);
    SameSize(t, d, k, s);
  }

  lemma SameSize(t: seq<Event>, d: seq<Detail>, k: nat, s: seq<nat>)
    requires k < |t| == |d| && s != [] && (forall p :: 0 <= p < |s| ==> s[p] < |d|) && t[s[|s| - 1]].tsc <= t[k].tsc
    ensures |Charged(t, d, k, s)| == |d|
  {
  }

  // ------------------------------------------------------------- the analysis

  /** Every record has the innermost call open before it as its caller; a call that
      returned has the time to its own return, one that did not has none; its child time
      is what its direct calls took, never more than its own time once it returned; and
      all time is child time of some call or time of an outermost one. */
  ghost predicate Analyzed(t: seq<Event>, d: seq<Detail>) {
    && |d| == |t| && CallersOk(t, d, |t|)
    && (forall i, j :: Matches(t, i, j) ==> d[i].total == t[j].tsc - t[i].tsc)
    && (forall i :: 0 <= i < |t| && (!t[i].call || Open(t, i, |t|)) ==> d[i].total == 0)
    && (forall i :: 0 <= i < |t| && t[i].call ==> d[i].child == ChildSum(t, d, i, |t|))
    && ClosedBounded(t, d, |t|)
    && SumOf(t, d, TotalOf, |t|) == SumOf(t, d, ChildOf, |t|) + SumOf(t, d, OuterOf, |t|)
  }

  /** load_trace, the analysis of call stacks of one thread. */
  method AnalyzeCalls(t: seq<Event>) returns (d: seq<Detail>)
    requires Ordered(t)
    ensures Analyzed(t, d)
  {
    hide StackOk, CallersOk, TotalsOk, ChildrenOk, ClosedBounded, OpenBounded, Linked, Innermost;
    d := seq(|t|, _ => Detail(None, 0, 0));
    var calls: seq<nat> := [];
    StartKnown(t, d);
    for k := 0 to |t|
      invariant Known(t, d, k, calls)
    {
      NotedKnown(t, d, k, calls);
      d := Noted(d, k, calls);
      StackIndices(t, k, calls);
      if t[k].call {
        CallKnown(t, d, k, calls);
        calls := calls + [k];
      } else if calls == [] {
        StrayReturnKnown(t, d, k);
      } else {
        ReturnKnown(t, d, k, calls);
        var entry := calls[|calls| - 1];
        ghost var d0, s := d, calls;
        calls := calls[..|calls| - 1];
        var elapsed := t[k].tsc - t[entry].tsc;
        d := d[entry := d[entry].(total := d[entry].total + elapsed)];
        if calls != [] {
          var caller := calls[|calls| - 1];
          d := d[caller := d[caller].(child := d[caller].child + elapsed)];
        }
        assert d == Charged(t, d0, k, s);
      }
    }
    KnownAnalyzed(t, d, calls);
  }

  lemma StartKnown(t: seq<Event>, d: seq<Detail>)
    requires |d| == |t| && forall i :: 0 <= i < |d| ==> d[i] == Detail(None, 0, 0)
    ensures Known(t, d, 0, [])
  {
  }

  lemma KnownAnalyzed(t: seq<Event>, d: seq<Detail>, s: seq<nat>)
    requires Known(t, d, |t|, s)
    ensures Analyzed(t, d)
  {
  }
}
