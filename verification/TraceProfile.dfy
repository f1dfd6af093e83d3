/** pif-trace/pif-trace.cc, load_trace: the flat profile. */
module TraceProfile {
  import opened Options
  import opened TraceNesting
  import opened TraceTimes

  const MODULUS := 0x1_0000_0000_0000_0000

  /** What the profile holds for a function, in 64-bit counters. */
  datatype Stats = Stats(total: nat, self: nat, calls: nat)

  function Wrap(x: int): nat { x % MODULUS }

  lemma WrapSum(x: int, y: int)
    ensures Wrap(Wrap(x) + y) == Wrap(x + y) && (Wrap(x + y) - Wrap(x) - y) % MODULUS == 0
  {
  }

  function SelfOf(d: Detail): int { d.total - d.child }
  function OneOf(d: Detail): int { 1 }
  function TimeOf(d: Detail): int { d.total }

  /** A sum over the calls of function fn among the first k records. */
  function FnSum(t: seq<Event>, d: seq<Detail>, f: Detail -> int, fn: nat, k: nat): int
    requires k <= |t| == |d|
  {
    if k == 0 then 0
    else FnSum(t, d, f, fn, k - 1) + if t[k - 1].call && t[k - 1].fn == fn then f(d[k - 1]) else 0
  }

  function StatsIn(p: map<nat, Stats>, fn: nat): Stats {
    if fn in p then p[fn] else Stats(0, 0, 0)
  }

  ghost predicate Counters(p: map<nat, Stats>) {
    forall fn :: fn in p ==> p[fn].total < MODULUS && p[fn].self < MODULUS && p[fn].calls < MODULUS
  }

  /** The profile p with the first k records of a thread added. */
  ghost predicate Profiled(t: seq<Event>, d: seq<Detail>, p: map<nat, Stats>, p': map<nat, Stats>, k: nat)
    requires k <= |t| == |d|
  {
    && (forall fn :: fn in p' <==> fn in p || exists i :: 0 <= i < k && t[i].call && t[i].fn == fn)
    && forall fn: nat :: ProfiledFn(t, d, p, p', k, fn)
  }

  ghost predicate ProfiledFn(t: seq<Event>, d: seq<Detail>, p: map<nat, Stats>, p': map<nat, Stats>, k: nat, fn: nat)
    requires k <= |t| == |d|
  {
    var s, s' := StatsIn(p, fn), StatsIn(p', fn);
    && s'.total == Wrap(s.total + FnSum(t, d, TimeOf, fn, k))
    && s'.self == Wrap(s.self + FnSum(t, d, SelfOf, fn, k))
    && s'.calls == Wrap(s.calls + FnSum(t, d, OneOf, fn, k))
  }

  /** The flat profile gains, for each function, the times and the number of its calls. */
  method FlatProfile(t: seq<Event>, d: seq<Detail>, p: map<nat, Stats>) returns (p': map<nat, Stats>)
    requires |t| == |d| && Counters(p)
    ensures Profiled(t, d, p, p', |t|) && Counters(p')
  {
    hide Wrap, ProfiledFn, FnSum;
    p' := p;
    StartProfile(t, d, p);
    for i := 0 to |t|
      invariant Profiled(t, d, p, p', i)
      invariant Counters(p')
    {
      if t[i].call {
        var e := StatsIn(p', t[i].fn);
        var total := Wrap(e.total + d[i].total);
        var self := Wrap(e.self + d[i].total - d[i].child);
        ghost var before := p';
        p' := p'[t[i].fn := Stats(total, self, Wrap(e.calls + 1))];
        WrapBound(e.total + d[i].total);
        WrapBound(e.self + d[i].total - d[i].child);
        WrapBound(e.calls + 1);
        ProfileCall(t, d, p, before, p', i);
      } else {
        ProfileReturn(t, d, p, p', i);
      }
    }
  }

  lemma WrapBound(x: int)
    ensures 0 <= Wrap(x) < MODULUS
  {
  }

  lemma StartProfile(t: seq<Event>, d: seq<Detail>, p: map<nat, Stats>)
    requires |t| == |d| && Counters(p)
    ensures Profiled(t, d, p, p, 0)
  {
  }

  lemma ProfileReturn(t: seq<Event>, d: seq<Detail>, p: map<nat, Stats>, p': map<nat, Stats>, k: nat)
    requires k < |t| == |d| && !t[k].call && Profiled(t, d, p, p', k)
    ensures Profiled(t, d, p, p', k + 1)
  {
    hide Wrap;
    var next := k + 1;
    forall fn: nat ensures ProfiledFn(t, d, p, p', next, fn) { assert ProfiledFn(t, d, p, p', k, fn); }
  }

  lemma ProfileCall(t: seq<Event>, d: seq<Detail>, p: map<nat, Stats>, b: map<nat, Stats>, p': map<nat, Stats>, k: nat)
    requires k < |t| == |d| && t[k].call && Profiled(t, d, p, b, k)
    requires var e := StatsIn(b, t[k].fn);
             p' == b[t[k].fn := Stats(Wrap(e.total + d[k].total), Wrap(e.self + d[k].total - d[k].child), Wrap(e.calls + 1))]
    ensures Profiled(t, d, p, p', k + 1)
  {
    hide Wrap;
    var next := k + 1;
    forall fn: nat ensures ProfiledFn(t, d, p, p', next, fn) {
      assert ProfiledFn(t, d, p, b, k, fn);
      if fn == t[k].fn {
        var s := StatsIn(p, fn);
        WrapSum(s.total + FnSum(t, d, TimeOf, fn, k), d[k].total);
        WrapSum(s.self + FnSum(t, d, SelfOf, fn, k), d[k].total - d[k].child);
        WrapSum(s.calls + FnSum(t, d, OneOf, fn, k), 1);
      }
    }
    assert forall fn :: fn in p' <==> fn in b || fn == t[k].fn;
  }

  // ------------------------------------------------- what the self times add up to

  /** The self times in the profile, over the functions below n. */
  ghost function SelfBelow(p: map<nat, Stats>, n: nat): int {
    if n == 0 then 0 else SelfBelow(p, n - 1) + StatsIn(p, n - 1).self
  }

  /** The self times of the calls to functions below n, among the first k records. */
  ghost function Prefix(t: seq<Event>, d: seq<Detail>, n: nat, k: nat): int
    requires k <= |t| == |d|
  {
    if n == 0 then 0 else Prefix(t, d, n - 1, k) + FnSum(t, d, SelfOf, n - 1, k)
  }

  lemma {:induction false} PrefixStep(t: seq<Event>, d: seq<Detail>, n: nat, k: nat)
    requires k < |t| == |d|
    ensures Prefix(t, d, n, k + 1) == Prefix(t, d, n, k) + if t[k].call && t[k].fn < n then SelfOf(d[k]) else 0
  {
    if n > 0 { PrefixStep(t, d, n - 1, k); }
  }

  lemma {:induction false} PrefixStart(t: seq<Event>, d: seq<Detail>, n: nat)
    requires |t| == |d|
    ensures Prefix(t, d, n, 0) == 0
  {
    if n > 0 { PrefixStart(t, d, n - 1); }
  }

  /** Summing by function sums over all calls. */
  lemma {:induction false} PrefixAll(t: seq<Event>, d: seq<Detail>, n: nat, k: nat)
    requires k <= |t| == |d| && forall i :: 0 <= i < k && t[i].call ==> t[i].fn < n
    ensures Prefix(t, d, n, k) == SumOf(t, d, TotalOf, k) - SumOf(t, d, ChildOf, k)
  {
    if k == 0 {
      PrefixStart(t, d, n);
    } else {
      PrefixAll(t, d, n, k - 1);
      PrefixStep(t, d, n, k - 1);
    }
  }

  lemma {:induction false} SelfGain(t: seq<Event>, d: seq<Detail>, p: map<nat, Stats>, p': map<nat, Stats>, n: nat)
    requires |t| == |d| && Profiled(t, d, p, p', |t|) && Counters(p)
    ensures (SelfBelow(p', n) - SelfBelow(p, n) - Prefix(t, d, n, |t|)) % MODULUS == 0
  {
    if n > 0 {
      SelfGain(t, d, p, p', n - 1);
      assert ProfiledFn(t, d, p, p', |t|, n - 1);
      var x, y := StatsIn(p, n - 1).self, FnSum(t, d, SelfOf, n - 1, |t|);
      WrapGain(x, y);
      AddMultiples(SelfBelow(p', n - 1) - SelfBelow(p, n - 1) - Prefix(t, d, n - 1, |t|), Wrap(x + y) - x - y);
    }
  }

  lemma WrapGain(x: nat, y: int)
    requires x < MODULUS
    ensures (Wrap(x + y) - x - y) % MODULUS == 0
  {
  }

  lemma AddMultiples(x: int, y: int)
    requires x % MODULUS == 0 && y % MODULUS == 0
    ensures (x + y) % MODULUS == 0
  {
  }

  /** The self times that an analyzed thread adds to the profile add up to the times of its
      outermost calls, even though the self time of a call that never returned is negative. */
  lemma SelfTimesAddUp(t: seq<Event>, d: seq<Detail>, p: map<nat, Stats>, p': map<nat, Stats>, n: nat)
    requires Analyzed(t, d) && Profiled(t, d, p, p', |t|) && Counters(p)
    requires forall i :: 0 <= i < |t| && t[i].call ==> t[i].fn < n
    ensures (SelfBelow(p', n) - SelfBelow(p, n) - SumOf(t, d, OuterOf, |t|)) % MODULUS == 0
  {
    hide Profiled, SelfBelow, Prefix, SumOf, Counters, ClosedBounded, CallersOk;
    SelfGain(t, d, p, p', n);
    PrefixAll(t, d, n, |t|);
  }

  /** When every call returned, no function has a negative self time to wrap. */
  lemma {:induction false} SelfNotNegative(t: seq<Event>, d: seq<Detail>, fn: nat, k: nat)
    requires k <= |t| == |d| && ClosedBounded(t, d, |t|) && forall i :: !Open(t, i, |t|)
    ensures 0 <= FnSum(t, d, SelfOf, fn, k)
  {
    hide Open;
    if k > 0 { SelfNotNegative(t, d, fn, k - 1); }
  }

  /** Call c was made directly by call i, and returned later than it was made. */
  ghost predicate TimedCall(t: seq<Event>, i: int, c: int) {
    0 <= c < |t| && t[c].call && Innermost(t, i, c) && exists j :: Matches(t, c, j) && t[c].tsc < t[j].tsc
  }

  /** A self time is negative, and its counter wraps, exactly for a call that never
      returned but made a call that took time and returned. */
  lemma WrapsExactly(t: seq<Event>, d: seq<Detail>, i: nat)
    requires Analyzed(t, d) && i < |t| && t[i].call
    ensures SelfOf(d[i]) < 0 <==> Open(t, i, |t|) && exists c :: TimedCall(t, i, c)
  {
    hide Open, Innermost, CallerOk, SumOf, ChildSum;
    ChildTime(t, d, i, |t|);
    if d[i].child > 0 {
      var c :| 0 <= c < |t| && t[c].call && d[c].caller == Some(i) && d[c].total > 0;
      Returned(t, d, c);
      CallerOf(t, d, i, c);
      assert TimedCall(t, i, c);
    }
    if c :| TimedCall(t, i, c) {
      CallerOf(t, d, i, c);
      var j :| Matches(t, c, j) && t[c].tsc < t[j].tsc;
    }
  }

  lemma {:induction false} ChildTime(t: seq<Event>, d: seq<Detail>, i: nat, k: nat)
    requires k <= |t| == |d|
    ensures ChildSum(t, d, i, k) > 0 <==> exists c :: 0 <= c < k && t[c].call && d[c].caller == Some(i) && d[c].total > 0
  {
    if k > 0 { ChildTime(t, d, i, k - 1); }
  }

  lemma CallerOf(t: seq<Event>, d: seq<Detail>, i: nat, c: nat)
    requires c < |t| == |d| && CallersOk(t, d, |t|)
    ensures d[c].caller == Some(i) <==> Innermost(t, i, c)
  {
    hide Since;
    assert CallerOk(t, d, c);
    if d[c].caller.Some? && Innermost(t, i, c) {
      OneInnermost(t, i, d[c].caller.value, c);
      OneInnermost(t, d[c].caller.value, i, c);
    }
  }

  lemma OneInnermost(t: seq<Event>, i: int, j: int, k: int)
    requires k <= |t| && Innermost(t, i, k) && Innermost(t, j, k)
    ensures i >= j
  {
    assert i < j ==> Since(t, i, j) >= 0;
    if i < j {
      BalanceSplit(t, i + 1, j, k);
      BalanceSplit(t, j, j + 1, k);
    }
  }

  /** A call that took time has returned. */
  lemma Returned(t: seq<Event>, d: seq<Detail>, c: nat)
    requires Analyzed(t, d) && c < |t| && t[c].call && d[c].total > 0
    ensures exists j :: Matches(t, c, j) && t[c].tsc < t[j].tsc
  {
    hide CallersOk, ClosedBounded, Open, Innermost;
    OpenOrReturned(t, c, |t|);
    var j :| Matches(t, c, j);
    assert d[c].total == t[j].tsc - t[c].tsc;
  }

  /** A call that makes a call and never returns: its self time wraps. */
  method OpenCallWraps(called: nat, returned: nat) returns (t: seq<Event>, d: seq<Detail>)
    requires called < returned
    ensures t == [Event(1, true, 0), Event(2, true, called), Event(2, false, returned)]
    ensures Analyzed(t, d) && SelfOf(d[0]) < 0 && Wrap(SelfOf(d[0])) != SelfOf(d[0])
  {
    hide Analyzed;
    t := [Event(1, true, 0), Event(2, true, called), Event(2, false, returned)];
    d := AnalyzeCalls(t);
    assert Since(t, 0, 1) == 0 && Since(t, 0, 2) == 1 && Since(t, 0, 3) == 0 && Since(t, 1, 2) == 0;
    assert Matches(t, 1, 2);
    assert TimedCall(t, 0, 1);
    WrapsExactly(t, d, 0);
  }
}
