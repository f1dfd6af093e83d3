/** kernel/device/iocp.h: one completion shared by the parts of a split request. */
module Completion {
  import opened Options

  /** An error number, 0 for success, and a size. */
  datatype Result = Result(err: nat, size: nat)

  predicate Succeeded(r: Result) { r.err == 0 }

  /** The fields of basic_iocp_t; armed says that the callback is set. */
  datatype Shared = Shared(armed: bool, doneCount: nat, expectCount: nat, resultCount: nat, result: Result)

  // --------------------------------------------------------- the locked sections

  /** invoke_once: the callback is taken, and is then called by whoever took it. */
  function Take(h: Shared, due: bool): (r: (Shared, bool))
    ensures r.0.result == h.result && r.0.resultCount == h.resultCount
  {
    if due && h.armed then (h.(armed := false), true) else (h, false)
  }

  function Expected(h: Shared, n: nat): (Shared, bool) {
    var h := h.(expectCount := n);
    Take(h, h.doneCount >= n)
  }

  function Invoked(h: Shared): (r: (Shared, bool))
    ensures r.0.result == h.result && r.0.resultCount == h.resultCount
  {
    var h := h.(doneCount := h.doneCount + 1);
    Take(h, h.doneCount >= h.expectCount && h.expectCount != 0)
  }

  class Iocp {
    var armed: bool
    var doneCount: nat
    var expectCount: nat
    var resultCount: nat
    var result: Result

    function View(): Shared
      reads this
    {
      Shared(armed, doneCount, expectCount, resultCount, result)
    }

    constructor (result: Result)
      ensures View() == Shared(true, 0, 0, 0, result)
    {
      armed, doneCount, expectCount, resultCount := true, 0, 0, 0;
      this.result := result;
    }

    /** set_expect; the result says whether the caller has the callback to call. */
    method SetExpect(n: nat) returns (call: bool)
      modifies this
      ensures (View(), call) == Expected(old(View()), n)
    {
      expectCount := n;
      call := false;
      if doneCount >= n { call := InvokeOnce(); }
    }

    method Invoke() returns (call: bool)
      modifies this
      ensures (View(), call) == Invoked(old(View()))
    {
      doneCount := doneCount + 1;
      call := false;
      if doneCount >= expectCount && expectCount != 0 { call := InvokeOnce(); }
    }

    method InvokeOnce() returns (call: bool)
      modifies this`armed
      ensures (View(), call) == Take(old(View()), true)
    {
      call := armed;
      if armed { armed := false; }
    }

    /** set_result, when no other call of it is under way: the first result is kept, and
        any failure after it. */
    method SetResult(sub: Result)
      modifies this`resultCount, this`result
      ensures resultCount == old(resultCount) + 1
      ensures result == if old(resultCount) == 0 || !Succeeded(sub) then sub else old(result)
    {
      var first := resultCount == 0;
      resultCount := resultCount + 1;
      if first || !Succeeded(sub) { result := sub; }
    }

    /** reset: all but the result. */
    method Reset()
      modifies this
      ensures View() == Shared(true, 0, 0, 0, old(result))
    {
      armed, doneCount, expectCount, resultCount := true, 0, 0, 0;
    }
  }

  // ------------------------------------------------------------------ interleaving

  /** How far a part of the request is. set_result takes no lock: it loads the count, stores
      it incremented and stores the result, and others can run in between. */
  datatype Pc = Ready | Loaded(seen: nat) | Counted(seen: nat) | Recorded | Calling | Finished

  /** fired: the results the callback was called with. done, broken: the flag of a blocking
      completion, and whether its handler ever found it set. */
  datatype State = State(h: Shared, parts: seq<Pc>, issuer: Pc, fired: seq<Result>, done: bool, broken: bool,
                         waiter: Option<Result>)

  datatype Actor = Part(i: nat) | Issuer | Waiter

  /** The callback, here the handler of a blocking completion. */
  function Called(s: State): State {
    s.(fired := s.fired + [s.h.result], broken := s.broken || s.done, done := true)
  }

  function PartStep(subs: seq<Result>, s: State, i: nat): State
    requires i < |s.parts| == |subs|
  {
    match s.parts[i]
    case Ready => s.(parts := s.parts[i := Loaded(s.h.resultCount)])
    case Loaded(c) => s.(h := s.h.(resultCount := c + 1), parts := s.parts[i := Counted(c)])
    case Counted(c) =>
      s.(h := if c == 0 || !Succeeded(subs[i]) then s.h.(result := subs[i]) else s.h, parts := s.parts[i := Recorded])
    case Recorded =>
      var (h, call) := Invoked(s.h);
      s.(h := h, parts := s.parts[i := if call then Calling else Finished])
    case Calling => Called(s).(parts := s.parts[i := Finished])
    case Finished => s
  }

  function IssuerStep(subs: seq<Result>, s: State): State {
    match s.issuer
    case Ready =>
      var (h, call) := Expected(s.h, |subs|);
      s.(h := h, issuer := if call then Calling else Finished)
    case Calling => Called(s).(issuer := Finished)
    case _ => s
  }

  /** One step of one party; a waiter that is not woken yet does nothing. */
  function Step(subs: seq<Result>, s: State, a: Actor): State
    requires |s.parts| == |subs|
  {
    match a
    case Part(i) => if i < |subs| then PartStep(subs, s, i) else s
    case Issuer => IssuerStep(subs, s)
    case Waiter => if s.done && s.waiter.None? then s.(waiter := Some(s.h.result)) else s
  }

  /** What an interleaving of steps leads to. */
  function Run(subs: seq<Result>, s: State, schedule: seq<Actor>): (r: State)
    requires |s.parts| == |subs|
    ensures |r.parts| == |subs|
    decreases |schedule|
  {
    if schedule == [] then s else Step(subs, Run(subs, s, schedule[..|schedule| - 1]), schedule[|schedule| - 1])
  }

  /** After reset; whatever the last round left as result is still there. */
  function Start(subs: seq<Result>, stale: Result): State {
    State(Shared(true, 0, 0, 0, stale), seq(|subs|, _ => Ready), Ready, [], false, false, None)
  }

  // ------------------------------------------------------------------ what it keeps

  function Count(parts: seq<Pc>, p: Pc -> bool): nat {
    if parts == [] then 0 else Count(parts[..|parts| - 1], p) + if p(parts[|parts| - 1]) then 1 else 0
  }

  lemma {:induction false} CountUpdate(parts: seq<Pc>, p: Pc -> bool, i: nat, x: Pc)
    requires i < |parts|
    ensures Count(parts[i := x], p) == Count(parts, p) - (if p(parts[i]) then 1 else 0) + if p(x) then 1 else 0
  {
    var last := |parts| - 1;
    if i < last {
      assert parts[i := x][..last] == parts[..last][i := x];
      CountUpdate(parts[..last], p, i, x);
    } else {
      assert parts[i := x][..last] == parts[..last];
    }
  }

  lemma {:induction false} CountAll(parts: seq<Pc>, p: Pc -> bool)
    ensures Count(parts, p) <= |parts|
    ensures Count(parts, p) == |parts| <==> forall i :: 0 <= i < |parts| ==> p(parts[i])
    ensures Count(parts, p) == 0 <==> forall i :: 0 <= i < |parts| ==> !p(parts[i])
  {
    if parts != [] { CountAll(parts[..|parts| - 1], p); }
  }

  predicate IsInvoked(x: Pc) { x.Calling? || x.Finished? }
  predicate IsCalling(x: Pc) { x.Calling? }
  predicate IsRecorded(x: Pc) { x.Recorded? || IsInvoked(x) }
  predicate InResult(x: Pc) { x.Loaded? || x.Counted? }

  /** Counting and firing. */
  ghost predicate FiringOk(subs: seq<Result>, s: State) {
    && |s.parts| == |subs| && |subs| > 0
    && (s.issuer.Ready? || IsInvoked(s.issuer))
    && s.h.doneCount == Count(s.parts, IsInvoked)
    && s.h.expectCount == (if s.issuer.Ready? then 0 else |subs|)
    && (s.h.armed <==> s.issuer.Ready? || s.h.doneCount < |subs|)
    && Count(s.parts, IsCalling) + (if s.issuer.Calling? then 1 else 0) + |s.fired| == (if s.h.armed then 0 else 1)
    && (s.done <==> s.fired != []) && !s.broken
  }

  /** The result is that of a part, once one is recorded; until then the part that came
      first is on its way. */
  ghost predicate ResultOk(subs: seq<Result>, s: State) {
    && |s.parts| == |subs|
    && ((forall i :: 0 <= i < |subs| ==> s.parts[i] == Ready) ==> s.h.resultCount == 0)
    && (|| (forall i :: 0 <= i < |subs| ==> s.parts[i] == Ready)
        || (exists i :: 0 <= i < |subs| && (s.parts[i] == Loaded(0) || s.parts[i] == Counted(0)))
        || (exists i :: 0 <= i < |subs| && IsRecorded(s.parts[i]) && s.h.result == subs[i]))
  }

  /** What was reported is the result, which is final. */
  ghost predicate ReportOk(s: State) {
    && (s.fired != [] ==> s.fired[0] == s.h.result)
    && (s.waiter.Some? ==> s.done && s.waiter.value == s.h.result)
  }

  ghost predicate Good(subs: seq<Result>, s: State) {
    FiringOk(subs, s) && ResultOk(subs, s) && ReportOk(s)
  }

  lemma FiringStep(subs: seq<Result>, s: State, a: Actor)
    requires FiringOk(subs, s)
    ensures FiringOk(subs, Step(subs, s, a))
  {
    hide Count;
    CountAll(s.parts, IsInvoked);
    if a.Part? && a.i < |subs| {
      var x := Step(subs, s, a).parts[a.i];
      CountUpdate(s.parts, IsInvoked, a.i, x);
      CountUpdate(s.parts, IsCalling, a.i, x);
      if s.parts[a.i].Recorded? {
        assert Count(s.parts, IsInvoked) != |subs|;
      } else if s.parts[a.i].Calling? {
        CountAll(s.parts, IsCalling);
      } else if s.parts[a.i].Finished? {
        assert s.parts[a.i := x] == s.parts;
      }
    }
  }

  /** What one step does to the part that makes it, and to the result. */
  lemma PartEffect(subs: seq<Result>, s: State, i: nat)
    requires i < |subs| == |s.parts|
    ensures
      var s' := PartStep(subs, s, i);
      && |s'.parts| == |subs| && s'.parts[i] != Ready && (IsRecorded(s.parts[i]) ==> IsRecorded(s'.parts[i]))
      && (forall j :: 0 <= j < |subs| && j != i ==> s'.parts[j] == s.parts[j])
      && (s'.h.result == s.h.result || (s'.h.result == subs[i] && IsRecorded(s'.parts[i])))
      && (s.parts[i] == Loaded(0) ==> s'.parts[i] == Counted(0))
      && (s.parts[i] == Counted(0) ==> IsRecorded(s'.parts[i]) && s'.h.result == subs[i])
      && (s.parts[i] == Ready && s.h.resultCount == 0 ==> s'.parts[i] == Loaded(0))
  {
  }

  lemma ResultStep(subs: seq<Result>, s: State, a: Actor)
    requires ResultOk(subs, s)
    ensures ResultOk(subs, Step(subs, s, a))
  {
    hide Invoked, Take, PartStep, IsRecorded;
    var s' := Step(subs, s, a);
    if a.Part? && a.i < |subs| {
      PartEffect(subs, s, a.i);
      if exists j :: 0 <= j < |subs| && IsRecorded(s.parts[j]) && s.h.result == subs[j] {
        var j :| 0 <= j < |subs| && IsRecorded(s.parts[j]) && s.h.result == subs[j];
        assert IsRecorded(s'.parts[j]);
        assert s'.h.result == subs[j] || (s'.h.result == subs[a.i] && IsRecorded(s'.parts[a.i]));
      } else if exists j :: 0 <= j < |subs| && (s.parts[j] == Loaded(0) || s.parts[j] == Counted(0)) {
        var j :| 0 <= j < |subs| && (s.parts[j] == Loaded(0) || s.parts[j] == Counted(0));
        assert s'.parts[j] == Loaded(0) || s'.parts[j] == Counted(0) || (IsRecorded(s'.parts[j]) && s'.h.result == subs[j]);
      }
    }
  }

  /** Once the callback was called, every part is through with its result. */
  lemma AllInvoked(subs: seq<Result>, s: State)
    requires FiringOk(subs, s) && !s.h.armed
    ensures !s.issuer.Ready? && forall i :: 0 <= i < |subs| ==> IsInvoked(s.parts[i])
  {
    CountAll(s.parts, IsInvoked);
  }

  lemma ReportStep(subs: seq<Result>, s: State, a: Actor)
    requires FiringOk(subs, s) && ReportOk(s)
    ensures ReportOk(Step(subs, s, a))
  {
    hide Count;
    if !s.h.armed { AllInvoked(subs, s); }
    CountAll(s.parts, IsCalling);
  }

  lemma GoodStart(subs: seq<Result>, stale: Result)
    requires subs != []
    ensures Good(subs, Start(subs, stale))
  {
    CountAll(Start(subs, stale).parts, IsInvoked);
    CountAll(Start(subs, stale).parts, IsCalling);
  }

  /** Whatever the interleaving, every state on the way is good. */
  lemma {:induction false} Safe(subs: seq<Result>, stale: Result, schedule: seq<Actor>)
    requires subs != []
    ensures Good(subs, Run(subs, Start(subs, stale), schedule))
  {
    hide FiringOk, ResultOk, ReportOk, Step;
    if schedule == [] {
      GoodStart(subs, stale);
    } else {
      var before := schedule[..|schedule| - 1];
      Safe(subs, stale, before);
      var s := Run(subs, Start(subs, stale), before);
      FiringStep(subs, s, schedule[|schedule| - 1]);
      ResultStep(subs, s, schedule[|schedule| - 1]);
      ReportStep(subs, s, schedule[|schedule| - 1]);
    }
  }

  /** The callback is called at most once, only after set_expect and all invokes, with the
      result of one of the parts; the handler never finds its flag set, and a waiter returns
      only after the call, with the same result. */
  lemma FiresOnceAtTheEnd(subs: seq<Result>, stale: Result, schedule: seq<Actor>)
    requires subs != []
    ensures var s := Run(subs, Start(subs, stale), schedule);
            && |s.fired| <= 1 && !s.broken
            && (s.fired != [] ==> !s.issuer.Ready? && forall i :: 0 <= i < |subs| ==> IsInvoked(s.parts[i]))
            && (s.fired != [] ==> s.fired[0] in subs)
            && (s.waiter.Some? ==> s.fired == [s.waiter.value])
  {
    Safe(subs, stale, schedule);
    var s := Run(subs, Start(subs, stale), schedule);
    hide Run, Count;
    if s.fired != [] {
      AllInvoked(subs, s);
      RecordedResult(subs, s);
    }
  }

  lemma RecordedResult(subs: seq<Result>, s: State)
    requires ResultOk(subs, s) && subs != [] && forall i :: 0 <= i < |subs| ==> IsInvoked(s.parts[i])
    ensures s.h.result in subs
  {
    assert IsInvoked(s.parts[0]);
    assert exists i :: 0 <= i < |subs| && IsRecorded(s.parts[i]) && s.h.result == subs[i];
  }

  // ------------------------------------------------------------------- completion

  /** How many steps a party still has to make, at most. */
  function Left(x: Pc): nat {
    match x
    case Ready => 5
    case Loaded(_) => 4
    case Counted(_) => 3
    case Recorded => 2
    case Calling => 1
    case Finished => 0
  }

  function Turns(schedule: seq<Actor>, a: Actor): nat {
    if schedule == [] then 0
    else Turns(schedule[..|schedule| - 1], a) + if schedule[|schedule| - 1] == a then 1 else 0
  }

  lemma {:induction false} PartProgress(subs: seq<Result>, s: State, schedule: seq<Actor>, i: nat)
    requires i < |subs| == |s.parts|
    ensures Left(Run(subs, s, schedule).parts[i]) == 0 || Left(Run(subs, s, schedule).parts[i]) + Turns(schedule, Part(i)) <= 5
  {
    if schedule != [] {
      var before := schedule[..|schedule| - 1];
      PartProgress(subs, s, before, i);
      PartMoves(subs, Run(subs, s, before), schedule[|schedule| - 1], i);
    }
  }

  lemma PartMoves(subs: seq<Result>, s: State, a: Actor, i: nat)
    requires i < |subs| == |s.parts|
    ensures Left(Step(subs, s, a).parts[i]) <= Left(s.parts[i])
    ensures a == Part(i) && Left(s.parts[i]) > 0 ==> Left(Step(subs, s, a).parts[i]) < Left(s.parts[i])
  {
  }

  lemma {:induction false} IssuerProgress(subs: seq<Result>, stale: Result, schedule: seq<Actor>)
    requires subs != []
    ensures var s := Run(subs, Start(subs, stale), schedule);
            && (Turns(schedule, Issuer) >= 1 ==> !s.issuer.Ready?) && (Turns(schedule, Issuer) >= 2 ==> s.issuer.Finished?)
  {
    if schedule != [] {
      var before := schedule[..|schedule| - 1];
      IssuerProgress(subs, stale, before);
      Safe(subs, stale, before);
    }
  }

  /** When set_expect and every part get their turns, in whatever order, the callback is
      called exactly once. */
  lemma ExactlyOnce(subs: seq<Result>, stale: Result, schedule: seq<Actor>)
    requires subs != [] && Turns(schedule, Issuer) >= 2
    requires forall i: nat :: i < |subs| ==> Turns(schedule, Part(i)) >= 5
    ensures |Run(subs, Start(subs, stale), schedule).fired| == 1
  {
    hide Run, Turns, Step, Count;
    Safe(subs, stale, schedule);
    IssuerProgress(subs, stale, schedule);
    var s := Run(subs, Start(subs, stale), schedule);
    forall i: nat | i < |subs| ensures s.parts[i].Finished? { PartProgress(subs, Start(subs, stale), schedule, i); }
    CountAll(s.parts, IsInvoked);
    CountAll(s.parts, IsCalling);
  }

  // ------------------------------------------------------------ failures are kept

  ghost predicate SomeFailed(subs: seq<Result>) { exists i :: 0 <= i < |subs| && !Succeeded(subs[i]) }

  ghost predicate FailedSoFar(subs: seq<Result>, s: State)
    requires |s.parts| == |subs|
  {
    exists i :: 0 <= i < |subs| && IsRecorded(s.parts[i]) && !Succeeded(subs[i])
  }

  /** At most one part is in set_result. */
  ghost predicate Alone(s: State) {
    forall i, j :: 0 <= i < j < |s.parts| ==> !(InResult(s.parts[i]) && InResult(s.parts[j]))
  }

  /** The calls of set_result never overlap. */
  ghost predicate Serial(subs: seq<Result>, s: State, schedule: seq<Actor>)
    requires |s.parts| == |subs|
  {
    Alone(Run(subs, s, schedule)) && (schedule != [] ==> Serial(subs, s, schedule[..|schedule| - 1]))
  }

  /** The count is that of the recorded parts, and the part in set_result saw it. */
  ghost predicate SeenOk(parts: seq<Pc>, count: nat) {
    && (forall i :: 0 <= i < |parts| && InResult(parts[i]) ==> parts[i].seen == Count(parts, IsRecorded))
    && ((forall i :: 0 <= i < |parts| ==> !parts[i].Counted?) ==> count == Count(parts, IsRecorded))
    && (forall i :: 0 <= i < |parts| && parts[i].Counted? ==> count == Count(parts, IsRecorded) + 1)
  }

  ghost predicate KeepsFailures(subs: seq<Result>, s: State) {
    && |s.parts| == |subs| && SeenOk(s.parts, s.h.resultCount)
    && (Count(s.parts, IsRecorded) > 0 ==> (!Succeeded(s.h.result) <==> FailedSoFar(subs, s)))
  }

  ghost predicate OthersOut(parts: seq<Pc>, i: nat) {
    forall j :: 0 <= j < |parts| && j != i ==> !InResult(parts[j])
  }

  lemma SeenLoad(parts: seq<Pc>, count: nat, i: nat)
    requires i < |parts| && SeenOk(parts, count) && parts[i].Ready? && OthersOut(parts, i)
    ensures SeenOk(parts[i := Loaded(count)], count)
  {
    hide Count;
    CountUpdate(parts, IsRecorded, i, Loaded(count));
  }

  lemma SeenCount(parts: seq<Pc>, count: nat, i: nat)
    requires i < |parts| && SeenOk(parts, count) && parts[i].Loaded? && OthersOut(parts, i)
    ensures SeenOk(parts[i := Counted(parts[i].seen)], parts[i].seen + 1)
  {
    hide Count;
    CountUpdate(parts, IsRecorded, i, Counted(parts[i].seen));
    assert parts[i := Counted(parts[i].seen)][i].Counted?;
  }

  lemma SeenRecord(parts: seq<Pc>, count: nat, i: nat)
    requires i < |parts| && SeenOk(parts, count) && parts[i].Counted? && OthersOut(parts, i)
    ensures SeenOk(parts[i := Recorded], count)
  {
    hide Count;
    CountUpdate(parts, IsRecorded, i, Recorded);
  }

  lemma SeenLater(parts: seq<Pc>, count: nat, i: nat, x: Pc)
    requires i < |parts| && SeenOk(parts, count) && IsRecorded(parts[i]) && IsRecorded(x)
    ensures SeenOk(parts[i := x], count) && Count(parts[i := x], IsRecorded) == Count(parts, IsRecorded)
  {
    hide Count;
    CountUpdate(parts, IsRecorded, i, x);
    var parts' := parts[i := x];
    if forall j :: 0 <= j < |parts'| ==> !parts'[j].Counted? {
      forall j | 0 <= j < |parts| ensures !parts[j].Counted? { assert j != i ==> parts'[j] == parts[j]; }
    }
  }

  lemma SeenStep(subs: seq<Result>, s: State, i: nat)
    requires i < |subs| == |s.parts| && SeenOk(s.parts, s.h.resultCount) && Alone(s) && Alone(PartStep(subs, s, i))
    ensures SeenOk(PartStep(subs, s, i).parts, PartStep(subs, s, i).h.resultCount)
  {
    hide SeenOk, Count;
    var s' := PartStep(subs, s, i);
    if InResult(s.parts[i]) { OnlyOne(s, i); }
    match s.parts[i]
    case Ready =>
      OnlyOne(s', i);
      forall j | 0 <= j < |subs| && j != i ensures !InResult(s.parts[j]) { assert s'.parts[j] == s.parts[j]; }
      SeenLoad(s.parts, s.h.resultCount, i);
    case Loaded(_) => SeenCount(s.parts, s.h.resultCount, i);
    case Counted(_) => SeenRecord(s.parts, s.h.resultCount, i);
    case _ => SeenLater(s.parts, s.h.resultCount, i, s'.parts[i]);
  }

  lemma KeepsStep(subs: seq<Result>, s: State, a: Actor)
    requires KeepsFailures(subs, s) && Alone(s) && Alone(Step(subs, s, a))
    ensures KeepsFailures(subs, Step(subs, s, a))
  {
    hide Count, SeenOk, Alone, Invoked, Take, FailedSoFar;
    var s' := Step(subs, s, a);
    if a.Part? && a.i < |subs| {
      SeenStep(subs, s, a.i);
      CountUpdate(s.parts, IsRecorded, a.i, s'.parts[a.i]);
      if Count(s.parts, IsRecorded) == 0 { NoneFailed(subs, s); }
      SeenNow(s.parts, s.h.resultCount, a.i);
      FailedStep(subs, s, a.i);
    } else {
      SameFailed(subs, s, s');
    }
  }

  lemma NoneFailed(subs: seq<Result>, s: State)
    requires |s.parts| == |subs| && Count(s.parts, IsRecorded) == 0
    ensures !FailedSoFar(subs, s)
  {
    CountAll(s.parts, IsRecorded);
  }

  lemma SeenNow(parts: seq<Pc>, count: nat, i: nat)
    requires i < |parts| && SeenOk(parts, count)
    ensures InResult(parts[i]) ==> parts[i].seen == Count(parts, IsRecorded)
  {
  }

  lemma SameFailed(subs: seq<Result>, s: State, s': State)
    requires |s.parts| == |subs| && s'.parts == s.parts
    ensures FailedSoFar(subs, s') <==> FailedSoFar(subs, s)
  {
  }

  lemma OnlyOne(s: State, i: nat)
    requires Alone(s) && i < |s.parts| && InResult(s.parts[i])
    ensures OthersOut(s.parts, i)
  {
  }

  lemma FailedStep(subs: seq<Result>, s: State, i: nat)
    requires i < |subs| == |s.parts|
    ensures FailedSoFar(subs, PartStep(subs, s, i)) <==> FailedSoFar(subs, s) || (s.parts[i].Counted? && !Succeeded(subs[i]))
  {
  }

  lemma {:induction false} KeepsRun(subs: seq<Result>, stale: Result, schedule: seq<Actor>)
    requires Serial(subs, Start(subs, stale), schedule)
    ensures KeepsFailures(subs, Run(subs, Start(subs, stale), schedule))
  {
    hide KeepsFailures, Step, Alone;
    if schedule == [] {
      KeepsStart(subs, stale);
    } else {
      KeepsRun(subs, stale, schedule[..|schedule| - 1]);
      KeepsStep(subs, Run(subs, Start(subs, stale), schedule[..|schedule| - 1]), schedule[|schedule| - 1]);
    }
  }

  lemma KeepsStart(subs: seq<Result>, stale: Result)
    ensures KeepsFailures(subs, Start(subs, stale))
  {
    CountAll(Start(subs, stale).parts, IsRecorded);
  }

  /** When calls of set_result do not overlap, the status is a failure exactly when some
      part failed, whatever the result was before the reset. */
  lemma FailsIffSomeFailed(subs: seq<Result>, stale: Result, schedule: seq<Actor>)
    requires subs != [] && Serial(subs, Start(subs, stale), schedule)
    ensures StatusRight(subs, Run(subs, Start(subs, stale), schedule))
  {
    hide Run, Serial, Count;
    Safe(subs, stale, schedule);
    KeepsRun(subs, stale, schedule);
    var s := Run(subs, Start(subs, stale), schedule);
    if s.fired != [] {
      AllInvoked(subs, s);
      CountAll(s.parts, IsRecorded);
    }
  }

  /** Part i has loaded the count before anyone; the other parts up to k are recorded. */
  ghost predicate Waits(subs: seq<Result>, s: State, i: nat, k: nat) {
    && |s.parts| == |subs| && i < |subs| && s.parts[i] == Loaded(0)
    && (forall x :: 0 <= x < |subs| && x != i ==> s.parts[x] == if x < k then Recorded else Ready)
    && s.h.armed && s.h.doneCount == s.h.expectCount == 0 && s.issuer.Ready? && s.fired == []
  }

  lemma {:induction false} OthersRecord(subs: seq<Result>, s0: State, q: seq<Actor>, s: State, i: nat, k: nat)
    returns (q': seq<Actor>, s': State)
    requires |s0.parts| == |subs| && k <= |subs| && Run(subs, s0, q) == s && Waits(subs, s, i, k)
    ensures Run(subs, s0, q') == s' && Waits(subs, s', i, |subs|)
    decreases |subs| - k
  {
    hide Run;
    q', s' := q, s;
    if k < |subs| {
      if k != i {
        s' := RunOne(subs, s0, q', s', Part(k));
        q' := q' + [Part(k)];
        s' := RunOne(subs, s0, q', s', Part(k));
        q' := q' + [Part(k)];
        s' := RunOne(subs, s0, q', s', Part(k));
        q' := q' + [Part(k)];
      }
      q', s' := OthersRecord(subs, s0, q', s', i, k + 1);
    }
  }

  /** The parts up to k have invoked, and the result is r. */
  ghost predicate Invoking(subs: seq<Result>, s: State, r: Result, k: nat) {
    && |s.parts| == |subs| && (forall x :: 0 <= x < |subs| ==> s.parts[x] == if x < k then Finished else Recorded)
    && s.h.armed && s.h.doneCount == k && s.h.expectCount == 0 && s.issuer.Ready? && s.fired == [] && s.h.result == r
  }

  lemma {:induction false} AllInvoke(subs: seq<Result>, s0: State, q: seq<Actor>, s: State, r: Result, k: nat)
    returns (q': seq<Actor>, s': State)
    requires |s0.parts| == |subs| && k <= |subs| && Run(subs, s0, q) == s && Invoking(subs, s, r, k)
    ensures Run(subs, s0, q') == s' && Invoking(subs, s', r, |subs|)
    decreases |subs| - k
  {
    hide Run;
    q', s' := q, s;
    if k < |subs| {
      s' := RunOne(subs, s0, q', s', Part(k));
      q', s' := AllInvoke(subs, s0, q' + [Part(k)], s', r, k + 1);
    }
  }

  /** Overlapping calls can lose every failure: whatever the results are, a part that came
      first and succeeded can store its result last. */
  lemma LostFailure(subs: seq<Result>, stale: Result, i: nat)
    requires i < |subs|
    ensures exists schedule :: Run(subs, Start(subs, stale), schedule).fired == [subs[i]]
  {
    var s0 := Start(subs, stale);
    assert Run(subs, s0, []) == s0;
    hide *;
    FirstLoads(subs, stale, i);
    var s1 := RunOne(subs, s0, [], s0, Part(i));
    var q2, s2 := OthersRecord(subs, s0, [] + [Part(i)], s1, i, 0);
    var q := LostAfter(subs, s0, q2, s2, i);
  }

  lemma LostAfter(subs: seq<Result>, s0: State, q: seq<Actor>, s: State, i: nat) returns (q': seq<Actor>)
    requires |s0.parts| == |subs| && Run(subs, s0, q) == s && Waits(subs, s, i, |subs|)
    ensures i < |subs| && Run(subs, s0, q').fired == [subs[i]]
  {
    LastStores(subs, s, i);
    hide *;
    var s1 := RunOne(subs, s0, q, s, Part(i));
    var q1 := q + [Part(i)];
    var s2 := RunOne(subs, s0, q1, s1, Part(i));
    var q3, s3 := AllInvoke(subs, s0, q1 + [Part(i)], s2, subs[i], 0);
    ThenFires(subs, s3, subs[i]);
    var s4 := RunOne(subs, s0, q3, s3, Issuer);
    var q4 := q3 + [Issuer];
    var s5 := RunOne(subs, s0, q4, s4, Issuer);
    q' := q4 + [Issuer];
  }

  lemma FirstLoads(subs: seq<Result>, stale: Result, i: nat)
    requires i < |subs|
    ensures Waits(subs, Step(subs, Start(subs, stale), Part(i)), i, 0)
  {
  }

  lemma LastStores(subs: seq<Result>, s: State, i: nat)
    requires Waits(subs, s, i, |subs|)
    ensures i < |subs| == |s.parts| && |Step(subs, s, Part(i)).parts| == |subs|
    ensures Invoking(subs, Step(subs, Step(subs, s, Part(i)), Part(i)), subs[i], 0)
  {
  }

  lemma ThenFires(subs: seq<Result>, s: State, r: Result)
    requires Invoking(subs, s, r, |subs|)
    ensures |Step(subs, s, Issuer).parts| == |subs| && Step(subs, Step(subs, s, Issuer), Issuer).fired == [r]
  {
  }

  /** So the status is right under every interleaving exactly when the parts all succeed or
      all fail. */
  lemma AlwaysRightIff(subs: seq<Result>, stale: Result)
    requires subs != []
    ensures (forall schedule :: StatusRight(subs, Run(subs, Start(subs, stale), schedule))) <==>
            (forall i, j :: 0 <= i < |subs| && 0 <= j < |subs| ==> (Succeeded(subs[i]) <==> Succeeded(subs[j])))
  {
    hide Run;
    if i, j :| 0 <= i < |subs| && 0 <= j < |subs| && Succeeded(subs[i]) && !Succeeded(subs[j]) {
      LostFailure(subs, stale, i);
      var schedule :| Run(subs, Start(subs, stale), schedule).fired == [subs[i]];
      assert !StatusRight(subs, Run(subs, Start(subs, stale), schedule));
    } else {
      forall schedule ensures StatusRight(subs, Run(subs, Start(subs, stale), schedule)) {
        FiresOnceAtTheEnd(subs, stale, schedule);
      }
    }
  }

  ghost predicate StatusRight(subs: seq<Result>, s: State) {
    s.fired != [] ==> (!Succeeded(s.fired[0]) <==> SomeFailed(subs))
  }

  lemma RunOne(subs: seq<Result>, s0: State, q: seq<Actor>, s: State, a: Actor) returns (s': State)
    requires |s0.parts| == |subs| && Run(subs, s0, q) == s
    ensures |s.parts| == |subs| && s' == Step(subs, s, a) == Run(subs, s0, q + [a])
  {
    assert (q + [a])[..|q|] == q;
    s' := Step(subs, s, a);
  }

  /** A request without parts reports what the last one left. */
  lemma NoParts(stale: Result)
    ensures Run([], Start([], stale), [Issuer, Issuer]).fired == [stale]
  {
  }
}
