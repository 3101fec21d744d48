/** Every caller of `call_once` gets through. */
module CallOnceProgress {
  import opened CallOnce
  import opened CallOnceSafety

  /** All steps but new calls, delays that return for no reason, and spurious wakeups. */
  predicate Productive(a: Action) {
    !a.Call? && !a.Skip? && !a.Spurious?
  }

  /** A step that the thread can take now, unless it is idle or asleep. */
  function NextAction(s: State, t: nat): Action
    requires t < |s.threads| && s.history != []
  {
    var me := s.threads[t];
    var newest := |s.history| - 1;
    match me.place
    case Outside => Call
    case FastLoad => LoadFast(newest)
    case DebugLoad => LoadDebug(newest)
    case FirstCas => if s.Last().value.Init? then WinFirst else LoseFirst(newest)
    case SpinLoad => LoadSpin(newest)
    case SpinCas(row) =>
      if row < |TRANSITIONS| && s.Last().value == TRANSITIONS[row].from then WinSpin else LoseSpin(newest)
    case Delay(v) => if s.Last().value == v then Sleep else Refuse
    case Asleep => Spurious
    case Invoke(n) => if n < s.fn then Write else Finish
    case Exchange => StoreDone
    case Wake => WakeAll
  }

  /** A thread inside a call can move, or sleeps while the runner can move. */
  lemma SomebodyMoves(s: State, r: int, t: nat)
    requires Inv(s, r) && t < |s.threads| && !s.threads[t].place.Outside?
    ensures exists u: nat, a: Action :: Productive(a) && Enabled(s, u, a)
  {
    assert ThreadOk(s, r, t);
    var u := if s.threads[t].place.Asleep? then r else t;
    assert 0 <= u < |s.threads| && ThreadOk(s, r, u);
    assert Productive(NextAction(s, u)) && Enabled(s, u, NextAction(s, u));
  }

  // ------------------------------------------------------------------------
  // A bound on the steps that are left
  // ------------------------------------------------------------------------

  function PlaceRank(p: Place, fn: nat): int {
    match p
    case Outside => 0
    case FastLoad => 8
    case DebugLoad => 7
    case FirstCas => 6
    case SpinLoad => 5
    case SpinCas(_) => 4
    case Delay(_) => 4
    case Asleep => 0
    case Invoke(n) => fn - n + 3
    case Exchange => 2
    case Wake => 1
  }

  function Rank(me: Thread, fn: nat): int {
    6 * (3 - me.seen) + PlaceRank(me.place, fn)
  }

  function Total(threads: seq<Thread>, fn: nat): int {
    if threads == [] then 0 else Rank(threads[0], fn) + Total(threads[1..], fn)
  }

  /** Set aside for running fn and for waking the sleepers. */
  ghost function Reserve(s: State, r: int): int
    requires s.history != []
  {
    (if |s.history| == 1 then s.fn + 4 else 0)
    + (if s.Last().value.Done? && !WakePending(s, r) then 0 else 6 * |s.threads|)
  }

  ghost function Measure(s: State, r: int): int
    requires s.history != []
  {
    Total(s.threads, s.fn) + Reserve(s, r)
  }

  lemma {:induction false} TotalUpdate(threads: seq<Thread>, fn: nat, t: nat, me: Thread)
    requires t < |threads|
    ensures Total(threads[t := me], fn) == Total(threads, fn) - Rank(threads[t], fn) + Rank(me, fn)
  {
    if t == 0 {
      assert threads[t := me][1..] == threads[1..];
    } else {
      assert threads[t := me][1..] == threads[1..][t - 1 := me];
      TotalUpdate(threads[1..], fn, t - 1, me);
    }
  }

  lemma {:induction false} TotalAwoken(threads: seq<Thread>, fn: nat)
    ensures Total(Awoken(threads), fn) <= Total(threads, fn) + 5 * |threads|
  {
    if threads != [] {
      assert Awoken(threads)[1..] == Awoken(threads[1..]);
      TotalAwoken(threads[1..], fn);
    }
  }

  lemma {:induction false} TotalNonNegative(threads: seq<Thread>, fn: nat)
    requires forall t :: 0 <= t < |threads| ==> Rank(threads[t], fn) >= 0
    ensures Total(threads, fn) >= 0
  {
    if threads != [] {
      TotalNonNegative(threads[1..], fn);
    }
  }

  lemma {:induction false} TotalBound(threads: seq<Thread>, fn: nat)
    requires forall t :: 0 <= t < |threads| ==> Rank(threads[t], fn) <= fn + 26
    ensures Total(threads, fn) <= |threads| * (fn + 26)
  {
    if threads != [] {
      TotalBound(threads[1..], fn);
      assert |threads| * (fn + 26) == |threads[1..]| * (fn + 26) + (fn + 26);
    }
  }

  /** The most productive steps that can be left. */
  function StepBound(threads: nat, fn: nat): nat {
    threads * (fn + 26) + 6 * threads + fn + 4
  }

  lemma MeasureBound(s: State, r: int)
    requires Inv(s, r)
    ensures Measure(s, r) <= StepBound(|s.threads|, s.fn)
  {
    TotalBound(s.threads, s.fn);
  }

  lemma {:induction false} RunKeepsThreads(s: State, trace: seq<Event>)
    requires IsRun(s, trace)
    ensures |Final(s, trace).threads| == |s.threads| && Final(s, trace).fn == s.fn
    decreases |trace|
  {
    if trace != [] {
      RunKeepsThreads(Apply(s, trace[0].t, trace[0].a), trace[1..]);
    }
  }

  lemma MeasureNonNegative(s: State, r: int)
    requires Inv(s, r)
    ensures Measure(s, r) >= 0
  {
    forall t | 0 <= t < |s.threads| ensures Rank(s.threads[t], s.fn) >= 0 {
      assert ThreadOk(s, r, t);
    }
    TotalNonNegative(s.threads, s.fn);
  }

  /** The rank of a thread that stores nothing goes down. */
  lemma RankDecreases(s: State, r: int, t: nat, a: Action)
    requires Inv(s, r) && Enabled(s, t, a) && Productive(a)
    requires !a.WinFirst? && !a.WinSpin? && !a.StoreDone? && !a.WakeAll?
    ensures Rank(Apply(s, t, a).threads[t], s.fn) < Rank(s.threads[t], s.fn)
  {
    MatchRows();
    hide Match;
    assert ThreadOk(s, r, t);
  }

  /** Such a step changes nothing but its own thread. */
  lemma QuietIsLocal(s: State, r: int, t: nat, a: Action)
    requires Inv(s, r) && Enabled(s, t, a)
    requires !a.WinFirst? && !a.WinSpin? && !a.StoreDone? && !a.WakeAll?
    ensures var s' := Apply(s, t, a);
      && s'.threads == s.threads[t := s'.threads[t]]
      && s'.history == s.history
      && s'.fn == s.fn
      && (s.threads[t].place.Wake? <==> s'.threads[t].place.Wake?)
  {
    MatchRows();
    hide Match;
  }

  lemma QuietDecreases(s: State, r: int, t: nat, a: Action)
    requires Inv(s, r) && Enabled(s, t, a) && Productive(a)
    requires !a.WinFirst? && !a.WinSpin? && !a.StoreDone? && !a.WakeAll?
    ensures Apply(s, t, a).history != [] && Measure(Apply(s, t, a), r) < Measure(s, r)
  {
    RankDecreases(s, r, t, a);
    QuietIsLocal(s, r, t, a);
    TotalUpdate(s.threads, s.fn, t, Apply(s, t, a).threads[t]);
    hide Apply, Inv, Rank, Total;
  }

  lemma StoreDecreases(s: State, r: int, t: nat, a: Action, r': int)
    requires Inv(s, r) && Enabled(s, t, a) && Inv(Apply(s, t, a), r')
    requires a.WinFirst? || a.WinSpin? || a.StoreDone?
    ensures Measure(Apply(s, t, a), r') < Measure(s, r)
  {
    assert ThreadOk(s, r, t);
    var s' := Apply(s, t, a);
    TotalUpdate(s.threads, s.fn, t, s'.threads[t]);
    assert s'.threads == s.threads[t := s'.threads[t]];
  }

  lemma WakeDecreases(s: State, r: int, t: nat, a: Action)
    requires Inv(s, r) && Enabled(s, t, a) && a.WakeAll?
    ensures Measure(Apply(s, t, a), r) < Measure(s, r)
  {
    assert ThreadOk(s, r, t);
    var s' := Apply(s, t, a);
    TotalAwoken(s.threads, s.fn);
    TotalUpdate(Awoken(s.threads), s.fn, t, s'.threads[t]);
    assert s'.threads == Awoken(s.threads)[t := s'.threads[t]];
  }

  lemma Decreases(s: State, r: int, t: nat, a: Action) returns (r': int)
    requires Inv(s, r) && Enabled(s, t, a) && Productive(a)
    ensures Inv(Apply(s, t, a), r') && Measure(Apply(s, t, a), r') < Measure(s, r)
  {
    r' := Step(s, r, t, a);
    if a.WinFirst? || a.WinSpin? || a.StoreDone? {
      StoreDecreases(s, r, t, a, r');
    } else {
      r' := r;
      if a.WakeAll? {
        WakeStep(s, r, t, a);
        WakeDecreases(s, r, t, a);
      } else {
        QuietStep(s, r, t, a);
        QuietDecreases(s, r, t, a);
      }
    }
  }

  ghost predicate AllProductive(trace: seq<Event>) {
    forall i :: 0 <= i < |trace| ==> Productive(trace[i].a)
  }

  lemma {:induction false} RunIsShort(s: State, r: int, trace: seq<Event>)
    requires Inv(s, r) && IsRun(s, trace) && AllProductive(trace)
    ensures |trace| <= Measure(s, r)
    decreases |trace|
  {
    MeasureNonNegative(s, r);
    if trace != [] {
      assert Productive(trace[0].a);
      var r' := Decreases(s, r, trace[0].t, trace[0].a);
      RunIsShort(Apply(s, trace[0].t, trace[0].a), r', trace[1..]);
    }
  }

  /** From whatever state the threads have got into, they take at most
      `StepBound` productive steps, and when none is left every call has
      returned: there is no deadlock, no lost wakeup and no livelock. If anybody
      called at all, fn has then run exactly once. */
  lemma EveryCallReturns(threads: nat, fn: nat, trace: seq<Event>, rest: seq<Event>)
    requires IsRun(Initial(threads, fn), trace)
    requires IsRun(Final(Initial(threads, fn), trace), rest) && AllProductive(rest)
    ensures |rest| <= StepBound(threads, fn)
    ensures var s := Final(Final(Initial(threads, fn), trace), rest);
      (forall t: nat, a: Action :: Productive(a) ==> !Enabled(s, t, a)) ==>
        forall t: nat :: t < |s.threads| ==> s.threads[t].place.Outside?
    ensures var s := Final(Final(Initial(threads, fn), trace), rest);
      (forall t: nat, a: Action :: Productive(a) ==> !Enabled(s, t, a)) ==>
        forall t: nat :: t < threads && Called(trace, t) ==> s.started == 1 && s.finished == 1
  {
    InitialInv(threads, fn);
    var r := RunInv(Initial(threads, fn), NOBODY, trace);
    var s := Final(Initial(threads, fn), trace);
    forall t: nat | t < threads && Called(trace, t)
      ensures var s' := Final(s, rest);
        t < |s'.threads| && (s'.threads[t].place.Outside? ==> s'.started == 1 && s'.finished == 1)
    {
      CalledIsServed(threads, fn, trace, rest, t);
    }
    RunKeepsThreads(Initial(threads, fn), trace);
    MeasureBound(s, r);
    RunIsShort(s, r, rest);
    StuckMeansDone(s, r, rest);
  }

  lemma CalledIsServed(threads: nat, fn: nat, trace: seq<Event>, rest: seq<Event>, t: nat)
    requires IsRun(Initial(threads, fn), trace) && IsRun(Final(Initial(threads, fn), trace), rest)
    requires t < threads && Called(trace, t)
    ensures var s := Final(Final(Initial(threads, fn), trace), rest);
      t < |s.threads| && (s.threads[t].place.Outside? ==> s.started == 1 && s.finished == 1)
  {
    InitialInv(threads, fn);
    var s := Final(Initial(threads, fn), trace);
    var r := RunInv(Initial(threads, fn), NOBODY, trace);
    OutsideAgain(Initial(threads, fn), NOBODY, trace, t, false);
    OutsideAgain(s, r, rest, t, true);
    var r' := RunInv(s, r, rest);
    assert ThreadOk(Final(s, rest), r', t);
  }

  lemma StuckMeansDone(s: State, r: int, rest: seq<Event>)
    requires Inv(s, r) && IsRun(s, rest)
    ensures var s' := Final(s, rest);
      (forall t: nat, a: Action :: Productive(a) ==> !Enabled(s', t, a)) ==>
        forall t: nat :: t < |s'.threads| ==> s'.threads[t].place.Outside?
  {
    var r' := RunInv(s, r, rest);
    var s' := Final(s, rest);
    forall t: nat | t < |s'.threads| && !s'.threads[t].place.Outside?
      ensures exists u: nat, a: Action :: Productive(a) && Enabled(s', u, a)
    {
      SomebodyMoves(s', r', t);
    }
  }
}
