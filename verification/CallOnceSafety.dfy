/** What every interleaving of `call_once` keeps. */
module CallOnceSafety {
  import opened CallOnce

  ghost predicate SeesAll(view: set<nat>, n: nat) {
    forall w :: 0 <= w < n ==> w in view
  }

  /** The word goes Init, Running, perhaps Waiter, and then Done. */
  ghost predicate Shape(h: seq<Message>) {
    && 1 <= |h| <= 4
    && h[0].value.Init?
    && (|h| > 1 ==> h[1].value.Running?)
    && (|h| == 3 ==> h[2].value.Waiter? || h[2].value.Done?)
    && (|h| == 4 ==> h[2].value.Waiter? && h[3].value.Done?)
  }

  /** Nobody is the runner before the first exchange succeeds. */
  const NOBODY := -1

  ghost predicate RunnerOk(s: State, r: int)
    requires Shape(s.history)
  {
    if |s.history| == 1 then
      r == NOBODY && s.started == 0 && s.finished == 0
    else
      && 0 <= r < |s.threads|
      && s.started == 1
      && var me := s.threads[r];
         if s.Last().value.Done? then
           && s.finished == 1
           && !me.place.Invoke?
           && !me.place.Exchange?
           && (me.place.Wake? ==> |s.history| == 4)
           && SeesAll(s.Last().view, s.fn)
           && SeesAll(me.view, s.fn)
         else if me.place.Invoke? then
           s.finished == 0 && me.place.next <= s.fn && SeesAll(me.view, me.place.next)
         else
           me.place.Exchange? && s.finished == 1 && SeesAll(me.view, s.fn)
  }

  ghost predicate ThreadOk(s: State, r: int, t: nat)
    requires Shape(s.history) && t < |s.threads|
  {
    var me := s.threads[t];
    && me.seen < |s.history|
    && (me.place.Invoke? || me.place.Exchange? || me.place.Wake? ==> t == r)
    && (me.place.SpinCas? ==> me.place.row < 2 && s.history[me.seen].value == TRANSITIONS[me.place.row].from)
    && (me.place.Delay? ==> me.place.value.Waiter? && s.history[me.seen].value.Waiter?)
    && (me.place.Asleep? ==> s.history[me.seen].value.Waiter? && (s.Last().value.Waiter? || WakePending(s, r)))
    && (me.returned ==> s.Last().value.Done? && SeesAll(me.view, s.fn))
  }

  /** The runner has stored Done over Waiter and is about to wake everybody. */
  ghost predicate WakePending(s: State, r: int) {
    0 <= r < |s.threads| && s.threads[r].place.Wake?
  }

  ghost predicate Inv(s: State, r: int) {
    && Shape(s.history)
    && RunnerOk(s, r)
    && forall t: nat :: t < |s.threads| ==> ThreadOk(s, r, t)
  }

  lemma InitialInv(threads: nat, fn: nat)
    ensures Inv(Initial(threads, fn), NOBODY)
  {
  }

  lemma MatchRows()
    ensures Match(Init) == 0 && Match(Running) == 1 && Match(Done) == 2 && Match(Waiter) == 3
  {
    assert TRANSITIONS[0].from == Init && TRANSITIONS[1].from == Running && TRANSITIONS[2].from == Done;
  }

  /** Changing one thread keeps the invariant of the others. */
  lemma Frame(s: State, r: int, t: nat, me: Thread)
    requires Inv(s, r) && t < |s.threads|
    requires ThreadOk(s.With(t, me), r, t) && RunnerOk(s.With(t, me), r)
    requires s.threads[t].place.Wake? ==> me.place.Wake?
    ensures Inv(s.With(t, me), r)
  {
    forall u: nat | u < |s.threads| ensures ThreadOk(s.With(t, me), r, u) {
      assert ThreadOk(s, r, u);
    }
  }

  /** Loads and failed exchanges. */
  lemma ReadStep(s: State, r: int, t: nat, a: Action)
    requires Inv(s, r) && Enabled(s, t, a)
    requires a.LoadFast? || a.LoadDebug? || a.LoseFirst? || a.LoseSpin?
    ensures Inv(Apply(s, t, a), r)
  {
    assert ThreadOk(s, r, t);
    var s' := Apply(s, t, a);
    assert s' == s.With(t, s'.threads[t]);
    Frame(s, r, t, s'.threads[t]);
  }

  /** The load at the head of the wait loop and the table lookup after it. */
  lemma SpinStep(s: State, r: int, t: nat, a: Action)
    requires Inv(s, r) && Enabled(s, t, a) && a.LoadSpin?
    ensures Inv(Apply(s, t, a), r)
  {
    MatchRows();
    hide Match;
    assert ThreadOk(s, r, t);
    var s' := Apply(s, t, a);
    assert s' == s.With(t, s'.threads[t]);
    Frame(s, r, t, s'.threads[t]);
  }

  /** Entering a call, and the ways in and out of a delay. */
  lemma WaitStep(s: State, r: int, t: nat, a: Action)
    requires Inv(s, r) && Enabled(s, t, a)
    requires a.Call? || a.Sleep? || a.Refuse? || a.Skip? || a.Spurious?
    ensures Inv(Apply(s, t, a), r)
  {
    assert ThreadOk(s, r, t);
    var s' := Apply(s, t, a);
    assert s' == s.With(t, s'.threads[t]);
    Frame(s, r, t, s'.threads[t]);
  }

  /** Running fn. */
  lemma FnStep(s: State, r: int, t: nat, a: Action)
    requires Inv(s, r) && Enabled(s, t, a)
    requires a.Write? || a.Finish?
    ensures Inv(Apply(s, t, a), r)
  {
    assert ThreadOk(s, r, t);
    var s' := Apply(s, t, a);
    forall u: nat | u < |s.threads| ensures ThreadOk(s', r, u) {
      assert ThreadOk(s, r, u);
    }
  }

  /** A successful Init -> Running makes the thread the one runner. */
  lemma StartStep(s: State, r: int, t: nat, a: Action)
    requires Inv(s, r) && Enabled(s, t, a)
    requires a.WinFirst? || (a.WinSpin? && s.threads[t].place.row == 0)
    ensures Inv(Apply(s, t, a), t)
  {
    var s' := Apply(s, t, a);
    assert ThreadOk(s, r, t);
    forall u: nat | u < |s.threads| ensures ThreadOk(s', t, u) {
      assert ThreadOk(s, r, u);
    }
  }

  /** A successful Running -> Waiter. */
  lemma AnnounceStep(s: State, r: int, t: nat, a: Action)
    requires Inv(s, r) && Enabled(s, t, a)
    requires a.WinSpin? && s.threads[t].place.row != 0
    ensures Inv(Apply(s, t, a), r)
  {
    var s' := Apply(s, t, a);
    assert ThreadOk(s, r, t);
    forall u: nat | u < |s.threads| ensures ThreadOk(s', r, u) {
      assert ThreadOk(s, r, u);
    }
  }

  lemma DoneStep(s: State, r: int, t: nat, a: Action)
    requires Inv(s, r) && Enabled(s, t, a) && a.StoreDone?
    ensures Inv(Apply(s, t, a), r)
  {
    var s' := Apply(s, t, a);
    assert ThreadOk(s, r, t);
    forall u: nat | u < |s.threads| ensures ThreadOk(s', r, u) {
      assert ThreadOk(s, r, u);
    }
  }

  lemma WakeStep(s: State, r: int, t: nat, a: Action)
    requires Inv(s, r) && Enabled(s, t, a) && a.WakeAll?
    ensures Inv(Apply(s, t, a), r)
  {
    var s' := Apply(s, t, a);
    assert ThreadOk(s, r, t);
    forall u: nat | u < |s.threads| ensures ThreadOk(s', r, u) {
      assert ThreadOk(s, r, u);
    }
  }

  /** Steps that store nothing in the word and wake nobody. */
  lemma QuietStep(s: State, r: int, t: nat, a: Action)
    requires Inv(s, r) && Enabled(s, t, a)
    requires !a.WinFirst? && !a.WinSpin? && !a.StoreDone? && !a.WakeAll?
    ensures Inv(Apply(s, t, a), r)
  {
    if a.Write? || a.Finish? {
      FnStep(s, r, t, a);
    } else if a.LoadSpin? {
      SpinStep(s, r, t, a);
    } else if a.LoadFast? || a.LoadDebug? || a.LoseFirst? || a.LoseSpin? {
      ReadStep(s, r, t, a);
    } else {
      WaitStep(s, r, t, a);
    }
  }

  /** Every step of every thread keeps the invariant. */
  lemma Step(s: State, r: int, t: nat, a: Action) returns (r': int)
    requires Inv(s, r) && Enabled(s, t, a)
    ensures Inv(Apply(s, t, a), r')
  {
    r' := r;
    if a.WinFirst? || (a.WinSpin? && s.threads[t].place.row == 0) {
      StartStep(s, r, t, a);
      r' := t;
    } else if a.WinSpin? {
      AnnounceStep(s, r, t, a);
    } else if a.StoreDone? {
      DoneStep(s, r, t, a);
    } else if a.WakeAll? {
      WakeStep(s, r, t, a);
    } else {
      QuietStep(s, r, t, a);
    }
  }

  // ------------------------------------------------------------------------
  // Safety of all runs
  // ------------------------------------------------------------------------

  lemma {:induction false} RunInv(s: State, r: int, trace: seq<Event>) returns (r': int)
    requires Inv(s, r) && IsRun(s, trace)
    ensures Inv(Final(s, trace), r')
    decreases |trace|
  {
    hide Inv, Apply, Enabled;
    r' := r;
    if trace != [] {
      r' := Step(s, r, trace[0].t, trace[0].a);
      r' := RunInv(Apply(s, trace[0].t, trace[0].a), r', trace[1..]);
    }
  }

  /** Whichever step lets a call end, the call ends after fn has finished and with
      all of fn's writes in view. */
  lemma LeavesAfterFn(s: State, r: int, t: nat, a: Action, u: nat)
    requires Inv(s, r) && Enabled(s, t, a) && u < |s.threads|
    ensures var s' := Apply(s, t, a);
      && |s'.threads| == |s.threads| && s'.fn == s.fn
      && (s.threads[u].returned ==> s'.threads[u].returned)
      && (!s.threads[u].place.Outside? && s'.threads[u].place.Outside? ==>
            s'.threads[u].returned && s'.finished == 1 && SeesAll(s'.threads[u].view, s'.fn))
  {
    MatchRows();
    assert ThreadOk(s, r, u) && ThreadOk(s, r, t);
    var r' := Step(s, r, t, a);
    assert ThreadOk(Apply(s, t, a), r', u);
  }

  /** Thread `t` has entered a call. */
  ghost predicate Called(trace: seq<Event>, t: nat) {
    exists i :: 0 <= i < |trace| && trace[i].t == t && trace[i].a.Call?
  }

  /** Whoever has called and is outside again has returned. `called` says whether
      it had called before. */
  lemma {:induction false} OutsideAgain(s: State, r: int, trace: seq<Event>, t: nat, called: bool)
    requires Inv(s, r) && IsRun(s, trace) && t < |s.threads|
    requires if s.threads[t].place.Outside? then called ==> s.threads[t].returned else called
    ensures var s' := Final(s, trace);
      && t < |s'.threads|
      && if s'.threads[t].place.Outside? then called || Called(trace, t) ==> s'.threads[t].returned
         else called || Called(trace, t)
    decreases |trace|
  {
    hide Inv;
    if trace != [] {
      var e := trace[0];
      LeavesAfterFn(s, r, e.t, e.a, t);
      var r' := Step(s, r, e.t, e.a);
      var called' := called || (e.t == t && e.a.Call?);
      if s.threads[t].place.Outside? {
        OnlyCallEnters(s, e.t, e.a, t);
      }
      OutsideAgain(Apply(s, e.t, e.a), r', trace[1..], t, called');
      CalledLater(trace, t);
    }
  }

  lemma OnlyCallEnters(s: State, t: nat, a: Action, u: nat)
    requires Enabled(s, t, a) && u < |s.threads| && s.threads[u].place.Outside?
    ensures var s' := Apply(s, t, a);
      u < |s'.threads| && (s'.threads[u].place.Outside? <==> !(t == u && a.Call?))
  {
  }

  lemma CalledLater(trace: seq<Event>, t: nat)
    requires trace != []
    ensures Called(trace, t) <==> (trace[0].t == t && trace[0].a.Call?) || Called(trace[1..], t)
  {
    if Called(trace[1..], t) {
      var i :| 0 <= i < |trace[1..]| && trace[1..][i].t == t && trace[1..][i].a.Call?;
      assert trace[i + 1].t == t && trace[i + 1].a.Call?;
    }
    if Called(trace, t) {
      var i :| 0 <= i < |trace| && trace[i].t == t && trace[i].a.Call?;
      assert i > 0 ==> trace[1..][i - 1] == trace[i];
    }
  }

  /** In every run of any number of threads, fn is invoked at most once, and a
      thread that has called and is outside again, by whatever path, is so after
      that one invocation finished and with all of fn's writes in view. Both stay
      so when the thread calls again. */
  lemma AtMostOnceAndPublished(threads: nat, fn: nat, trace: seq<Event>)
    requires IsRun(Initial(threads, fn), trace)
    ensures var s := Final(Initial(threads, fn), trace);
      && s.started <= 1
      && (forall t: nat :: t < |s.threads| && s.threads[t].returned ==>
            s.started == 1 && s.finished == 1 && SeesAll(s.threads[t].view, s.fn))
      && forall t: nat :: t < threads && Called(trace, t) ==>
           && t < |s.threads|
           && (s.threads[t].place.Outside? ==> s.started == 1 && s.finished == 1 && SeesAll(s.threads[t].view, s.fn))
  {
    InitialInv(threads, fn);
    var r := RunInv(Initial(threads, fn), NOBODY, trace);
    var s := Final(Initial(threads, fn), trace);
    forall t: nat | t < |s.threads| && s.threads[t].returned
      ensures s.started == 1 && s.finished == 1 && SeesAll(s.threads[t].view, s.fn)
    {
      assert ThreadOk(s, r, t);
    }
    forall t: nat | t < threads && Called(trace, t)
      ensures t < |s.threads|
      ensures s.threads[t].place.Outside? ==> s.started == 1 && s.finished == 1 && SeesAll(s.threads[t].view, s.fn)
    {
      OutsideAgain(Initial(threads, fn), NOBODY, trace, t, false);
      assert ThreadOk(s, r, t);
    }
  }

  /** The same for the step that ends a call, in every run. */
  lemma NobodyLeavesEarly(threads: nat, fn: nat, trace: seq<Event>, t: nat, a: Action, u: nat)
    requires IsRun(Initial(threads, fn), trace) && Enabled(Final(Initial(threads, fn), trace), t, a)
    ensures var s := Final(Initial(threads, fn), trace); var s' := Apply(s, t, a);
      u < |s.threads| && !s.threads[u].place.Outside? && u < |s'.threads| && s'.threads[u].place.Outside? ==>
        s'.started == 1 && s'.finished == 1 && SeesAll(s'.threads[u].view, s'.fn)
  {
    InitialInv(threads, fn);
    var r := RunInv(Initial(threads, fn), NOBODY, trace);
    var s := Final(Initial(threads, fn), trace);
    if u < |s.threads| {
      LeavesAfterFn(s, r, t, a, u);
      var r' := Step(s, r, t, a);
    }
  }

  /** No lost wakeup: whoever sleeps, sleeps while the word is Waiter or while
      the runner is on its way to wake everybody; and a runner that finds
      Running in the word leaves no sleeper behind. */
  lemma NoLostWakeup(threads: nat, fn: nat, trace: seq<Event>, t: nat)
    requires IsRun(Initial(threads, fn), trace)
    requires var s := Final(Initial(threads, fn), trace); t < |s.threads| && s.threads[t].place.Asleep?
    ensures var s := Final(Initial(threads, fn), trace);
      && s.history != []
      && (s.Last().value.Waiter? || exists r: nat :: r < |s.threads| && s.threads[r].place.Wake?)
      && forall r: nat :: r < |s.threads| && s.threads[r].place.Exchange? ==> !s.Last().value.Running?
  {
    InitialInv(threads, fn);
    var r := RunInv(Initial(threads, fn), NOBODY, trace);
    assert ThreadOk(Final(Initial(threads, fn), trace), r, t);
    var s := Final(Initial(threads, fn), trace);
    forall u: nat | u < |s.threads| && s.threads[u].place.Exchange? ensures u == r {
      assert ThreadOk(s, r, u);
    }
  }
}
