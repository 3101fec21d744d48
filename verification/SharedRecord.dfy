/** One reference-counted record shared by keys on any number of threads.

    The count is a C++ atomic under release/acquire memory: the sequence of all
    values ever stored, where a load may return any value not older than what
    the key's owner has already seen, and a read-modify-write operation reads the
    newest one. Each stored value carries the accesses to the record that an
    acquire load of it makes visible.

    Keys are thread-compatible: whoever changes or destroys a key has
    synchronised with all earlier uses of that same key. Nothing else is ordered. */
module SharedRecord {

  /** A store to the count and the accesses it publishes. */
  datatype Message = Message(count: nat, view: set<nat>)

  /** A key that refers to the record. `seen` is the oldest store that its owner
      may still read, `view` the accesses that are ordered before what the owner
      does next; `leaving` keys have found that they are not alone. */
  datatype Ref = Ref(seen: nat, view: set<nat>, leaving: bool)

  /** `accesses` numbers all accesses to the content of the record so far, `edits`
      counts those that change it, and `deleted` its deletions. `claim` is what the
      key that last tried to edit or delete it had in its view then. */
  datatype State = State(history: seq<Message>, refs: map<nat, Ref>,
                         accesses: nat, edits: nat, deleted: nat, claim: set<nat>)
  {
    function Last(): Message
      requires history != []
    {
      history[|history| - 1]
    }

    /** The record is accessed through key `r`. */
    function Touch(r: nat, ref: Ref): State {
      this.(refs := refs[r := ref.(view := ref.view + {accesses})], accesses := accesses + 1)
    }
  }

  /** A new record belongs to the key that made it. */
  function Initial(r: nat): State {
    State([Message(1, {})], map[r := Ref(0, {}, false)], 0, 0, 0, {})
  }

  datatype Action =
    | Copy(to: nat)      // Ref for a new key
    | Access             // read the content
    | TryOwn(i: nat)     // the load in CloneAndUnref, and the edit in place if it reads 1
    | TryDelete(i: nat)  // the load in Unref
    | Drop               // the decrement in Unref

  predicate Enabled(s: State, r: nat, a: Action) {
    && r in s.refs
    && s.history != []
    && match a
       case Copy(to) => !s.refs[r].leaving && to !in s.refs
       case Access => !s.refs[r].leaving
       case TryOwn(i) => !s.refs[r].leaving && s.refs[r].seen <= i < |s.history|
       case TryDelete(i) => !s.refs[r].leaving && s.refs[r].seen <= i < |s.history|
       case Drop => s.refs[r].leaving && s.Last().count > 0
  }

  /** An acquire load of store `i`. */
  function Acquire(s: State, ref: Ref, i: nat): Ref
    requires i < |s.history|
  {
    ref.(seen := i, view := ref.view + s.history[i].view)
  }

  function Apply(s: State, r: nat, a: Action): State
    requires Enabled(s, r, a)
  {
    var ref := s.refs[r];
    match a
    case Copy(to) =>
      // Relaxed: publishes nothing, and the new key starts without a view.
      var refs := s.refs[r := ref.(seen := |s.history|)];
      s.(history := s.history + [Message(s.Last().count + 1, s.Last().view)],
         refs := refs[to := Ref(|s.history|, {}, false)])
    case Access => s.Touch(r, ref)
    case TryOwn(i) =>
      var ref := Acquire(s, ref, i);
      var s := s.(claim := ref.view);
      if s.history[i].count == 1 then s.(edits := s.edits + 1).Touch(r, ref) else s.(refs := s.refs[r := ref])
    case TryDelete(i) =>
      var ref := Acquire(s, ref, i);
      var s := s.(claim := ref.view);
      if s.history[i].count == 1
      then s.(refs := s.refs - {r}, deleted := s.deleted + 1)
      else s.(refs := s.refs[r := ref.(leaving := true)])
    case Drop =>
      // Acquire and release in one.
      var view := s.Last().view + ref.view;
      s.(history := s.history + [Message(s.Last().count - 1, view)],
         refs := s.refs - {r},
         claim := view,
         deleted := if s.Last().count - 1 == 0 then s.deleted + 1 else s.deleted)
  }

  // ------------------------------------------------------------------------
  // The invariant
  // ------------------------------------------------------------------------

  /** Of the stores that a key's owner may read, only the newest can be 1. */
  ghost predicate NoStaleOne(history: seq<Message>, ref: Ref) {
    && ref.seen < |history|
    && forall i :: ref.seen <= i < |history| - 1 ==> history[i].count != 1
  }

  /** Access `e` is known to the newest store or to a key. */
  ghost predicate Known(s: State, e: nat)
    requires s.history != []
  {
    e in s.Last().view || exists r :: r in s.refs && e in s.refs[r].view
  }

  ghost predicate Inv(s: State) {
    && s.history != []
    && (if s.refs == map[] then s.deleted == 1 else s.deleted == 0 && s.Last().count == |s.refs|)
    && (forall r :: r in s.refs ==> NoStaleOne(s.history, s.refs[r]))
    && (s.refs != map[] ==> forall e :: 0 <= e < s.accesses ==> Known(s, e))
  }

  /** A key that counts one is the only one. */
  lemma Alone<V>(refs: map<nat, V>, r: nat)
    requires r in refs && |refs| == 1
    ensures refs.Keys == {r}
  {
    assert |refs.Keys - {r}| == 0;
  }

  /** What a key may rely on when its load or its decrement reads 1. */
  ghost predicate Exclusive(s: State, r: nat, view: set<nat>) {
    s.deleted == 0 && s.refs.Keys == {r} && forall e :: 0 <= e < s.accesses ==> e in view
  }

  /** No key edits or deletes the record while another key refers to it, and its
      acquire load puts it after every access that was ever made through any key. */
  lemma ReadingOneIsExclusive(s: State, r: nat, i: nat)
    requires Inv(s) && r in s.refs && s.refs[r].seen <= i < |s.history| && s.history[i].count == 1
    ensures i == |s.history| - 1 && Exclusive(s, r, Acquire(s, s.refs[r], i).view)
  {
    assert NoStaleOne(s.history, s.refs[r]);
    Alone(s.refs, r);
    forall e | 0 <= e < s.accesses ensures e in Acquire(s, s.refs[r], i).view {
      assert Known(s, e);
    }
  }

  lemma CopyKeeps(s: State, r: nat, to: nat)
    requires Inv(s) && Enabled(s, r, Copy(to))
    ensures Inv(Apply(s, r, Copy(to)))
  {
    var s' := Apply(s, r, Copy(to));
    forall q | q in s'.refs ensures NoStaleOne(s'.history, s'.refs[q]) {
      if q != r && q != to {
        assert NoStaleOne(s.history, s.refs[q]);
        Two(s.refs, r, q);
      }
    }
    forall e | 0 <= e < s'.accesses ensures Known(s', e) {
      assert Known(s, e);
      if e !in s.Last().view {
        var q :| q in s.refs && e in s.refs[q].view;
        assert e in s'.refs[q].view;
      }
    }
  }

  lemma Two<V>(refs: map<nat, V>, r: nat, q: nat)
    requires r in refs && q in refs && r != q
    ensures |refs| != 1
  {
    if |refs| == 1 {
      Alone(refs, r);
    }
  }

  /** A key learns of accesses, or makes one. */
  lemma UseKeeps(s: State, s': State, r: nat, ref: Ref)
    requires Inv(s) && r in s.refs && s'.history == s.history && s'.refs == s.refs[r := ref] && s'.deleted == s.deleted
    requires s.refs[r].seen == ref.seen || s.refs[r].seen <= ref.seen < |s.history|
    requires s.refs[r].view <= ref.view
    requires s'.accesses == s.accesses || (s'.accesses == s.accesses + 1 && s.accesses in ref.view)
    ensures Inv(s')
  {
    assert NoStaleOne(s.history, s.refs[r]);
    assert NoStaleOne(s'.history, ref);
    forall e | 0 <= e < s'.accesses ensures Known(s', e) {
      if e == s.accesses {
        assert e in s'.refs[r].view;
      } else {
        assert Known(s, e);
        if e !in s.Last().view {
          var q :| q in s.refs && e in s.refs[q].view;
          assert e in s'.refs[q].view;
        }
      }
    }
  }

  lemma DropKeeps(s: State, r: nat)
    requires Inv(s) && Enabled(s, r, Drop)
    ensures Inv(Apply(s, r, Drop))
  {
    var s' := Apply(s, r, Drop);
    assert s.refs == s'.refs[r := s.refs[r]];
    assert |s'.refs| == |s.refs| - 1;
    forall q | q in s'.refs ensures NoStaleOne(s'.history, s'.refs[q]) {
      assert NoStaleOne(s.history, s.refs[q]);
      Two(s.refs, r, q);
    }
    forall e | 0 <= e < s'.accesses ensures Known(s', e) {
      assert Known(s, e);
      if e !in s'.Last().view {
        var q :| q in s.refs && e in s.refs[q].view;
        assert e in s'.refs[q].view;
      }
    }
  }

  lemma StepKeeps(s: State, r: nat, a: Action)
    requires Inv(s) && Enabled(s, r, a)
    ensures Inv(Apply(s, r, a))
  {
    hide Inv;
    var s' := Apply(s, r, a);
    match a
    case Copy(to) => CopyKeeps(s, r, to);
    case Access => UseKeeps(s, s', r, s'.refs[r]);
    case TryOwn(i) => UseKeeps(s, s', r, s'.refs[r]);
    case TryDelete(i) =>
      if s.history[i].count == 1 {
        DeleteKeeps(s, r, i);
      } else {
        UseKeeps(s, s', r, s'.refs[r]);
      }
    case Drop => DropKeeps(s, r);
  }

  lemma DeleteKeeps(s: State, r: nat, i: nat)
    requires Inv(s) && Enabled(s, r, TryDelete(i)) && s.history[i].count == 1
    ensures Inv(Apply(s, r, TryDelete(i)))
  {
    ReadingOneIsExclusive(s, r, i);
    assert s.refs - {r} == map[];
  }

  // ------------------------------------------------------------------------
  // Runs
  // ------------------------------------------------------------------------

  datatype Event = Event(r: nat, a: Action)

  ghost predicate IsRun(s: State, trace: seq<Event>)
    decreases |trace|
  {
    trace == [] || (Enabled(s, trace[0].r, trace[0].a) && IsRun(Apply(s, trace[0].r, trace[0].a), trace[1..]))
  }

  ghost function Final(s: State, trace: seq<Event>): State
    requires IsRun(s, trace)
    decreases |trace|
  {
    if trace == [] then s else Final(Apply(s, trace[0].r, trace[0].a), trace[1..])
  }

  lemma {:induction false} RunKeeps(s: State, trace: seq<Event>)
    requires Inv(s) && IsRun(s, trace)
    ensures Inv(Final(s, trace))
    decreases |trace|
  {
    hide Inv, Apply;
    if trace != [] {
      StepKeeps(s, trace[0].r, trace[0].a);
      RunKeeps(Apply(s, trace[0].r, trace[0].a), trace[1..]);
    }
  }

  /** In every run the record is deleted at most once, exactly when the last key
      has let go of it. */
  lemma DeletedExactlyOnce(first: nat, trace: seq<Event>)
    requires IsRun(Initial(first), trace)
    ensures var s := Final(Initial(first), trace);
      s.deleted == if s.refs == map[] then 1 else 0
  {
    InitialInv(first);
    RunKeeps(Initial(first), trace);
  }

  lemma InitialInv(first: nat)
    ensures Inv(Initial(first))
  {
    assert NoStaleOne(Initial(first).history, Ref(0, {}, false));
    assert Initial(first).refs.Keys == {first};
    assert Initial(first).refs != map[];
  }

  /** The step deletes the record or edits it in place. */
  predicate Claims(s: State, r: nat, a: Action)
    requires Enabled(s, r, a)
  {
    Apply(s, r, a).edits != s.edits || Apply(s, r, a).deleted != s.deleted
  }

  /** In every run, whoever edits the record in place or deletes it is the only
      key left, and has every access ever made in the view that the step itself
      obtains, whatever stale values the loads before may have returned. */
  lemma ClaimsAreExclusive(first: nat, trace: seq<Event>, r: nat, a: Action)
    requires IsRun(Initial(first), trace)
    requires Enabled(Final(Initial(first), trace), r, a) && Claims(Final(Initial(first), trace), r, a)
    ensures var s := Final(Initial(first), trace); Exclusive(s, r, Apply(s, r, a).claim)
  {
    var s := Final(Initial(first), trace);
    InitialInv(first);
    RunKeeps(Initial(first), trace);
    assert NoStaleOne(s.history, s.refs[r]);
    var i := if a.TryOwn? || a.TryDelete? then a.i else |s.history| - 1;
    ReadingOneIsExclusive(s, r, i);
    assert Apply(s, r, a).claim == s.refs[r].view + s.history[i].view;
  }

  /** A key can always let go, in one step or two: the record is never stuck. */
  lemma EveryKeyCanLetGo(first: nat, trace: seq<Event>, r: nat)
    requires IsRun(Initial(first), trace) && r in Final(Initial(first), trace).refs
    ensures var s := Final(Initial(first), trace); s.history != [] && CanLetGo(s, r)
  {
    hide CanLetGo, Inv;
    InitialInv(first);
    RunKeeps(Initial(first), trace);
    InvLetsGo(Final(Initial(first), trace), r);
  }

  lemma InvLetsGo(s: State, r: nat)
    requires Inv(s) && r in s.refs
    ensures s.history != [] && CanLetGo(s, r)
  {
    assert NoStaleOne(s.history, s.refs[r]);
    assert |s.refs.Keys| >= |{r}|;
  }

  ghost predicate CanLetGo(s: State, r: nat)
    requires s.history != [] && r in s.refs
  {
    if s.refs[r].leaving then
      Enabled(s, r, Drop) && Gone(s, Apply(s, r, Drop), r)
    else
      && Enabled(s, r, TryDelete(|s.history| - 1))
      && var s1 := Apply(s, r, TryDelete(|s.history| - 1));
         Gone(s, s1, r) || (s1.refs.Keys == s.refs.Keys && Enabled(s1, r, Drop) && Gone(s, Apply(s1, r, Drop), r))
  }

  /** `r` has let go, and the other keys have not. */
  ghost predicate Gone(s: State, s': State, r: nat) {
    s'.refs.Keys == s.refs.Keys - {r}
  }

  /** Let everybody go, one key after the other: at most two steps each, and at the
      end the record is deleted. */
  lemma {:induction false} EverybodyLetsGo(s: State) returns (trace: seq<Event>)
    requires Inv(s)
    ensures IsRun(s, trace) && |trace| <= 2 * |s.refs|
    ensures Final(s, trace).refs == map[] && Final(s, trace).deleted == 1
    decreases |s.refs|
  {
    trace := [];
    if s.refs != map[] {
      var r :| r in s.refs;
      var s', steps := LetGo(s, r);
      var rest := EverybodyLetsGo(s');
      trace := steps + rest;
      RunConcat(s, steps, rest);
    }
  }

  lemma LetGo(s: State, r: nat) returns (s': State, steps: seq<Event>)
    requires Inv(s) && r in s.refs
    ensures IsRun(s, steps) && Final(s, steps) == s' && |steps| <= 2
    ensures Inv(s') && Gone(s, s', r) && |s'.refs| == |s.refs| - 1
  {
    hide IsRun, Final;
    assert NoStaleOne(s.history, s.refs[r]);
    assert |s.refs.Keys| >= |{r}|;
    var a := if s.refs[r].leaving then Drop else TryDelete(|s.history| - 1);
    StepKeeps(s, r, a);
    RunOne(s, r, a);
    s', steps := Apply(s, r, a), [Event(r, a)];
    if r in s'.refs {
      StepKeeps(s', r, Drop);
      RunOne(s', r, Drop);
      RunConcat(s, steps, [Event(r, Drop)]);
      s', steps := Apply(s', r, Drop), steps + [Event(r, Drop)];
    }
    assert s'.refs.Keys == s.refs.Keys - {r};
    assert |s.refs.Keys - {r}| == |s.refs.Keys| - 1;
  }

  lemma RunOne(s: State, r: nat, a: Action)
    requires Enabled(s, r, a)
    ensures IsRun(s, [Event(r, a)]) && Final(s, [Event(r, a)]) == Apply(s, r, a)
  {
    hide Enabled, Apply;
    assert [Event(r, a)][1..] == [];
  }

  lemma {:induction false} RunConcat(s: State, a: seq<Event>, b: seq<Event>)
    requires IsRun(s, a) && IsRun(Final(s, a), b)
    ensures IsRun(s, a + b) && Final(s, a + b) == Final(Final(s, a), b)
    decreases |a|
  {
    hide Enabled, Apply;
    if a == [] {
      assert a + b == b;
    } else {
      RunConcat(Apply(s, a[0].r, a[0].a), a[1..], b);
      assert (a + b)[1..] == a[1..] + b;
    }
  }
}
