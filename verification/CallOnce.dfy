/** `call_once` as a transition system over any number of threads.

    The control word is a C++ atomic under release/acquire memory: it is the
    sequence of all values ever stored, a plain load may return any value not
    older than what the thread has already seen, and only read-modify-write
    operations are sure to read the newest one. Each stored value carries the
    set of `fn`'s writes that an acquire load of it makes visible. */
module CallOnce {

  datatype Control = Init | Running | Waiter | Done

  /** The bit patterns of the control word. */
  function Pattern(c: Control): nat {
    match c
    case Init => 0
    case Running => 0x65C2937B
    case Waiter => 0x05A308D2
    case Done => 221
  }

  /** A word says which state it stands for, and a zero word is the initial one. */
  lemma PatternsDiffer(c: Control, d: Control)
    ensures Pattern(c) == Pattern(d) <==> c == d
    ensures Pattern(c) == 0 <==> c == Init
    ensures Pattern(c) < 0x1_0000_0000
  {
  }

  /** A store to the control word and the writes it publishes. */
  datatype Message = Message(value: Control, view: set<nat>)

  /** One row of the table given to `SpinLockWait`. */
  datatype Transition = Transition(from: Control, to: Control, done: bool)

  const TRANSITIONS := [Transition(Init, Running, true), Transition(Running, Waiter, false), Transition(Done, Done, true)]

  /** The row that applies to `v`, or the number of rows. */
  function Match(v: Control, i: nat := 0): (row: nat)
    requires i <= |TRANSITIONS|
    ensures i <= row <= |TRANSITIONS|
    ensures row < |TRANSITIONS| ==> TRANSITIONS[row].from == v
    ensures forall j :: i <= j < row ==> TRANSITIONS[j].from != v
    decreases |TRANSITIONS| - i
  {
    if i == |TRANSITIONS| || TRANSITIONS[i].from == v then i else Match(v, i + 1)
  }

  /** Where a thread is. */
  datatype Place =
    | Outside                // not in a call
    | FastLoad               // about to load in call_once or LowLevelCallOnce
    | DebugLoad              // about to check the word in a debug build
    | FirstCas               // about to try Init -> Running
    | SpinLoad               // at the head of the SpinLockWait loop
    | SpinCas(row: nat)      // about to make the transition of a row
    | Delay(value: Control)  // about to enter SpinLockDelay
    | Asleep                 // waiting in the futex
    | Invoke(next: nat)      // running fn, about to do its write number `next`
    | Exchange               // about to store Done
    | Wake                   // about to wake the waiters

  /** `seen` is the oldest store the thread may still read; `view` is the part
      of fn's writes it is sure to see. */
  datatype Thread = Thread(place: Place, seen: nat, view: set<nat>, returned: bool)

  /** `fn` is the number of writes that fn makes; `started` and `finished`
      count its invocations. */
  datatype State = State(history: seq<Message>, threads: seq<Thread>, fn: nat, started: nat, finished: nat)
  {
    function Last(): Message
      requires history != []
    {
      history[|history| - 1]
    }

    function With(t: nat, thread: Thread): State
      requires t < |threads|
    {
      this.(threads := threads[t := thread])
    }
  }

  function Initial(threads: nat, fn: nat): State {
    State([Message(Init, {})], seq(threads, _ => Thread(Outside, 0, {}, false)), fn, 0, 0)
  }

  /** What a thread may do next. Loads and failing exchanges name the store they read. */
  datatype Action =
    | Call
    | LoadFast(i: nat)
    | LoadDebug(i: nat)
    | WinFirst
    | LoseFirst(i: nat)
    | LoadSpin(i: nat)
    | WinSpin
    | LoseSpin(i: nat)
    | Sleep
    | Refuse
    | Skip
    | Spurious
    | Write
    | Finish
    | StoreDone
    | WakeAll

  /** The store `i` may be read by a thread that has seen `seen`. */
  predicate Readable(s: State, thread: Thread, i: nat) {
    thread.seen <= i < |s.history|
  }

  predicate Enabled(s: State, t: nat, a: Action) {
    && t < |s.threads|
    && s.history != []
    && var me := s.threads[t];
       match a
       case Call => me.place.Outside?
       case LoadFast(i) => me.place.FastLoad? && Readable(s, me, i)
       case LoadDebug(i) => me.place.DebugLoad? && Readable(s, me, i)
       case WinFirst => me.place.FirstCas? && s.Last().value.Init?
       case LoseFirst(i) => me.place.FirstCas? && Readable(s, me, i) && !s.history[i].value.Init?
       case LoadSpin(i) => me.place.SpinLoad? && Readable(s, me, i)
       case WinSpin =>
         && me.place.SpinCas?
         && me.place.row < |TRANSITIONS|
         && s.Last().value == TRANSITIONS[me.place.row].from
       case LoseSpin(i) =>
         && me.place.SpinCas?
         && me.place.row < |TRANSITIONS|
         && Readable(s, me, i)
         && s.history[i].value != TRANSITIONS[me.place.row].from
       case Sleep => me.place.Delay? && s.Last().value == me.place.value
       case Refuse => me.place.Delay? && s.Last().value != me.place.value
       case Skip => me.place.Delay?
       case Spurious => me.place.Asleep?
       case Write => me.place.Invoke? && me.place.next < s.fn
       case Finish => me.place.Invoke? && me.place.next == s.fn
       case StoreDone => me.place.Exchange?
       case WakeAll => me.place.Wake?
  }

  /** A read of store `i`; an acquire load also takes over its view. */
  function Read(s: State, me: Thread, i: nat, acquire: bool): Thread
    requires i < |s.history|
  {
    me.(seen := i, view := if acquire then me.view + s.history[i].view else me.view)
  }

  /** A read-modify-write: the new store follows the newest one and keeps its
      view; a release adds the thread's own. */
  function Store(s: State, me: Thread, value: Control, acquire: bool, release: bool): (Message, Thread)
    requires s.history != []
  {
    var view := if acquire then me.view + s.Last().view else me.view;
    (Message(value, s.Last().view + if release then view else {}), me.(seen := |s.history|, view := view))
  }

  /** Counts one more invocation of fn. */
  function StartFn(s: State): State {
    s.(started := s.started + 1)
  }

  function Apply(s: State, t: nat, a: Action): State
    requires Enabled(s, t, a)
  {
    var me := s.threads[t];
    match a
    case Call => s.With(t, me.(place := FastLoad))
    case LoadFast(i) =>
      var me := Read(s, me, i, true);
      if s.history[i].value.Done?
      then s.With(t, me.(place := Outside, returned := true))
      else s.With(t, me.(place := DebugLoad))
    case LoadDebug(i) => s.With(t, Read(s, me, i, false).(place := FirstCas))
    case WinFirst =>
      var (m, me) := Store(s, me, Running, false, false);
      StartFn(s.(history := s.history + [m]).With(t, me.(place := Invoke(0))))
    case LoseFirst(i) => s.With(t, Read(s, me, i, false).(place := SpinLoad))
    case LoadSpin(i) =>
      var me := Read(s, me, i, true);
      var v := s.history[i].value;
      var row := Match(v);
      if row == |TRANSITIONS| then s.With(t, me.(place := Delay(v)))
      else if TRANSITIONS[row].to != v then s.With(t, me.(place := SpinCas(row)))
      else Waited(s, t, me, row)
    case WinSpin =>
      var (m, me') := Store(s, me, TRANSITIONS[me.place.row].to, true, false);
      Waited(s.(history := s.history + [m]), t, me', me.place.row)
    case LoseSpin(i) => s.With(t, Read(s, me, i, false).(place := SpinLoad))
    case Sleep => s.With(t, me.(place := Asleep, seen := |s.history| - 1))
    case Refuse => s.With(t, me.(place := SpinLoad, seen := |s.history| - 1))
    case Skip => s.With(t, me.(place := SpinLoad))
    case Spurious => s.With(t, me.(place := SpinLoad))
    case Write => s.With(t, me.(place := Invoke(me.place.next + 1), view := me.view + {me.place.next}))
    case Finish => s.(finished := s.finished + 1).With(t, me.(place := Exchange))
    case StoreDone =>
      var (m, me) := Store(s, me, Done, false, true);
      var s' := s.(history := s.history + [m]);
      if s.Last().value.Waiter? then s'.With(t, me.(place := Wake))
      else s'.With(t, me.(place := Outside, returned := true))
    case WakeAll =>
      s.(threads := Awoken(s.threads)).With(t, me.(place := Outside, returned := true))
  }

  /** After `SpinLockWait` made the transition of `row`: return its `from` value
      to `CallOnceImpl` if the row says so, otherwise go round again. */
  function Waited(s: State, t: nat, me: Thread, row: nat): State
    requires t < |s.threads| && row < |TRANSITIONS|
  {
    if !TRANSITIONS[row].done then s.With(t, me.(place := SpinLoad))
    else if TRANSITIONS[row].from.Init? then StartFn(s.With(t, me.(place := Invoke(0))))
    else s.With(t, me.(place := Outside, returned := true))
  }

  function Awoken(threads: seq<Thread>): (r: seq<Thread>)
    ensures |r| == |threads|
  {
    seq(|threads|, i requires 0 <= i < |threads| =>
      if threads[i].place.Asleep? then threads[i].(place := SpinLoad) else threads[i])
  }

  // ------------------------------------------------------------------------
  // Runs
  // ------------------------------------------------------------------------

  datatype Event = Event(t: nat, a: Action)

  /** `trace` is a run from `s`. */
  ghost predicate IsRun(s: State, trace: seq<Event>)
    decreases |trace|
  {
    trace == [] || (Enabled(s, trace[0].t, trace[0].a) && IsRun(Apply(s, trace[0].t, trace[0].a), trace[1..]))
  }

  ghost function Final(s: State, trace: seq<Event>): State
    requires IsRun(s, trace)
    decreases |trace|
  {
    if trace == [] then s else Final(Apply(s, trace[0].t, trace[0].a), trace[1..])
  }
}
