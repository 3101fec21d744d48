/** `BadStatusOrAccess`: an exception whose message is computed on first use,
    behind a once-flag that assignment does not reset. */
module BadAccess {

  /** A status and the text its `ToString` gives; what a move leaves behind is
      again a status with some text. */
  datatype Status = Status(text: string)

  const PREFIX := "Bad StatusOr access: "

  function Message(s: Status): string {
    PREFIX + s.text
  }

  /** Equal messages mean equal statuses. */
  lemma MessageTells(s: Status, t: Status)
    ensures Message(s) == Message(t) <==> s == t
  {
    assert Message(s)[|PREFIX|..] == s.text && Message(t)[|PREFIX|..] == t.text;
  }

  /** The fields of an object: `fired` says whether its once-flag has run. */
  datatype Fields = Fields(status: Status, what: string, fired: bool)
  {
    /** The cached message, if any, belongs to the status. */
    ghost predicate Consistent() {
      fired ==> what == Message(status)
    }

    /** The effect of `InitWhat`. */
    function Initialized(): Fields {
      if fired then this else Fields(status, Message(status), true)
    }
  }

  class BadStatusOrAccess {
    var status: Status
    var what: string
    var fired: bool

    ghost function Value(): Fields
      reads this
    {
      Fields(status, what, fired)
    }

    constructor (s: Status)
      ensures Value() == Fields(s, "", false)
    {
      status, what, fired := s, "", false;
    }

    /** The copy starts without a message of its own. */
    constructor Copy(other: BadStatusOrAccess)
      ensures Value() == Fields(other.status, "", false)
    {
      status, what, fired := other.status, "", false;
    }

    /** `moved` is what the move leaves in the source's status. */
    constructor Move(other: BadStatusOrAccess, moved: Status)
      modifies other
      ensures Value() == Fields(old(other.status), "", false)
      ensures other.Value() == old(other.Value()).(status := moved)
    {
      status, what, fired := other.status, "", false;
      new;
      other.status := moved;
    }

    method InitWhat()
      modifies this
      ensures Value() == old(Value()).Initialized()
      ensures status == old(status) && fired
      ensures what == if old(fired) then old(what) else "Bad StatusOr access: " + status.text
    {
      if !fired {
        what := PREFIX + status.text;
        fired := true;
      }
    }

    method Assign(other: BadStatusOrAccess)
      modifies this, other
      ensures other.Value() == old(other.Value()).Initialized()
      ensures Value() == Assigned(old(Value()), old(other.Value()), this == other)
      ensures status == old(other.status) == other.status && what == other.what
      ensures what == if old(other.fired) then old(other.what) else "Bad StatusOr access: " + status.text
      ensures fired == (old(fired) || this == other) && other.fired
    {
      other.InitWhat();
      status := other.status;
      what := other.what;
    }

    /** `moved` and `left` are what moves leave in the source's status and text.
        A status moved onto itself is unchanged. */
    method AssignMove(other: BadStatusOrAccess, moved: Status, left: string)
      modifies this, other
      ensures this != other ==> Value() == Assigned(old(Value()), old(other.Value()), false)
      ensures this != other ==> other.Value() == Fields(moved, left, true)
      ensures this == other ==> Value() == Fields(old(status), left, true)
      ensures status == old(other.status) && fired == (old(fired) || this == other)
      ensures this != other ==>
        what == if old(other.fired) then old(other.what) else "Bad StatusOr access: " + status.text
    {
      other.InitWhat();
      if this == other {
        what := left;
      } else {
        status, other.status := other.status, moved;
        what, other.what := other.what, left;
      }
    }

    method What() returns (message: string)
      modifies this
      ensures Value() == old(Value()).Initialized() && message == what
      ensures message == Message(status) <==> old(Value()).Consistent()
      ensures status == old(status) && (!old(fired) ==> message == "Bad StatusOr access: " + status.text)
    {
      InitWhat();
      message := what;
    }
  }

  /** What an object holds after being assigned from another (or itself). */
  function Assigned(to: Fields, from: Fields, same: bool): Fields {
    var source := from.Initialized();
    if same then source else Fields(source.status, source.what, to.fired)
  }

  // ------------------------------------------------------------------------
  // Programs
  // ------------------------------------------------------------------------

  /** Statements over numbered objects. */
  datatype Op =
    | Create(to: nat, s: Status)
    | CopyNew(to: nat, from: nat)
    | MoveNew(to: nat, from: nat, moved: Status)
    | CopyAssign(to: nat, from: nat)
    | MoveAssign(to: nat, from: nat, moved: Status, left: string)
    | CallWhat(to: nat)

  /** Objects in use, and those that have been moved from since they were last
      given a value. */
  datatype State = State(objects: map<nat, Fields>, movedFrom: set<nat>)

  /** Constructors need a free variable, everything else live ones. */
  predicate Allowed(vars: set<nat>, op: Op) {
    match op
    case Create(to, _) => to !in vars
    case CopyNew(to, from) => to !in vars && from in vars
    case MoveNew(to, from, _) => to !in vars && from in vars
    case CopyAssign(to, from) => to in vars && from in vars
    case MoveAssign(to, from, _, _) => to in vars && from in vars
    case CallWhat(to) => to in vars
  }

  function Step(s: State, op: Op): State
    requires Allowed(s.objects.Keys, op)
  {
    var o := s.objects;
    match op
    case Create(to, status) => s.(objects := o[to := Fields(status, "", false)])
    case CopyNew(to, from) => s.(objects := o[to := Fields(o[from].status, "", false)])
    case MoveNew(to, from, moved) =>
      State(o[to := Fields(o[from].status, "", false)][from := o[from].(status := moved)], s.movedFrom + {from})
    case CopyAssign(to, from) =>
      var after := o[from := o[from].Initialized()][to := Assigned(o[to], o[from], to == from)];
      State(after, if from in s.movedFrom then s.movedFrom + {to} else s.movedFrom - {to})
    case MoveAssign(to, from, moved, left) =>
      if to == from then
        State(o[to := Fields(o[to].status, left, true)], s.movedFrom + {to})
      else
        var after := o[to := Assigned(o[to], o[from], false)][from := Fields(moved, left, true)];
        State(after, (if from in s.movedFrom then s.movedFrom + {to} else s.movedFrom - {to}) + {from})
    case CallWhat(to) => s.(objects := o[to := o[to].Initialized()])
  }

  /** The values after the first `n` statements; one that names the wrong variables
      is left out. */
  ghost function StateAt(s: State, program: seq<Op>, n: nat): State
    requires n <= |program|
  {
    if n == 0 then s else
      var before := StateAt(s, program, n - 1);
      if Allowed(before.objects.Keys, program[n - 1]) then Step(before, program[n - 1]) else before
  }

  ghost predicate Agrees(s: State) {
    forall i :: i in s.objects && i !in s.movedFrom ==> s.objects[i].Consistent()
  }

  lemma StepAgrees(s: State, op: Op)
    requires Agrees(s) && Allowed(s.objects.Keys, op)
    ensures Agrees(Step(s, op))
  {
  }

  /** In every program, an object that has not been moved from would answer `what()`
      with the message of its current status. */
  lemma {:induction false} CacheAgrees(s: State, program: seq<Op>, n: nat)
    requires Agrees(s) && n <= |program|
    ensures Agrees(StateAt(s, program, n))
    ensures var now := StateAt(s, program, n);
      forall i :: i in now.objects && i !in now.movedFrom ==>
        now.objects[i].Initialized().what == Message(now.objects[i].status)
  {
    if n > 0 {
      CacheAgrees(s, program, n - 1);
      var before := StateAt(s, program, n - 1);
      if Allowed(before.objects.Keys, program[n - 1]) {
        StepAgrees(before, program[n - 1]);
      }
    }
  }

  // ------------------------------------------------------------------------
  // Programs on objects
  // ------------------------------------------------------------------------

  /** The variables hold distinct objects from `all`, with the fields of `s`. */
  ghost predicate Represents(all: set<BadStatusOrAccess>, vars: map<nat, BadStatusOrAccess>, s: State)
    reads all
  {
    && vars.Keys == s.objects.Keys
    && (forall i :: i in vars ==> vars[i] in all && vars[i].Value() == s.objects[i])
    && (forall i, j :: i in vars && j in vars && i != j ==> vars[i] != vars[j])
  }

  /** Statements that make an object. */
  method ExecuteNew(ghost all: set<BadStatusOrAccess>, vars: map<nat, BadStatusOrAccess>, op: Op, ghost s: State)
    returns (o: BadStatusOrAccess)
    requires Represents(all, vars, s) && Allowed(s.objects.Keys, op) && (op.Create? || op.CopyNew? || op.MoveNew?)
    modifies all
    ensures fresh(o) && Represents(all + {o}, vars[op.to := o], Step(s, op))
  {
    if op.Create? {
      o := new BadStatusOrAccess(op.s);
    } else if op.CopyNew? {
      o := new BadStatusOrAccess.Copy(vars[op.from]);
    } else {
      o := new BadStatusOrAccess.Move(vars[op.from], op.moved);
    }
  }

  /** Statements that assign. */
  method ExecuteAssign(ghost all: set<BadStatusOrAccess>, vars: map<nat, BadStatusOrAccess>, op: Op, ghost s: State)
    requires Represents(all, vars, s) && Allowed(s.objects.Keys, op) && (op.CopyAssign? || op.MoveAssign?)
    modifies all
    ensures Represents(all, vars, Step(s, op))
  {
    if op.CopyAssign? {
      vars[op.to].Assign(vars[op.from]);
    } else {
      vars[op.to].AssignMove(vars[op.from], op.moved, op.left);
    }
  }

  /** A call of `what()`. */
  method ExecuteWhat(ghost all: set<BadStatusOrAccess>, vars: map<nat, BadStatusOrAccess>, op: Op, ghost s: State)
    returns (message: string)
    requires Represents(all, vars, s) && Allowed(s.objects.Keys, op) && op.CallWhat?
    modifies all
    ensures Represents(all, vars, Step(s, op))
    ensures Agrees(s) ==> Truth(s, op, message)
  {
    message := vars[op.to].What();
  }

  function Start(): State {
    State(map[], {})
  }

  /** After an assignment the target has the status that the source had, and after a
      copy the source has it too. */
  ghost predicate Passes(before: State, op: Op, after: State) {
    Allowed(before.objects.Keys, op) ==>
      && before.objects.Keys <= after.objects.Keys
      && ((op.CopyNew? || op.MoveNew? || op.CopyAssign? || op.MoveAssign?) ==>
            op.to in after.objects && after.objects[op.to].status == before.objects[op.from].status)
      && (op.CopyNew? || op.CopyAssign? ==> after.objects[op.from].status == before.objects[op.from].status)
      && (op.CallWhat? ==> after.objects[op.to].status == before.objects[op.to].status)
      && forall i :: i in before.objects && i != op.to && (op.Create? || op.CallWhat? || i != op.from) ==>
           after.objects[i] == before.objects[i]
  }

  lemma StepPasses(s: State, program: seq<Op>, n: nat)
    requires n < |program|
    ensures Passes(StateAt(s, program, n), program[n], StateAt(s, program, n + 1))
  {
  }

  /** A call of `what()` on an object that has not been moved from gives the message
      of the status that the object has. */
  ghost predicate Truth(s: State, op: Op, message: string) {
    op.CallWhat? && op.to in s.objects && op.to !in s.movedFrom ==> message == Message(s.objects[op.to].status)
  }

  /** In every program on real objects, a call of `what()` on an object that has not
      been moved from returns the message of its current status, whichever
      once-flags had fired before the assignments that led there. */
  method Run(program: seq<Op>)
    returns (vars: map<nat, BadStatusOrAccess>, messages: seq<string>, ghost all: set<BadStatusOrAccess>)
    ensures Represents(all, vars, StateAt(Start(), program, |program|))
    ensures |messages| == |program|
    ensures forall i :: 0 <= i < |program| ==> Truth(StateAt(Start(), program, i), program[i], messages[i])
    ensures forall i :: 0 <= i < |program| ==>
      Passes(StateAt(Start(), program, i), program[i], StateAt(Start(), program, i + 1))
  {
    hide Step, Allowed, Represents, Agrees, Truth, Passes;
    vars, messages, all := map[], [], {};
    NothingYet();
    for n := 0 to |program|
      invariant fresh(all) && Represents(all, vars, StateAt(Start(), program, n)) && |messages| == n
      invariant forall i :: 0 <= i < n ==> Truth(StateAt(Start(), program, i), program[i], messages[i])
    {
      var message := "";
      ghost var s := StateAt(Start(), program, n);
      SameVariables(all, vars, s);
      if Allowed(vars.Keys, program[n]) {
        CacheAgrees(Start(), program, n);
        vars, all, message := Execute(all, vars, program[n], s);
      } else {
        NothingSaid(s, program[n], message);
      }
      messages := messages + [message];
    }
    AllPass(program);
  }

  lemma AllPass(program: seq<Op>)
    ensures forall i :: 0 <= i < |program| ==>
      Passes(StateAt(Start(), program, i), program[i], StateAt(Start(), program, i + 1))
  {
    hide StateAt, Passes;
    forall i | 0 <= i < |program|
      ensures Passes(StateAt(Start(), program, i), program[i], StateAt(Start(), program, i + 1))
    {
      StepPasses(Start(), program, i);
    }
  }

  method Execute(ghost all: set<BadStatusOrAccess>, vars: map<nat, BadStatusOrAccess>, op: Op, ghost s: State)
    returns (vars': map<nat, BadStatusOrAccess>, ghost all': set<BadStatusOrAccess>, message: string)
    requires Represents(all, vars, s) && Allowed(s.objects.Keys, op) && Agrees(s)
    modifies all
    ensures Represents(all', vars', Step(s, op)) && fresh(all' - all)
    ensures Truth(s, op, message)
  {
    hide Step, Allowed, Represents, Agrees;
    vars', all', message := vars, all, "";
    if op.CallWhat? {
      message := ExecuteWhat(all, vars, op, s);
    } else if op.CopyAssign? || op.MoveAssign? {
      ExecuteAssign(all, vars, op, s);
    } else {
      var o := ExecuteNew(all, vars, op, s);
      vars', all' := vars[op.to := o], all + {o};
    }
  }

  lemma SameVariables(all: set<BadStatusOrAccess>, vars: map<nat, BadStatusOrAccess>, s: State)
    requires Represents(all, vars, s)
    ensures vars.Keys == s.objects.Keys
  {
  }

  lemma NothingSaid(s: State, op: Op, message: string)
    requires !Allowed(s.objects.Keys, op)
    ensures Truth(s, op, message)
  {
  }

  lemma NothingYet()
    ensures Represents({}, map[], Start()) && Agrees(Start())
  {
  }
}
