/** Whole programs over inlined vectors: whatever the storage does, the vectors
    behave like plain sequences, and every block is released exactly once. */
module VectorRuns {
  import opened Cells
  import opened VectorAlgorithms
  import opened VectorStorage
  import opened InlinedVectors
  import opened Variables

  /** A change to one vector. A range comes from multi-pass or from single-pass
      iterators. */
  datatype Edit<T> =
    | PushBack(x: Argument<T>)
    | Pop
    | EmplaceAt(at: nat, x: Argument<T>)
    | InsertMany(at: nat, n: nat, x: Argument<T>)
    | InsertAll(at: nat, values: Buffer<T>, singlePass: bool)
    | AssignMany(n: nat, x: Argument<T>)
    | AssignAll(values: Buffer<T>, singlePass: bool)
    | EraseFrom(first: nat, last: nat)
    | ClearAll
    | ResizeTo(n: nat, x: Argument<T>)
    | ReserveFor(n: nat)
    | Shrink

  predicate NoRaw<T>(values: Buffer<T>) {
    forall i :: 0 <= i < |values| ==> !values[i].Raw?
  }

  /** Positions lie within the vector. */
  predicate Fits<T>(s: Buffer<T>, edit: Edit<T>) {
    match edit
    case PushBack(x) => Usable(s, x)
    case Pop => s != []
    case EmplaceAt(at, x) => at <= |s| && Usable(s, x)
    case InsertMany(at, n, x) => at <= |s| && !x.MoveOf? && Usable(s, x)
    case InsertAll(at, values, _) => at <= |s| && NoRaw(values)
    case AssignMany(n, x) => !x.MoveOf? && Usable(s, x)
    case AssignAll(values, _) => NoRaw(values)
    case EraseFrom(first, last) => first <= last <= |s|
    case ResizeTo(n, x) => !x.MoveOf? && Usable(s, x)
    case _ => true
  }

  /** What it makes of a plain sequence. */
  function Edited<T>(s: Buffer<T>, edit: Edit<T>): Buffer<T>
    requires Fits(s, edit)
  {
    match edit
    case PushBack(x) => Used(s, x) + [Value(s, x)]
    case Pop => s[..|s| - 1]
    case EmplaceAt(at, x) => Splice(Used(s, x), at, [Value(s, x)])
    case InsertMany(at, n, x) => Splice(s, at, Repeat(Value(s, x), n))
    case InsertAll(at, values, _) => Splice(s, at, values)
    case AssignMany(n, x) => Repeat(Value(s, x), n)
    case AssignAll(values, _) => values
    case EraseFrom(first, last) => Cut(s, first, last)
    case ClearAll => []
    case ResizeTo(n, x) => if n <= |s| then s[..n] else s + Repeat(Value(s, x), n - |s|)
    case ReserveFor(_) => s
    case Shrink => s
  }

  /** One statement of a program that holds vectors in numbered variables. */
  datatype Op<T> =
    | New(to: nat)
    | CopyNew(to: nat, from: nat)
    | MoveNew(to: nat, from: nat)
    | CopyTo(to: nat, from: nat)
    | MoveTo(to: nat, from: nat)
    | SwapWith(to: nat, from: nat)
    | Change(to: nat, edit: Edit<T>)
    | Destroy(to: nat)

  type Values<T> = map<nat, Buffer<T>>

  /** Constructors need a free variable, everything else live ones. */
  predicate Allowed<T>(before: Values<T>, op: Op<T>) {
    match op
    case New(to) => to !in before
    case CopyNew(to, from) => to !in before && from in before
    case MoveNew(to, from) => to !in before && from in before
    case CopyTo(to, from) => to in before && from in before
    case MoveTo(to, from) => to in before && from in before
    case SwapWith(to, from) => to in before && from in before
    case Change(to, edit) => to in before && Fits(before[to], edit)
    case Destroy(to) => to in before
  }

  /** A vector that was moved from is empty or keeps moved-from elements. */
  ghost predicate LeftOver<T>(s: Buffer<T>, rest: Buffer<T>) {
    rest == [] || rest == Husks(|s|)
  }

  ghost predicate Moved<T>(before: Values<T>, to: nat, from: nat, after: Values<T>)
    requires from in before
  {
    && from in after && LeftOver(before[from], after[from])
    && after == before[to := before[from]][from := after[from]]
  }

  /** The meaning of a statement on plain sequences. */
  ghost predicate Means<T>(before: Values<T>, op: Op<T>, after: Values<T>) {
    Allowed(before, op) &&
    match op
    case New(to) => after == before[to := []]
    case CopyNew(to, from) => after == before[to := before[from]]
    case MoveNew(to, from) => Moved(before, to, from, after)
    case CopyTo(to, from) => after == before[to := before[from]]
    case MoveTo(to, from) => if to == from then after == before else Moved(before, to, from, after)
    case SwapWith(to, from) => after == before[to := before[from]][from := before[to]]
    case Change(to, edit) => after == before[to := Edited(before[to], edit)]
    case Destroy(to) => after == before - {to}
  }

  /** Edits that insert or append. */
  method Insertion<T>(h: Heap<T>, v: InlinedVector<T>, edit: Edit<T>)
    requires h.Valid() && v in h.vectors && Fits(h.Shows()[v], edit)
    requires edit.PushBack? || edit.EmplaceAt? || edit.InsertMany? || edit.InsertAll?
    modifies h`blocks, h`objects, h`allocations, h`releases, v
    ensures h.Valid() && Fits(old(h.Shows()[v]), edit)
    ensures h.Shows() == old(h.Shows())[v := Edited(old(h.Shows()[v]), edit)]
  {
    hide Ok, Contents, Total, Splice, Used, Value, Usable;
    match edit
    case PushBack(x) => v.EmplaceBack(h, x);
    case EmplaceAt(at, x) => var _ := v.Emplace(h, at, x);
    case InsertMany(at, n, x) => var _ := v.InsertCopies(h, at, n, x);
    case InsertAll(at, values, singlePass) =>
      if singlePass {
        var _ := v.InsertEach(h, at, values);
      } else {
        var _ := v.InsertRange(h, at, values);
      }
  }

  lemma CopiesGiven<T>(s: Buffer<T>, n: nat, x: Argument<T>)
    requires !x.MoveOf? && Usable(s, x) && Alive(s)
    ensures var values := if x.Outside? then CopiesOf(x.value) else CopiesAt(x.index);
      Gives(s, values, n) && Given(s, values, n) == Repeat(Value(s, x), n)
  {
  }

  /** Edits that assign, erase or change size or capacity. */
  method Replacement<T>(h: Heap<T>, v: InlinedVector<T>, edit: Edit<T>)
    requires h.Valid() && v in h.vectors && Fits(h.Shows()[v], edit)
    requires !edit.PushBack? && !edit.EmplaceAt? && !edit.InsertMany? && !edit.InsertAll?
    modifies h`blocks, h`objects, h`allocations, h`releases, v
    ensures h.Valid() && Fits(old(h.Shows()[v]), edit)
    ensures h.Shows() == old(h.Shows())[v := Edited(old(h.Shows()[v]), edit)]
  {
    hide Ok, Contents, Total, Cut, Value, Usable, Given, Gives;
    assert h.Shows() == h.Shows()[v := h.Shows()[v]];
    match edit
    case Pop => v.PopBack(h);
    case AssignMany(n, x) =>
      v.About(h);
      CopiesGiven(h.Shows()[v], n, x);
      v.Assign(h, if x.Outside? then CopiesOf(x.value) else CopiesAt(x.index), n);
    case AssignAll(values, singlePass) => AssignRange(h, v, values, singlePass);
    case EraseFrom(first, last) => var _ := v.Erase(h, first, last);
    case ClearAll => v.Clear(h);
    case ResizeTo(n, x) => v.Resize(h, n, x);
    case ReserveFor(n) => v.Reserve(h, n);
    case Shrink => v.ShrinkToFit(h);
  }

  method AssignRange<T>(h: Heap<T>, v: InlinedVector<T>, values: Buffer<T>, singlePass: bool)
    requires h.Valid() && v in h.vectors && NoRaw(values)
    modifies h`blocks, h`objects, h`allocations, h`releases, v
    ensures h.Valid() && h.Shows() == old(h.Shows())[v := values]
  {
    hide Ok, Contents, Total;
    if singlePass {
      v.AssignEach(h, values);
    } else {
      assert Given(h.Shows()[v], Each(values), |values|) == values;
      v.Assign(h, Each(values), |values|);
    }
  }

  /** Statements that make or destroy a vector. */
  method ExecuteLifetime<T>(h: Heap<T>, vars: map<nat, InlinedVector<T>>, op: Op<T>)
    returns (vars': map<nat, InlinedVector<T>>)
    requires h.Valid() && Holds(h.vectors, vars) && Allowed(Read(h.Shows(), vars), op)
    requires op.New? || op.CopyNew? || op.MoveNew? || op.Destroy?
    modifies h, h.vectors
    ensures h.Valid() && Holds(h.vectors, vars') && fresh(h.vectors - old(h.vectors))
    ensures Means(Read(old(h.Shows()), vars), op, Read(h.Shows(), vars'))
  {
    hide Ok, Contents, Total, Holds;
    ghost var keys, shows := h.vectors, h.Shows();
    HoldsKeys(keys, vars);
    var to := op.to;
    if op.Destroy? {
      ReadDrop(shows, vars, keys, to);
      vars[to].Destroy(h);
      vars' := vars - {to};
    } else if op.New? {
      var v := new InlinedVector<T>(h);
      vars' := vars[to := v];
      ReadNew(shows, vars, keys, to, v, []);
    } else if op.CopyNew? {
      var v := new InlinedVector<T>.Copy(h, vars[op.from]);
      vars' := vars[to := v];
      ReadNew(shows, vars, keys, to, v, shows[vars[op.from]]);
    } else {
      var v := new InlinedVector<T>.Move(h, vars[op.from]);
      vars' := vars[to := v];
      ghost var rest := h.Shows()[vars[op.from]];
      ReadNew(shows, vars, keys, to, v, shows[vars[op.from]]);
      ReadPut(shows[v := shows[vars[op.from]]], vars', keys + {v}, op.from, rest);
      assert LeftOver(shows[vars[op.from]], rest);
    }
  }

  /** Statements that copy, move or swap between live vectors. */
  method ExecuteTransfer<T>(h: Heap<T>, vars: map<nat, InlinedVector<T>>, op: Op<T>)
    requires h.Valid() && Holds(h.vectors, vars) && Allowed(Read(h.Shows(), vars), op)
    requires op.CopyTo? || op.MoveTo? || op.SwapWith?
    modifies h`blocks, h`objects, h`allocations, h`releases, h.vectors
    ensures h.Valid() && h.vectors == old(h.vectors)
    ensures Means(Read(old(h.Shows()), vars), op, Read(h.Shows(), vars))
  {
    hide Ok, Contents, Total, Holds;
    ghost var keys, shows := h.vectors, h.Shows();
    HoldsKeys(keys, vars);
    var v, other := vars[op.to], vars[op.from];
    ReadPut(shows, vars, keys, op.to, shows[other]);
    ReadPut(shows[v := shows[other]], vars, keys, op.from, shows[v]);
    if op.CopyTo? {
      v.CopyAssign(h, other);
    } else if op.SwapWith? {
      v.Swap(h, other);
    } else {
      v.MoveAssign(h, other);
      if op.to != op.from {
        Different(keys, vars, op.to, op.from);
        ghost var rest := h.Shows()[other];
        ReadPut(shows[v := shows[other]], vars, keys, op.from, rest);
        assert LeftOver(shows[other], rest);
      }
    }
  }

  lemma Different<K>(keys: set<K>, vars: map<nat, K>, i: nat, j: nat)
    requires Holds(keys, vars) && i in vars && j in vars && i != j
    ensures vars[i] != vars[j]
  {
  }

  /** Statements that edit one vector. */
  method ExecuteChange<T>(h: Heap<T>, vars: map<nat, InlinedVector<T>>, op: Op<T>)
    requires h.Valid() && Holds(h.vectors, vars) && op.Change? && Allowed(Read(h.Shows(), vars), op)
    modifies h`blocks, h`objects, h`allocations, h`releases, h.vectors
    ensures h.Valid() && h.vectors == old(h.vectors)
    ensures Means(Read(old(h.Shows()), vars), op, Read(h.Shows(), vars))
  {
    hide Ok, Contents, Total, Holds, Edited, Fits;
    ghost var keys, shows := h.vectors, h.Shows();
    HoldsKeys(keys, vars);
    var v, edit := vars[op.to], op.edit;
    ReadPut(shows, vars, keys, op.to, Edited(shows[v], edit));
    if edit.PushBack? || edit.EmplaceAt? || edit.InsertMany? || edit.InsertAll? {
      Insertion(h, v, edit);
    } else {
      Replacement(h, v, edit);
    }
  }

  method Execute<T>(h: Heap<T>, vars: map<nat, InlinedVector<T>>, op: Op<T>)
    returns (vars': map<nat, InlinedVector<T>>)
    requires h.Valid() && Holds(h.vectors, vars) && Allowed(Read(h.Shows(), vars), op)
    modifies h, h.vectors
    ensures h.Valid() && Holds(h.vectors, vars') && fresh(h.vectors - old(h.vectors))
    ensures Means(Read(old(h.Shows()), vars), op, Read(h.Shows(), vars'))
  {
    hide Ok, Contents, Total, Holds;
    vars' := vars;
    HoldsKeys(h.vectors, vars);
    if op.New? || op.CopyNew? || op.MoveNew? || op.Destroy? {
      vars' := ExecuteLifetime(h, vars, op);
    } else if op.Change? {
      ExecuteChange(h, vars, op);
    } else {
      ExecuteTransfer(h, vars, op);
    }
  }

  /** A statement that names the wrong variables or positions is left out. */
  ghost predicate Follows<T>(before: Values<T>, op: Op<T>, after: Values<T>) {
    if Allowed(before, op) then Means(before, op, after) else after == before
  }

  /** The elements that the variables show. */
  method Look<T>(h: Heap<T>, vars: map<nat, InlinedVector<T>>) returns (values: Values<T>)
    requires h.Valid() && Holds(h.vectors, vars)
    ensures (forall i :: i in vars ==> vars[i] in h.Shows()) && values == Read(h.Shows(), vars)
  {
    hide Ok, Contents, Total, Holds;
    HoldsKeys(h.vectors, vars);
    values := map i | i in vars :: vars[i].View(h);
  }

  method Proceed<T>(h: Heap<T>, vars: map<nat, InlinedVector<T>>, op: Op<T>)
    returns (vars': map<nat, InlinedVector<T>>)
    requires h.Valid() && Holds(h.vectors, vars)
    modifies h, h.vectors
    ensures h.Valid() && Holds(h.vectors, vars') && fresh(h.vectors - old(h.vectors))
    ensures Follows(Read(old(h.Shows()), vars), op, Read(h.Shows(), vars'))
  {
    hide Ok, Contents, Total, Holds, Means, Allowed;
    HoldsKeys(h.vectors, vars);
    vars' := vars;
    var values := Look(h, vars);
    if Allowed(values, op) {
      vars' := Execute(h, vars, op);
    }
    HoldsKeys(h.vectors, vars');
  }

  /** `trace` records what the variables show before and after every statement. */
  ghost predicate Traces<T>(trace: seq<Values<T>>, program: seq<Op<T>>) {
    && |trace| == |program| + 1 && trace[0] == map[]
    && forall i :: 0 <= i < |program| ==> Follows(trace[i], program[i], trace[i + 1])
  }

  lemma TracesOn<T>(trace: seq<Values<T>>, program: seq<Op<T>>, op: Op<T>, after: Values<T>)
    requires Traces(trace, program) && Follows(trace[|program|], op, after)
    ensures Traces(trace + [after], program + [op])
  {
    hide Follows;
  }

  lemma AllGone<T>(h: Heap<T>, vars: map<nat, InlinedVector<T>>)
    requires h.Valid() && Holds(h.vectors, vars) && vars == map[]
    ensures h.blocks == map[] && h.allocations == h.releases
    ensures h.traits.triviallyDestructible || h.objects.constructed == h.objects.destroyed
  {
    hide Ok;
    NothingHeld(h.vectors, vars);
    assert h.Stores() == map[];
    assert h.Shows() == map[];
    NoVectorsNoBlocks(h.inlinedCapacity, h.blocks, h.Stores());
  }

  /** Every program of constructions, copies, moves, assignments, swaps, edits and
      destructions computes on inlined vectors what it would on plain sequences,
      for every inlined capacity and every kind of element. Throughout, each block
      has one owner; when no variable is left, no block is, as many blocks were
      released as were allocated, and as many elements were destroyed as were
      constructed, unless their destruction means nothing. */
  method Run<T>(inlinedCapacity: nat, traits: Traits, program: seq<Op<T>>)
    returns (h: Heap<T>, vars: map<nat, InlinedVector<T>>, ghost trace: seq<Values<T>>)
    requires inlinedCapacity > 0
    ensures fresh(h) && h.Valid() && Holds(h.vectors, vars)
    ensures Traces(trace, program) && trace[|program|] == Read(h.Shows(), vars)
    ensures vars == map[] ==> h.blocks == map[] && h.allocations == h.releases
    ensures vars == map[] ==> traits.triviallyDestructible || h.objects.constructed == h.objects.destroyed
  {
    hide Ok, Contents, Total, Follows, Holds;
    NoneHeld<InlinedVector<T>>();
    h := new Heap<T>(inlinedCapacity, traits);
    vars := map[];
    trace := [map[]];
    for i := 0 to |program|
      invariant fresh(h) && h.traits == traits && h.Valid() && fresh(h.vectors) && Holds(h.vectors, vars)
      invariant forall j :: j in vars ==> vars[j] in h.vectors
      invariant Traces(trace, program[..i]) && trace[i] == Read(h.Shows(), vars)
    {
      vars := Proceed(h, vars, program[i]);
      HoldsKeys(h.vectors, vars);
      TracesOn(trace, program[..i], program[i], Read(h.Shows(), vars));
      assert program[..i] + [program[i]] == program[..i + 1];
      trace := trace + [Read(h.Shows(), vars)];
    }
    assert program[..|program|] == program;
    if vars == map[] {
      AllGone(h, vars);
    }
  }

  // ------------------------------------------------------------------------
  // Where the elements are kept cannot be observed
  // ------------------------------------------------------------------------

  /** The statement finds the variables it names. */
  predicate Named<T>(vars: set<nat>, op: Op<T>) {
    match op
    case New(to) => to !in vars
    case CopyNew(to, from) => to !in vars && from in vars
    case MoveNew(to, from) => to !in vars && from in vars
    case CopyTo(to, from) => to in vars && from in vars
    case MoveTo(to, from) => to in vars && from in vars
    case SwapWith(to, from) => to in vars && from in vars
    case Change(to, _) => to in vars
    case Destroy(to) => to in vars
  }

  /** The edit replaces the contents, whatever they are. */
  predicate Replaces<T>(edit: Edit<T>) {
    match edit
    case ClearAll => true
    case AssignAll(values, _) => NoRaw(values)
    case AssignMany(_, x) => x.Outside? && !x.value.Raw?
    case _ => false
  }

  /** `to` gets what `from` holds. */
  function Passed(left: set<nat>, to: nat, from: nat): set<nat> {
    if from in left then left + {to} else left - {to}
  }

  /** The variables that hold what a move left behind, or something made of it. A
      move adds its source; copies, moves and swaps pass the mark on; giving the
      vector new contents, or destroying it, takes the mark away. */
  function Marked<T>(vars: set<nat>, left: set<nat>, op: Op<T>): set<nat> {
    if !Named(vars, op) then left else
    match op
    case New(to) => left - {to}
    case CopyNew(to, from) => Passed(left, to, from)
    case MoveNew(to, from) => Passed(left, to, from) + {from}
    case CopyTo(to, from) => Passed(left, to, from)
    case MoveTo(to, from) => if to == from then left else Passed(left, to, from) + {from}
    case SwapWith(to, from) =>
      if to in left <==> from in left then left
      else left - {to, from} + (if to in left then {from} else {to})
    case Change(to, edit) => if Replaces(edit) then left - {to} else left
    case Destroy(to) => left - {to}
  }

  /** Only the source of a move gets the mark anew; otherwise it passes from one of the
      two variables of a statement to the other. */
  lemma MarksAreFew<T>(vars: set<nat>, left: set<nat>, op: Op<T>, v: nat)
    requires v in Marked(vars, left, op) && v !in left
    ensures Named(vars, op) && !op.New? && !op.Change? && !op.Destroy?
    ensures (v == op.from && (op.MoveNew? || (op.MoveTo? && op.to != op.from)))
         || (v == op.to && op.from in left) || (v == op.from && op.to in left && op.SwapWith?)
  {
  }

  ghost function LeftBehind<T>(trace: seq<Values<T>>, program: seq<Op<T>>, i: nat): set<nat>
    requires i <= |program| < |trace|
  {
    if i == 0 then {} else Marked(trace[i - 1].Keys, LeftBehind(trace, program, i - 1), program[i - 1])
  }

  /** The same variables show the same, but for those in `left`. */
  ghost predicate AgreeOff<T>(a: Values<T>, b: Values<T>, left: set<nat>) {
    a.Keys == b.Keys && forall v :: v in a && v !in left ==> a[v] == b[v]
  }

  lemma StepAgrees<T>(a: Values<T>, b: Values<T>, left: set<nat>, op: Op<T>, a': Values<T>, b': Values<T>)
    requires AgreeOff(a, b, left) && Follows(a, op, a') && Follows(b, op, b')
    ensures AgreeOff(a', b', Marked(a.Keys, left, op))
  {
  }

  /** Runs of the same program show the same after every statement, whatever their
      inlined capacities and element traits, in every variable that does not hold
      what a move left behind. */
  lemma {:induction false} ModeIsInvisible<T>(program: seq<Op<T>>, trace: seq<Values<T>>, trace': seq<Values<T>>, i: nat)
    requires Traces(trace, program) && Traces(trace', program) && i <= |program|
    ensures AgreeOff(trace[i], trace'[i], LeftBehind(trace, program, i))
  {
    hide Follows, Marked, AgreeOff;
    if i > 0 {
      ModeIsInvisible(program, trace, trace', i - 1);
      assert Follows(trace[i - 1], program[i - 1], trace[i - 1 + 1]);
      assert Follows(trace'[i - 1], program[i - 1], trace'[i - 1 + 1]);
      StepAgrees(trace[i - 1], trace'[i - 1], LeftBehind(trace, program, i - 1), program[i - 1], trace[i], trace'[i]);
    } else {
      NothingDiffers<T>();
    }
  }

  lemma NothingDiffers<T>()
    ensures AgreeOff<T>(map[], map[], {})
  {
  }

  /** A program without moves leaves nothing behind, so nothing tells its runs apart. */
  lemma {:induction false} OnlyMovesTell<T>(program: seq<Op<T>>, trace: seq<Values<T>>, trace': seq<Values<T>>, i: nat)
    requires Traces(trace, program) && Traces(trace', program) && i <= |program|
    requires forall j :: 0 <= j < |program| ==> !program[j].MoveNew? && !program[j].MoveTo?
    ensures LeftBehind(trace, program, i) == {} && trace[i] == trace'[i]
  {
    ModeIsInvisible(program, trace, trace', i);
    if i > 0 {
      OnlyMovesTell(program, trace, trace', i - 1);
    }
  }

  /** What a move leaves behind does tell: one inlined element, and two kinds of
      elements that differ in being relocatable. */
  method MovesTell<T>(v: T, inlinedCapacity: nat, traits: Traits) returns (left: Buffer<T>, left': Buffer<T>)
    requires inlinedCapacity > 0
    ensures left == [] && left' == [Husk]
  {
    left := LeftByMove(v, inlinedCapacity, traits.(triviallyRelocatable := true));
    left' := LeftByMove(v, inlinedCapacity, traits.(triviallyRelocatable := false));
  }

  /** What the source of a move construction holds afterwards. */
  method LeftByMove<T>(v: T, inlinedCapacity: nat, traits: Traits) returns (left: Buffer<T>)
    requires inlinedCapacity > 0
    ensures left == if traits.triviallyRelocatable then [] else [Husk]
  {
    hide Ok, Contents, Total;
    var h := new Heap<T>(inlinedCapacity, traits);
    var a := new InlinedVector<T>(h);
    a.About(h);
    a.EmplaceBack(h, Outside(Live(v)));
    a.About(h);
    assert !a.store.GetIsAllocated() && |h.Shows()[a]| == 1;
    assert Husks<T>(1) == [Husk];
    var _ := new InlinedVector<T>.Move(h, a);
    left := a.View(h);
  }
}
