/** Whole programs over keys: the counted heap behaves like a table of plain
    values, and a chain of updates keeps the first error. */
module KeyRuns {
  import opened Payloads
  import opened KeyHeap
  import opened Keys
  import opened Variables

  // ------------------------------------------------------------------------
  // The first error wins
  // ------------------------------------------------------------------------

  /** The first status that is not OK, or the last one. */
  function FirstError(s: Status, rest: seq<Status>): Status
    decreases |rest|
  {
    if rest == [] || !IsOkStatus(s) then s else FirstError(rest[0], rest[1..])
  }

  lemma {:induction false} FirstErrorIsFirst(s: Status, rest: seq<Status>)
    ensures var all := [s] + rest; var r := FirstError(s, rest);
      && r in all
      && (IsOkStatus(r) ==> forall i :: 0 <= i < |all| ==> IsOkStatus(all[i]))
      && (!IsOkStatus(r) ==> exists i :: 0 <= i < |all| && r == all[i] && forall j :: 0 <= j < i ==> IsOkStatus(all[j]))
    decreases |rest|
  {
    var all := [s] + rest;
    if rest == [] || !IsOkStatus(s) {
      assert all[0] == s;
    } else {
      FirstErrorIsFirst(rest[0], rest[1..]);
      var tail := [rest[0]] + rest[1..];
      assert tail == rest && forall i :: 1 <= i < |all| ==> all[i] == tail[i - 1];
      var r := FirstError(s, rest);
      if !IsOkStatus(r) {
        var i :| 0 <= i < |tail| && r == tail[i] && forall j :: 0 <= j < i ==> IsOkStatus(tail[j]);
        assert r == all[i + 1] && forall j :: 0 <= j < i + 1 ==> IsOkStatus(all[j]);
      }
    }
  }

  /** What all keys show after `k` was updated from `x`. */
  ghost function Updated(shows: map<Key, Status>, k: Key, x: Key, move: bool): map<Key, Status>
    requires k in shows && x in shows
  {
    if !IsOkStatus(shows[k]) || (move && IsOkStatus(shows[x])) then shows
    else if move then shows[k := shows[x]][x := Moved]
    else shows[k := shows[x]]
  }

  ghost predicate AllIn(xs: seq<Key>, shows: map<Key, Status>) {
    forall i :: 0 <= i < |xs| ==> xs[i] in shows
  }

  ghost function UpdatedAll(shows: map<Key, Status>, k: Key, xs: seq<Key>, moves: seq<bool>): map<Key, Status>
    requires k in shows && AllIn(xs, shows) && |moves| == |xs|
    decreases |xs|
  {
    if xs == [] then shows else UpdatedAll(Updated(shows, k, xs[0], moves[0]), k, xs[1..], moves[1..])
  }

  ghost function Statuses(shows: map<Key, Status>, xs: seq<Key>): seq<Status>
    requires AllIn(xs, shows)
  {
    if xs == [] then [] else [shows[xs[0]]] + Statuses(shows, xs[1..])
  }

  /** An OK status carries nothing else. */
  ghost predicate Plain(shows: map<Key, Status>) {
    forall j :: j in shows && IsOkStatus(shows[j]) ==> shows[j] == Live(OK, "", map[])
  }

  lemma {:induction false} ErrorsStay(shows: map<Key, Status>, k: Key, xs: seq<Key>, moves: seq<bool>)
    requires k in shows && AllIn(xs, shows) && |moves| == |xs| && !IsOkStatus(shows[k])
    ensures UpdatedAll(shows, k, xs, moves) == shows
    decreases |xs|
  {
    if xs != [] {
      ErrorsStay(shows, k, xs[1..], moves[1..]);
    }
  }

  /** However copies and moves are mixed, and however the sources repeat or
      include `k` itself, `k` ends with the first error; the only other change
      is that the one source it was moved from is left moved-from. */
  lemma {:induction false} FirstErrorWins(shows: map<Key, Status>, k: Key, xs: seq<Key>, moves: seq<bool>)
    requires k in shows && AllIn(xs, shows) && |moves| == |xs| && Plain(shows)
    ensures var r := UpdatedAll(shows, k, xs, moves);
      && r.Keys == shows.Keys
      && r[k] == FirstError(shows[k], Statuses(shows, xs))
      && forall j :: j in shows && j != k && r[j] != shows[j] ==> r[j] == Moved && r[k] == shows[j]
    decreases |xs|
  {
    if xs != [] && IsOkStatus(shows[k]) {
      var next := Updated(shows, k, xs[0], moves[0]);
      assert Statuses(shows, xs)[1..] == Statuses(shows, xs[1..]);
      if IsOkStatus(shows[xs[0]]) {
        assert next == shows;
        FirstErrorWins(shows, k, xs[1..], moves[1..]);
      } else {
        ErrorsStay(next, k, xs[1..], moves[1..]);
      }
    } else if xs != [] {
      ErrorsStay(shows, k, xs, moves);
    }
  }

  method UpdateAll(h: Heap, k: Key, xs: seq<Key>, moves: seq<bool>)
    requires h.Valid() && k in h.keys && |moves| == |xs| && forall i :: 0 <= i < |xs| ==> xs[i] in h.keys
    modifies h`reps, h.keys
    ensures h.Valid() && h.keys == old(h.keys)
    ensures AllIn(xs, old(h.Shows())) && h.Shows() == UpdatedAll(old(h.Shows()), k, xs, moves)
    ensures h.Shows()[k] == FirstError(old(h.Shows())[k], Statuses(old(h.Shows()), xs))
  {
    hide Shown, Ok, UpdatedAll, FirstError, Statuses;
    ShownPlain(h.reps, h.Words());
    FirstErrorWins(h.Shows(), k, xs, moves);
    ghost var all := UpdatedAll(h.Shows(), k, xs, moves);
    var i := 0;
    assert xs[0..] == xs && moves[0..] == moves;
    while i < |xs|
      invariant 0 <= i <= |xs| && h.Valid() && h.keys == old(h.keys)
      invariant AllIn(xs[i..], h.Shows()) && UpdatedAll(h.Shows(), k, xs[i..], moves[i..]) == all
    {
      UpdatedAllStep(h.Shows(), k, xs[i..], moves[i..]);
      UpdateOne(h, k, xs[i], moves[i]);
      assert xs[i..][1..] == xs[i + 1..] && moves[i..][1..] == moves[i + 1..];
      i := i + 1;
    }
    UpdatedAllNone(h.Shows(), k, xs[i..], moves[i..]);
  }

  lemma UpdatedKeys(shows: map<Key, Status>, k: Key, x: Key, move: bool)
    requires k in shows && x in shows
    ensures Updated(shows, k, x, move).Keys == shows.Keys
  {
  }

  lemma UpdatedAllStep(shows: map<Key, Status>, k: Key, xs: seq<Key>, moves: seq<bool>)
    requires k in shows && AllIn(xs, shows) && |moves| == |xs| && xs != []
    ensures var next := Updated(shows, k, xs[0], moves[0]);
      && next.Keys == shows.Keys
      && AllIn(xs[1..], next)
      && UpdatedAll(shows, k, xs, moves) == UpdatedAll(next, k, xs[1..], moves[1..])
  {
    hide Updated;
    UpdatedKeys(shows, k, xs[0], moves[0]);
  }

  lemma UpdatedAllNone(shows: map<Key, Status>, k: Key, xs: seq<Key>, moves: seq<bool>)
    requires k in shows && AllIn(xs, shows) && |moves| == |xs| && xs == []
    ensures UpdatedAll(shows, k, xs, moves) == shows
  {
  }

  method UpdateOne(h: Heap, k: Key, x: Key, move: bool)
    requires h.Valid() && k in h.keys && x in h.keys
    modifies h`reps, k, x
    ensures h.Valid() && k in old(h.Shows()) && x in old(h.Shows())
    ensures h.Shows() == Updated(old(h.Shows()), k, x, move)
  {
    hide Shown, Ok;
    if move {
      k.UpdateMove(h, x);
    } else {
      k.Update(h, x);
    }
  }

  /** The heap invariant makes every OK status plain. */
  lemma ShownPlain(reps: Reps, words: map<Key, nat>)
    requires Ok(reps, words)
    ensures Plain(Shown(reps, words))
  {
    forall k | k in words && IsOkStatus(Shown(reps, words)[k]) ensures Shown(reps, words)[k] == Live(OK, "", map[]) {
      OkWord(reps, words, k);
      InlinedWord(reps, OK);
    }
  }

  // ------------------------------------------------------------------------
  // Programs
  // ------------------------------------------------------------------------

  /** One statement of a program that holds keys in numbered variables. */
  datatype Op =
    | Create(to: nat, code: Code, msg: string)
    | CopyNew(to: nat, from: nat)
    | MoveNew(to: nat, from: nat)
    | CopyAssign(to: nat, from: nat)
    | MoveAssign(to: nat, from: nat)
    | SwapKeys(to: nat, from: nat)
    | CopyUpdate(to: nat, from: nat)
    | MoveUpdate(to: nat, from: nat)
    | PutPayload(to: nat, url: string, data: string)
    | DropPayload(to: nat, url: string)
    | Destroy(to: nat)

  type Values = map<nat, Status>

  /** Constructors need a free variable, everything else live ones. */
  predicate Allowed(vars: set<nat>, op: Op) {
    match op
    case Create(to, _, _) => to !in vars
    case CopyNew(to, from) => to !in vars && from in vars
    case MoveNew(to, from) => to !in vars && from in vars
    case CopyAssign(to, from) => to in vars && from in vars
    case MoveAssign(to, from) => to in vars && from in vars
    case SwapKeys(to, from) => to in vars && from in vars
    case CopyUpdate(to, from) => to in vars && from in vars
    case MoveUpdate(to, from) => to in vars && from in vars
    case PutPayload(to, _, _) => to in vars
    case DropPayload(to, _) => to in vars
    case Destroy(to) => to in vars
  }

  /** A status that needs no record. */
  predicate Bare(s: Status) {
    s.Moved? || (s.message == "" && s.payloads == map[])
  }

  /** The meaning of a statement on plain, unshared values. Only move assignment
      leaves a choice: between different keys with equal values it may do nothing,
      as it must if the values are bare. */
  ghost predicate Means(before: Values, op: Op, after: Values) {
    Allowed(before.Keys, op) &&
    match op
    case Create(to, code, msg) => after == before[to := Live(code, if code == OK then "" else msg, map[])]
    case CopyNew(to, from) => after == before[to := before[from]]
    case MoveNew(to, from) => after == before[to := before[from]][from := Moved]
    case CopyAssign(to, from) => after == before[to := before[from]]
    case MoveAssign(to, from) =>
      if to == from || (before[to] == before[from] && Bare(before[to])) then after == before
      else after == before[to := before[from]][from := Moved] || (before[to] == before[from] && after == before)
    case SwapKeys(to, from) => after == before[to := before[from]][from := before[to]]
    case CopyUpdate(to, from) => after == if IsOkStatus(before[to]) then before[to := before[from]] else before
    case MoveUpdate(to, from) =>
      after == if IsOkStatus(before[to]) && !IsOkStatus(before[from])
               then before[to := before[from]][from := Moved] else before
    case PutPayload(to, url, data) =>
      after == if IsOkStatus(before[to]) then before else before[to := WithPayload(before[to], url, data)]
    case DropPayload(to, url) => after == before[to := WithoutPayload(before[to], url)]
    case Destroy(to) => after == before - {to}
  }

  /** Statements that make or destroy a key. */
  method ExecuteLifetime(h: Heap, vars: map<nat, Key>, op: Op) returns (vars': map<nat, Key>)
    requires h.Valid() && Holds(h.keys, vars) && Allowed(vars.Keys, op)
    requires op.Create? || op.CopyNew? || op.MoveNew? || op.Destroy?
    modifies h, h.keys
    ensures h.Valid() && Holds(h.keys, vars') && fresh(h.keys - old(h.keys))
    ensures Means(Read(old(h.Shows()), vars), op, Read(h.Shows(), vars'))
  {
    hide Ok, Shown, Holds;
    ghost var keys, shows := h.keys, h.Shows();
    HoldsKeys(keys, vars);
    var to := op.to;
    if op.Destroy? {
      ReadDrop(shows, vars, keys, to);
      vars[to].Destroy(h);
      vars' := vars - {to};
    } else if op.Create? {
      var k := new Key(h, op.code, op.msg);
      vars' := vars[to := k];
      ReadNew(shows, vars, keys, to, k, h.Shows()[k]);
    } else if op.CopyNew? {
      var k := new Key.Copy(h, vars[op.from]);
      vars' := vars[to := k];
      ReadNew(shows, vars, keys, to, k, shows[vars[op.from]]);
    } else {
      var k := new Key.Move(h, vars[op.from]);
      vars' := vars[to := k];
      ReadNew(shows, vars, keys, to, k, shows[vars[op.from]]);
      ReadPut(shows[k := shows[vars[op.from]]], vars', keys + {k}, op.from, Moved);
    }
  }

  /** Keys that show the same bare status hold the same word. */
  lemma BareWords(reps: Reps, words: map<Key, nat>, j: Key, k: Key)
    requires Ok(reps, words) && j in words && k in words
    requires Shown(reps, words)[j] == Shown(reps, words)[k] && Bare(Shown(reps, words)[j])
    ensures words[j] == words[k]
  {
    hide Ok, Shown, View, WordOk, IsInlined;
    KeyWord(reps, words, j);
    KeyWord(reps, words, k);
    BareInlined(reps, words, j);
    if words[j] != words[k] {
      WordsTell(reps, words, j, k);
    }
  }

  lemma BareInlined(reps: Reps, words: map<Key, nat>, k: Key)
    requires Ok(reps, words) && k in words && WordOk(reps, words[k]) && Bare(View(reps, words[k]))
    ensures IsInlined(words[k])
  {
    if words[k] in reps {
      MapSize(reps[words[k]].payloads);
    }
  }

  /** Statements that copy or move between live keys. */
  method ExecuteTransfer(h: Heap, vars: map<nat, Key>, op: Op)
    requires h.Valid() && Holds(h.keys, vars) && Allowed(vars.Keys, op)
    requires op.CopyAssign? || op.MoveAssign? || op.SwapKeys? || op.CopyUpdate? || op.MoveUpdate?
    modifies h`reps, h.keys
    ensures h.Valid() && h.keys == old(h.keys)
    ensures Means(Read(old(h.Shows()), vars), op, Read(h.Shows(), vars))
  {
    hide Ok, Shown, Holds, View, WordOk, IsInlined;
    ghost var keys, shows := h.keys, h.Shows();
    HoldsKeys(keys, vars);
    var k, x := vars[op.to], vars[op.from];
    ReadPut(shows, vars, keys, op.to, shows[x]);
    ReadPut(shows[k := shows[x]], vars, keys, op.from, Moved);
    ReadPut(shows[k := shows[x]], vars, keys, op.from, shows[k]);
    KeyWord(h.reps, h.Words(), k);
    KeyWord(h.reps, h.Words(), x);
    if shows[k] == shows[x] && Bare(shows[k]) {
      BareWords(h.reps, h.Words(), k, x);
    }
    match op
    case CopyAssign(_, _) => k.Assign(h, x);
    case MoveAssign(_, _) => k.AssignMove(h, x);
    case SwapKeys(_, _) => k.SwapWith(h, x);
    case CopyUpdate(_, _) => k.Update(h, x);
    case MoveUpdate(_, _) => k.UpdateMove(h, x);
  }

  /** Statements that edit the payloads of one key. */
  method ExecutePayload(h: Heap, vars: map<nat, Key>, op: Op)
    requires h.Valid() && Holds(h.keys, vars) && Allowed(vars.Keys, op)
    requires op.PutPayload? || op.DropPayload?
    modifies h`reps, h.keys
    ensures h.Valid() && h.keys == old(h.keys)
    ensures Means(Read(old(h.Shows()), vars), op, Read(h.Shows(), vars))
  {
    hide Ok, Shown, Holds;
    ghost var keys, shows := h.keys, h.Shows();
    HoldsKeys(keys, vars);
    var k := vars[op.to];
    match op
    case PutPayload(to, url, data) =>
      ReadPut(shows, vars, keys, to, WithPayload(shows[k], url, data));
      k.SetPayload(h, url, data);
    case DropPayload(to, url) =>
      ReadPut(shows, vars, keys, to, WithoutPayload(shows[k], url));
      var erased := k.ErasePayload(h, url);
  }

  /** A statement that names the wrong variables is left out. */
  ghost predicate Follows(before: Values, op: Op, after: Values) {
    if Allowed(before.Keys, op) then Means(before, op, after) else after == before
  }

  method Execute(h: Heap, vars: map<nat, Key>, op: Op) returns (vars': map<nat, Key>)
    requires h.Valid() && Holds(h.keys, vars)
    modifies h, h.keys
    ensures h.Valid() && Holds(h.keys, vars') && fresh(h.keys - old(h.keys))
    ensures Follows(Read(old(h.Shows()), vars), op, Read(h.Shows(), vars'))
  {
    hide Ok, Shown, Holds, Means;
    HoldsKeys(h.keys, vars);
    vars' := vars;
    if Allowed(vars.Keys, op) {
      if op.Create? || op.CopyNew? || op.MoveNew? || op.Destroy? {
        vars' := ExecuteLifetime(h, vars, op);
      } else if op.PutPayload? || op.DropPayload? {
        ExecutePayload(h, vars, op);
      } else {
        ExecuteTransfer(h, vars, op);
      }
      HoldsKeys(h.keys, vars');
    }
  }

  /** Every program of copies, moves, assignments, swaps, updates, payload edits
      and destructions computes on the counted, shared heap what it would on
      plain values; the counts are right after every statement, so nothing
      dangles, and nothing is left when no variable is. */
  method Run(program: seq<Op>) returns (h: Heap, vars: map<nat, Key>, ghost trace: seq<Values>)
    ensures fresh(h) && h.Valid() && Holds(h.keys, vars)
    ensures |trace| == |program| + 1 && trace[0] == map[] && trace[|program|] == Read(h.Shows(), vars)
    ensures forall i :: 0 <= i < |program| ==> Follows(trace[i], program[i], trace[i + 1])
    ensures vars == map[] ==> h.reps == map[]
  {
    hide Ok, Shown, Follows;
    h := new Heap();
    vars := map[];
    trace := [map[]];
    var i := 0;
    while i < |program|
      invariant 0 <= i <= |program| && fresh(h) && h.Valid() && Holds(h.keys, vars) && fresh(h.keys)
      invariant |trace| == i + 1 && trace[0] == map[] && trace[i] == Read(h.Shows(), vars)
      invariant forall j :: 0 <= j < i ==> Follows(trace[j], program[j], trace[j + 1])
    {
      vars := Execute(h, vars, program[i]);
      trace := trace + [Read(h.Shows(), vars)];
      i := i + 1;
    }
    if vars == map[] {
      assert h.Words() == map[];
      NoKeysNoRecords(h.reps, h.Words());
    }
  }

  // ------------------------------------------------------------------------
  // Questions and answers
  // ------------------------------------------------------------------------

  /** A key made from a code and a message answers with them. */
  method MakeAndAsk(code: Code, msg: string) returns (c: Code, m: string, ok: bool)
    ensures c == code && m == (if code == 0 then "" else msg) && (ok <==> code == 0)
  {
    hide Ok, Shown;
    var h := new Heap();
    var k := new Key(h, code, msg);
    c := k.RawCode(h);
    m := k.Message(h);
    ok := k.IsOk(h);
  }

  /** What a key answers about itself and one type URL. */
  datatype Answers = Answers(code: Code, message: string, found: bool, data: string)

  ghost function AnswersOf(s: Status, url: string): Answers {
    if HasPayload(s, url) then Answers(ObservedCode(s), ObservedMessage(s), true, s.payloads[url])
    else Answers(ObservedCode(s), ObservedMessage(s), false, "")
  }

  method Ask(h: Heap, k: Key, url: string) returns (r: Answers)
    requires h.Valid() && k in h.keys
    ensures r == AnswersOf(h.Shows()[k], url)
  {
    hide Ok, Shown;
    var code := k.RawCode(h);
    var message := k.Message(h);
    var found, data := k.GetPayload(h, url);
    r := Answers(code, message, found, if found then data else "");
  }

  /** A payload set on a key that shares its record with a copy: the key keeps its
      code and message and has the payload, and the copy has not. */
  method SetAndAsk(code: Code, msg: string, url: string, data: string) returns (k: Answers, copy: Answers)
    requires code != 0
    ensures k == Answers(code, msg, true, data) && copy == Answers(code, msg, false, "")
  {
    hide Ok, Shown;
    var h := new Heap();
    var key := new Key(h, code, msg);
    var other := new Key.Copy(h, key);
    key.SetPayload(h, url, data);
    k := Ask(h, key, url);
    copy := Ask(h, other, url);
  }

  /** The payload erased again: the key answers as before, and says that it was there
      exactly once. */
  method EraseAndAsk(code: Code, msg: string, url: string, data: string)
    returns (k: Answers, erased: bool, again: bool)
    requires code != 0
    ensures k == Answers(code, msg, false, "") && erased && !again
  {
    hide Ok, Shown;
    var h := new Heap();
    var key := new Key(h, code, msg);
    key.SetPayload(h, url, data);
    erased := key.ErasePayload(h, url);
    again := key.ErasePayload(h, url);
    k := Ask(h, key, url);
  }
}
