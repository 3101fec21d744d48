/** What the vector's operations do to the cells of one or two buffers, with counts
    of the objects that they construct and destroy there. */
module VectorAlgorithms {
  import opened Cells

  /** `size` objects followed by raw cells. */
  ghost predicate Filled<T>(b: Buffer<T>, size: nat) {
    size <= |b| && AliveIn(b, 0, size) && RawIn(b, size, |b|)
  }

  // ------------------------------------------------------------------------
  // Element types
  // ------------------------------------------------------------------------

  datatype Policy = MemcpyPolicy | ElementwiseAssignPolicy | ElementwiseSwapPolicy | ElementwiseConstructPolicy

  /** What the element type allows. */
  datatype Traits = Traits(
    triviallyRelocatable: bool,
    triviallyCopyConstructible: bool,
    triviallyDestructible: bool,
    triviallyMoveAssignable: bool,
    moveAssignOk: bool,
    swapOk: bool)
  {
    function MoveAssignmentPolicy(): Policy {
      if triviallyMoveAssignable && triviallyDestructible then MemcpyPolicy
      else if moveAssignOk then ElementwiseAssignPolicy
      else ElementwiseConstructPolicy
    }

    /** What `MemcpyFrom` demands before it moves inlined elements. */
    predicate BytesMayMove() {
      triviallyRelocatable || (triviallyMoveAssignable && triviallyDestructible)
    }

    function SwapInlinedElementsPolicy(): Policy {
      if triviallyRelocatable then MemcpyPolicy
      else if swapOk then ElementwiseSwapPolicy
      else ElementwiseConstructPolicy
    }
  }

  /** `memmove` of objects down to raw cells. Only some types can stand it. */
  method SlideBytes<T>(traits: Traits, b0: Buffer<T>, from: nat, to: nat, size: nat) returns (b: Buffer<T>)
    requires traits.triviallyRelocatable
    requires from <= to <= size <= |b0| && RawIn(b0, from, to)
    ensures b == b0[..from] + b0[to..size] + Raws(to - from) + b0[size..]
  {
    b := b0[..from] + b0[to..size] + Raws(to - from) + b0[size..];
  }

  /** The bytes of two buffers change places. */
  method ExchangeBytes<T>(traits: Traits, a0: Buffer<T>, b0: Buffer<T>) returns (a: Buffer<T>, b: Buffer<T>)
    requires traits.triviallyRelocatable
    ensures a == b0 && b == a0
  {
    a, b := b0, a0;
  }

  /** `memcpy` of objects, of which each then counts as constructed. */
  method CopyBytes<T>(traits: Traits, b0: Buffer<T>, size: nat) returns (b: Buffer<T>, ghost made: nat)
    requires traits.triviallyCopyConstructible && Filled(b0, size)
    ensures b == b0 && made == size
  {
    b, made := b0, size;
  }

  // ------------------------------------------------------------------------
  // Insertion
  // ------------------------------------------------------------------------

  function Splice<A>(s: seq<A>, at: nat, values: seq<A>): seq<A>
    requires at <= |s|
  {
    s[..at] + values + s[at..]
  }

  /** What was in front stays, the values follow, and what was behind comes after. */
  lemma SpliceCells<A>(s: seq<A>, at: nat, values: seq<A>)
    requires at <= |s|
    ensures |Splice(s, at, values)| == |s| + |values|
    ensures forall i :: 0 <= i < at ==> Splice(s, at, values)[i] == s[i]
    ensures forall i :: 0 <= i < |values| ==> Splice(s, at, values)[at + i] == values[i]
    ensures forall i :: at <= i < |s| ==> Splice(s, at, values)[i + |values|] == s[i]
  {
  }

  /** Cell `j` once a gap of `n` cells is open at `at`. */
  function Gap<T>(b: Buffer<T>, size: nat, at: nat, n: nat, j: nat): Cell<T>
    requires at <= size && size + n <= |b| && j < |b|
  {
    if at + n <= j < size + n then b[j - n] else if at <= j < size then Husk else b[j]
  }

  /** Makes room: the tail is moved to raw cells as far as it reaches beyond the
      old end, and the rest is moved up over itself. */
  method OpenGap<T>(b0: Buffer<T>, size: nat, at: nat, n: nat) returns (b: Buffer<T>, ghost made: nat)
    requires Filled(b0, size) && at <= size && n > 0 && size + n <= |b0|
    ensures made == if at + n > size then size - at else n
    ensures |b| == |b0| && forall j :: 0 <= j < |b| ==> b[j] == Gap(b0, size, at, n, j)
  {
    var end, newSize := at + n, size + n;
    var to := if end > size then end else size;
    var b1;
    b1, made := MoveUp(b0, to - n, to, newSize - to);
    if end < size {
      assert forall j :: at <= j < size ==> !b1[j].Raw?;
    }
    b := ShiftUp(b1, at, end, to - end);
    forall j | 0 <= j < |b| ensures b[j] == Gap(b0, size, at, n, j) {
      assert b[j] == ShiftedUp(b1, at, end, to - end, j);
    }
  }

  /** Filling the gap makes a splice. */
  lemma GapFilled<T>(b0: Buffer<T>, size: nat, at: nat, values: Buffer<T>, b: Buffer<T>)
    requires Filled(b0, size) && at <= size && size + |values| <= |b0| == |b| && Alive(values)
    requires forall j :: 0 <= j < |b| ==>
      b[j] == if at <= j < at + |values| then values[j - at] else Gap(b0, size, at, |values|, j)
    ensures Filled(b, size + |values|) && b[..size + |values|] == Splice(b0[..size], at, values)
  {
    assert forall j :: 0 <= j < |b| ==> (b[j].Raw? <==> size + |values| <= j);
  }

  /** `Storage::Insert` when there is room: the values are assigned to the objects
      left in the gap and constructed in the raw cells behind them. */
  method InsertInPlace<T>(b0: Buffer<T>, size: nat, at: nat, values: Buffer<T>) returns (b: Buffer<T>, ghost made: nat)
    requires Filled(b0, size) && at <= size && values != [] && size + |values| <= |b0| && Alive(values)
    ensures |b| == |b0| && Filled(b, size + |values|) && made == |values|
    ensures b[..size + |values|] == Splice(b0[..size], at, values)
  {
    hide Patch, Splice;
    var n := |values|;
    var m := if at + n > size then size - at else n;
    var b1;
    b1, made := OpenGap(b0, size, at, n);
    assert forall j :: at <= j < at + m ==> !b1[j].Raw?;
    b := AssignElements(b1, at, values[..m]);
    PatchCells(b1, at, values[..m]);
    assert forall j :: at + m <= j < at + n ==> b[j].Raw?;
    PatchCells(b, at + m, values[m..]);
    ghost var more;
    b, more := ConstructElements(b, at + m, values[m..]);
    made := made + more;
    GapFilled(b0, size, at, values, b);
  }

  /** Moves the elements out to both sides of a gap in another buffer, and
      destroys what is left of them. */
  method MoveAround<T>(b0: Buffer<T>, size: nat, at: nat, b1: Buffer<T>, n: nat)
    returns (spent: Buffer<T>, b: Buffer<T>, ghost made: nat, ghost gone: nat)
    requires Filled(b0, size) && at <= size && size + n <= |b1|
    requires RawIn(b1, 0, at) && RawIn(b1, at + n, size + n)
    ensures made == gone == size
    ensures |spent| == |b0| && AllRaw(spent) && |b| == |b1|
    ensures forall j :: 0 <= j < |b| ==> b[j] == Around(b0, size, at, b1, n, j)
  {
    hide Patch;
    PatchCells(b1, 0, b0[0..at]);
    PatchCells(b0, 0, Husks(at));
    var spent1, b2;
    spent1, b2, made := MoveElements(b0, 0, b1, 0, at);
    assert forall j :: at <= j < |b0| ==> spent1[j] == b0[j];
    PatchCells(b2, at + n, spent1[at..at + (size - at)]);
    PatchCells(spent1, at, Husks(size - at));
    ghost var more;
    spent, b, more := MoveElements(spent1, at, b2, at + n, size - at);
    made := made + more;
    assert forall j :: at + n <= j < size + n ==> b[j] == spent1[j - n];
    assert AliveIn(spent, 0, size);
    PatchCells(spent, 0, Raws(size));
    spent, gone := DestroyElements(spent, 0, size);
  }

  /** Cell `j` after `MoveAround`. */
  function Around<T>(b0: Buffer<T>, size: nat, at: nat, b1: Buffer<T>, n: nat, j: nat): Cell<T>
    requires at <= size <= |b0| && j < |b1|
  {
    if j < at then b0[j] else if at + n <= j < size + n then b0[j - n] else b1[j]
  }

  /** `Storage::Insert` into a larger buffer: the values are constructed first. */
  method InsertGrowing<T>(b0: Buffer<T>, size: nat, at: nat, values: Buffer<T>, capacity: nat)
    returns (spent: Buffer<T>, b: Buffer<T>, ghost made: nat, ghost gone: nat)
    requires Filled(b0, size) && at <= size && size + |values| <= capacity && Alive(values)
    ensures made == size + |values| && gone == size
    ensures |spent| == |b0| && AllRaw(spent) && |b| == capacity && Filled(b, size + |values|)
    ensures b[..size + |values|] == Splice(b0[..size], at, values)
  {
    hide Patch, Splice;
    PatchCells(Raws(capacity), at, values);
    var b1;
    ghost var more;
    b1, more := ConstructElements(Raws(capacity), at, values);
    spent, b, made, gone := MoveAround(b0, size, at, b1, |values|);
    made := made + more;
    Spliced(b0, size, at, values, b);
  }

  /** A buffer that holds the parts of a splice cell by cell holds the splice. */
  lemma Spliced<T>(b0: Buffer<T>, size: nat, at: nat, values: Buffer<T>, b: Buffer<T>)
    requires Filled(b0, size) && at <= size && size + |values| <= |b| && Alive(values)
    requires forall j :: 0 <= j < at ==> b[j] == b0[j]
    requires forall j :: at <= j < at + |values| ==> b[j] == values[j - at]
    requires forall j :: at + |values| <= j < size + |values| ==> b[j] == b0[j - |values|]
    requires forall j :: size + |values| <= j < |b| ==> b[j].Raw?
    ensures Filled(b, size + |values|) && b[..size + |values|] == Splice(b0[..size], at, values)
  {
    assert forall j :: 0 <= j < |b| ==> (b[j].Raw? <==> size + |values| <= j);
  }

  // ------------------------------------------------------------------------
  // Growth at the end
  // ------------------------------------------------------------------------

  /** What a new element is constructed from: an object elsewhere, or a copy of or
      a move out of one of the vector's own elements. */
  datatype Argument<T> = Outside(value: Cell<T>) | CopyOf(index: nat) | MoveOf(index: nat)

  predicate Usable<T>(s: Buffer<T>, x: Argument<T>) {
    if x.Outside? then !x.value.Raw? else x.index < |s|
  }

  function Value<T>(s: Buffer<T>, x: Argument<T>): Cell<T>
    requires Usable(s, x)
  {
    if x.Outside? then x.value else s[x.index]
  }

  /** The elements after the argument was used. */
  function Used<T>(s: Buffer<T>, x: Argument<T>): Buffer<T>
    requires Usable(s, x)
  {
    if x.MoveOf? then s[x.index := Husk] else s
  }

  /** The argument's own value is appended, and only an element that was moved out is
      left without its value. */
  lemma AppendedCells<T>(s: Buffer<T>, x: Argument<T>)
    requires Usable(s, x)
    ensures var s' := Used(s, x) + [Value(s, x)];
      && |s'| == |s| + 1
      && s'[|s|] == (if x.Outside? then x.value else s[x.index])
      && forall i :: 0 <= i < |s| ==> s'[i] == if x.MoveOf? && i == x.index then Husk else s[i]
  {
  }

  /** The same for an insertion at `at`. */
  lemma EmplacedCells<T>(s: Buffer<T>, at: nat, x: Argument<T>)
    requires Usable(s, x) && at <= |s|
    ensures var s' := Splice(Used(s, x), at, [Value(s, x)]);
      && |s'| == |s| + 1
      && s'[at] == (if x.Outside? then x.value else s[x.index])
      && (forall i :: 0 <= i < at ==> s'[i] == if x.MoveOf? && i == x.index then Husk else s[i])
      && (forall i :: at < i <= |s| ==> s'[i] == if x.MoveOf? && i - 1 == x.index then Husk else s[i - 1])
  {
  }

  lemma UsedFilled<T>(b: Buffer<T>, size: nat, x: Argument<T>)
    requires Filled(b, size) && Usable(b[..size], x)
    ensures Usable(b, x) && Value(b, x) == Value(b[..size], x) && !Value(b, x).Raw?
    ensures Filled(Used(b, x), size) && |Used(b, x)| == |b| && Used(b, x)[..size] == Used(b[..size], x)
  {
  }

  /** `Storage::EmplaceBack` when there is room. */
  method EmplaceInPlace<T>(b0: Buffer<T>, size: nat, x: Argument<T>) returns (b: Buffer<T>, ghost made: nat)
    requires Filled(b0, size) && size < |b0| && Usable(b0[..size], x)
    ensures |b| == |b0| && Filled(b, size + 1) && made == 1
    ensures b[..size + 1] == Used(b0[..size], x) + [Value(b0[..size], x)]
    ensures b[size] == if x.Outside? then x.value else b0[x.index]
    ensures forall i :: 0 <= i < size ==> b[i] == if x.MoveOf? && i == x.index then Husk else b0[i]
  {
    hide Used, Value, Patch;
    AppendedCells(b0[..size], x);
    UsedFilled(b0, size, x);
    var value := Value(b0, x);
    var b1 := Used(b0, x);
    PatchCells(b1, size, [value]);
    b, made := ConstructElements(b1, size, [value]);
    assert b[..size + 1] == b1[..size] + [value];
  }

  /** `Storage::EmplaceBackSlow`: the new element is constructed before the old
      ones are moved, so an argument inside the vector is still intact. */
  method EmplaceGrowing<T>(b0: Buffer<T>, size: nat, x: Argument<T>, capacity: nat)
    returns (spent: Buffer<T>, b: Buffer<T>, ghost made: nat, ghost gone: nat)
    requires Filled(b0, size) && size < capacity && Usable(b0[..size], x)
    ensures made == size + 1 && gone == size
    ensures |spent| == |b0| && AllRaw(spent) && |b| == capacity && Filled(b, size + 1)
    ensures b[..size + 1] == Used(b0[..size], x) + [Value(b0[..size], x)]
    ensures b[size] == if x.Outside? then x.value else b0[x.index]
    ensures forall i :: 0 <= i < size ==> b[i] == if x.MoveOf? && i == x.index then Husk else b0[i]
  {
    hide Used, Value, Patch;
    AppendedCells(b0[..size], x);
    UsedFilled(b0, size, x);
    var value := Value(b0, x);
    PatchCells(Raws(capacity), size, [value]);
    var b1;
    ghost var more;
    b1, more := ConstructElements(Raws(capacity), size, [value]);
    var old1 := Used(b0, x);
    PatchCells(b1, 0, old1[0..size]);
    PatchCells(old1, 0, Husks(size));
    spent, b, made := MoveElements(old1, 0, b1, 0, size);
    made := made + more;
    PatchCells(spent, 0, Raws(size));
    spent, gone := DestroyElements(spent, 0, size);
    assert b[..size + 1] == old1[..size] + [value];
  }

  // ------------------------------------------------------------------------
  // Erasure
  // ------------------------------------------------------------------------

  function Cut<A>(s: seq<A>, from: nat, to: nat): seq<A>
    requires from <= to <= |s|
  {
    s[..from] + s[to..]
  }

  /** A cut takes back a splice. */
  lemma CutSplice<A>(s: seq<A>, at: nat, values: seq<A>)
    requires at <= |s|
    ensures at + |values| <= |Splice(s, at, values)| && Cut(Splice(s, at, values), at, at + |values|) == s
  {
  }

  /** `Storage::Erase`: destroy the window and slide the tail over it bytewise, or
      move-assign the tail down and destroy what is left behind. */
  method EraseRange<T>(b0: Buffer<T>, size: nat, from: nat, to: nat, traits: Traits)
    returns (b: Buffer<T>, ghost gone: nat)
    requires Filled(b0, size) && from < to <= size
    ensures gone == to - from
    ensures |b| == |b0| && Filled(b, size - (to - from)) && b[..size - (to - from)] == Cut(b0[..size], from, to)
  {
    hide Patch;
    var n := to - from;
    if traits.triviallyRelocatable {
      PatchCells(b0, from, Raws(n));
      b, gone := DestroyElements(b0, from, n);
      b := SlideBytes(traits, b, from, to, size);
    } else {
      b := ShiftDown(b0, to, from, size - to);
      assert forall j :: size - n <= j < size ==> !b[j].Raw?;
      PatchCells(b, size - n, Raws(n));
      b, gone := DestroyElements(b, size - n, n);
    }
    Closed(b0, size, from, to, b);
  }

  lemma Closed<T>(b0: Buffer<T>, size: nat, from: nat, to: nat, b: Buffer<T>)
    requires Filled(b0, size) && from < to <= size && |b| == |b0|
    requires forall j :: 0 <= j < from ==> b[j] == b0[j]
    requires forall j :: from <= j < size - (to - from) ==> b[j] == b0[j + (to - from)]
    requires forall j :: size - (to - from) <= j < |b| ==> b[j].Raw?
    ensures Filled(b, size - (to - from)) && b[..size - (to - from)] == Cut(b0[..size], from, to)
  {
    assert forall j :: 0 <= j < |b| ==> (b[j].Raw? <==> size - (to - from) <= j);
  }

  // ------------------------------------------------------------------------
  // Assignment
  // ------------------------------------------------------------------------

  /** The source of assigned values: a range elsewhere, copies of an object
      elsewhere, or copies of one of the vector's own elements. */
  datatype Adapter<T> = Each(values: Buffer<T>) | CopiesOf(value: Cell<T>) | CopiesAt(index: nat)

  predicate Gives<T>(own: Buffer<T>, values: Adapter<T>, n: nat) {
    match values
    case Each(s) => |s| == n && forall i :: 0 <= i < n ==> !s[i].Raw?
    case CopiesOf(v) => !v.Raw?
    case CopiesAt(i) => i < |own| && !own[i].Raw?
  }

  /** The `k`-th value, read while the vector's own cells are `own`. */
  function Next<T>(own: Buffer<T>, values: Adapter<T>, n: nat, k: nat): Cell<T>
    requires Gives(own, values, n) && k < n
  {
    match values
    case Each(s) => s[k]
    case CopiesOf(v) => v
    case CopiesAt(i) => own[i]
  }

  /** All values, read before anything changes. */
  function Given<T>(own: Buffer<T>, values: Adapter<T>, n: nat): (r: Buffer<T>)
    requires Gives(own, values, n)
    ensures |r| == n && forall k :: 0 <= k < n ==> r[k] == Next(own, values, n, k)
  {
    seq(n, k requires 0 <= k < n => Next(own, values, n, k))
  }

  /** `Storage::Assign` when there is room. The adapter reads the vector's own
      cells while they change, and still gives what it would have given before. */
  method AssignInPlace<T>(b0: Buffer<T>, size: nat, values: Adapter<T>, n: nat)
    returns (b: Buffer<T>, ghost made: nat, ghost gone: nat)
    requires Filled(b0, size) && n <= |b0| && Gives(b0[..size], values, n)
    ensures if n < size then made == 0 && gone == size - n else made == n - size && gone == 0
    ensures |b| == |b0| && Filled(b, n) && b[..n] == Given(b0[..size], values, n)
  {
    hide Patch;
    b, made, gone := b0, 0, 0;
    var i := 0;
    while i < n
      invariant made == if i < size then 0 else i - size
      invariant 0 <= i <= n && |b| == |b0| && Gives(b, values, n)
      invariant forall k :: 0 <= k < n ==> Next(b, values, n, k) == Next(b0[..size], values, n, k)
      invariant forall j :: 0 <= j < i ==> b[j] == Next(b0[..size], values, n, j) && !b[j].Raw?
      invariant forall j :: i <= j < |b| ==> b[j] == b0[j]
    {
      if b[i].Raw? {
        made := made + 1;  // constructed where there was no object, and assigned elsewhere
      }
      b := b[i := Next(b, values, n, i)];
      i := i + 1;
    }
    if n < size {
      PatchCells(b, n, Raws(size - n));
      b, gone := DestroyElements(b, n, size - n);
    }
  }

  /** `Storage::Assign` into a larger buffer: the old elements are destroyed last. */
  method AssignGrowing<T>(b0: Buffer<T>, size: nat, values: Adapter<T>, n: nat, capacity: nat)
    returns (spent: Buffer<T>, b: Buffer<T>, ghost made: nat, ghost gone: nat)
    requires Filled(b0, size) && n <= capacity && Gives(b0[..size], values, n)
    ensures made == n && gone == size
    ensures |spent| == |b0| && AllRaw(spent) && |b| == capacity && Filled(b, n)
    ensures b[..n] == Given(b0[..size], values, n)
  {
    hide Patch;
    var given := Given(b0[..size], values, n);
    assert forall k :: 0 <= k < n ==> given[k] == Next(b0[..size], values, n, k);
    PatchCells(Raws(capacity), 0, given);
    b, made := ConstructElements(Raws(capacity), 0, given);
    PatchCells(b0, 0, Raws(size));
    spent, gone := DestroyElements(b0, 0, size);
  }

  // ------------------------------------------------------------------------
  // Swapping inlined elements
  // ------------------------------------------------------------------------

  /** `SwapN`: exchanges the first `n` objects, by their swap function or through
      a temporary. */
  method SwapN<T>(policy: Policy, traits: Traits, a0: Buffer<T>, b0: Buffer<T>, n: nat)
    returns (a: Buffer<T>, b: Buffer<T>, ghost made: nat, ghost gone: nat)
    requires n <= |a0| && n <= |b0| && AliveIn(a0, 0, n) && AliveIn(b0, 0, n)
    requires policy.ElementwiseSwapPolicy? ==> traits.swapOk
    ensures made == gone
    ensures a == Patch(a0, 0, b0[..n]) && b == Patch(b0, 0, a0[..n])
  {
    a, b, made, gone := a0, b0, 0, 0;
    for i := 0 to n
      invariant |a| == |a0| && |b| == |b0| && made == gone
      invariant forall j :: 0 <= j < i ==> a[j] == b0[j] && b[j] == a0[j]
      invariant forall j :: i <= j < |a| ==> a[j] == a0[j]
      invariant forall j :: i <= j < |b| ==> b[j] == b0[j]
    {
      if policy.ElementwiseSwapPolicy? {
        a, b := a[i := b[i]], b[i := a[i]];
      } else {
        var tmp := a[i];
        a, made, gone := a[i := Raw], made + 1, gone + 1;
        a, b, made := a[i := b[i]], b[i := Husk], made + 1;
        b, gone := b[i := Raw], gone + 1;
        b, made := b[i := tmp], made + 1;
        gone := gone + 1;  // the temporary
      }
    }
  }

  /** The surplus of the larger vector moves to the smaller one. */
  method MoveSurplus<T>(small0: Buffer<T>, smallSize: nat, large0: Buffer<T>, largeSize: nat)
    returns (small: Buffer<T>, large: Buffer<T>, ghost made: nat, ghost gone: nat)
    requires Filled(small0, smallSize) && Filled(large0, largeSize) && smallSize <= largeSize <= |small0|
    ensures |small| == |small0| && Filled(small, largeSize) && |large| == |large0| && Filled(large, smallSize)
    ensures small[..largeSize] == small0[..smallSize] + large0[smallSize..largeSize]
    ensures large[..smallSize] == large0[..smallSize] && made == gone == largeSize - smallSize
  {
    hide Patch;
    var diff := largeSize - smallSize;
    PatchCells(small0, smallSize, large0[smallSize..smallSize + diff]);
    PatchCells(large0, smallSize, Husks(diff));
    large, small, made := MoveElements(large0, smallSize, small0, smallSize, diff);
    PatchCells(large, smallSize, Raws(diff));
    large, gone := DestroyElements(large, smallSize, diff);
  }

  lemma SwappedFilled<T>(a: Buffer<T>, size: nat, n: nat, cells: Buffer<T>)
    requires Filled(a, size) && n == |cells| <= size && Alive(cells)
    ensures Filled(Patch(a, 0, cells), size) && Patch(a, 0, cells)[..size] == cells + a[n..size]
  {
    PatchCells(a, 0, cells);
  }

  /** `SwapInlinedElements`. */
  method SwapInlined<T>(policy: Policy, traits: Traits, a0: Buffer<T>, aSize: nat, b0: Buffer<T>, bSize: nat)
    returns (a: Buffer<T>, b: Buffer<T>, ghost made: nat, ghost gone: nat)
    requires |a0| == |b0| && Filled(a0, aSize) && Filled(b0, bSize)
    requires policy.MemcpyPolicy? ==> traits.triviallyRelocatable
    requires policy.ElementwiseSwapPolicy? ==> traits.swapOk
    ensures made == gone
    ensures |a| == |a0| && Filled(a, bSize) && a[..bSize] == b0[..bSize]
    ensures |b| == |b0| && Filled(b, aSize) && b[..aSize] == a0[..aSize]
  {
    hide Patch;
    if policy.MemcpyPolicy? {
      made, gone := 0, 0;
      a, b := ExchangeBytes(traits, a0, b0);
    } else {
      var n := if aSize > bSize then bSize else aSize;
      assert a0[..n] == a0[..aSize][..n] && b0[..n] == b0[..bSize][..n];
      ghost var made1, gone1;
      a, b, made1, gone1 := SwapN(policy, traits, a0, b0, n);
      SwappedFilled(a0, aSize, n, b0[..n]);
      SwappedFilled(b0, bSize, n, a0[..n]);
      if aSize > bSize {
        var a1 := a;
        b, a, made, gone := MoveSurplus(b, bSize, a, aSize);
        assert b[..aSize] == a0[..n] + a0[n..aSize] by { assert a1[bSize..aSize] == a1[..aSize][bSize..]; }
        assert a[..bSize] == b0[..n] by { assert a1[..bSize] == a1[..aSize][..bSize]; }
      } else {
        var b1 := b;
        a, b, made, gone := MoveSurplus(a, aSize, b, bSize);
        assert a[..bSize] == b0[..n] + b0[n..bSize] by { assert b1[aSize..bSize] == b1[..bSize][aSize..]; }
        assert b[..aSize] == a0[..n] by { assert b1[..aSize] == b1[..bSize][..aSize]; }
      }
      made, gone := made + made1, gone + gone1;
    }
  }
}
