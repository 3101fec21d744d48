/** Element storage cell by cell: which cells hold an object, and the loops that
    construct, assign, move and destroy objects in them. Every step demands that
    its target is in the right state, so that no object is overwritten by a
    construction, assigned before construction or destroyed twice. The loops also
    count the objects they construct (`made`) and destroy (`gone`). */
module Cells {

  /** Raw memory, an object with a value, or an object that was moved from. */
  datatype Cell<T> = Raw | Live(v: T) | Husk

  type Buffer<T> = seq<Cell<T>>

  ghost predicate Alive<T>(b: Buffer<T>) {
    AliveIn(b, 0, |b|)
  }

  ghost predicate AllRaw<T>(b: Buffer<T>) {
    RawIn(b, 0, |b|)
  }

  /** Cells `lo` up to `hi` hold objects. */
  ghost predicate AliveIn<T>(b: Buffer<T>, lo: nat, hi: nat)
    requires hi <= |b|
  {
    forall j :: lo <= j < hi ==> !b[j].Raw?
  }

  ghost predicate RawIn<T>(b: Buffer<T>, lo: nat, hi: nat)
    requires hi <= |b|
  {
    forall j :: lo <= j < hi ==> b[j].Raw?
  }

  function Raws<T>(n: nat): (b: Buffer<T>)
    ensures |b| == n && forall i :: 0 <= i < n ==> b[i].Raw?
  {
    seq(n, _ => Raw)
  }

  function Husks<T>(n: nat): (b: Buffer<T>)
    ensures |b| == n && forall i :: 0 <= i < n ==> b[i].Husk?
  {
    seq(n, _ => Husk)
  }

  /** `b` with the cells from `at` on replaced by `cells`. */
  function Patch<T>(b: Buffer<T>, at: nat, cells: Buffer<T>): (r: Buffer<T>)
    requires at + |cells| <= |b|
    ensures |r| == |b|
  {
    b[..at] + cells + b[at + |cells|..]
  }

  lemma PatchCells<T>(b: Buffer<T>, at: nat, cells: Buffer<T>)
    requires at + |cells| <= |b|
    ensures forall j :: 0 <= j < |b| ==>
      Patch(b, at, cells)[j] == if at <= j < at + |cells| then cells[j - at] else b[j]
  {
  }

  /** Constructs objects in raw cells. */
  method ConstructElements<T>(b0: Buffer<T>, at: nat, values: Buffer<T>) returns (b: Buffer<T>, ghost made: nat)
    requires at + |values| <= |b0| && RawIn(b0, at, at + |values|) && Alive(values)
    ensures b == Patch(b0, at, values) && made == |values|
  {
    b, made := b0, 0;
    for i := 0 to |values|
      invariant |b| == |b0| && made == i
      invariant forall j :: 0 <= j < |b| ==> b[j] == if at <= j < at + i then values[j - at] else b0[j]
    {
      assert b[at + i].Raw?;
      b, made := b[at + i := values[i]], made + 1;
    }
  }

  /** Assigns to existing objects. */
  method AssignElements<T>(b0: Buffer<T>, at: nat, values: Buffer<T>) returns (b: Buffer<T>)
    requires at + |values| <= |b0| && AliveIn(b0, at, at + |values|) && Alive(values)
    ensures b == Patch(b0, at, values)
  {
    b := b0;
    for i := 0 to |values|
      invariant |b| == |b0|
      invariant forall j :: 0 <= j < |b| ==> b[j] == if at <= j < at + i then values[j - at] else b0[j]
    {
      assert !b[at + i].Raw?;
      b := b[at + i := values[i]];
    }
  }

  /** Destroys objects, last one first. */
  method DestroyElements<T>(b0: Buffer<T>, at: nat, n: nat) returns (b: Buffer<T>, ghost gone: nat)
    requires at + n <= |b0| && AliveIn(b0, at, at + n)
    ensures b == Patch(b0, at, Raws(n)) && gone == n
  {
    b, gone := b0, 0;
    var i := n;
    while i != 0
      invariant 0 <= i <= n && |b| == |b0| && gone == n - i
      invariant forall j :: 0 <= j < |b| ==> b[j] == if at + i <= j < at + n then Raw else b0[j]
    {
      i := i - 1;
      assert !b[at + i].Raw?;
      b, gone := b[at + i := Raw], gone + 1;
    }
  }

  /** Move-constructs objects in one buffer from objects in another. */
  method MoveElements<T>(source0: Buffer<T>, from: nat, b0: Buffer<T>, at: nat, n: nat)
    returns (source: Buffer<T>, b: Buffer<T>, ghost made: nat)
    requires from + n <= |source0| && AliveIn(source0, from, from + n)
    requires at + n <= |b0| && RawIn(b0, at, at + n)
    ensures b == Patch(b0, at, source0[from..from + n])
    ensures source == Patch(source0, from, Husks(n)) && made == n
  {
    source, b, made := source0, b0, 0;
    for i := 0 to n
      invariant |b| == |b0| && |source| == |source0| && made == i
      invariant forall j :: 0 <= j < |b| ==> b[j] == if at <= j < at + i then source0[from + (j - at)] else b0[j]
      invariant forall j :: 0 <= j < |source| ==> source[j] == if from <= j < from + i then Husk else source0[j]
    {
      assert b[at + i].Raw? && !source[from + i].Raw?;
      b, made := b[at + i := source[from + i]], made + 1;
      source := source[from + i := Husk];
    }
  }

  /** Where cell `j` ends up when a run of objects moves up. */
  function ShiftedUp<T>(b: Buffer<T>, from: nat, at: nat, n: nat, j: nat): Cell<T>
    requires from < at && at + n <= |b| && j < |b|
  {
    if at <= j < at + n then b[j - (at - from)] else if from <= j < from + n then Husk else b[j]
  }

  /** Move-constructs objects further up in the same buffer. */
  method MoveUp<T>(b0: Buffer<T>, from: nat, at: nat, n: nat) returns (b: Buffer<T>, ghost made: nat)
    requires from < at && from + n <= at && at + n <= |b0|
    requires AliveIn(b0, from, from + n) && RawIn(b0, at, at + n)
    ensures made == n
    ensures |b| == |b0| && forall j :: 0 <= j < |b| ==> b[j] == ShiftedUp(b0, from, at, n, j)
  {
    b, made := b0, 0;
    for i := 0 to n
      invariant |b| == |b0| && made == i
      invariant forall j :: at <= j < at + i ==> b[j] == b0[j - (at - from)]
      invariant forall j :: from <= j < from + i ==> b[j].Husk?
      invariant forall j :: 0 <= j < |b| && !(at <= j < at + i) && !(from <= j < from + i) ==> b[j] == b0[j]
    {
      assert b[at + i].Raw? && !b[from + i].Raw?;
      b, made := b[at + i := b[from + i]][from + i := Husk], made + 1;
    }
  }

  /** Move-assigns a run of objects upward over objects, last one first. */
  method ShiftUp<T>(b0: Buffer<T>, from: nat, at: nat, n: nat) returns (b: Buffer<T>)
    requires from < at && at + n <= |b0| && (n > 0 ==> AliveIn(b0, from, at + n))
    ensures |b| == |b0| && forall j :: 0 <= j < |b| ==> b[j] == ShiftedUp(b0, from, at, n, j)
  {
    b := b0;
    var i := n;
    while i != 0
      invariant 0 <= i <= n && |b| == |b0|
      invariant forall j :: at + i <= j < at + n ==> b[j] == b0[j - (at - from)]
      invariant forall j :: from + i <= j < from + n && j < at + i ==> b[j].Husk?
      invariant forall j :: 0 <= j < |b| && !(at + i <= j < at + n) && !(from + i <= j < from + n) ==> b[j] == b0[j]
    {
      i := i - 1;
      assert !b[at + i].Raw? && !b[from + i].Raw?;
      b := b[at + i := b[from + i]][from + i := Husk];
    }
  }

  /** Where `ShiftDown` leaves cell `j`. */
  function ShiftedDown<T>(b: Buffer<T>, from: nat, at: nat, n: nat, j: nat): Cell<T>
    requires at < from && from + n <= |b| && j < |b|
  {
    if at <= j < at + n then b[j + (from - at)] else if from <= j < from + n then Husk else b[j]
  }

  /** Move-assigns a run of objects downward over objects, first one first. */
  method ShiftDown<T>(b0: Buffer<T>, from: nat, at: nat, n: nat) returns (b: Buffer<T>)
    requires at < from && from + n <= |b0| && (n > 0 ==> AliveIn(b0, at, from + n))
    ensures |b| == |b0| && forall j :: 0 <= j < |b| ==> b[j] == ShiftedDown(b0, from, at, n, j)
  {
    b := b0;
    for i := 0 to n
      invariant |b| == |b0|
      invariant forall j :: at <= j < at + i ==> b[j] == b0[j + (from - at)]
      invariant forall j :: from <= j < from + i && at + i <= j ==> b[j].Husk?
      invariant forall j :: 0 <= j < |b| && !(at <= j < at + i) && !(from <= j < from + i) ==> b[j] == b0[j]
    {
      assert !b[at + i].Raw? && !b[from + i].Raw?;
      b := b[at + i := b[from + i]][from + i := Husk];
    }
  }
}
