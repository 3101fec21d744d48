/** `InlinedVector` objects over a heap of element blocks. */
module InlinedVectors {
  import opened Addresses
  import opened Cells
  import opened VectorAlgorithms
  import opened VectorStorage

  /** How many elements were constructed and destroyed so far. */
  datatype Lifetimes = Lifetimes(constructed: nat, destroyed: nat)

  /** The blocks in use, and the vectors alive. */
  class Heap<T> {
    const inlinedCapacity: nat
    const traits: Traits
    var blocks: Blocks<T>
    ghost var vectors: set<InlinedVector<T>>
    ghost var allocations: nat
    ghost var releases: nat
    ghost var objects: Lifetimes

    ghost function Stores(): map<InlinedVector<T>, Storage<T>>
      reads this, vectors
    {
      map v | v in vectors :: v.store
    }

    /** Every vector is well formed, every block has one owner and was not released,
        and the elements are those that were constructed and not yet destroyed,
        unless their destruction means nothing. */
    ghost predicate Valid()
      reads this, vectors
    {
      && inlinedCapacity > 0
      && Ok(inlinedCapacity, blocks, Stores())
      && allocations == releases + |blocks|
      && (traits.triviallyDestructible ||
          objects.constructed == objects.destroyed + Total(Contents(inlinedCapacity, blocks, Stores())))
    }

    /** What every live vector contains. */
    ghost function Shows(): map<InlinedVector<T>, Buffer<T>>
      requires Valid()
      reads this, vectors
    {
      Contents(inlinedCapacity, blocks, Stores())
    }

    constructor (inlinedCapacity: nat, traits: Traits)
      requires inlinedCapacity > 0
      ensures Valid() && blocks == map[] && vectors == {} && Shows() == map[] && allocations == 0
      ensures this.inlinedCapacity == inlinedCapacity && this.traits == traits
    {
      this.inlinedCapacity, this.traits := inlinedCapacity, traits;
      blocks, vectors, allocations, releases, objects := map[], {}, 0, 0, Lifetimes(0, 0);
    }

    /** Counts elements that were constructed and destroyed. */
    ghost method Count(made: nat, gone: nat)
      modifies this`objects
      ensures objects == Lifetimes(old(objects.constructed) + made, old(objects.destroyed) + gone)
    {
      objects := Lifetimes(objects.constructed + made, objects.destroyed + gone);
    }

    /** `Allocate`, with the cells as they are once filled. */
    method Allocate(b: Buffer<T>) returns (a: nat)
      modifies this`blocks, this`allocations
      ensures a !in old(blocks) && blocks == old(blocks)[a := b]
      ensures allocations - |blocks| == old(allocations - |blocks|)
    {
      ghost var free := AboveAll(blocks.Keys);
      assert free !in blocks;
      a :| a !in blocks;
      blocks := blocks[a := b];
      allocations := allocations + 1;
    }

    /** `DeallocateIfAllocated`: a block is released while it is in use, and with
        nothing left in it that would need destruction. */
    method DeallocateIfAllocated(s: Storage<T>)
      requires s.GetIsAllocated() ==>
        && s.data.Allocated? && s.data.address in blocks
        && (AllRaw(blocks[s.data.address]) || traits.triviallyDestructible)
      modifies this`blocks, this`releases
      ensures blocks == old(blocks) - Owned(s)
      ensures releases == old(releases) + Held(s) && releases + |blocks| == old(releases + |blocks|)
    {
      if s.GetIsAllocated() {
        blocks := blocks - {s.data.address};
        releases := releases + 1;
        assert old(blocks) == blocks[s.data.address := old(blocks)[s.data.address]];
      }
    }

    /** A new block, and then the old one is released. */
    method Reallocate(s: Storage<T>, b: Buffer<T>) returns (a: nat)
      requires s.GetIsAllocated() ==>
        && s.data.Allocated? && s.data.address in blocks
        && (AllRaw(blocks[s.data.address]) || traits.triviallyDestructible)
      modifies this`blocks, this`allocations, this`releases
      ensures a !in old(blocks) && blocks == old(blocks)[a := b] - Owned(s)
      ensures allocations - releases - |blocks| == old(allocations - releases - |blocks|)
    {
      a := Allocate(b);
      DeallocateIfAllocated(s);
    }
  }

  class InlinedVector<T> {
    var store: Storage<T>

    constructor (h: Heap<T>)
      requires h.Valid()
      modifies h`vectors
      ensures h.Valid() && h.vectors == old(h.vectors) + {this}
      ensures h.Shows() == old(h.Shows())[this := []]
      ensures !store.GetIsAllocated()
    {
      hide Ok, Contents, Total;
      store := OnStack(0, Raws(h.inlinedCapacity));
      new;
      Join(h);
    }

    /** A new object counts as a vector from here on. */
    ghost method Join(h: Heap<T>)
      requires h.Valid() && this !in h.vectors && store == OnStack(0, Raws(h.inlinedCapacity))
      modifies h`vectors
      ensures h.Valid() && h.vectors == old(h.vectors) + {this}
      ensures h.Shows() == old(h.Shows())[this := []]
    {
      hide Ok, Contents, Total;
      ghost var stores := h.Stores();
      TotalPut(h.Shows(), this, []);
      AddEmpty(h.inlinedCapacity, h.blocks, stores, this);
      h.vectors := h.vectors + {this};
      assert h.Stores() == stores[this := store];
    }

    /** The cells in use. */
    function Cells(h: Heap<T>): Buffer<T>
      requires h.Valid() && this in h.vectors
      reads this, h, h.vectors
    {
      VectorOk(h.inlinedCapacity, h.blocks, h.Stores(), this);
      BufferOf(h.inlinedCapacity, h.blocks, store)
    }

    /** `SetSize` after the cells in use were changed, constructing and destroying
        as many elements as the size tells. */
    method Put(h: Heap<T>, b: Buffer<T>, size: nat, ghost made: nat, ghost gone: nat)
      requires h.Valid() && this in h.vectors && |b| == |Cells(h)| && Filled(b, size)
      requires |h.Shows()[this]| + made == size + gone
      modifies h`blocks, h`objects, this
      ensures h.Valid() && h.Shows() == old(h.Shows())[this := b[..size]] && Cells(h) == b
      ensures store.GetIsAllocated() == old(store.GetIsAllocated())
      ensures h.objects == Lifetimes(old(h.objects.constructed) + made, old(h.objects.destroyed) + gone)
    {
      hide Ok, Contents, Total, StorageOk, Elements, BufferOf, Filled;
      ghost var n, blocks, stores := h.inlinedCapacity, h.blocks, h.Stores();
      VectorOk(n, blocks, stores, this);
      BufferShape(n, blocks, store);
      PutBackOk(n, blocks, stores, this, b, size);
      FilledSize(b, size);
      TotalPut(h.Shows(), this, b[..size]);
      if store.GetIsAllocated() {
        h.blocks := h.blocks[store.data.address := b];
        store := OnHeap(size, store.data.address, store.data.capacity);
      } else {
        store := OnStack(size, b);
      }
      h.Count(made, gone);
      assert h.Stores() == stores[this := store];
    }

    /** Nothing in use needs destruction: the elements are gone, or they are
        trivially destructible. */
    ghost predicate Disposable(h: Heap<T>)
      requires h.Valid() && this in h.vectors
      reads this, h, h.vectors
    {
      AllRaw(Cells(h)) || h.traits.triviallyDestructible
    }

    /** `DeallocateIfAllocated`, `SetAllocation` of a block with `b` in it, and
        `SetAllocatedSize`. The new block is allocated before the old one goes. */
    method TakeOn(h: Heap<T>, b: Buffer<T>, size: nat, ghost made: nat)
      requires h.Valid() && this in h.vectors && Disposable(h) && |b| > h.inlinedCapacity && Filled(b, size)
      requires made == size
      modifies h`blocks, h`objects, h`allocations, h`releases, this
      ensures h.Valid() && h.Shows() == old(h.Shows())[this := b[..size]]
      ensures store.GetIsAllocated() && store.data.Allocated? && store.data.capacity == |b| && store.GetSize() == size
    {
      hide Ok, Contents, Total, StorageOk, Elements, BufferOf, Filled, AllRaw, Owned;
      ghost var n, blocks, stores := h.inlinedCapacity, h.blocks, h.Stores();
      VectorOk(n, blocks, stores, this);
      BufferShape(n, blocks, store);
      FilledSize(b, size);
      DisposableSize(h);
      TotalPut(h.Shows(), this, b[..size]);
      var a := h.Reallocate(store, b);
      RegrowOk(n, blocks, stores, this, a, b, size);
      store := OnHeap(size, a, |b|);
      h.Count(made, 0);
      assert h.Stores() == stores[this := store];
    }

    /** The end of every growing operation: the old elements are gone, and the
        vector lets go of its block and takes on the new one. */
    method Regrow(h: Heap<T>, spent: Buffer<T>, b: Buffer<T>, size: nat, ghost made: nat, ghost gone: nat)
      requires h.Valid() && this in h.vectors
      requires |spent| == |Cells(h)| && AllRaw(spent) && |b| > h.inlinedCapacity && Filled(b, size)
      requires made == size && gone == |h.Shows()[this]|
      modifies h`blocks, h`objects, h`allocations, h`releases, this
      ensures h.Valid() && h.Shows() == old(h.Shows())[this := b[..size]]
      ensures store.GetIsAllocated() && store.data.Allocated? && store.data.capacity == |b| == |Cells(h)|
      ensures store.GetSize() == size
    {
      hide Ok, Contents, Total, StorageOk, Elements, BufferOf, Filled, AllRaw;
      SpentOk(spent);
      FilledSize(b, size);
      Again(h.Shows(), this, [], b[..size]);
      Put(h, spent, 0, 0, gone);
      TakeOn(h, b, size, made);
      About(h);
    }

    /** `DeallocateIfAllocated` and `SetInlinedSize` after the inlined cells were
        changed. */
    method Settle(h: Heap<T>, cells: Buffer<T>, size: nat, ghost made: nat)
      requires h.Valid() && this in h.vectors && Disposable(h) && |cells| == h.inlinedCapacity && Filled(cells, size)
      requires made == size
      modifies h`blocks, h`objects, h`releases, this
      ensures h.Valid() && h.Shows() == old(h.Shows())[this := cells[..size]]
      ensures store == OnStack(size, cells)
      ensures h.releases == old(h.releases + Held(store))
      ensures h.objects == Lifetimes(old(h.objects.constructed) + made, old(h.objects.destroyed))
    {
      hide Ok, Contents, Total, StorageOk, Elements, BufferOf, Filled, AllRaw, Owned;
      ghost var n, blocks, stores := h.inlinedCapacity, h.blocks, h.Stores();
      VectorOk(n, blocks, stores, this);
      BufferShape(n, blocks, store);
      FilledSize(cells, size);
      DisposableSize(h);
      TotalPut(h.Shows(), this, cells[..size]);
      SettleOk(n, blocks, stores, this, cells, size);
      h.DeallocateIfAllocated(store);
      store := OnStack(size, cells);
      h.Count(made, 0);
      assert h.Stores() == stores[this := store];
    }

    /** `DeallocateIfAllocated`, `MemcpyFrom(other)` and `SetInlinedSize(0)` of the
        other: storage changes hands without touching an element. */
    method Adopt(h: Heap<T>, other: InlinedVector<T>)
      requires h.Valid() && this in h.vectors && other in h.vectors && other != this && Disposable(h)
      requires other.store.GetIsAllocated() || h.traits.BytesMayMove()
      modifies h`blocks, h`objects, h`releases, this, other
      ensures h.Valid() && h.Shows() == old(h.Shows())[this := old(h.Shows())[other]][other := []]
      ensures h.releases == old(h.releases + Held(store))
    {
      hide Ok, Contents, Total, StorageOk, Elements, BufferOf, Filled, AllRaw, Owned;
      ghost var n, blocks, stores := h.inlinedCapacity, h.blocks, h.Stores();
      VectorOk(n, blocks, stores, this);
      BufferShape(n, blocks, store);
      AdoptKeepsTotal(h, other);
      AdoptOk(n, blocks, stores, this, other);
      h.DeallocateIfAllocated(store);
      store := other.store;
      other.store := OnStack(0, Raws(h.inlinedCapacity));
      ghost var stores1: map<InlinedVector<T>, Storage<T>> := stores[this := store];
      assert h.Stores() == stores1[other := other.store];
    }

    lemma DisposableSize(h: Heap<T>)
      requires h.Valid() && this in h.vectors && Disposable(h)
      ensures h.traits.triviallyDestructible || h.Shows()[this] == []
    {
      hide Ok, Contents, Total, StorageOk, Elements, BufferOf, Filled, AllRaw;
      About(h);
      RawSize(Cells(h), store.GetSize());
    }

    lemma AdoptKeepsTotal(h: Heap<T>, other: InlinedVector<T>)
      requires h.Valid() && this in h.vectors && other in h.vectors && other != this && Disposable(h)
      ensures var passed: map<InlinedVector<T>, Buffer<T>> := h.Shows()[this := h.Shows()[other]];
        h.traits.triviallyDestructible || Total(passed[other := []]) == Total(h.Shows())
    {
      hide Ok, Contents, Total, Disposable;
      DisposableSize(h);
      if !h.traits.triviallyDestructible {
        TotalAdopt(h.Shows(), this, other);
      }
    }

    /** `DestroyElements` over all elements. */
    method DestroyAll(h: Heap<T>)
      requires h.Valid() && this in h.vectors
      modifies h`blocks, h`objects, this
      ensures h.Valid() && h.Shows() == old(h.Shows())[this := []] && AllRaw(Cells(h))
      ensures store.GetIsAllocated() == old(store.GetIsAllocated())
      ensures h.objects == old(Lifetimes(h.objects.constructed, h.objects.destroyed + |h.Shows()[this]|))
    {
      hide Ok, Contents, Total, StorageOk, Elements, BufferOf, Patch;
      About(h);
      var b := Cells(h);
      PatchCells(b, 0, Raws(store.GetSize()));
      ghost var gone;
      b, gone := DestroyElements(b, 0, store.GetSize());
      Put(h, b, 0, 0, gone);
    }

    /** What validity says about one vector. */
    lemma About(h: Heap<T>)
      requires h.Valid() && this in h.vectors
      ensures Filled(Cells(h), store.GetSize()) && store.GetSize() <= |Cells(h)|
      ensures h.Shows()[this] == Cells(h)[..store.GetSize()] && |h.Shows()[this]| == store.GetSize()
      ensures if store.GetIsAllocated()
        then store.data.Allocated? && |Cells(h)| == store.data.capacity > h.inlinedCapacity
        else store.data.Inlined? && Cells(h) == store.data.cells && |Cells(h)| == h.inlinedCapacity
    {
      hide Ok, Contents, Total, StorageOk, Elements, BufferOf, Filled;
      VectorOk(h.inlinedCapacity, h.blocks, h.Stores(), this);
      BufferShape(h.inlinedCapacity, h.blocks, store);
    }

    function View(h: Heap<T>): (elements: Buffer<T>)
      requires h.Valid() && this in h.vectors
      reads this, h, h.vectors
      ensures elements == h.Shows()[this]
    {
      About(h);
      Cells(h)[..store.GetSize()]
    }

    // ----------------------------------------------------------------------
    // Growth
    // ----------------------------------------------------------------------

    /** `emplace_back`, and with it `push_back`: the argument may be an element of
        the vector itself. */
    method EmplaceBack(h: Heap<T>, x: Argument<T>)
      requires h.Valid() && this in h.vectors && Usable(h.Shows()[this], x)
      modifies h`blocks, h`objects, h`allocations, h`releases, this
      ensures h.Valid() && Usable(old(h.Shows()[this]), x)
      ensures h.Shows() == old(h.Shows())[this := Used(old(h.Shows()[this]), x) + [Value(old(h.Shows()[this]), x)]]
      ensures var s, s' := old(h.Shows()[this]), h.Shows()[this];
        && |s'| == |s| + 1
        && s'[|s|] == (if x.Outside? then x.value else s[x.index])
        && forall i :: 0 <= i < |s| ==> s'[i] == if x.MoveOf? && i == x.index then Husk else s[i]
      ensures |Cells(h)| == Grown(old(|Cells(h)|), |h.Shows()[this]|)
    {
      hide Ok, Contents, Total, StorageOk, Elements, BufferOf, Filled, Used, Value;
      AppendedCells(h.Shows()[this], x);
      About(h);
      var b0, size := Cells(h), store.GetSize();
      if size != |b0| {
        var b, made := EmplaceInPlace(b0, size, x);
        Put(h, b, size + 1, made, 0);
      } else {
        var spent, b, made, gone := EmplaceGrowing(b0, size, x, NextCapacity(|b0|));
        Regrow(h, spent, b, size + 1, made, gone);
      }
    }

    method PopBack(h: Heap<T>)
      requires h.Valid() && this in h.vectors && h.Shows()[this] != []
      modifies h`blocks, h`objects, this
      ensures h.Valid()
      ensures var s := old(h.Shows()[this]); h.Shows() == old(h.Shows())[this := s[..|s| - 1]]
    {
      hide Ok, Contents, Total, StorageOk, Elements, BufferOf, Filled;
      About(h);
      var size := store.GetSize();
      var b, gone := Truncate(Cells(h), size, size - 1);
      Put(h, b, size - 1, 0, gone);
    }

    /** `Storage::Insert`. */
    method Insert(h: Heap<T>, at: nat, values: Buffer<T>)
      requires h.Valid() && this in h.vectors && at <= |h.Shows()[this]| && values != [] && Alive(values)
      modifies h`blocks, h`objects, h`allocations, h`releases, this
      ensures h.Valid() && h.Shows() == old(h.Shows())[this := Splice(old(h.Shows()[this]), at, values)]
      ensures |Cells(h)| == Grown(old(|Cells(h)|), |h.Shows()[this]|)
    {
      hide Ok, Contents, Total, StorageOk, Elements, BufferOf, Filled, Alive, Splice;
      About(h);
      var b0, size := Cells(h), store.GetSize();
      var newSize := size + |values|;
      if newSize > |b0| {
        var spent, b, made, gone := InsertGrowing(b0, size, at, values, ComputeCapacity(|b0|, newSize));
        Regrow(h, spent, b, newSize, made, gone);
      } else {
        var b, made := InsertInPlace(b0, size, at, values);
        Put(h, b, newSize, made, 0);
      }
    }

    /** `insert(pos, n, v)`, where `v` may be an element of the vector itself. */
    method InsertCopies(h: Heap<T>, at: nat, n: nat, x: Argument<T>) returns (position: nat)
      requires h.Valid() && this in h.vectors && at <= |h.Shows()[this]|
      requires !x.MoveOf? && Usable(h.Shows()[this], x)
      modifies h`blocks, h`objects, h`allocations, h`releases, this
      ensures h.Valid() && position == at && Usable(old(h.Shows()[this]), x)
      ensures var s := old(h.Shows()[this]);
        h.Shows() == old(h.Shows())[this := Splice(s, at, Repeat(Value(s, x), n))]
      ensures |Cells(h)| == Grown(old(|Cells(h)|), |h.Shows()[this]|)
    {
      hide Ok, Contents, Total, StorageOk, Elements, BufferOf;
      About(h);
      if n != 0 {
        UsedFilled(Cells(h), store.GetSize(), x);
        var dealias := Value(Cells(h), x);
        Insert(h, at, Repeat(dealias, n));
      } else {
        assert Repeat(Value(h.Shows()[this], x), 0) == [];
        SpliceNone(h.Shows()[this], at);
        assert h.Shows() == h.Shows()[this := h.Shows()[this]];
      }
      position := at;
    }

    /** `emplace(pos, args)`, and with it `insert(pos, v)`. */
    method Emplace(h: Heap<T>, at: nat, x: Argument<T>) returns (position: nat)
      requires h.Valid() && this in h.vectors && at <= |h.Shows()[this]| && Usable(h.Shows()[this], x)
      modifies h`blocks, h`objects, h`allocations, h`releases, this
      ensures h.Valid() && position == at && Usable(old(h.Shows()[this]), x)
      ensures var s := old(h.Shows()[this]);
        h.Shows() == old(h.Shows())[this := Splice(Used(s, x), at, [Value(s, x)])]
      ensures var s, s' := old(h.Shows()[this]), h.Shows()[this];
        && |s'| == |s| + 1
        && s'[at] == (if x.Outside? then x.value else s[x.index])
        && (forall i :: 0 <= i < at ==> s'[i] == if x.MoveOf? && i == x.index then Husk else s[i])
        && (forall i :: at < i <= |s| ==> s'[i] == if x.MoveOf? && i - 1 == x.index then Husk else s[i - 1])
      ensures |Cells(h)| == Grown(old(|Cells(h)|), |h.Shows()[this]|)
    {
      hide Ok, Contents, Total, StorageOk, Elements, BufferOf, Filled, Splice;
      EmplacedCells(h.Shows()[this], at, x);
      About(h);
      var b, size := Cells(h), store.GetSize();
      UsedFilled(b, size, x);
      var dealias := Value(b, x);
      ghost var s := Used(b, x)[..size];
      Again(h.Shows(), this, s, Splice(s, at, [dealias]));
      Put(h, Used(b, x), size, 0, 0);
      Insert(h, at, [dealias]);
      position := at;
    }

    /** `insert(pos, first, last)` for forward iterators. */
    method InsertRange(h: Heap<T>, at: nat, values: Buffer<T>) returns (position: nat)
      requires h.Valid() && this in h.vectors && at <= |h.Shows()[this]| && Alive(values)
      modifies h`blocks, h`objects, h`allocations, h`releases, this
      ensures h.Valid() && position == at
      ensures h.Shows() == old(h.Shows())[this := Splice(old(h.Shows()[this]), at, values)]
      ensures |Cells(h)| == Grown(old(|Cells(h)|), |h.Shows()[this]|)
    {
      hide Ok, Contents, Total, StorageOk, BufferOf, Alive;
      if values != [] {
        Insert(h, at, values);
      } else {
        About(h);
        SpliceNone(h.Shows()[this], at);
        assert h.Shows() == h.Shows()[this := h.Shows()[this]];
      }
      position := at;
    }

    /** `insert(pos, first, last)` for single-pass iterators: one at a time. */
    method InsertEach(h: Heap<T>, at: nat, values: Buffer<T>) returns (position: nat)
      requires h.Valid() && this in h.vectors && at <= |h.Shows()[this]| && Alive(values)
      modifies h`blocks, h`objects, h`allocations, h`releases, this
      ensures h.Valid() && position == at
      ensures h.Shows() == old(h.Shows())[this := Splice(old(h.Shows()[this]), at, values)]
    {
      hide Ok, Contents, Total, Splice;
      ghost var s := h.Shows()[this];
      SpliceNone(s, at);
      assert h.Shows() == h.Shows()[this := s];
      for i := 0 to |values|
        invariant h.Valid() && h.vectors == old(h.vectors)
        invariant h.Shows() == old(h.Shows())[this := Splice(s, at, values[..i])]
      {
        SpliceNext(s, at, values, i);
        var _ := Emplace(h, at + i, Outside(values[i]));
      }
      assert values[..|values|] == values;
      position := at;
    }

    // ----------------------------------------------------------------------
    // Erasure
    // ----------------------------------------------------------------------

    /** `erase(from, to)`. */
    method Erase(h: Heap<T>, from: nat, to: nat) returns (position: nat)
      requires h.Valid() && this in h.vectors && from <= to <= |h.Shows()[this]|
      modifies h`blocks, h`objects, this
      ensures h.Valid() && position == from
      ensures h.Shows() == old(h.Shows())[this := Cut(old(h.Shows()[this]), from, to)]
    {
      hide Ok, Contents, Total, StorageOk, Elements, BufferOf, Filled;
      if from != to {
        About(h);
        var size := store.GetSize();
        var b, gone := EraseRange(Cells(h), size, from, to, h.traits);
        Put(h, b, size - (to - from), 0, gone);
      } else {
        assert Cut(h.Shows()[this], from, to) == h.Shows()[this];
        assert h.Shows() == h.Shows()[this := h.Shows()[this]];
      }
      position := from;
    }

    method Clear(h: Heap<T>)
      requires h.Valid() && this in h.vectors
      modifies h`blocks, h`objects, h`releases, this
      ensures h.Valid() && h.Shows() == old(h.Shows())[this := []]
      ensures !store.GetIsAllocated()
      ensures h.releases == old(h.releases + Held(store))
      ensures h.objects == old(Lifetimes(h.objects.constructed, h.objects.destroyed + |h.Shows()[this]|))
    {
      hide Ok, Contents, Total, StorageOk, Elements, BufferOf;
      DestroyAll(h);
      Settle(h, Raws(h.inlinedCapacity), 0, 0);
    }

    // ----------------------------------------------------------------------
    // Assignment
    // ----------------------------------------------------------------------

    /** `Storage::Assign`: `assign(n, v)`, where `v` may be an element of the vector
        itself, and `assign(first, last)` for forward iterators. */
    method Assign(h: Heap<T>, values: Adapter<T>, n: nat)
      requires h.Valid() && this in h.vectors && Gives(h.Shows()[this], values, n)
      modifies h`blocks, h`objects, h`allocations, h`releases, this
      ensures h.Valid() && Gives(old(h.Shows()[this]), values, n)
      ensures h.Shows() == old(h.Shows())[this := Given(old(h.Shows()[this]), values, n)]
      ensures |Cells(h)| == Grown(old(|Cells(h)|), |h.Shows()[this]|)
    {
      hide Ok, Contents, Total, StorageOk, Elements, BufferOf, Filled, Gives, Given;
      About(h);
      var b0, size := Cells(h), store.GetSize();
      if n > |b0| {
        var spent, b, made, gone := AssignGrowing(b0, size, values, n, ComputeCapacity(|b0|, n));
        Regrow(h, spent, b, n, made, gone);
      } else {
        var b, made, gone := AssignInPlace(b0, size, values, n);
        Put(h, b, n, made, gone);
      }
    }

    /** `assign(first, last)` for single-pass iterators: overwrite what is there,
        erase the surplus, append the rest. */
    method AssignEach(h: Heap<T>, values: Buffer<T>)
      requires h.Valid() && this in h.vectors && Alive(values)
      modifies h`blocks, h`objects, h`allocations, h`releases, this
      ensures h.Valid() && h.Shows() == old(h.Shows())[this := values]
    {
      hide Ok, Contents, Total, StorageOk, Elements, BufferOf, Filled, Cut;
      ghost var m, s := h.Shows(), h.Shows()[this];
      var i := Overwrite(h, values);
      CutSurplus(values, s, i);
      Again(m, this, values[..i] + s[i..], values[..i]);
      Again(m, this, values[..i], values);
      About(h);
      var _ := Erase(h, i, store.GetSize());
      Append(h, values, i);
    }

    /** Assigns values to the elements for as long as there are both. */
    method Overwrite(h: Heap<T>, values: Buffer<T>) returns (i: nat)
      requires h.Valid() && this in h.vectors && Alive(values)
      modifies h`blocks, h`objects, this
      ensures h.Valid() && i <= |values| && i <= |old(h.Shows()[this])|
      ensures i == |values| || i == |old(h.Shows()[this])|
      ensures h.Shows() == old(h.Shows())[this := values[..i] + old(h.Shows()[this])[i..]]
    {
      hide Ok, Contents, Total, StorageOk, Elements, BufferOf, Filled;
      ghost var s := h.Shows()[this];
      i := 0;
      About(h);
      assert values[..i] + s[i..] == s;
      ghost var m := h.Shows();
      assert m == m[this := s];
      while i < store.GetSize() && i < |values|
        invariant 0 <= i <= |values| && i <= |s| == store.GetSize()
        invariant h.Valid() && h.vectors == old(h.vectors)
        invariant h.Shows() == m[this := values[..i] + s[i..]]
      {
        OverwriteNext(values, s, i);
        Again(m, this, values[..i] + s[i..], values[..i + 1] + s[i + 1..]);
        AssignOne(h, i, values[i]);
        About(h);
        i := i + 1;
      }
    }

    /** `std::copy` to a back inserter. */
    method Append(h: Heap<T>, values: Buffer<T>, start: nat)
      requires h.Valid() && this in h.vectors && start <= |values| && Alive(values)
      modifies h`blocks, h`objects, h`allocations, h`releases, this
      ensures h.Valid() && h.Shows() == old(h.Shows())[this := old(h.Shows()[this]) + values[start..]]
    {
      hide Ok, Contents, Total, StorageOk, Elements, BufferOf, Filled;
      ghost var s := h.Shows()[this];
      assert s + values[start..start] == s;
      assert h.Shows() == h.Shows()[this := s];
      for i := start to |values|
        invariant h.Valid() && h.vectors == old(h.vectors)
        invariant h.Shows() == old(h.Shows())[this := s + values[start..i]]
      {
        EmplaceBack(h, Outside(values[i]));
        assert s + values[start..i] + [values[i]] == s + values[start..i + 1];
      }
      assert values[start..|values|] == values[start..];
    }

    /** `data()[i] = v`. */
    method AssignOne(h: Heap<T>, i: nat, v: Cell<T>)
      requires h.Valid() && this in h.vectors && i < |h.Shows()[this]| && !v.Raw?
      modifies h`blocks, h`objects, this
      ensures h.Valid() && h.Shows() == old(h.Shows())[this := old(h.Shows()[this])[i := v]]
    {
      hide Ok, Contents, Total, StorageOk, Elements, BufferOf;
      About(h);
      var b, size := Cells(h), store.GetSize();
      assert b[i := v][..size] == b[..size][i := v];
      Put(h, b[i := v], size, 0, 0);
    }

    // ----------------------------------------------------------------------
    // Copies, moves and the end
    // ----------------------------------------------------------------------

    constructor Copy(h: Heap<T>, other: InlinedVector<T>)
      requires h.Valid() && other in h.vectors
      modifies h
      ensures h.Valid() && h.vectors == old(h.vectors) + {this}
      ensures h.Shows() == old(h.Shows())[this := old(h.Shows())[other]]
    {
      hide Ok, Contents, Total, StorageOk, Elements, BufferOf, Patch;
      store := OnStack(0, Raws(h.inlinedCapacity));
      new;
      ghost var m := h.Shows();
      Join(h);
      other.About(h);
      About(h);
      var size := other.store.GetSize();
      Again(m, this, [], m[other]);
      if size == 0 {
        assert m[other] == [];
      } else if h.traits.triviallyCopyConstructible && !other.store.GetIsAllocated() {
        var b, made := CopyBytes(h.traits, other.store.data.cells, size);
        Put(h, b, size, made, 0);
      } else {
        InitFrom(h, other);
      }
    }

    /** `Storage::InitFrom`: a copy of a vector on the heap goes to the heap, even
        if it would fit inline. */
    method InitFrom(h: Heap<T>, other: InlinedVector<T>)
      requires h.Valid() && this in h.vectors && other in h.vectors && other != this
      requires h.Shows()[this] == [] && !store.GetIsAllocated() && h.Shows()[other] != []
      modifies h`blocks, h`objects, h`allocations, h`releases, this
      ensures h.Valid() && h.Shows() == old(h.Shows())[this := old(h.Shows())[other]]
      ensures store.GetIsAllocated() == other.store.GetIsAllocated()
    {
      hide Ok, Contents, Total, StorageOk, Elements, BufferOf, Patch;
      other.About(h);
      About(h);
      var n := other.store.GetSize();
      var values := other.Cells(h)[..n];
      if !other.store.GetIsAllocated() {
        PatchCells(Cells(h), 0, values);
        var b, made := ConstructElements(Cells(h), 0, values);
        assert b[..n] == values;
        Put(h, b, n, made, 0);
      } else {
        var raw := Raws(ComputeCapacity(h.inlinedCapacity, n));
        PatchCells(raw, 0, values);
        var b, made := ConstructElements(raw, 0, values);
        assert b[..n] == values;
        TakeOn(h, b, n, made);
      }
    }

    /** What a move leaves behind: nothing if the storage was handed over, and
        moved-from elements otherwise. */
    ghost function Remains(h: Heap<T>, handedOver: bool): Buffer<T>
      requires h.Valid() && this in h.vectors
      reads this, h, h.vectors
    {
      if handedOver then [] else Husks(|h.Shows()[this]|)
    }

    /** Move-constructs the inlined elements of `other` in this vector's inlined
        cells, and sets the size. */
    method MoveConstruct(h: Heap<T>, other: InlinedVector<T>)
      requires h.Valid() && this in h.vectors && other in h.vectors && other != this
      requires h.Shows()[this] == [] && !store.GetIsAllocated() && !other.store.GetIsAllocated()
      modifies h`blocks, h`objects, this, other
      ensures h.Valid()
      ensures h.Shows() == old(h.Shows())[this := old(h.Shows())[other]][other := old(other.Remains(h, false))]
    {
      hide Ok, Contents, Total, StorageOk, Elements, BufferOf, Filled;
      other.About(h);
      About(h);
      var n := other.store.GetSize();
      var husks, b, made := MoveOut(other.Cells(h), n, Cells(h));
      Put(h, b, n, made, 0);
      other.About(h);
      other.Put(h, husks, n, 0, 0);
    }

    constructor Move(h: Heap<T>, other: InlinedVector<T>)
      requires h.Valid() && other in h.vectors
      modifies h, other
      ensures h.Valid() && h.vectors == old(h.vectors) + {this}
      ensures h.allocations == old(h.allocations) && h.releases == old(h.releases)
      ensures h.Shows() == old(h.Shows())[this := old(h.Shows())[other]]
        [other := old(other.Remains(h, h.traits.triviallyRelocatable || other.store.GetIsAllocated()))]
    {
      hide Ok, Contents, Total, StorageOk, Elements, BufferOf, Filled;
      store := OnStack(0, Raws(h.inlinedCapacity));
      new;
      ghost var m := h.Shows();
      Join(h);
      About(h);
      Again(m, this, [], m[other]);
      if h.traits.triviallyRelocatable || other.store.GetIsAllocated() {
        Adopt(h, other);
      } else {
        MoveConstruct(h, other);
      }
    }

    /** `operator=(InlinedVector&&)`, by the element type's policy. */
    method MoveAssign(h: Heap<T>, other: InlinedVector<T>)
      requires h.Valid() && this in h.vectors && other in h.vectors
      modifies h`blocks, h`objects, h`allocations, h`releases, this, other
      ensures h.Valid()
      ensures h.Shows() == if other == this then old(h.Shows()) else
        old(h.Shows())[this := old(h.Shows())[other]][other := old(other.Remains(h,
          h.traits.MoveAssignmentPolicy().MemcpyPolicy? || other.store.GetIsAllocated()))]
    {
      hide Ok, Contents, Total, StorageOk, Elements, BufferOf, Filled;
      if other != this {
        var policy := h.traits.MoveAssignmentPolicy();
        if policy.MemcpyPolicy? {
          Adopt(h, other);
        } else if other.store.GetIsAllocated() {
          DestroyExistingAndAdopt(h, other);
        } else if policy.ElementwiseAssignPolicy? {
          AssignMoved(h, other);
        } else {
          ghost var m := h.Shows();
          Again(m, this, [], m[other]);
          Clear(h);
          MoveConstruct(h, other);
        }
      }
    }

    method DestroyExistingAndAdopt(h: Heap<T>, other: InlinedVector<T>)
      requires h.Valid() && this in h.vectors && other in h.vectors && other != this
      requires other.store.GetIsAllocated()
      modifies h`blocks, h`objects, h`releases, this, other
      ensures h.Valid()
      ensures h.Shows() == old(h.Shows())[this := old(h.Shows())[other]][other := []]
    {
      hide Ok, Contents, Total, StorageOk, Elements, BufferOf, Filled;
      ghost var m := h.Shows();
      Again(m, this, [], m[other]);
      DestroyAll(h);
      Adopt(h, other);
    }

    /** `Storage::Assign` from the other vector's inlined elements, which are moved
        out one after the other. */
    method AssignMoved(h: Heap<T>, other: InlinedVector<T>)
      requires h.Valid() && this in h.vectors && other in h.vectors && other != this
      requires !other.store.GetIsAllocated() && h.traits.moveAssignOk
      modifies h`blocks, h`objects, h`allocations, h`releases, this, other
      ensures h.Valid()
      ensures h.Shows() == old(h.Shows())[this := old(h.Shows())[other]][other := old(other.Remains(h, false))]
    {
      hide Ok, Contents, Total, StorageOk, Elements, BufferOf, Patch;
      other.About(h);
      var n := other.store.GetSize();
      var from := other.Cells(h);
      var values := from[..n];
      PatchCells(from, 0, Husks(n));
      var husks := Patch(from, 0, Husks(n));
      assert husks[..n] == Husks(n) && Given(h.Shows()[this], Each(values), n) == values;
      OrderFree(h.Shows(), this, values, other, Husks(n));
      other.Put(h, husks, n, 0, 0);
      Assign(h, Each(values), n);
    }

    /** `operator=(const InlinedVector&)`. */
    method CopyAssign(h: Heap<T>, other: InlinedVector<T>)
      requires h.Valid() && this in h.vectors && other in h.vectors
      modifies h`blocks, h`objects, h`allocations, h`releases, this
      ensures h.Valid() && h.Shows() == old(h.Shows())[this := old(h.Shows())[other]]
    {
      hide Ok, Contents, Total, StorageOk, Elements, BufferOf;
      if other != this {
        other.About(h);
        var n := other.store.GetSize();
        var values := other.Cells(h)[..n];
        assert Given(h.Shows()[this], Each(values), n) == values;
        Assign(h, Each(values), n);
      } else {
        assert h.Shows() == h.Shows()[this := h.Shows()[this]];
      }
    }

    /** The destructor. */
    method Destroy(h: Heap<T>)
      requires h.Valid() && this in h.vectors
      modifies h, this
      ensures h.Valid() && h.vectors == old(h.vectors) - {this} && h.Shows() == old(h.Shows()) - {this}
      ensures h.allocations == old(h.allocations) && h.releases == old(h.releases + Held(store))
      ensures h.traits.triviallyDestructible ||
        h.objects == old(Lifetimes(h.objects.constructed, h.objects.destroyed + |h.Shows()[this]|))
    {
      hide Ok, Contents, Total, StorageOk, Elements, BufferOf, Filled;
      About(h);
      if store.sizeAndIsAllocated != 0 {
        if h.traits.triviallyDestructible {
          SpentOk(Raws<T>(h.inlinedCapacity));
          Settle(h, Raws(h.inlinedCapacity), 0, 0);
        } else {
          Clear(h);
        }
      }
      About(h);
      RawSize(Cells(h), store.GetSize());
      Leave(h);
    }

    /** Only a vector without elements that need destruction may go. */
    ghost method Leave(h: Heap<T>)
      requires h.Valid() && this in h.vectors && !store.GetIsAllocated() && Disposable(h)
      modifies h`vectors
      ensures h.Valid() && h.vectors == old(h.vectors) - {this} && h.Shows() == old(h.Shows()) - {this}
    {
      hide Ok, Contents, Total, StorageOk, Elements;
      ghost var stores := h.Stores();
      DisposableSize(h);
      TotalAt(h.Shows(), this);
      RemoveEmpty(h.inlinedCapacity, h.blocks, stores, this);
      h.vectors := h.vectors - {this};
      assert h.Stores() == stores - {this};
    }

    // ----------------------------------------------------------------------
    // Size and capacity
    // ----------------------------------------------------------------------

    /** `resize(n, v)`, where `v` may be an element of the vector itself. */
    method Resize(h: Heap<T>, n: nat, x: Argument<T>)
      requires h.Valid() && this in h.vectors && !x.MoveOf? && Usable(h.Shows()[this], x)
      modifies h`blocks, h`objects, h`allocations, h`releases, this
      ensures h.Valid() && Usable(old(h.Shows()[this]), x)
      ensures var s := old(h.Shows()[this]);
        h.Shows() == old(h.Shows())[this := if n <= |s| then s[..n] else s + Repeat(Value(s, x), n - |s|)]
      ensures |Cells(h)| == Grown(old(|Cells(h)|), |h.Shows()[this]|)
    {
      hide Ok, Contents, Total, StorageOk, Elements, BufferOf, Filled, Alive;
      About(h);
      var b0, size := Cells(h), store.GetSize();
      if n <= size {
        var b, gone := Truncate(b0, size, n);
        Put(h, b, n, 0, gone);
      } else {
        UsedFilled(b0, size, x);
        var values := Repeat(Value(b0, x), n - size);
        RepeatAlive(Value(b0, x), n - size);
        AtEnd(b0[..size], values);
        if n <= |b0| {
          var b, made := ConstructBehind(b0, size, values);
          Put(h, b, n, made, 0);
        } else {
          var spent, b, made, gone := InsertGrowing(b0, size, size, values, ComputeCapacity(|b0|, n));
          Regrow(h, spent, b, n, made, gone);
        }
      }
    }

    method Reserve(h: Heap<T>, requested: nat)
      requires h.Valid() && this in h.vectors
      modifies h`blocks, h`objects, h`allocations, h`releases, this
      ensures h.Valid() && h.Shows() == old(h.Shows())
      ensures |Cells(h)| == Grown(old(|Cells(h)|), requested)
    {
      hide Ok, Contents, Total, StorageOk, Elements, BufferOf, Filled;
      About(h);
      var b0, size := Cells(h), store.GetSize();
      if requested > |b0| {
        assert h.Shows() == h.Shows()[this := h.Shows()[this]];
        var b, spent, made, gone := MoveInlined(b0, size, ComputeCapacity(|b0|, requested));
        Regrow(h, spent, b, size, made, gone);
        About(h);
      }
    }

    /** `shrink_to_fit`: the elements end in the smallest place that holds them. */
    method ShrinkToFit(h: Heap<T>)
      requires h.Valid() && this in h.vectors
      modifies h`blocks, h`objects, h`allocations, h`releases, this
      ensures h.Valid() && h.Shows() == old(h.Shows())
      ensures |Cells(h)| == if store.GetSize() > h.inlinedCapacity then store.GetSize() else h.inlinedCapacity
      ensures store.GetIsAllocated() <==> store.GetSize() > h.inlinedCapacity
    {
      hide Ok, Contents, Total, StorageOk, Elements, BufferOf, Filled;
      About(h);
      var b0, size := Cells(h), store.GetSize();
      if store.GetIsAllocated() && size != |b0| {
        assert h.Shows() == h.Shows()[this := h.Shows()[this]];
        if size > h.inlinedCapacity {
          var b, spent, made, gone := MoveInlined(b0, size, size);
          Regrow(h, spent, b, size, made, gone);
        } else {
          MoveBack(h);
        }
        About(h);
      }
    }

    /** From the heap back into the object. */
    method MoveBack(h: Heap<T>)
      requires h.Valid() && this in h.vectors && store.GetSize() <= h.inlinedCapacity
      modifies h`blocks, h`objects, h`releases, this
      ensures h.Valid() && h.Shows() == old(h.Shows())
      ensures !store.GetIsAllocated() && store.GetSize() == old(store.GetSize())
    {
      hide Ok, Contents, Total, StorageOk, Elements, BufferOf, Filled;
      About(h);
      ghost var m := h.Shows();
      assert m == m[this := m[this]];
      Again(m, this, [], m[this]);
      var size := store.GetSize();
      var b, spent, made, gone := MoveInlined(Cells(h), size, h.inlinedCapacity);
      SpentOk(spent);
      Put(h, spent, 0, 0, gone);
      Settle(h, b, size, made);
    }

    // ----------------------------------------------------------------------
    // Swap
    // ----------------------------------------------------------------------

    /** `swap`: in every mix of storage modes the contents change places, without
        an allocation. */
    method Swap(h: Heap<T>, other: InlinedVector<T>)
      requires h.Valid() && this in h.vectors && other in h.vectors
      modifies h`objects, this, other
      ensures h.Valid()
      ensures h.Shows() == old(h.Shows())[this := old(h.Shows())[other]][other := old(h.Shows())[this]]
    {
      hide Ok, Contents, Total, StorageOk, Elements, BufferOf, Filled;
      if other == this {
        assert h.Shows() == h.Shows()[this := h.Shows()[this]];
      } else if store.GetIsAllocated() && other.store.GetIsAllocated() {
        SwapBlocks(h, other);
      } else if !store.GetIsAllocated() && !other.store.GetIsAllocated() {
        SwapCells(h, other);
      } else if store.GetIsAllocated() {
        SwapMixed(h, other);
      } else {
        OrderFree(h.Shows(), this, h.Shows()[other], other, h.Shows()[this]);
        other.SwapMixed(h, this);
      }
    }

    /** Both vectors are on the heap. */
    method SwapBlocks(h: Heap<T>, other: InlinedVector<T>)
      requires h.Valid() && this in h.vectors && other in h.vectors && other != this
      requires store.GetIsAllocated() && other.store.GetIsAllocated()
      modifies this, other
      ensures h.Valid()
      ensures h.Shows() == old(h.Shows())[this := old(h.Shows())[other]][other := old(h.Shows())[this]]
    {
      hide Ok, Contents, Total, StorageOk, Elements, BufferOf, Filled;
      ghost var n, stores := h.inlinedCapacity, h.Stores();
      VectorOk(n, h.blocks, stores, this);
      VectorOk(n, h.blocks, stores, other);
      TotalSwap(h.Shows(), this, other);
      SwapOk(n, h.blocks, stores, this, other, other.store, store);
      store, other.store := other.store, store;
      ghost var stores1: map<InlinedVector<T>, Storage<T>> := stores[this := store];
      assert h.Stores() == stores1[other := other.store];
    }

    /** Both vectors are inlined. */
    method SwapCells(h: Heap<T>, other: InlinedVector<T>)
      requires h.Valid() && this in h.vectors && other in h.vectors && other != this
      requires !store.GetIsAllocated() && !other.store.GetIsAllocated()
      modifies h`objects, this, other
      ensures h.Valid()
      ensures h.Shows() == old(h.Shows())[this := old(h.Shows())[other]][other := old(h.Shows())[this]]
    {
      hide Ok, Contents, Total, StorageOk, Elements, BufferOf, Filled, Owned;
      ghost var n, stores := h.inlinedCapacity, h.Stores();
      About(h);
      other.About(h);
      VectorOk(n, h.blocks, stores, this);
      VectorOk(n, h.blocks, stores, other);
      BufferShape(n, h.blocks, store);
      BufferShape(n, h.blocks, other.store);
      var size, otherSize := store.GetSize(), other.store.GetSize();
      var policy := h.traits.SwapInlinedElementsPolicy();
      var a, b, made, gone := SwapInlined(policy, h.traits, Cells(h), size, other.Cells(h), otherSize);
      InlinedOk(n, h.blocks, a, otherSize);
      InlinedOk(n, h.blocks, b, size);
      TotalSwap(h.Shows(), this, other);
      SwapOk(n, h.blocks, stores, this, other, OnStack(otherSize, a), OnStack(size, b));
      store, other.store := OnStack(otherSize, a), OnStack(size, b);
      h.Count(made, gone);
      ghost var stores1: map<InlinedVector<T>, Storage<T>> := stores[this := store];
      assert h.Stores() == stores1[other := other.store];
    }

    /** This vector is on the heap and the other one is not: the other's elements
        move to the inlined cells here, and it takes on the block. */
    method SwapMixed(h: Heap<T>, other: InlinedVector<T>)
      requires h.Valid() && this in h.vectors && other in h.vectors && other != this
      requires store.GetIsAllocated() && !other.store.GetIsAllocated()
      modifies h`objects, this, other
      ensures h.Valid()
      ensures h.Shows() == old(h.Shows())[this := old(h.Shows())[other]][other := old(h.Shows())[this]]
    {
      hide Ok, Contents, Total, StorageOk, Elements, BufferOf, Filled;
      ghost var n, stores := h.inlinedCapacity, h.Stores();
      VectorOk(n, h.blocks, stores, this);
      VectorOk(n, h.blocks, stores, other);
      BufferShape(n, h.blocks, other.store);
      var size := other.store.GetSize();
      var cells, _, made, gone := MoveInlined(other.store.data.cells, size, h.inlinedCapacity);
      InlinedOk(n, h.blocks, cells, size);
      TotalSwap(h.Shows(), this, other);
      SwapOk(n, h.blocks, stores, this, other, OnStack(size, cells), store);
      store, other.store := OnStack(size, cells), store;
      h.Count(made, gone);
      ghost var stores1: map<InlinedVector<T>, Storage<T>> := stores[this := store];
      assert h.Stores() == stores1[other := other.store];
    }
  }

  /** Destroys the elements from `n` on. */
  method Truncate<T>(b0: Buffer<T>, size: nat, n: nat) returns (b: Buffer<T>, ghost gone: nat)
    requires Filled(b0, size) && n <= size
    ensures gone == size - n
    ensures |b| == |b0| && Filled(b, n) && b[..n] == b0[..size][..n]
  {
    hide Patch;
    PatchCells(b0, n, Raws(size - n));
    b, gone := DestroyElements(b0, n, size - n);
  }

  /** Constructs elements behind the last one. */
  method ConstructBehind<T>(b0: Buffer<T>, size: nat, values: Buffer<T>) returns (b: Buffer<T>, ghost made: nat)
    requires Filled(b0, size) && size + |values| <= |b0| && Alive(values)
    ensures made == |values|
    ensures |b| == |b0| && Filled(b, size + |values|) && b[..size + |values|] == b0[..size] + values
  {
    hide Patch;
    PatchCells(b0, size, values);
    b, made := ConstructElements(b0, size, values);
  }

  lemma RepeatAlive<T>(v: Cell<T>, n: nat)
    requires !v.Raw?
    ensures Alive(Repeat(v, n))
  {
  }

  lemma AtEnd<A>(s: seq<A>, values: seq<A>)
    ensures Splice(s, |s|, values) == s + values
  {
  }

  /** Moves elements to fresh cells and destroys what is left of them. */
  method MoveInlined<T>(b0: Buffer<T>, size: nat, capacity: nat)
    returns (b: Buffer<T>, spent: Buffer<T>, ghost made: nat, ghost gone: nat)
    requires Filled(b0, size) && size <= capacity
    ensures made == gone == size
    ensures |b| == capacity && Filled(b, size) && b[..size] == b0[..size]
    ensures |spent| == |b0| && AllRaw(spent)
  {
    spent, b, made, gone := MoveAround(b0, size, size, Raws(capacity), 0);
  }

  /** Moves elements to raw cells; the moved-from objects stay. */
  method MoveOut<T>(from0: Buffer<T>, size: nat, to0: Buffer<T>)
    returns (from: Buffer<T>, to: Buffer<T>, ghost made: nat)
    requires Filled(from0, size) && size <= |to0| && Filled(to0, 0)
    ensures |to| == |to0| && Filled(to, size) && to[..size] == from0[..size]
    ensures |from| == |from0| && Filled(from, size) && from[..size] == Husks(size) && made == size
  {
    hide Patch;
    PatchCells(to0, 0, from0[0..size]);
    PatchCells(from0, 0, Husks(size));
    from, to, made := MoveElements(from0, 0, to0, 0, size);
  }

  lemma FilledSize<T>(b: Buffer<T>, size: nat)
    requires Filled(b, size)
    ensures size <= |b|
  {
  }

  lemma RawSize<T>(b: Buffer<T>, size: nat)
    requires Filled(b, size)
    ensures AllRaw(b) <==> size == 0
  {
    if size > 0 {
      assert !b[0].Raw?;
    }
  }

  lemma SpentOk<T>(b: Buffer<T>)
    requires AllRaw(b)
    ensures Filled(b, 0) && b[..0] == []
  {
  }

  lemma InlinedOk<T>(n: nat, blocks: Blocks<T>, cells: Buffer<T>, size: nat)
    requires |cells| == n && Filled(cells, size)
    ensures var s := OnStack(size, cells);
      StorageOk(n, blocks, s) && Elements(n, blocks, s) == cells[..size] && Owned(s) == {}
  {
  }

  function NextCapacity(capacity: nat): nat {
    2 * capacity
  }

  function ComputeCapacity(capacity: nat, requested: nat): nat {
    if NextCapacity(capacity) < requested then requested else NextCapacity(capacity)
  }

  /** What is enough stays; otherwise the capacity at least doubles. */
  function Grown(capacity: nat, needed: nat): (c: nat)
    ensures needed <= c && if needed <= capacity then c == capacity else 2 * capacity <= c
    ensures c == capacity || c == 2 * capacity || c == needed
  {
    if needed <= capacity then capacity else if 2 * capacity < needed then needed else 2 * capacity
  }

  function Repeat<A>(v: A, n: nat): (r: seq<A>)
    ensures |r| == n && forall i :: 0 <= i < n ==> r[i] == v
  {
    seq(n, _ => v)
  }

  lemma SpliceNone<A>(s: seq<A>, at: nat)
    requires at <= |s|
    ensures Splice(s, at, []) == s
  {
  }

  lemma SpliceNext<A>(s: seq<A>, at: nat, values: seq<A>, i: nat)
    requires at <= |s| && i < |values|
    ensures |Splice(s, at, values[..i])| == |s| + i
    ensures Splice(Splice(s, at, values[..i]), at + i, [values[i]]) == Splice(s, at, values[..i + 1])
  {
  }

  lemma OverwriteNext<A>(values: seq<A>, s: seq<A>, i: nat)
    requires i < |values| && i < |s|
    ensures |values[..i] + s[i..]| == |s|
    ensures (values[..i] + s[i..])[i := values[i]] == values[..i + 1] + s[i + 1..]
  {
  }

  lemma CutSurplus<A>(values: seq<A>, s: seq<A>, i: nat)
    requires i <= |values| && i <= |s|
    ensures |values[..i] + s[i..]| == |s| && Cut(values[..i] + s[i..], i, |s|) == values[..i]
    ensures values[..i] + values[i..] == values
  {
  }

  lemma Again<K, V>(m: map<K, V>, k: K, v: V, w: V)
    ensures m[k := v][k := w] == m[k := w]
  {
  }

  lemma OrderFree<K, V>(m: map<K, V>, j: K, v: V, k: K, w: V)
    requires j != k
    ensures m[k := w][j := v] == m[j := v][k := w]
  {
  }

  function Held<T>(s: Storage<T>): nat {
    if s.GetIsAllocated() then 1 else 0
  }
}
