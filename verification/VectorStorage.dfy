/** The storage of an inlined vector: a size word whose low bit says whether the
    elements are on the heap, and a union of inlined cells and a heap pointer. */
module VectorStorage {
  import opened Cells
  import opened VectorAlgorithms

  /** What the union holds. */
  datatype Data<T> = Inlined(cells: Buffer<T>) | Allocated(address: nat, capacity: nat)

  datatype Storage<T> = Storage(sizeAndIsAllocated: nat, data: Data<T>)
  {
    function GetSize(): nat {
      sizeAndIsAllocated / 2
    }

    predicate GetIsAllocated() {
      sizeAndIsAllocated % 2 == 1
    }
  }

  /** The heap blocks in use, by address. */
  type Blocks<T> = map<nat, Buffer<T>>

  /** `SetInlinedSize` over inlined cells. */
  function OnStack<T>(size: nat, cells: Buffer<T>): (s: Storage<T>)
    ensures !s.GetIsAllocated() && s.GetSize() == size
  {
    Storage(2 * size, Inlined(cells))
  }

  /** `SetAllocation` and `SetAllocatedSize`. */
  function OnHeap<T>(size: nat, address: nat, capacity: nat): (s: Storage<T>)
    ensures s.GetIsAllocated() && s.GetSize() == size
  {
    Storage(2 * size + 1, Allocated(address, capacity))
  }

  /** `n` is the inlined capacity, which every block exceeds. */
  ghost predicate StorageOk<T>(n: nat, blocks: Blocks<T>, s: Storage<T>) {
    if s.GetIsAllocated() then
      && s.data.Allocated?
      && s.data.address in blocks
      && |blocks[s.data.address]| == s.data.capacity > n
      && Filled(blocks[s.data.address], s.GetSize())
    else
      s.data.Inlined? && |s.data.cells| == n && Filled(s.data.cells, s.GetSize())
  }

  /** The cells in use, wherever they are. */
  function BufferOf<T>(ghost n: nat, blocks: Blocks<T>, s: Storage<T>): Buffer<T>
    requires StorageOk(n, blocks, s)
  {
    if s.GetIsAllocated() then blocks[s.data.address] else s.data.cells
  }

  /** The elements, among them those that were moved from. */
  ghost function Elements<T>(n: nat, blocks: Blocks<T>, s: Storage<T>): Buffer<T>
    requires StorageOk(n, blocks, s)
  {
    BufferOf(n, blocks, s)[..s.GetSize()]
  }

  /** The block that the storage owns, if any. */
  ghost function Owned<T>(s: Storage<T>): set<nat> {
    if s.GetIsAllocated() && s.data.Allocated? then {s.data.address} else {}
  }

  /** Every vector is well formed, and every heap block has exactly one owner. */
  ghost predicate Ok<K, T>(n: nat, blocks: Blocks<T>, stores: map<K, Storage<T>>) {
    && (forall k :: k in stores ==> StorageOk(n, blocks, stores[k]))
    && (forall a :: a in blocks ==> exists k :: k in stores && a in Owned(stores[k]))
    && (forall j, k :: j in stores && k in stores && j != k ==> Owned(stores[j]) !! Owned(stores[k]))
  }

  /** What all vectors contain. */
  ghost function Contents<K, T>(n: nat, blocks: Blocks<T>, stores: map<K, Storage<T>>): (m: map<K, Buffer<T>>)
    requires Ok(n, blocks, stores)
    ensures m.Keys == stores.Keys
  {
    map k | k in stores :: Elements(n, blocks, stores[k])
  }

  /** Without vectors there are no blocks: nothing leaks. */
  lemma NoVectorsNoBlocks<K, T>(n: nat, blocks: Blocks<T>, stores: map<K, Storage<T>>)
    requires Ok(n, blocks, stores) && stores == map[]
    ensures blocks == map[]
  {
  }

  lemma OwnedIn<T>(n: nat, blocks: Blocks<T>, s: Storage<T>)
    requires StorageOk(n, blocks, s)
    ensures Owned(s) <= blocks.Keys
  {
  }

  // ------------------------------------------------------------------------
  // Ownership changes hands
  // ------------------------------------------------------------------------

  /** All blocks but those in `touched` are as before. */
  ghost predicate SameElsewhere<T>(blocks: Blocks<T>, blocks': Blocks<T>, touched: set<nat>) {
    forall a :: a !in touched ==> (a in blocks <==> a in blocks') && (a in blocks ==> blocks'[a] == blocks[a])
  }

  lemma ElsewhereOk<T>(n: nat, blocks: Blocks<T>, blocks': Blocks<T>, touched: set<nat>, s: Storage<T>)
    requires StorageOk(n, blocks, s) && SameElsewhere(blocks, blocks', touched) && Owned(s) !! touched
    ensures StorageOk(n, blocks', s) && Elements(n, blocks', s) == Elements(n, blocks, s)
  {
    hide Filled;
    if s.GetIsAllocated() {
      assert s.data.address in Owned(s);
    }
  }

  /** The blocks `before` are given up for `after`: what is not kept is released,
      what is new was free. */
  ghost predicate Traded<T>(blocks: Blocks<T>, before: set<nat>, blocks': Blocks<T>, after: set<nat>) {
    && SameElsewhere(blocks, blocks', before + after)
    && (forall a :: a in after && a !in before ==> a !in blocks)
    && (forall a :: a in before && a !in after ==> a !in blocks')
  }

  /** The vectors in `ks` exchange their storage for that in `stores'`; all others
      keep their blocks and their elements. */
  lemma Trade<K, T>(n: nat, blocks: Blocks<T>, stores: map<K, Storage<T>>,
                    blocks': Blocks<T>, stores': map<K, Storage<T>>, ks: set<K>, before: set<nat>, after: set<nat>)
    requires Ok(n, blocks, stores) && stores'.Keys == stores.Keys && Traded(blocks, before, blocks', after)
    requires forall k :: k in stores && k !in ks ==> stores'[k] == stores[k]
    requires forall k :: k in stores && k in ks ==>
      Owned(stores[k]) <= before && Owned(stores'[k]) <= after && StorageOk(n, blocks', stores'[k])
    requires forall a :: a in before ==> exists k :: k in stores && k in ks && a in Owned(stores[k])
    requires forall a :: a in after ==> exists k :: k in stores && k in ks && a in Owned(stores'[k])
    requires forall j, k :: j in stores && k in stores && j in ks && k in ks && j != k ==>
      Owned(stores'[j]) !! Owned(stores'[k])
    ensures Ok(n, blocks', stores')
    ensures forall k :: k in stores && k !in ks ==>
      Contents(n, blocks', stores')[k] == Contents(n, blocks, stores)[k]
  {
    hide StorageOk, Elements, BufferOf, Owned;
    forall k | k in stores && k !in ks
      ensures Owned(stores[k]) !! before + after
      ensures StorageOk(n, blocks', stores[k]) && Elements(n, blocks', stores[k]) == Elements(n, blocks, stores[k])
    {
      OwnedIn(n, blocks, stores[k]);
      ElsewhereOk(n, blocks, blocks', before + after, stores[k]);
    }
    forall a | a in blocks' ensures exists k :: k in stores' && a in Owned(stores'[k]) {
      if a in after {
        var k :| k in stores && k in ks && a in Owned(stores'[k]);
      } else {
        var k :| k in stores && a in Owned(stores[k]);
        assert k !in ks;
        assert a in Owned(stores'[k]);
      }
    }
  }

  lemma TradeOne<K, T>(n: nat, blocks: Blocks<T>, stores: map<K, Storage<T>>, k: K, blocks': Blocks<T>, s: Storage<T>)
    requires Ok(n, blocks, stores) && k in stores && StorageOk(n, blocks', s)
    requires Traded(blocks, Owned(stores[k]), blocks', Owned(s))
    ensures Ok(n, blocks', stores[k := s])
    ensures Contents(n, blocks', stores[k := s]) == Contents(n, blocks, stores)[k := Elements(n, blocks', s)]
  {
    hide StorageOk, Elements, Owned, Traded, Ok;
    Trade(n, blocks, stores, blocks', stores[k := s], {k}, Owned(stores[k]), Owned(s));
  }

  lemma TradeTwo<K, T>(n: nat, blocks: Blocks<T>, stores: map<K, Storage<T>>, j: K, k: K,
                       blocks': Blocks<T>, s: Storage<T>, t: Storage<T>)
    requires Ok(n, blocks, stores) && j in stores && k in stores && j != k
    requires StorageOk(n, blocks', s) && StorageOk(n, blocks', t) && Owned(s) !! Owned(t)
    requires Traded(blocks, Owned(stores[j]) + Owned(stores[k]), blocks', Owned(s) + Owned(t))
    ensures Ok(n, blocks', stores[j := s][k := t])
    ensures Contents(n, blocks', stores[j := s][k := t])
         == Contents(n, blocks, stores)[j := Elements(n, blocks', s)][k := Elements(n, blocks', t)]
  {
    hide StorageOk, Elements, Owned, Traded, Ok;
    Trade(n, blocks, stores, blocks', stores[j := s][k := t], {j, k},
          Owned(stores[j]) + Owned(stores[k]), Owned(s) + Owned(t));
  }

  lemma EmptyOk<T>(n: nat, blocks: Blocks<T>)
    ensures var s := OnStack(0, Raws(n)); StorageOk(n, blocks, s) && Owned(s) == {} && Elements(n, blocks, s) == []
  {
  }

  /** A vector starts without elements and without a block. */
  lemma AddEmpty<K, T>(n: nat, blocks: Blocks<T>, stores: map<K, Storage<T>>, k: K)
    requires Ok(n, blocks, stores) && k !in stores
    ensures Ok(n, blocks, stores[k := OnStack(0, Raws(n))])
    ensures Contents(n, blocks, stores[k := OnStack(0, Raws(n))]) == Contents(n, blocks, stores)[k := []]
  {
    hide StorageOk, Elements, Owned;
    EmptyOk(n, blocks);
    var stores' := stores[k := OnStack(0, Raws(n))];
    forall a | a in blocks ensures exists j :: j in stores' && a in Owned(stores'[j]) {
      var j :| j in stores && a in Owned(stores[j]);
      assert a in Owned(stores'[j]);
    }
  }

  /** A vector may go once it owns no block. */
  lemma RemoveEmpty<K, T>(n: nat, blocks: Blocks<T>, stores: map<K, Storage<T>>, k: K)
    requires Ok(n, blocks, stores) && k in stores && Owned(stores[k]) == {}
    ensures Ok(n, blocks, stores - {k})
    ensures Contents(n, blocks, stores - {k}) == Contents(n, blocks, stores) - {k}
  {
    hide StorageOk, Elements, Owned;
    var stores' := stores - {k};
    forall a | a in blocks ensures exists j :: j in stores' && a in Owned(stores'[j]) {
      var j :| j in stores && a in Owned(stores[j]);
      assert a in Owned(stores'[j]);
    }
  }

  // ------------------------------------------------------------------------
  // The ways to trade
  // ------------------------------------------------------------------------

  /** `SetSize` after the cells in use were changed to `b`. */
  function PutBack<T>(ghost n: nat, blocks: Blocks<T>, s: Storage<T>, b: Buffer<T>, size: nat): (Blocks<T>, Storage<T>)
    requires StorageOk(n, blocks, s)
  {
    if s.GetIsAllocated()
    then (blocks[s.data.address := b], OnHeap(size, s.data.address, s.data.capacity))
    else (blocks, OnStack(size, b))
  }

  lemma PutBackOk<K, T>(n: nat, blocks: Blocks<T>, stores: map<K, Storage<T>>, k: K, b: Buffer<T>, size: nat)
    requires Ok(n, blocks, stores) && k in stores
    requires StorageOk(n, blocks, stores[k]) && |b| == |BufferOf(n, blocks, stores[k])| && Filled(b, size)
    ensures var (blocks', s) := PutBack(n, blocks, stores[k], b, size);
      && |blocks'| == |blocks|
      && StorageOk(n, blocks', s) && BufferOf(n, blocks', s) == b
      && Ok(n, blocks', stores[k := s])
      && Contents(n, blocks', stores[k := s]) == Contents(n, blocks, stores)[k := b[..size]]
  {
    hide Ok, Contents, Filled;
    var (blocks', s) := PutBack(n, blocks, stores[k], b, size);
    TradeOne(n, blocks, stores, k, blocks', s);
  }

  /** New elements in a new block `a`; the old block, if any, is released. */
  lemma RegrowOk<K, T>(n: nat, blocks: Blocks<T>, stores: map<K, Storage<T>>, k: K, a: nat, b: Buffer<T>, size: nat)
    requires Ok(n, blocks, stores) && k in stores && a !in blocks && |b| > n && Filled(b, size)
    ensures var blocks', s := blocks[a := b] - Owned(stores[k]), OnHeap(size, a, |b|);
      && Ok(n, blocks', stores[k := s])
      && Contents(n, blocks', stores[k := s]) == Contents(n, blocks, stores)[k := b[..size]]
  {
    hide Ok, Contents, Filled;
    VectorOk(n, blocks, stores, k);
    OwnedIn(n, blocks, stores[k]);
    TradeOne(n, blocks, stores, k, blocks[a := b] - Owned(stores[k]), OnHeap(size, a, |b|));
  }

  /** New elements in the object itself; the block, if any, is released. */
  lemma SettleOk<K, T>(n: nat, blocks: Blocks<T>, stores: map<K, Storage<T>>, k: K, cells: Buffer<T>, size: nat)
    requires Ok(n, blocks, stores) && k in stores && |cells| == n && Filled(cells, size)
    ensures var blocks', s := blocks - Owned(stores[k]), OnStack(size, cells);
      && Ok(n, blocks', stores[k := s])
      && Contents(n, blocks', stores[k := s]) == Contents(n, blocks, stores)[k := cells[..size]]
  {
    hide Ok, Contents, Filled;
    TradeOne(n, blocks, stores, k, blocks - Owned(stores[k]), OnStack(size, cells));
  }

  /** `k` releases its own block and takes over the storage of `j`, which is left
      without any. */
  lemma AdoptOk<K, T>(n: nat, blocks: Blocks<T>, stores: map<K, Storage<T>>, k: K, j: K)
    requires Ok(n, blocks, stores) && k in stores && j in stores && k != j
    ensures var blocks', s := blocks - Owned(stores[k]), OnStack(0, Raws(n));
      && Ok(n, blocks', stores[k := stores[j]][j := s])
      && Contents(n, blocks', stores[k := stores[j]][j := s])
         == Contents(n, blocks, stores)[k := Contents(n, blocks, stores)[j]][j := []]
  {
    hide Ok, Contents, Filled, StorageOk, Elements, BufferOf;
    var blocks', s := blocks - Owned(stores[k]), OnStack(0, Raws(n));
    VectorOk(n, blocks, stores, j);
    Apart(n, blocks, stores, k, j);
    OwnedIn(n, blocks, stores[j]);
    ElsewhereOk(n, blocks, blocks', Owned(stores[k]), stores[j]);
    EmptyOk(n, blocks');
    TradeTwo(n, blocks, stores, k, j, blocks', stores[j], s);
  }

  /** Two vectors exchange their blocks, whatever their cells become. */
  lemma SwapOk<K, T>(n: nat, blocks: Blocks<T>, stores: map<K, Storage<T>>, k: K, j: K, s: Storage<T>, t: Storage<T>)
    requires Ok(n, blocks, stores) && k in stores && j in stores && k != j
    requires StorageOk(n, blocks, s) && StorageOk(n, blocks, t)
    requires Owned(s) == Owned(stores[j]) && Owned(t) == Owned(stores[k])
    ensures Ok(n, blocks, stores[k := s][j := t])
    ensures Contents(n, blocks, stores[k := s][j := t])
         == Contents(n, blocks, stores)[k := Elements(n, blocks, s)][j := Elements(n, blocks, t)]
  {
    hide Ok, Contents, Filled, StorageOk, Elements, BufferOf, Owned;
    Apart(n, blocks, stores, k, j);
    TradeTwo(n, blocks, stores, k, j, blocks, s, t);
  }

  lemma Apart<K, T>(n: nat, blocks: Blocks<T>, stores: map<K, Storage<T>>, k: K, j: K)
    requires Ok(n, blocks, stores) && k in stores && j in stores && k != j
    ensures Owned(stores[k]) !! Owned(stores[j])
  {
  }

  lemma VectorOk<K, T>(n: nat, blocks: Blocks<T>, stores: map<K, Storage<T>>, k: K)
    requires Ok(n, blocks, stores) && k in stores
    ensures StorageOk(n, blocks, stores[k])
    ensures Elements(n, blocks, stores[k]) == Contents(n, blocks, stores)[k]
  {
  }

  lemma BufferShape<T>(n: nat, blocks: Blocks<T>, s: Storage<T>)
    requires StorageOk(n, blocks, s)
    ensures Filled(BufferOf(n, blocks, s), s.GetSize())
    ensures Elements(n, blocks, s) == BufferOf(n, blocks, s)[..s.GetSize()]
    ensures if s.GetIsAllocated()
      then s.data.Allocated? && s.data.address in blocks && BufferOf(n, blocks, s) == blocks[s.data.address]
        && s.data.capacity == |blocks[s.data.address]| > n && Owned(s) == {s.data.address}
      else s.data.Inlined? && |s.data.cells| == n && BufferOf(n, blocks, s) == s.data.cells && Owned(s) == {}
  {
  }

  // ------------------------------------------------------------------------
  // How many elements there are
  // ------------------------------------------------------------------------

  /** The number of elements in all vectors together. */
  ghost function Total<K, A>(contents: map<K, seq<A>>): nat
    decreases contents.Keys
  {
    if contents == map[] then 0 else
      var k :| k in contents;
      |contents[k]| + Total(contents - {k})
  }

  lemma {:induction false} TotalAt<K, A>(contents: map<K, seq<A>>, k: K)
    requires k in contents
    ensures Total(contents) == |contents[k]| + Total(contents - {k})
    decreases contents.Keys
  {
    var j :| j in contents && Total(contents) == |contents[j]| + Total(contents - {j});
    if j != k {
      TotalAt(contents - {j}, k);
      TotalAt(contents - {k}, j);
      assert contents - {j} - {k} == contents - {k} - {j};
    }
  }

  lemma TotalPut<K, A>(contents: map<K, seq<A>>, k: K, s: seq<A>)
    ensures Total(contents[k := s]) == Total(contents) + |s| - (if k in contents then |contents[k]| else 0)
  {
    hide Total;
    TotalAt(contents[k := s], k);
    if k in contents {
      TotalAt(contents, k);
    }
    assert contents[k := s] - {k} == contents - {k};
    assert k !in contents ==> contents - {k} == contents;
  }

  /** Contents that change places are as many as before. */
  lemma TotalSwap<K, A>(contents: map<K, seq<A>>, j: K, k: K)
    requires j in contents && k in contents && j != k
    ensures Total(contents[j := contents[k]][k := contents[j]]) == Total(contents)
  {
    hide Total;
    TotalPut(contents, j, contents[k]);
    TotalPut(contents[j := contents[k]], k, contents[j]);
  }

  lemma TotalAdopt<K, A>(contents: map<K, seq<A>>, j: K, k: K)
    requires j in contents && k in contents && j != k && contents[j] == []
    ensures Total(contents[j := contents[k]][k := []]) == Total(contents)
  {
    hide Total;
    TotalPut(contents, j, contents[k]);
    TotalPut(contents[j := contents[k]], k, []);
  }
}
