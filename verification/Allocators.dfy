/** The memory pool with its sorted active vector, and the best-fit cache of memory blocks. The system's
    allocator is a function `place` that gives an address not in use. */
module Allocators {
  import opened Wrappers

  type Address = int

  ghost predicate Places(place: set<Address> -> Address) { forall used :: place(used) !in used }

  function Elems<T>(s: seq<T>): (r: set<T>) { set x | x in s }

  predicate NoDuplicates<T(==)>(s: seq<T>) { forall i, j | 0 <= i < j < |s| :: s[i] != s[j] }

  /** `std::lower_bound`: where the elements with a key of at least `x` begin. */
  method LowerBound<T>(s: seq<T>, key: T -> int, x: int) returns (pos: nat)
    requires forall i, j | 0 <= i < j < |s| :: key(s[i]) <= key(s[j])
    ensures pos <= |s|
    ensures forall i | 0 <= i < pos :: key(s[i]) < x
    ensures forall i | pos <= i < |s| :: x <= key(s[i])
  {
    var lo, hi := 0, |s|;
    while lo < hi
      invariant 0 <= lo <= hi <= |s|
      invariant forall i | 0 <= i < lo :: key(s[i]) < x
      invariant forall i | hi <= i < |s| :: x <= key(s[i])
    {
      var mid := (lo + hi) / 2;
      if key(s[mid]) < x { lo := mid + 1; } else { hi := mid; }
    }
    pos := lo;
  }

  function Inserted<T>(s: seq<T>, pos: nat, x: T): (r: seq<T>)
    requires pos <= |s|
    ensures |r| == |s| + 1
  {
    s[..pos] + [x] + s[pos..]
  }

  function Erased<T>(s: seq<T>, pos: nat): (r: seq<T>)
    requires pos < |s|
    ensures |r| == |s| - 1
  {
    s[..pos] + s[pos + 1..]
  }

  lemma InsertedElems<T>(s: seq<T>, pos: nat, x: T)
    requires pos <= |s|
    ensures Elems(Inserted(s, pos, x)) == Elems(s) + {x}
    ensures NoDuplicates(s) && x !in s ==> NoDuplicates(Inserted(s, pos, x))
  {
    var r := Inserted(s, pos, x);
    assert r[pos] == x;
    assert forall i | 0 <= i < |s| :: s[i] == r[if i < pos then i else i + 1];
  }

  lemma ErasedElems<T>(s: seq<T>, pos: nat)
    requires pos < |s| && NoDuplicates(s)
    ensures Elems(Erased(s, pos)) == Elems(s) - {s[pos]} && NoDuplicates(Erased(s, pos))
  {
    var r := Erased(s, pos);
    assert forall i | 0 <= i < |s| && i != pos :: s[i] == r[if i < pos then i else i - 1];
  }

  lemma {:induction false} CardElems<T>(s: seq<T>)
    requires NoDuplicates(s)
    ensures |Elems(s)| == |s|
  {
    if s != [] {
      var n := |s| - 1;
      CardElems(s[..n]);
      assert Elems(s) == Elems(s[..n]) + {s[n]};
    }
  }

  // ---- the memory pool ----

  predicate Ascending(s: seq<Address>) { forall i, j | 0 <= i < j < |s| :: s[i] < s[j] }

  lemma InsertedAscending(s: seq<Address>, pos: nat, x: Address)
    requires pos <= |s| && Ascending(s)
    requires (forall i | 0 <= i < pos :: s[i] < x) && (forall i | pos <= i < |s| :: x < s[i])
    ensures Ascending(Inserted(s, pos, x))
  {
  }

  lemma ErasedAscending(s: seq<Address>, pos: nat)
    requires pos < |s| && Ascending(s)
    ensures Ascending(Erased(s, pos))
  {
  }

  class MemoryPool {
    const poolSize: nat
    const growable: bool
    const spareSize: nat
    const place: set<Address> -> Address
    var active: seq<Address>
    var inactive: seq<Address>
    var resources: set<Address>
    ghost var peak: nat            // the most resources ever active at once

    /** The resources out are in strictly ascending order, the others queued, and together they are all that
        was ever allocated. */
    ghost predicate Partition()
      reads this
    {
      && Ascending(active) && NoDuplicates(inactive)
      && Elems(active) !! Elems(inactive) && Elems(active) + Elems(inactive) == resources
    }

    ghost predicate Valid()
      reads this
    {
      && Places(place) && 0 < spareSize && Partition()
      && |active| <= peak
      && |active| + |inactive| <= peak + poolSize + spareSize
      && (!growable ==> |active| + |inactive| == poolSize + spareSize && spareSize <= |inactive|)
    }

    /** The pool, initialised. */
    constructor (poolSize: nat, place: set<Address> -> Address, growable: bool)
      requires Places(place)
      ensures Valid() && active == [] && |inactive| == poolSize + spareSize
      ensures this.poolSize == poolSize && this.growable == growable
      ensures spareSize == if poolSize / 10 > 1 then poolSize / 10 else 1
    {
      this.poolSize, this.place, this.growable := poolSize, place, growable;
      spareSize := if poolSize / 10 > 1 then poolSize / 10 else 1;
      active, inactive, resources, peak := [], [], {}, 0;
      new;
      PrepareResources();
    }

    /** Fills the queue up to pool size plus spare with new resources. */
    method PrepareResources()
      requires Places(place) && Partition() && |inactive| <= poolSize + spareSize
      modifies this`inactive, this`resources
      ensures Partition() && |inactive| == poolSize + spareSize
      ensures old(inactive) <= inactive && old(resources) <= resources
    {
      var neededSize := poolSize + spareSize - |inactive|;
      for i := 0 to neededSize
        invariant Partition() && |inactive| == old(|inactive|) + i
        invariant old(inactive) <= inactive && old(resources) <= resources
      {
        var p := place(resources);
        assert p !in Elems(active) && p !in Elems(inactive);
        ghost var before := inactive;
        inactive := inactive + [p];
        resources := resources + {p};
        assert Elems(inactive) == Elems(before) + {p};
      }
    }

    function IsFull(): (full: bool)
      reads this
    {
      |inactive| <= spareSize
    }

    method InsertActive(p: Address)
      requires Ascending(active) && p !in active
      modifies this`active
      ensures Ascending(active) && Elems(active) == old(Elems(active)) + {p} && |active| == |old(active)| + 1
    {
      var pos := LowerBound(active, x => x, p);
      assert forall i | pos <= i < |active| :: p < active[i] by {
        assert forall i | 0 <= i < |active| :: active[i] != p;
      }
      InsertedAscending(active, pos, p);
      InsertedElems(active, pos, p);
      active := Inserted(active, pos, p);
    }

    /** A resource that was not out is now out. A growable pool never refuses; one that is not refuses exactly
        when as many resources are out as the pool's size. */
    method Acquire() returns (r: Option<Address>)
      requires Valid()
      modifies this
      ensures Valid() && old(resources) <= resources
      ensures r.None? <==> !growable && |old(active)| == poolSize
      ensures r.None? ==> active == old(active) && inactive == old(inactive) && resources == old(resources)
      ensures r.Some? ==> r.value !in old(active) && Elems(active) == old(Elems(active)) + {r.value}
      ensures r.Some? && |old(inactive)| > 0 ==> r.value == old(inactive)[0]
      ensures !old(IsFull()) ==> resources == old(resources)
      ensures peak == if |active| > old(peak) then |active| else old(peak)
    {
      if IsFull() {
        if !growable { return None; }
        PrepareResources();
      }
      var p := inactive[0];
      assert p in Elems(inactive);
      ErasedElems(inactive, 0);
      assert Erased(inactive, 0) == inactive[1..];
      inactive := inactive[1..];
      InsertActive(p);
      if |active| > peak { peak := |active|; }
      r := Some(p);
    }

    /** A resource that is out goes to the back of the queue; any other pointer changes nothing. */
    method Release(p: Address)
      requires Valid()
      modifies this`active, this`inactive
      ensures Valid()
      ensures p in old(active) ==> Elems(active) == old(Elems(active)) - {p} && inactive == old(inactive) + [p]
      ensures p !in old(active) ==> active == old(active) && inactive == old(inactive)
    {
      var pos := LowerBound(active, x => x, p);
      if pos < |active| && active[pos] == p {
        assert p in Elems(active);
        ErasedElems(active, pos);
        ErasedAscending(active, pos);
        InsertedElems(inactive, |inactive|, p);
        assert Inserted(inactive, |inactive|, p) == inactive + [p];
        inactive := inactive + [p];
        active := Erased(active, pos);
      } else {
        assert p !in active;
      }
    }
  }

  datatype PoolOp = AcquireOp | ReleaseOp(p: Address)

  /** Every run keeps the pool valid; of all resources allocated, at most pool size plus spare exceed the
      most that were ever out at once. */
  method RunPool(pool: MemoryPool, ops: seq<PoolOp>)
    requires pool.Valid()
    modifies pool
    ensures pool.Valid() && |pool.resources| <= pool.peak + pool.poolSize + pool.spareSize
    ensures |pool.resources| == |pool.active| + |pool.inactive|
    ensures !pool.growable ==> |pool.resources| == pool.poolSize + pool.spareSize && |pool.active| <= pool.poolSize
  {
    for i := 0 to |ops|
      invariant pool.Valid()
    {
      match ops[i]
      case AcquireOp => var _ := pool.Acquire();
      case ReleaseOp(p) => pool.Release(p);
    }
    CardElems(pool.active);
    CardElems(pool.inactive);
    assert |pool.resources| == |Elems(pool.active)| + |Elems(pool.inactive)|;
  }

  // ---- the best-fit cache ----

  datatype Block = Block(chunkSize: nat, chunk: Address)

  const HEADER_SIZE: nat := 8

  predicate BySize(s: seq<Block>) { forall i, j | 0 <= i < j < |s| :: s[i].chunkSize <= s[j].chunkSize }

  lemma InsertedBySize(s: seq<Block>, pos: nat, b: Block)
    requires pos <= |s| && BySize(s)
    requires forall i | 0 <= i < pos :: s[i].chunkSize < b.chunkSize
    requires forall i | pos <= i < |s| :: b.chunkSize <= s[i].chunkSize
    ensures BySize(Inserted(s, pos, b))
  {
  }

  lemma ErasedBySize(s: seq<Block>, pos: nat)
    requires pos < |s| && BySize(s)
    ensures BySize(Erased(s, pos))
  {
  }

  class VariousMemoryAllocator {
    const place: set<Address> -> Address
    var cachedBlocks: seq<Block>
    var headers: map<Address, nat>  // the size written in front of each chunk
    ghost var lent: set<Address>    // the chunks in the callers' hands

    /** The cache is sorted by size and knows each chunk's size; a chunk is cached once or lent, not both. */
    ghost predicate Valid()
      reads this
    {
      && Places(place) && BySize(cachedBlocks) && NoDuplicates(cachedBlocks)
      && (forall b | b in cachedBlocks :: b.chunk in headers && headers[b.chunk] == b.chunkSize && b.chunk !in lent)
      && (forall c | c in headers :: c in lent || Block(headers[c], c) in cachedBlocks)
      && (forall c | c in lent :: c in headers)
    }

    method NewBlock(chunkSize: nat) returns (b: Block)
      requires Places(place)
      modifies this`headers
      ensures b.chunkSize == chunkSize && b.chunk !in old(headers) && headers == old(headers)[b.chunk := chunkSize]
    {
      b := Block(chunkSize, place(headers.Keys));
      headers := headers[b.chunk := chunkSize];
    }

    constructor (poolSize: nat, chunkSize: nat, place: set<Address> -> Address)
      requires Places(place)
      ensures Valid() && lent == {} && |cachedBlocks| == poolSize
      ensures forall b | b in cachedBlocks :: b.chunkSize == chunkSize
    {
      this.place := place;
      cachedBlocks, headers, lent := [], map[], {};
      new;
      for i := 0 to poolSize
        invariant Valid() && lent == {} && |cachedBlocks| == i
        invariant forall b | b in cachedBlocks :: b.chunkSize == chunkSize
      {
        AddBlock(chunkSize);
      }
    }

    /** A new block at the end of a cache of blocks of the same size. */
    method AddBlock(chunkSize: nat)
      requires Valid() && lent == {} && forall b | b in cachedBlocks :: b.chunkSize == chunkSize
      modifies this`headers, this`cachedBlocks
      ensures Valid() && |cachedBlocks| == old(|cachedBlocks|) + 1
      ensures forall b | b in cachedBlocks :: b.chunkSize == chunkSize
    {
      var b := NewBlock(chunkSize);
      assert b !in cachedBlocks;
      ghost var before := cachedBlocks;
      InsertedElems(before, |before|, b);
      assert Inserted(before, |before|, b) == before + [b];
      cachedBlocks := cachedBlocks + [b];
      assert forall x :: x in cachedBlocks <==> x in Elems(before) + {b};
    }

    method Find(chunkSize: nat) returns (pos: nat)
      requires Valid()
      ensures pos <= |cachedBlocks|
      ensures forall i | 0 <= i < pos :: cachedBlocks[i].chunkSize < chunkSize
      ensures forall i | pos <= i < |cachedBlocks| :: chunkSize <= cachedBlocks[i].chunkSize
    {
      pos := LowerBound(cachedBlocks, (b: Block) => b.chunkSize, chunkSize);
    }

    /** The smallest cached block that fits, or a new one of exactly the size asked for if none does. */
    method Malloc(nbytes: nat) returns (ptr: Address)
      requires Valid()
      modifies this
      ensures Valid() && ptr - HEADER_SIZE !in old(lent) && lent == old(lent) + {ptr - HEADER_SIZE}
      ensures ptr - HEADER_SIZE in headers && headers[ptr - HEADER_SIZE] >= nbytes
      ensures forall c | c in old(headers) :: c in headers && headers[c] == old(headers)[c]
      ensures var b := Block(headers[ptr - HEADER_SIZE], ptr - HEADER_SIZE);
        && Elems(cachedBlocks) == old(Elems(cachedBlocks)) - {b}
        && if exists x :: x in old(cachedBlocks) && nbytes <= x.chunkSize
           then
             && b in old(cachedBlocks) && headers == old(headers)
             && forall x | x in old(cachedBlocks) && nbytes <= x.chunkSize :: b.chunkSize <= x.chunkSize
           else b.chunk !in old(headers) && b.chunkSize == nbytes && cachedBlocks == old(cachedBlocks)
    {
      var pos := Find(nbytes);
      var b;
      if pos < |cachedBlocks| {
        b := cachedBlocks[pos];
        ErasedElems(cachedBlocks, pos);
        ErasedBySize(cachedBlocks, pos);
        ghost var before := cachedBlocks;
        cachedBlocks := Erased(cachedBlocks, pos);
        assert forall x :: x in cachedBlocks <==> x in Elems(before) - {b};
      } else {
        b := NewBlock(nbytes);
      }
      lent := lent + {b.chunk};
      ptr := b.chunk + HEADER_SIZE;
    }

    /** A block given back is cached under the size it was made with. */
    method Free(ptr: Option<Address>)
      requires Valid() && (ptr.Some? ==> ptr.value - HEADER_SIZE in lent)
      modifies this`cachedBlocks, this`lent
      ensures Valid()
      ensures ptr.None? ==> cachedBlocks == old(cachedBlocks) && lent == old(lent)
      ensures ptr.Some? ==>
        var chunk := ptr.value - HEADER_SIZE;
        lent == old(lent) - {chunk} && Elems(cachedBlocks) == old(Elems(cachedBlocks)) + {Block(headers[chunk], chunk)}
    {
      if ptr.Some? {
        var chunk := ptr.value - HEADER_SIZE;
        var b := Block(headers[chunk], chunk);
        var pos := Find(b.chunkSize);
        InsertedElems(cachedBlocks, pos, b);
        InsertedBySize(cachedBlocks, pos, b);
        ghost var before := cachedBlocks;
        cachedBlocks := Inserted(cachedBlocks, pos, b);
        assert forall x :: x in cachedBlocks <==> x in Elems(before) + {b};
        lent := lent - {chunk};
      }
    }
  }

  datatype HeapOp = MallocOp(nbytes: nat) | FreeOp(k: nat)

  /** Every run in which callers free what they hold, in any order, keeps the cache valid; the pointers out are
      distinct and lead to the lent chunks, and no chunk ever changes size. */
  method RunHeap(heap: VariousMemoryAllocator, ops: seq<HeapOp>) returns (held: seq<Address>)
    requires heap.Valid() && heap.lent == {}
    modifies heap
    ensures heap.Valid() && NoDuplicates(held) && forall p: Address :: p in held <==> p - HEADER_SIZE in heap.lent
    ensures forall c | c in old(heap.headers) :: c in heap.headers && heap.headers[c] == old(heap.headers)[c]
    ensures forall c :: c in heap.headers <==> c in heap.lent || exists b :: b in heap.cachedBlocks && b.chunk == c
  {
    held := [];
    for i := 0 to |ops|
      invariant heap.Valid() && NoDuplicates(held) && forall p: Address :: p in held <==> p - HEADER_SIZE in heap.lent
      invariant forall c | c in old(heap.headers) :: c in heap.headers && heap.headers[c] == old(heap.headers)[c]
    {
      match ops[i]
      case MallocOp(nbytes) =>
        var ptr := heap.Malloc(nbytes);
        assert ptr !in held;
        held := held + [ptr];
      case FreeOp(k) =>
        if k < |held| {
          assert held[k] in held;
          heap.Free(Some(held[k]));
          ErasedElems(held, k);
          ghost var before := held;
          held := Erased(held, k);
          assert forall x :: x in held <==> x in Elems(before) - {before[k]};
        }
    }
    forall c | c in heap.headers && c !in heap.lent
      ensures exists b :: b in heap.cachedBlocks && b.chunk == c
    {
      assert Block(heap.headers[c], c) in heap.cachedBlocks;
    }
  }
}
