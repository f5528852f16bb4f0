/** What the pool asks of the base allocator: the capacity of new chunks, and what is left after Clear. */
module PoolCapacity {
  import opened Widths
  import opened PoolAllocator
  import opened PoolRuns
  import opened MemoryPool

  function Capacity(pool: Pool): nat {
    CapacityFrom(pool.chunks, 0)
  }

  lemma {:induction false} CapacitySame(a: seq<Chunk>, i: nat, b: seq<Chunk>, j: nat)
    requires i <= |a| && j <= |b| && a[i..] == b[j..]
    ensures CapacityFrom(a, i) == CapacityFrom(b, j)
    decreases |a| - i
  {
    assert |a| - i == |a[i..]| == |b| - j;
    if i < |a| {
      assert a[i] == a[i..][0] == b[j];
      assert a[i + 1..] == a[i..][1..] == b[j + 1..];
      CapacitySame(a, i + 1, b, j + 1);
    }
  }

  /** A request that the head serves or that is refused leaves the capacity and the other chunks as they
      are. Any other one adds a chunk at the given address, as large as the chunk capacity or as the
      request if that is larger. */
  lemma MallocCapacity(pool: Pool, size: nat, given: nat)
    requires pool.chunks != []
    ensures var head, aligned, r := pool.chunks[0], Align(size), Malloc(pool, size, given);
            if size == 0 || Sum(head.size, aligned) <= head.capacity || given == 0 then
              && Capacity(r.pool) == Capacity(pool) && |r.pool.chunks| == |pool.chunks|
              && r.pool.chunks[1..] == pool.chunks[1..] && r.pool.chunks[0].base == head.base
            else
              var more := if aligned <= pool.chunkCapacity then pool.chunkCapacity else aligned;
              && Capacity(r.pool) == Capacity(pool) + more
              && r.pool.chunks == [Chunk(given, more, aligned)] + pool.chunks
              && r.ptr == given + HEADER
  {
    var r := Malloc(pool, size, given);
    if size != 0 {
      if FitsHead(pool.chunks[0], Align(size)) {
        CapacitySame(pool.chunks, 1, r.pool.chunks, 1);
      } else if given != 0 {
        CapacitySame(pool.chunks, 0, r.pool.chunks, 1);
      }
    }
  }

  /** Nothing is allocated for a request of no bytes, and no memory is moved: a null pointer is
      allocated for, and a block is given up by resizing it to nothing. */
  lemma EmptyRequests(pool: Pool, ptr: nat, originalSize: nat, size: nat, given: nat)
    requires pool.chunks != []
    ensures Malloc(pool, 0, given) == Allocation(pool, 0)
    ensures Realloc(pool, ptr, originalSize, 0, given) == Reallocation(pool, 0, 0)
    ensures Allocation(Realloc(pool, 0, originalSize, size, given).pool, Realloc(pool, 0, originalSize, size, given).ptr)
            == Malloc(pool, size, given)
    ensures Realloc(pool, 0, originalSize, size, given).copied == 0
  {}

  // ---------- requests without the base allocator ----------

  /** All requests are granted, although the base allocator has nothing to give. */
  predicate AllGranted(pool: Pool, sizes: seq<nat>)
    requires pool.chunks != []
    decreases |sizes|
  {
    sizes == [] || (var r := Malloc(pool, sizes[0], 0); r.ptr != 0 && AllGranted(r.pool, sizes[1..]))
  }

  function Total(sizes: seq<nat>): nat {
    if sizes == [] then 0 else Align(sizes[0]) + Total(sizes[1..])
  }

  lemma {:induction false} HeadServes(pool: Pool, sizes: seq<nat>)
    requires pool.chunks != [] && (forall n | n in sizes :: 0 < n)
    requires pool.chunks[0].size + Total(sizes) <= pool.chunks[0].capacity < TWO_64
    ensures AllGranted(pool, sizes)
    decreases |sizes|
  {
    hide Malloc, Align;
    if sizes != [] {
      assert sizes[0] in sizes;
      HeadServesOne(pool, sizes[0]);
      assert forall n | n in sizes[1..] :: n in sizes;
      HeadServes(Malloc(pool, sizes[0], 0).pool, sizes[1..]);
    }
  }

  lemma HeadServesOne(pool: Pool, size: nat)
    requires pool.chunks != [] && 0 < size && pool.chunks[0].size + Align(size) <= pool.chunks[0].capacity < TWO_64
    ensures var head, r := pool.chunks[0], Malloc(pool, size, 0);
            r.ptr != 0 && r.pool.chunks != [] && r.pool.chunks[0] == head.(size := head.size + Align(size))
  {}

  /** Behind a new chunk, requests that together fit the chunk capacity do not ask for another one. */
  lemma NewChunkServes(pool: Pool, size: nat, given: nat, sizes: seq<nat>)
    requires pool.chunks != [] && pool.chunkCapacity < TWO_64 && given != 0 && (forall n | n in sizes :: 0 < n)
    requires 0 < size && pool.chunks[0].capacity < Sum(pool.chunks[0].size, Align(size))
    requires Align(size) + Total(sizes) <= pool.chunkCapacity
    ensures AllGranted(Malloc(pool, size, given).pool, sizes)
  {
    MallocCapacity(pool, size, given);
    HeadServes(Malloc(pool, size, given).pool, sizes);
  }

  // ---------- clearing ----------

  /** The chunk that came first is where it was and as large as it was. */
  predicate FirstKept(a: Pool, b: Pool) {
    && a.chunks != [] && b.chunks != [] && b.chunkCapacity == a.chunkCapacity
    && b.chunks[|b.chunks| - 1].base == a.chunks[|a.chunks| - 1].base
    && b.chunks[|b.chunks| - 1].capacity == a.chunks[|a.chunks| - 1].capacity
  }

  lemma CutKeepsFirst(pool: Pool, room: nat)
    requires pool.chunks != []
    ensures FirstKept(pool, Cut(pool, room).pool)
  {}

  lemma MallocKeepsFirst(pool: Pool, size: nat, given: nat)
    requires pool.chunks != []
    ensures FirstKept(pool, Malloc(pool, size, given).pool)
  {
    hide Cut;
    CutKeepsFirst(pool, Align(size));
    CutKeepsFirst(pool.(chunks := [Chunk(given, NewCapacity(pool, Align(size)), 0)] + pool.chunks), Align(size));
  }

  lemma ReallocKeepsFirst(pool: Pool, ptr: nat, originalSize: nat, newSize: nat, given: nat)
    requires pool.chunks != []
    ensures FirstKept(pool, Realloc(pool, ptr, originalSize, newSize, given).pool)
  {
    hide Cut, Malloc;
    MallocKeepsFirst(pool, newSize, given);
    MallocKeepsFirst(pool, Align(newSize), given);
    if Align(originalSize) < Align(newSize) { CutKeepsFirst(pool, Align(newSize) - Align(originalSize)); }
  }

  lemma FirstStays(s: State, op: Op)
    requires s.pool.chunks != [] && Legal(s, op)
    ensures FirstKept(s.pool, Next(s, op).pool)
  {
    hide Malloc, Realloc, Fresh, Sound, SoundRealloc;
    match op
    case Allocate(size, given) => MallocKeepsFirst(s.pool, size, given);
    case Resize(ptr, newSize, given) => ReallocKeepsFirst(s.pool, ptr, s.blocks[ptr].length, newSize, given);
    case _ =>
  }

  lemma {:induction false} FirstStaysInRuns(s: State, ops: seq<Op>)
    requires s.pool.chunks != [] && AllLegal(s, ops)
    ensures FirstKept(s.pool, Run(s, ops).pool)
    decreases |ops|
  {
    hide Legal, Next;
    if ops != [] {
      FirstStays(s, ops[0]);
      FirstStaysInRuns(Next(s, ops[0]), ops[1..]);
    }
  }

  /** Clearing the pool after any run takes it back to where it began: one chunk, no byte in use. */
  lemma ClearRestores(s: State, ops: seq<Op>)
    requires |s.pool.chunks| == 1 && s.pool.chunks[0].size == 0 && AllLegal(s, ops)
    ensures Run(s, ops).pool.chunks != [] && Legal(Run(s, ops), ClearAll)
    ensures var t := Next(Run(s, ops), ClearAll);
            t.pool == s.pool && t.blocks == map[] && t.mem == Run(s, ops).mem && Used(t.pool) == 0
  {
    FirstStaysInRuns(s, ops);
    hide Run, AllLegal;
    var t := Next(Run(s, ops), ClearAll);
    assert t.pool.chunks == s.pool.chunks;
    assert UsedFrom(t.pool.chunks, 1) == 0;
  }
}
