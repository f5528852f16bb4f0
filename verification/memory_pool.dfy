/** The allocator object: its chunk list is changed in place. */
module MemoryPool {
  import opened Widths
  import opened PoolAllocator
  import opened PoolRuns

  /** The header shared by copies of the allocator, before the first chunk. */
  const SHARED_DATA: nat := 32

  function UsedFrom(chunks: seq<Chunk>, k: nat): nat
    requires k <= |chunks|
    decreases |chunks| - k
  {
    if k == |chunks| then 0 else chunks[k].size + UsedFrom(chunks, k + 1)
  }

  /** The bytes in use, over all chunks. */
  function Used(pool: Pool): nat {
    UsedFrom(pool.chunks, 0)
  }

  function CapacityFrom(chunks: seq<Chunk>, k: nat): nat
    requires k <= |chunks|
    decreases |chunks| - k
  {
    if k == |chunks| then 0 else chunks[k].capacity + CapacityFrom(chunks, k + 1)
  }

  /** The first multiple of eight at or above an address. */
  function AlignedUp(address: nat): (a: nat)
    ensures address <= a < address + 8 && a % 8 == 0
  {
    if address % 8 != 0 then (address + 7) / 8 * 8 else address
  }

  class Allocator {
    var chunks: seq<Chunk>
    var mem: Memory
    const chunkCapacity: nat

    ghost function Now(): Pool
      reads this
    {
      Pool(chunks, chunkCapacity)
    }

    /** The first chunk has no room of its own; it lies behind the shared header at `shared`. */
    constructor (chunkCapacity: nat, shared: nat, mem: Memory)
      requires chunkCapacity < TWO_64
      requires 0 < shared && shared % 8 == 0 && shared + SHARED_DATA + HEADER <= TWO_64
      ensures Inv(Now(), map[]) && Used(Now()) == 0 && this.mem == mem
      ensures Now() == Pool([Chunk(shared + SHARED_DATA, 0, 0)], chunkCapacity)
    {
      this.chunkCapacity := chunkCapacity;
      chunks := [Chunk(shared + SHARED_DATA, 0, 0)];
      this.mem := mem;
      new;
      assert UsedFrom(chunks, 1) == 0;
    }

    /** The first chunk lies in a buffer of the caller, whose start is aligned first; what is left must
        hold the headers. */
    constructor InBuffer(buffer: nat, size: nat, chunkCapacity: nat, mem: Memory)
      requires chunkCapacity < TWO_64
      requires 0 < buffer && buffer + size <= TWO_64 && AlignedUp(buffer) + SHARED_DATA + HEADER <= buffer + size
      ensures Inv(Now(), map[]) && Used(Now()) == 0 && this.mem == mem && |chunks| == 1
      ensures chunks[0].base == AlignedUp(buffer) + SHARED_DATA
      ensures chunks[0].base + HEADER + chunks[0].capacity == buffer + size
    {
      this.chunkCapacity := chunkCapacity;
      var start := AlignedUp(buffer);
      var left := size - (start - buffer);
      chunks := [Chunk(start + SHARED_DATA, left - SHARED_DATA - HEADER, 0)];
      this.mem := mem;
      new;
      assert UsedFrom(chunks, 1) == 0;
    }

    method AddChunk(capacity: nat, given: nat) returns (ok: bool)
      modifies this
      ensures mem == old(mem) && ok == (given != 0)
      ensures chunks == if ok then [Chunk(given, capacity, 0)] + old(chunks) else old(chunks)
    {
      if given != 0 {
        chunks := [Chunk(given, capacity, 0)] + chunks;
        return true;
      }
      ok := false;
    }

    method Malloc(size: nat, given: nat) returns (ptr: nat)
      requires chunks != []
      modifies this
      ensures Allocation(Now(), ptr) == PoolAllocator.Malloc(old(Now()), size, given)
      ensures mem == old(mem) && chunks != []
    {
      if size == 0 { return 0; }
      var aligned := Align(size);
      if Sum(chunks[0].size, aligned) > chunks[0].capacity {
        var ok := AddChunk(if chunkCapacity > aligned then chunkCapacity else aligned, given);
        if !ok { return 0; }
      }
      ptr := Buffer(chunks[0]) + chunks[0].size;
      chunks := chunks[0 := chunks[0].(size := Sum(chunks[0].size, aligned))];
    }

    method Realloc(ptr: nat, originalSize: nat, newSize: nat, given: nat) returns (p: nat)
      requires chunks != []
      modifies this
      ensures var r := PoolAllocator.Realloc(old(Now()), ptr, originalSize, newSize, given);
              Now() == r.pool && p == r.ptr && mem == Copied(old(mem), p, ptr, r.copied)
      ensures chunks != []
    {
      if ptr == 0 {
        p := Malloc(newSize, given);
        return;
      }
      if newSize == 0 { return 0; }
      var original, aligned := Align(originalSize), Align(newSize);
      if original >= aligned { return ptr; }
      if ptr == (Buffer(chunks[0]) + chunks[0].size - original) % TWO_64 {
        var increment := aligned - original;
        if Sum(chunks[0].size, increment) <= chunks[0].capacity {
          chunks := chunks[0 := chunks[0].(size := Sum(chunks[0].size, increment))];
          return ptr;
        }
      }
      p := Malloc(aligned, given);
      if p != 0 {
        if original != 0 {
          mem := Copied(mem, p, ptr, original);
        }
      }
    }

    method Clear()
      requires chunks != []
      modifies this
      ensures Now() == Cleared(old(Now())) && mem == old(mem)
    {
      while |chunks| > 1
        invariant chunks != [] && chunks[|chunks| - 1] == old(chunks[|chunks| - 1]) && mem == old(mem)
        decreases |chunks|
      {
        chunks := chunks[1..];
      }
      chunks := [chunks[0].(size := 0)];
    }

    method Size() returns (size: nat)
      ensures size == Used(Now()) % TWO_64
    {
      size := 0;
      for k := 0 to |chunks|
        invariant (size + UsedFrom(chunks, k)) % TWO_64 == Used(Now()) % TWO_64 && size < TWO_64
      {
        SumRest(size, chunks[k].size, UsedFrom(chunks, k + 1));
        size := Sum(size, chunks[k].size);
      }
    }

    method Capacity() returns (capacity: nat)
      ensures capacity == CapacityFrom(chunks, 0) % TWO_64
    {
      capacity := 0;
      for k := 0 to |chunks|
        invariant (capacity + CapacityFrom(chunks, k)) % TWO_64 == CapacityFrom(chunks, 0) % TWO_64 && capacity < TWO_64
      {
        SumRest(capacity, chunks[k].capacity, CapacityFrom(chunks, k + 1));
        capacity := Sum(capacity, chunks[k].capacity);
      }
    }

    /** Performs an operation of a client, who knows the live blocks and their lengths. */
    method Perform(op: Op, s: State)
      requires s.pool == Now() && s.mem == mem && Inv(s.pool, s.blocks) && Legal(s, op)
      modifies this
      ensures Now() == Next(s, op).pool && mem == Next(s, op).mem
      ensures Inv(Now(), Next(s, op).blocks)
    {
      NextKeeps(s, op);
      match op
      case Allocate(size, given) =>
        var _ := Malloc(size, given);
      case Resize(ptr, newSize, given) =>
        AddressOk(s.pool, s.blocks, ptr);
        var _ := Realloc(ptr, s.blocks[ptr].length, newSize, given);
      case Store(ptr, offset, value) =>
        mem := Stored(mem, ptr + offset, value);
      case Release(_) =>
      case ClearAll =>
        Clear();
    }
  }

  lemma SumRest(a: nat, b: nat, rest: nat)
    ensures (Sum(a, b) + rest) % TWO_64 == (a + (b + rest)) % TWO_64
  {
    assert a + b == Sum(a, b) + TWO_64 * ((a + b) / TWO_64);
    assert a + (b + rest) == (Sum(a, b) + rest) + TWO_64 * ((a + b) / TWO_64);
  }

  // ---------- accounting ----------

  lemma {:induction false} UsedSame(a: seq<Chunk>, i: nat, b: seq<Chunk>, j: nat)
    requires i <= |a| && j <= |b| && a[i..] == b[j..]
    ensures UsedFrom(a, i) == UsedFrom(b, j)
    decreases |a| - i
  {
    if i < |a| {
      assert a[i] == a[i..][0] == b[j..][0] == b[j];
      assert a[i + 1..] == a[i..][1..] == b[j..][1..] == b[j + 1..];
      UsedSame(a, i + 1, b, j + 1);
    }
  }

  lemma CutUses(pool: Pool, room: nat)
    requires pool.chunks != [] && pool.chunks[0].size + room < TWO_64
    ensures Used(Cut(pool, room).pool) == Used(pool) + room
  {
    UsedSame(pool.chunks, 1, Cut(pool, room).pool.chunks, 1);
  }

  /** A granted request adds its rounded size to the bytes in use, a refused one nothing. */
  lemma MallocUses(pool: Pool, blocks: map<nat, Block>, size: nat, given: nat)
    requires Inv(pool, blocks) && (0 < size ==> Sound(pool, size))
    ensures var r := Malloc(pool, size, given);
            Used(r.pool) == Used(pool) + if r.ptr == 0 then 0 else Align(size)
  {
    if 0 < size {
      var aligned := Align(size);
      assert ChunkOk(pool.chunks[0]);
      if FitsHead(pool.chunks[0], aligned) {
        CutUses(pool, aligned);
      } else if given != 0 {
        var more := pool.(chunks := [Chunk(given, NewCapacity(pool, aligned), 0)] + pool.chunks);
        UsedSame(pool.chunks, 0, more.chunks, 1);
        CutUses(more, aligned);
      }
    }
  }

  lemma {:induction false} UsedAtMost(pool: Pool, blocks: map<nat, Block>, k: nat)
    requires Inv(pool, blocks) && k <= |pool.chunks|
    ensures UsedFrom(pool.chunks, k) <= CapacityFrom(pool.chunks, k)
    decreases |pool.chunks| - k
  {
    if k < |pool.chunks| {
      assert ChunkOk(pool.chunks[k]);
      UsedAtMost(pool, blocks, k + 1);
    }
  }
}
