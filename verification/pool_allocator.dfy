/** The pool allocator: blocks are cut off the head of a list of chunks, and only the last one can
    grow where it is. Sizes are 64-bit and wrap; addresses are numbers. */
module PoolAllocator {
  import opened Widths

  const HEADER: nat := 24

  /** A chunk starts with its header; its buffer follows. */
  datatype Chunk = Chunk(base: nat, capacity: nat, size: nat)

  /** The chunk list, head first. */
  datatype Pool = Pool(chunks: seq<Chunk>, chunkCapacity: nat)

  function Buffer(c: Chunk): nat {
    c.base + HEADER
  }

  function Sum(a: nat, b: nat): (s: nat)
    ensures a + b < TWO_64 ==> s == a + b
  {
    (a + b) % TWO_64
  }

  /** Rounds up to a multiple of eight, with the wrap of the addition. */
  function Align(n: nat): (a: nat)
    ensures a % 8 == 0 && a < TWO_64
    ensures n + 7 < TWO_64 ==> n <= a < n + 8
    ensures TWO_64 <= n + 7 && n < TWO_64 ==> a == 0
  {
    Sum(n, 7) / 8 * 8
  }

  lemma AlignAligned(n: nat)
    requires n < TWO_64 && n % 8 == 0
    ensures Align(n) == n
  {}

  // ---------- the operations ----------

  datatype Allocation = Allocation(pool: Pool, ptr: nat)

  predicate FitsHead(c: Chunk, size: nat) {
    Sum(c.size, size) <= c.capacity
  }

  function NewCapacity(pool: Pool, size: nat): nat {
    if pool.chunkCapacity > size then pool.chunkCapacity else size
  }

  /** Cuts size bytes off the head chunk. */
  function Cut(pool: Pool, size: nat): Allocation
    requires pool.chunks != []
  {
    var head := pool.chunks[0];
    Allocation(pool.(chunks := [head.(size := Sum(head.size, size))] + pool.chunks[1..]), Buffer(head) + head.size)
  }

  /** The address given is what the base allocator answers if it is asked for a chunk; 0 is NULL. */
  function Malloc(pool: Pool, size: nat, given: nat): Allocation
    requires pool.chunks != []
  {
    if size == 0 then Allocation(pool, 0)
    else
      var aligned := Align(size);
      if FitsHead(pool.chunks[0], aligned) then Cut(pool, aligned)
      else if given == 0 then Allocation(pool, 0)
      else Cut(pool.(chunks := [Chunk(given, NewCapacity(pool, aligned), 0)] + pool.chunks), aligned)
  }

  /** The block ends where the next one would be cut off. */
  predicate IsLast(c: Chunk, ptr: nat, aligned: nat) {
    ptr == (Buffer(c) + c.size - aligned) % TWO_64
  }

  datatype Reallocation = Reallocation(pool: Pool, ptr: nat, copied: nat)

  function Realloc(pool: Pool, ptr: nat, originalSize: nat, newSize: nat, given: nat): Reallocation
    requires pool.chunks != []
  {
    if ptr == 0 then
      var r := Malloc(pool, newSize, given);
      Reallocation(r.pool, r.ptr, 0)
    else if newSize == 0 then Reallocation(pool, 0, 0)
    else
      var original, aligned := Align(originalSize), Align(newSize);
      var head := pool.chunks[0];
      if original >= aligned then Reallocation(pool, ptr, 0)
      else if IsLast(head, ptr, original) && FitsHead(head, aligned - original) then
        Reallocation(Cut(pool, aligned - original).pool, ptr, 0)
      else
        var r := Malloc(pool, aligned, given);
        Reallocation(r.pool, r.ptr, if r.ptr == 0 then 0 else original)
  }

  // ---------- the invariant ----------

  /** A live block: the bytes asked for, and the bytes kept for it. */
  datatype Block = Block(length: nat, room: nat)

  predicate ChunkOk(c: Chunk) {
    && 0 < c.base && c.base % 8 == 0
    && c.base + HEADER + c.capacity <= TWO_64
    && c.size <= c.capacity && c.size % 8 == 0
  }

  predicate Apart(a: nat, m: nat, b: nat, n: nat) {
    a + m <= b || b + n <= a
  }

  predicate ChunksApart(c: Chunk, d: Chunk) {
    Apart(c.base, HEADER + c.capacity, d.base, HEADER + d.capacity)
  }

  /** The bytes lie in the used part of the chunk's buffer. */
  predicate Inside(c: Chunk, addr: nat, room: nat) {
    Buffer(c) <= addr && addr + room <= Buffer(c) + c.size
  }

  predicate BlockOk(chunks: seq<Chunk>, addr: nat, b: Block) {
    && addr % 8 == 0 && 0 < b.length <= b.room && b.room % 8 == 0
    && exists k :: 0 <= k < |chunks| && Inside(chunks[k], addr, b.room)
  }

  predicate ChunksOk(chunks: seq<Chunk>) {
    && (forall k | 0 <= k < |chunks| :: ChunkOk(chunks[k]))
    && (forall j, k | 0 <= j < k < |chunks| :: ChunksApart(chunks[j], chunks[k]))
  }

  /** Live blocks are aligned, inside their chunk and pairwise disjoint. */
  predicate Inv(pool: Pool, blocks: map<nat, Block>) {
    && pool.chunks != [] && ChunksOk(pool.chunks) && pool.chunkCapacity < TWO_64
    && (forall a | a in blocks :: BlockOk(pool.chunks, a, blocks[a]))
    && (forall a, b | a in blocks && b in blocks && a != b :: Apart(a, blocks[a].room, b, blocks[b].room))
  }

  /** What the base allocator promises of an answer. */
  predicate Fresh(pool: Pool, given: nat, bytes: nat) {
    given == 0 ||
    (given % 8 == 0 && given + bytes <= TWO_64 &&
     forall k | 0 <= k < |pool.chunks| :: Apart(given, bytes, pool.chunks[k].base, HEADER + pool.chunks[k].capacity))
  }

  /** The sums of a request that reach the head or a new chunk do not wrap. */
  predicate Sound(pool: Pool, size: nat)
    requires pool.chunks != []
  {
    var head := pool.chunks[0];
    && size + 7 < TWO_64
    && if FitsHead(head, Align(size)) then head.size + Align(size) <= head.capacity
       else HEADER + NewCapacity(pool, Align(size)) < TWO_64
  }

  /** The bytes asked of the base allocator for a request. */
  function Asked(pool: Pool, size: nat): nat {
    Sum(HEADER, NewCapacity(pool, Align(size)))
  }

  lemma CutKeeps(pool: Pool, blocks: map<nat, Block>, length: nat, room: nat)
    requires Inv(pool, blocks) && 0 < length <= room && room % 8 == 0
    requires pool.chunks[0].size + room <= pool.chunks[0].capacity
    ensures var r := Cut(pool, room);
            r.ptr != 0 && r.ptr !in blocks && Inv(r.pool, blocks[r.ptr := Block(length, room)])
  {
    var r := Cut(pool, room);
    GrowHead(pool, blocks, room);
    forall a | a in blocks
      ensures Apart(a, blocks[a].room, r.ptr, room) && a != r.ptr
    {
      BelowHead(pool, blocks, a);
    }
    assert Inside(r.pool.chunks[0], r.ptr, room);
  }

  /** Every block ends before the free part of the head chunk, or lies outside that chunk. */
  lemma BelowHead(pool: Pool, blocks: map<nat, Block>, a: nat)
    requires Inv(pool, blocks) && a in blocks
    ensures var head := pool.chunks[0];
            a + blocks[a].room <= Buffer(head) + head.size || Apart(a, blocks[a].room, head.base, HEADER + head.capacity)
  {
    var k :| 0 <= k < |pool.chunks| && Inside(pool.chunks[k], a, blocks[a].room);
    assert k > 0 ==> ChunksApart(pool.chunks[0], pool.chunks[k]);
  }

  lemma GrowHead(pool: Pool, blocks: map<nat, Block>, room: nat)
    requires Inv(pool, blocks) && room % 8 == 0 && pool.chunks[0].size + room <= pool.chunks[0].capacity
    ensures Inv(Cut(pool, room).pool, blocks)
  {
    var now := Cut(pool, room).pool;
    GrownChunks(pool, room);
    hide ChunksOk;
    forall a | a in blocks
      ensures BlockOk(now.chunks, a, blocks[a])
    {
      var k :| 0 <= k < |pool.chunks| && Inside(pool.chunks[k], a, blocks[a].room);
      assert Inside(now.chunks[k], a, blocks[a].room);
    }
  }

  lemma GrownChunks(pool: Pool, room: nat)
    requires pool.chunks != [] && ChunksOk(pool.chunks)
    requires room % 8 == 0 && pool.chunks[0].size + room <= pool.chunks[0].capacity
    ensures ChunksOk(Cut(pool, room).pool.chunks)
  {
    var now := Cut(pool, room).pool.chunks;
    forall k | 1 <= k < |now| ensures now[k] == pool.chunks[k] {}
  }

  lemma AddChunkKeeps(pool: Pool, blocks: map<nat, Block>, given: nat, capacity: nat)
    requires Inv(pool, blocks) && given != 0 && HEADER + capacity < TWO_64 && Fresh(pool, given, HEADER + capacity)
    ensures Inv(pool.(chunks := [Chunk(given, capacity, 0)] + pool.chunks), blocks)
  {
    var now := [Chunk(given, capacity, 0)] + pool.chunks;
    AddedChunks(pool, given, capacity);
    hide ChunksOk, ChunkOk, Fresh;
    forall a | a in blocks
      ensures BlockOk(now, a, blocks[a])
    {
      var k :| 0 <= k < |pool.chunks| && Inside(pool.chunks[k], a, blocks[a].room);
      assert Inside(now[k + 1], a, blocks[a].room);
    }
  }

  lemma AddedChunks(pool: Pool, given: nat, capacity: nat)
    requires ChunksOk(pool.chunks) && given != 0 && Fresh(pool, given, HEADER + capacity)
    ensures ChunksOk([Chunk(given, capacity, 0)] + pool.chunks)
  {
    var now := [Chunk(given, capacity, 0)] + pool.chunks;
    forall k | 1 <= k < |now| ensures now[k] == pool.chunks[k - 1] && ChunksApart(now[0], now[k]) {}
  }

  /** A request that does not wrap yields NULL and no change, or a new block disjoint from all others. */
  lemma MallocKeeps(pool: Pool, blocks: map<nat, Block>, size: nat, given: nat)
    requires Inv(pool, blocks) && 0 < size && Sound(pool, size) && Fresh(pool, given, Asked(pool, size))
    ensures var r := Malloc(pool, size, given);
            if r.ptr == 0 then r.pool == pool && given == 0
            else r.ptr !in blocks && Inv(r.pool, blocks[r.ptr := Block(size, Align(size))])
  {
    var aligned := Align(size);
    if FitsHead(pool.chunks[0], aligned) {
      CutKeeps(pool, blocks, size, aligned);
    } else if given != 0 {
      AddChunkKeeps(pool, blocks, given, NewCapacity(pool, aligned));
      CutKeeps(pool.(chunks := [Chunk(given, NewCapacity(pool, aligned), 0)] + pool.chunks), blocks, size, aligned);
    }
  }

  /** Where the chunk that serves a request ends, as far as the base allocator has provided it. */
  function ServingEnd(pool: Pool, size: nat, given: nat): nat
    requires pool.chunks != []
  {
    var head := pool.chunks[0];
    if FitsHead(head, Align(size)) then Buffer(head) + head.capacity else given + Asked(pool, size)
  }

  /** A block lies within the memory of the chunk it is cut from exactly when no sum has wrapped. */
  lemma MallocWithinChunk(pool: Pool, blocks: map<nat, Block>, size: nat, given: nat)
    requires Inv(pool, blocks) && 0 < size < TWO_64 && Malloc(pool, size, given).ptr != 0
    ensures Malloc(pool, size, given).ptr + size <= ServingEnd(pool, size, given) <==> Sound(pool, size)
  {
    assert ChunkOk(pool.chunks[0]);
  }

  /** One such request: with 64 bytes in use of 128, 2^64 - 64 bytes are granted at the head. */
  lemma WrappedRequest()
    ensures var pool := Pool([Chunk(8, 128, 64)], 0x1_0000);
            && Inv(pool, map[]) && !Sound(pool, TWO_64 - 64)
            && Malloc(pool, TWO_64 - 64, 0) == Allocation(Pool([Chunk(8, 128, 0)], 0x1_0000), 96)
  {}

  // ---------- growing ----------

  lemma LastAddress(c: Chunk, ptr: nat, original: nat)
    requires 0 < ptr && 0 < original && ptr + original <= TWO_64 && Buffer(c) + c.size <= TWO_64
    ensures IsLast(c, ptr, original) <==> ptr + original == Buffer(c) + c.size
  {
    var n := Buffer(c) + c.size - original;
    if n < 0 { assert n % TWO_64 == n + TWO_64; }
    else if n < TWO_64 { assert n % TWO_64 == n; }
  }

  lemma AddressOk(pool: Pool, blocks: map<nat, Block>, ptr: nat)
    requires Inv(pool, blocks) && ptr in blocks
    ensures 0 < ptr && ptr + blocks[ptr].room <= TWO_64
    ensures 0 < Align(blocks[ptr].length) <= blocks[ptr].room
  {
    assert BlockOk(pool.chunks, ptr, blocks[ptr]);
    var k :| 0 <= k < |pool.chunks| && Inside(pool.chunks[k], ptr, blocks[ptr].room);
    assert ChunkOk(pool.chunks[k]);
    hide Inv;
    AlignWithin(blocks[ptr].length, blocks[ptr].room);
  }

  lemma AlignWithin(n: nat, room: nat)
    requires 0 < n <= room && room % 8 == 0 && room + 8 <= TWO_64
    ensures 0 < Align(n) <= room
  {}

  lemma HeadOk(pool: Pool, blocks: map<nat, Block>)
    requires Inv(pool, blocks)
    ensures ChunkOk(pool.chunks[0])
  {}

  /** A block with a byte in the head chunk's buffer is a block of that chunk. */
  lemma HeadBlock(pool: Pool, blocks: map<nat, Block>, ptr: nat)
    requires Inv(pool, blocks) && ptr in blocks
    ensures var head := pool.chunks[0];
            Inside(head, ptr, blocks[ptr].room) || Apart(ptr, blocks[ptr].room, head.base, HEADER + head.capacity)
  {
    assert BlockOk(pool.chunks, ptr, blocks[ptr]);
    var k :| 0 <= k < |pool.chunks| && Inside(pool.chunks[k], ptr, blocks[ptr].room);
    assert ChunkOk(pool.chunks[k]);
    if k > 0 { assert ChunksApart(pool.chunks[0], pool.chunks[k]); }
  }

  /** Only a block that ends at the free part of the head chunk passes the test. */
  lemma LastBlock(pool: Pool, blocks: map<nat, Block>, ptr: nat)
    requires Inv(pool, blocks) && ptr in blocks
    ensures var head, original := pool.chunks[0], Align(blocks[ptr].length);
            && (IsLast(head, ptr, original) <==> ptr + original == Buffer(head) + head.size)
            && (IsLast(head, ptr, original) ==> Inside(head, ptr, original) && original == blocks[ptr].room)
  {
    AddressOk(pool, blocks, ptr);
    HeadOk(pool, blocks);
    HeadBlock(pool, blocks, ptr);
    assert 0 < blocks[ptr].length;
    hide Inv, IsLast;
    LastAddress(pool.chunks[0], ptr, Align(blocks[ptr].length));
  }

  lemma GrowLast(pool: Pool, blocks: map<nat, Block>, ptr: nat, length: nat, more: nat)
    requires Inv(pool, blocks) && ptr in blocks && more % 8 == 0 && 0 < length <= blocks[ptr].room + more
    requires Inside(pool.chunks[0], ptr, blocks[ptr].room)
    requires ptr + blocks[ptr].room == Buffer(pool.chunks[0]) + pool.chunks[0].size
    requires pool.chunks[0].size + more <= pool.chunks[0].capacity
    ensures Inv(Cut(pool, more).pool, blocks[ptr := Block(length, blocks[ptr].room + more)])
  {
    var room := blocks[ptr].room + more;
    var now := Cut(pool, more).pool;
    HeadOk(pool, blocks);
    GrowHead(pool, blocks, more);
    GrownBlock(pool, blocks, ptr, length, more);
    hide Inv, Cut, BlockOk, Inside, Apart;
    forall a | a in blocks && a != ptr
      ensures Apart(a, blocks[a].room, ptr, room)
    {
      BelowLast(pool, blocks, ptr, a, more);
    }
    Replace(now, blocks, ptr, Block(length, room));
  }

  lemma GrownBlock(pool: Pool, blocks: map<nat, Block>, ptr: nat, length: nat, more: nat)
    requires Inv(pool, blocks) && ptr in blocks && more % 8 == 0 && 0 < length <= blocks[ptr].room + more
    requires Inside(pool.chunks[0], ptr, blocks[ptr].room)
    requires pool.chunks[0].size + more <= pool.chunks[0].capacity
    ensures BlockOk(Cut(pool, more).pool.chunks, ptr, Block(length, blocks[ptr].room + more))
  {
    HeadOk(pool, blocks);
    assert BlockOk(pool.chunks, ptr, blocks[ptr]);
    hide Inv;
    assert Inside(Cut(pool, more).pool.chunks[0], ptr, blocks[ptr].room + more);
  }

  lemma BelowLast(pool: Pool, blocks: map<nat, Block>, ptr: nat, a: nat, more: nat)
    requires Inv(pool, blocks) && ptr in blocks && a in blocks && a != ptr
    requires ptr + blocks[ptr].room == Buffer(pool.chunks[0]) + pool.chunks[0].size
    requires Inside(pool.chunks[0], ptr, blocks[ptr].room)
    requires pool.chunks[0].size + more <= pool.chunks[0].capacity
    ensures Apart(a, blocks[a].room, ptr, blocks[ptr].room + more)
  {
    BelowHead(pool, blocks, a);
    assert Apart(a, blocks[a].room, ptr, blocks[ptr].room);
    assert BlockOk(pool.chunks, a, blocks[a]);
  }

  lemma Replace(pool: Pool, blocks: map<nat, Block>, ptr: nat, b: Block)
    requires Inv(pool, blocks) && BlockOk(pool.chunks, ptr, b)
    requires forall a | a in blocks && a != ptr :: Apart(a, blocks[a].room, ptr, b.room)
    ensures Inv(pool, blocks[ptr := b])
  {
    hide ChunksOk, BlockOk;
  }

  lemma ShrinkKeeps(pool: Pool, blocks: map<nat, Block>, ptr: nat, length: nat)
    requires Inv(pool, blocks) && ptr in blocks && 0 < length <= blocks[ptr].room
    ensures Inv(pool, blocks[ptr := Block(length, blocks[ptr].room)])
  {
    assert BlockOk(pool.chunks, ptr, blocks[ptr]);
    hide ChunksOk;
    Replace(pool, blocks, ptr, Block(length, blocks[ptr].room));
  }

  lemma FreeKeeps(pool: Pool, blocks: map<nat, Block>, ptr: nat)
    requires Inv(pool, blocks)
    ensures Inv(pool, blocks - {ptr})
  {}

  /** The sums of a growing request do not wrap. */
  predicate SoundRealloc(pool: Pool, ptr: nat, original: nat, newSize: nat)
    requires pool.chunks != []
  {
    var head, aligned := pool.chunks[0], Align(newSize);
    && newSize + 7 < TWO_64
    && (original < aligned ==>
          if IsLast(head, ptr, original) && FitsHead(head, aligned - original)
          then head.size + (aligned - original) <= head.capacity
          else Sound(pool, aligned))
  }

  /** The live blocks after a block has been resized. */
  function Resized(blocks: map<nat, Block>, ptr: nat, newSize: nat, r: Reallocation): map<nat, Block>
    requires ptr in blocks
  {
    if r.ptr == 0 then blocks
    else if r.ptr == ptr then
      blocks[ptr := Block(newSize, if blocks[ptr].room < Align(newSize) then Align(newSize) else blocks[ptr].room)]
    else (blocks - {ptr})[r.ptr := Block(newSize, Align(newSize))]
  }

  /** Resizing a live block keeps the invariant. The block moves exactly when it must grow and is not
      the last one of the head chunk or finds no space there; then all its bytes are copied to a block
      disjoint from it. */
  lemma ReallocKeeps(pool: Pool, blocks: map<nat, Block>, ptr: nat, newSize: nat, given: nat)
    requires Inv(pool, blocks) && ptr in blocks && 0 < newSize
    requires var original := Align(blocks[ptr].length);
             SoundRealloc(pool, ptr, original, newSize) && Fresh(pool, given, Asked(pool, Align(newSize)))
    ensures ReallocOk(pool, blocks, ptr, newSize, Realloc(pool, ptr, blocks[ptr].length, newSize, given))
    ensures Realloc(pool, ptr, blocks[ptr].length, newSize, given).ptr == 0 ==> given == 0
  {
    var original, aligned := Align(blocks[ptr].length), Align(newSize);
    var head := pool.chunks[0];
    AddressOk(pool, blocks, ptr);
    ReallocCases(pool, ptr, blocks[ptr].length, newSize, given);
    hide Inv, IsLast, Cut, Align, Malloc, Sound, Fresh, Realloc, FitsHead, ReallocOk;
    if original >= aligned {
      StayKeeps(pool, blocks, ptr, newSize);
    } else if IsLast(head, ptr, original) && FitsHead(head, aligned - original) {
      GrowKeeps(pool, blocks, ptr, newSize, aligned - original);
    } else {
      MoveOk(pool, blocks, ptr, newSize, given);
    }
  }

  /** What resizing a block yields. */
  predicate ReallocOk(pool: Pool, blocks: map<nat, Block>, ptr: nat, newSize: nat, r: Reallocation)
    requires pool.chunks != [] && ptr in blocks
  {
    var original := Align(blocks[ptr].length);
    && Inv(r.pool, Resized(blocks, ptr, newSize, r))
    && (r.ptr == 0 ==> r.pool == pool)
    && (r.ptr == ptr <==> StaysInPlace(pool.chunks[0], ptr, original, Align(newSize)))
    && (if r.ptr == 0 || r.ptr == ptr then r.copied == 0
        else r.ptr !in blocks && r.copied == original <= blocks[ptr].room)
  }

  lemma StayKeeps(pool: Pool, blocks: map<nat, Block>, ptr: nat, newSize: nat)
    requires Inv(pool, blocks) && ptr in blocks && 0 < newSize && newSize + 7 < TWO_64
    requires Align(newSize) <= Align(blocks[ptr].length)
    ensures ReallocOk(pool, blocks, ptr, newSize, Reallocation(pool, ptr, 0))
  {
    AddressOk(pool, blocks, ptr);
    hide Inv;
    ShrinkKeeps(pool, blocks, ptr, newSize);
  }

  lemma GrowKeeps(pool: Pool, blocks: map<nat, Block>, ptr: nat, newSize: nat, more: nat)
    requires Inv(pool, blocks) && ptr in blocks && 0 < newSize <= Align(newSize)
    requires 0 < more && Align(newSize) == Align(blocks[ptr].length) + more
    requires var original, head := Align(blocks[ptr].length), pool.chunks[0];
             IsLast(head, ptr, original) && head.size + more <= head.capacity
    ensures ReallocOk(pool, blocks, ptr, newSize, Reallocation(Cut(pool, more).pool, ptr, 0))
  {
    AddressOk(pool, blocks, ptr);
    LastBlock(pool, blocks, ptr);
    hide Inv, IsLast, Cut, Align, Inside;
    Eighths(Align(blocks[ptr].length), more);
    var now := Cut(pool, more).pool;
    GrowLast(pool, blocks, ptr, newSize, more);
    ResizedInPlace(blocks, ptr, newSize, now);
    hide Resized;
    assert StaysInPlace(pool.chunks[0], ptr, Align(blocks[ptr].length), Align(newSize));
    hide StaysInPlace;
  }

  lemma Eighths(a: nat, more: nat)
    requires a % 8 == 0 && (a + more) % 8 == 0
    ensures more % 8 == 0
  {}

  lemma ResizedInPlace(blocks: map<nat, Block>, ptr: nat, newSize: nat, pool: Pool)
    requires ptr in blocks && 0 < ptr && blocks[ptr].room < Align(newSize)
    ensures Resized(blocks, ptr, newSize, Reallocation(pool, ptr, 0)) == blocks[ptr := Block(newSize, Align(newSize))]
  {}

  lemma MoveOk(pool: Pool, blocks: map<nat, Block>, ptr: nat, newSize: nat, given: nat)
    requires Inv(pool, blocks) && ptr in blocks && 0 < newSize && newSize + 7 < TWO_64
    requires Sound(pool, Align(newSize)) && Fresh(pool, given, Asked(pool, Align(newSize)))
    requires var original, head := Align(blocks[ptr].length), pool.chunks[0];
             original < Align(newSize) && !(IsLast(head, ptr, original) && FitsHead(head, Align(newSize) - original))
    ensures var m, original := Malloc(pool, Align(newSize), given), Align(blocks[ptr].length);
            && ReallocOk(pool, blocks, ptr, newSize, Reallocation(m.pool, m.ptr, if m.ptr == 0 then 0 else original))
            && (m.ptr == 0 ==> given == 0)
  {
    AddressOk(pool, blocks, ptr);
    LastBlock(pool, blocks, ptr);
    HeadOk(pool, blocks);
    MoveKeeps(pool, blocks, ptr, newSize, given);
    hide Inv, IsLast, Malloc, Sound, Fresh, Asked, Align;
  }

  lemma ReallocCases(pool: Pool, ptr: nat, originalSize: nat, newSize: nat, given: nat)
    requires pool.chunks != [] && 0 < ptr && 0 < newSize
    ensures var original, aligned, head := Align(originalSize), Align(newSize), pool.chunks[0];
            var r, m := Realloc(pool, ptr, originalSize, newSize, given), Malloc(pool, aligned, given);
            r == if original >= aligned then Reallocation(pool, ptr, 0)
                 else if IsLast(head, ptr, original) && FitsHead(head, aligned - original) then
                   Reallocation(Cut(pool, aligned - original).pool, ptr, 0)
                 else Reallocation(m.pool, m.ptr, if m.ptr == 0 then 0 else original)
    ensures var original, aligned, head := Align(originalSize), Align(newSize), pool.chunks[0];
            original < aligned ==> (FitsHead(head, aligned - original) <==> Sum(head.size, aligned - original) <= head.capacity)
  {
    hide Malloc, Align, IsLast, Cut;
  }

  /** A block stays where it is if it need not grow, or ends at the free part of the head chunk and
      finds space there. */
  predicate StaysInPlace(head: Chunk, ptr: nat, original: nat, aligned: nat) {
    || aligned <= original
    || (ptr + original == Buffer(head) + head.size && head.size + (aligned - original) <= head.capacity)
  }

  /** A block that is left where it is has room for the new size exactly when no sum has wrapped. */
  lemma ReallocWithinBlock(pool: Pool, blocks: map<nat, Block>, ptr: nat, newSize: nat)
    requires Inv(pool, blocks) && ptr in blocks && 0 < newSize < TWO_64
    requires var original, head := Align(blocks[ptr].length), pool.chunks[0];
             Align(newSize) <= original || (IsLast(head, ptr, original) && FitsHead(head, Align(newSize) - original))
    ensures Realloc(pool, ptr, blocks[ptr].length, newSize, 0).ptr == ptr
    ensures var original, head := Align(blocks[ptr].length), pool.chunks[0];
            SoundRealloc(pool, ptr, original, newSize) <==>
            ptr + newSize <= if Align(newSize) <= original then ptr + blocks[ptr].room else Buffer(head) + head.capacity
  {
    LastBlock(pool, blocks, ptr);
    AddressOk(pool, blocks, ptr);
    HeadOk(pool, blocks);
    hide Inv, IsLast;
  }

  lemma MoveKeeps(pool: Pool, blocks: map<nat, Block>, ptr: nat, newSize: nat, given: nat)
    requires Inv(pool, blocks) && ptr in blocks && 0 < newSize && newSize + 7 < TWO_64
    requires Sound(pool, Align(newSize)) && Fresh(pool, given, Asked(pool, Align(newSize)))
    ensures var r := Malloc(pool, Align(newSize), given);
            if r.ptr == 0 then r.pool == pool && given == 0
            else r.ptr !in blocks && Inv(r.pool, (blocks - {ptr})[r.ptr := Block(newSize, Align(newSize))])
  {
    var aligned := Align(newSize);
    AlignAligned(aligned);
    hide Inv, Malloc, Align, Sound, Fresh, Asked;
    MallocKeeps(pool, blocks, aligned, given);
    var r := Malloc(pool, aligned, given);
    if r.ptr != 0 {
      var grown := blocks[r.ptr := Block(aligned, aligned)];
      FreeKeeps(r.pool, grown, ptr);
      Exchanged(blocks, ptr, r.ptr, Block(aligned, aligned), Block(newSize, aligned));
      ShrinkKeeps(r.pool, grown - {ptr}, r.ptr, newSize);
    }
  }

  lemma Exchanged(blocks: map<nat, Block>, ptr: nat, q: nat, b: Block, c: Block)
    requires ptr in blocks && q !in blocks
    ensures q in blocks[q := b] - {ptr} && (blocks[q := b] - {ptr})[q] == b
    ensures (blocks[q := b] - {ptr})[q := c] == (blocks - {ptr})[q := c]
  {}
}
