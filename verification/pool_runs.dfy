/** Whole runs of the pool allocator: a memory, the live blocks in it, and the object that serves them. */
module PoolRuns {
  import opened Widths
  import opened PoolAllocator

  type Memory = nat -> int

  function Copied(mem: Memory, to: nat, from: nat, n: nat): Memory {
    if n == 0 then mem else (a: nat) => if to <= a < to + n then mem(from + (a - to)) else mem(a)
  }

  function Stored(mem: Memory, at: nat, value: int): Memory {
    (a: nat) => if a == at then value else mem(a)
  }

  function Bytes(mem: Memory, a: nat, n: nat): (b: seq<int>)
    ensures |b| == n && forall i | 0 <= i < n :: b[i] == mem(a + i)
  {
    seq(n, (i: nat) => mem(a + i))
  }

  lemma CopyCopies(mem: Memory, to: nat, from: nat, n: nat, k: nat)
    requires k <= n
    ensures Bytes(Copied(mem, to, from, n), to, k) == Bytes(mem, from, k)
  {}

  lemma CopyKeeps(mem: Memory, to: nat, from: nat, n: nat, b: nat, k: nat)
    requires Apart(b, k, to, n) || n == 0
    ensures Bytes(Copied(mem, to, from, n), b, k) == Bytes(mem, b, k)
  {}

  datatype State = State(pool: Pool, blocks: map<nat, Block>, mem: Memory)

  /** What a client does; a block is resized with the length it really has. */
  datatype Op =
    | Allocate(size: nat, given: nat)
    | Resize(ptr: nat, newSize: nat, given: nat)
    | Store(ptr: nat, offset: nat, value: int)
    | Release(ptr: nat)
    | ClearAll

  /** All chunks but the last are given back, and the last one is empty. */
  function Cleared(pool: Pool): Pool
    requires pool.chunks != []
  {
    pool.(chunks := [pool.chunks[|pool.chunks| - 1].(size := 0)])
  }

  predicate Legal(s: State, op: Op)
    requires s.pool.chunks != []
  {
    match op
    case Allocate(size, given) =>
      0 < size ==> Sound(s.pool, size) && Fresh(s.pool, given, Asked(s.pool, size))
    case Resize(ptr, newSize, given) =>
      && ptr in s.blocks
      && (0 < newSize ==> SoundRealloc(s.pool, ptr, Align(s.blocks[ptr].length), newSize)
                          && Fresh(s.pool, given, Asked(s.pool, Align(newSize))))
    case Store(ptr, offset, _) => ptr in s.blocks && offset < s.blocks[ptr].length
    case Release(ptr) => ptr in s.blocks
    case ClearAll => true
  }

  function Next(s: State, op: Op): State
    requires s.pool.chunks != [] && Legal(s, op)
  {
    match op
    case Allocate(size, given) =>
      var r := Malloc(s.pool, size, given);
      State(r.pool, if r.ptr == 0 then s.blocks else s.blocks[r.ptr := Block(size, Align(size))], s.mem)
    case Resize(ptr, newSize, given) =>
      var r := Realloc(s.pool, ptr, s.blocks[ptr].length, newSize, given);
      State(r.pool, Resized(s.blocks, ptr, newSize, r), Copied(s.mem, r.ptr, ptr, r.copied))
    case Store(ptr, offset, value) => s.(mem := Stored(s.mem, ptr + offset, value))
    case Release(ptr) => s.(blocks := s.blocks - {ptr})
    case ClearAll => State(Cleared(s.pool), map[], s.mem)
  }

  lemma ClearedKeeps(pool: Pool, blocks: map<nat, Block>)
    requires Inv(pool, blocks)
    ensures Inv(Cleared(pool), map[])
  {}

  /** Every operation keeps the live blocks aligned, inside their chunk and apart from one another. */
  lemma NextKeeps(s: State, op: Op)
    requires Inv(s.pool, s.blocks) && Legal(s, op)
    ensures Inv(Next(s, op).pool, Next(s, op).blocks)
  {
    match op
    case Allocate(size, given) =>
      if 0 < size { MallocKeeps(s.pool, s.blocks, size, given); }
    case Resize(ptr, newSize, given) =>
      AddressOk(s.pool, s.blocks, ptr);
      if 0 < newSize { ReallocKeeps(s.pool, s.blocks, ptr, newSize, given); }
    case Store(_, _, _) =>
    case Release(ptr) =>
      FreeKeeps(s.pool, s.blocks, ptr);
    case ClearAll =>
      ClearedKeeps(s.pool, s.blocks);
  }

  /** The blocks an operation does not name keep their length and every byte, and a resized block
      keeps its bytes up to the smaller length. */
  lemma BytesKept(s: State, op: Op)
    requires Inv(s.pool, s.blocks) && Legal(s, op) && !op.ClearAll?
    ensures forall b | b in s.blocks && !Names(op, b) :: b in Next(s, op).blocks && SameBlock(s, Next(s, op), b)
    ensures match op
            case Resize(ptr, newSize, given) =>
              var r := Realloc(s.pool, ptr, s.blocks[ptr].length, newSize, given);
              r.ptr != 0 ==> r.ptr in Next(s, op).blocks && Next(s, op).blocks[r.ptr].length == newSize
                             && Bytes(Next(s, op).mem, r.ptr, Min(s.blocks[ptr].length, newSize)) == Bytes(s.mem, ptr, Min(s.blocks[ptr].length, newSize))
            case _ => true
  {
    match op
    case Allocate(size, given) =>
      if 0 < size { MallocKeeps(s.pool, s.blocks, size, given); }
    case Resize(ptr, newSize, given) =>
      AddressOk(s.pool, s.blocks, ptr);
      if 0 < newSize { ResizeKeepsBytes(s, ptr, newSize, given); }
    case Store(ptr, offset, _) =>
      StoreKeepsBytes(s, op);
    case Release(_) =>
    case ClearAll =>
  }

  lemma StoreKeepsBytes(s: State, op: Op)
    requires Inv(s.pool, s.blocks) && op.Store? && Legal(s, op)
    ensures forall b | b in s.blocks && b != op.ptr :: SameBlock(s, Next(s, op), b)
  {
    LengthFits(s, op.ptr);
    forall b | b in s.blocks && b != op.ptr ensures SameBlock(s, Next(s, op), b) {
      assert Apart(b, s.blocks[b].room, op.ptr, s.blocks[op.ptr].room);
      LengthFits(s, b);
    }
  }

  predicate Names(op: Op, b: nat) {
    match op
    case Resize(ptr, _, _) => b == ptr
    case Store(ptr, _, _) => b == ptr
    case Release(ptr) => b == ptr
    case _ => false
  }

  function Min(a: nat, b: nat): nat {
    if a <= b then a else b
  }

  predicate SameBlock(s: State, s': State, b: nat)
    requires b in s.blocks && b in s'.blocks
  {
    s'.blocks[b] == s.blocks[b] && Bytes(s'.mem, b, s.blocks[b].length) == Bytes(s.mem, b, s.blocks[b].length)
  }

  lemma LengthFits(s: State, b: nat)
    requires Inv(s.pool, s.blocks) && b in s.blocks
    ensures 0 < s.blocks[b].length <= s.blocks[b].room
  {
    assert BlockOk(s.pool.chunks, b, s.blocks[b]);
  }

  lemma ResizeKeepsBytes(s: State, ptr: nat, newSize: nat, given: nat)
    requires Inv(s.pool, s.blocks) && Legal(s, Resize(ptr, newSize, given)) && 0 < newSize
    ensures var s' := Next(s, Resize(ptr, newSize, given));
            forall b | b in s.blocks && b != ptr :: b in s'.blocks && SameBlock(s, s', b)
    ensures var s', r := Next(s, Resize(ptr, newSize, given)), Realloc(s.pool, ptr, s.blocks[ptr].length, newSize, given);
            r.ptr != 0 ==> r.ptr in s'.blocks && s'.blocks[r.ptr].length == newSize
                           && Bytes(s'.mem, r.ptr, Min(s.blocks[ptr].length, newSize)) == Bytes(s.mem, ptr, Min(s.blocks[ptr].length, newSize))
  {
    var s' := Next(s, Resize(ptr, newSize, given));
    var r := Realloc(s.pool, ptr, s.blocks[ptr].length, newSize, given);
    ReallocKeeps(s.pool, s.blocks, ptr, newSize, given);
    AddressOk(s.pool, s.blocks, ptr);
    LengthFits(s, ptr);
    hide Inv, Realloc, Legal, Align, StaysInPlace;
    forall b | b in s.blocks && b != ptr
      ensures b in s'.blocks && SameBlock(s, s', b)
    {
      if r.copied > 0 { OtherApart(s, s', b, r.ptr, r.copied); }
      CopyKeeps(s.mem, r.ptr, ptr, r.copied, b, s.blocks[b].length);
    }
    if r.copied > 0 {
      CopyCopies(s.mem, r.ptr, ptr, r.copied, Min(s.blocks[ptr].length, newSize));
    } else {
      CopyKeeps(s.mem, r.ptr, ptr, r.copied, ptr, Min(s.blocks[ptr].length, newSize));
    }
  }

  lemma OtherApart(s: State, s': State, b: nat, to: nat, n: nat)
    requires Inv(s.pool, s.blocks) && Inv(s'.pool, s'.blocks)
    requires b in s.blocks && b in s'.blocks && s'.blocks[b] == s.blocks[b]
    requires to in s'.blocks && to != b && n <= s'.blocks[to].room
    ensures Apart(b, s.blocks[b].length, to, n)
  {
    LengthFits(s, b);
    assert Apart(b, s'.blocks[b].room, to, s'.blocks[to].room);
  }

  // ---------- runs ----------

  function Run(s: State, ops: seq<Op>): State
    requires s.pool.chunks != [] && AllLegal(s, ops)
    decreases |ops|
  {
    if ops == [] then s else Run(Next(s, ops[0]), ops[1..])
  }

  /** Each operation is legal in the state it meets. */
  predicate AllLegal(s: State, ops: seq<Op>)
    decreases |ops|
  {
    ops == [] || (s.pool.chunks != [] && Legal(s, ops[0]) && Next(s, ops[0]).pool.chunks != [] && AllLegal(Next(s, ops[0]), ops[1..]))
  }

  /** After any run all live blocks are aligned, inside their chunk and pairwise disjoint. */
  lemma {:induction false} RunKeeps(s: State, ops: seq<Op>)
    requires Inv(s.pool, s.blocks) && AllLegal(s, ops)
    ensures Inv(Run(s, ops).pool, Run(s, ops).blocks)
    decreases |ops|
  {
    hide Inv, Legal, Next;
    if ops != [] {
      NextKeeps(s, ops[0]);
      RunKeeps(Next(s, ops[0]), ops[1..]);
    }
  }
}
