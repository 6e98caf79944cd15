/**
 The pool allocator (rapidjson/allocators.h, MemoryPoolAllocator): a list of chunks of which
 only the head serves requests, and a shortcut that grows the last block in place. Addresses
 are numbers, 0 is the null pointer; what the base allocator returns is a parameter.
 */
module Allocator {
  import opened Sax

  /** RAPIDJSON_ALIGN for 64-bit machines. */
  function Align(n: nat): (r: nat)
    ensures n <= r < n + 8 && r % 8 == 0 && (n % 8 == 0 ==> r == n)
  {
    (n + 7) / 8 * 8
  }

  /** RAPIDJSON_ALIGN(sizeof(ChunkHeader)) */
  const HEADER := 24

  datatype Chunk = Chunk(addr: nat, capacity: nat, size: nat) {
    /** Where blocks begin, where the next one goes, and where the chunk ends. */
    function Base(): nat { addr + HEADER }
    function Top(): nat { addr + HEADER + size }
    function End(): nat { addr + HEADER + capacity }
  }

  /** A block handed out, and the number of its chunk, counted from the oldest. */
  datatype Block = Block(addr: nat, size: nat, chunk: nat) {
    function End(): nat { addr + size }
  }

  predicate ChunkOk(c: Chunk) {
    0 < c.addr && c.size % 8 == 0 && c.size <= c.capacity
  }

  predicate Separate(c: Chunk, d: Chunk) { c.End() <= d.addr || d.End() <= c.addr }

  /** Not empty, inside the used part of its chunk, and aligned as that chunk is. */
  predicate BlockOk(b: Block, cs: seq<Chunk>) {
    && b.chunk < |cs| && 0 < b.size && b.addr % 8 == cs[b.chunk].addr % 8 && b.size % 8 == 0
    && cs[b.chunk].Base() <= b.addr && b.End() <= cs[b.chunk].Top()
  }

  predicate Disjoint(a: Block, b: Block) { a.End() <= b.addr || b.End() <= a.addr }

  predicate ChunksOk(cs: seq<Chunk>) {
    && (forall i :: 0 <= i < |cs| ==> ChunkOk(cs[i]))
    && forall i, j :: 0 <= i < j < |cs| ==> Separate(cs[i], cs[j])
  }

  predicate BlocksOk(cs: seq<Chunk>, bs: seq<Block>) {
    && (forall i :: 0 <= i < |bs| ==> BlockOk(bs[i], cs))
    && forall i, j :: 0 <= i < j < |bs| ==> Disjoint(bs[i], bs[j])
  }

  /** A region that the base allocator may return. */
  predicate Fresh(cs: seq<Chunk>, addr: nat, capacity: nat) {
    addr > 0 && addr % 8 == 0 && forall i :: 0 <= i < |cs| ==> Separate(cs[i], Chunk(addr, capacity, 0))
  }

  /** The user's buffer, if any, is the oldest chunk; all others are aligned. */
  predicate Placed(cs: seq<Chunk>, user: nat) {
    && (user != 0 ==> cs != [] && cs[0].addr == user)
    && forall i :: 0 <= i < |cs| && (i > 0 || user == 0) ==> cs[i].addr % 8 == 0
  }

  // ---------------------------------------------------------------- one step on values

  /** The block that the head chunk gives next. */
  function Carved(cs: seq<Chunk>, size: nat): Block
    requires cs != []
  {
    Block(cs[|cs| - 1].Top(), size, |cs| - 1)
  }

  function Grown(cs: seq<Chunk>, n: nat): (r: seq<Chunk>)
    requires cs != []
  {
    var k := |cs| - 1;
    cs[k := cs[k].(size := cs[k].size + n)]
  }

  /** Carving a block off the head keeps all blocks apart. */
  lemma CarveKeeps(cs: seq<Chunk>, bs: seq<Block>, size: nat)
    requires ChunksOk(cs) && BlocksOk(cs, bs) && cs != [] && 0 < size && size % 8 == 0
    requires cs[|cs| - 1].size + size <= cs[|cs| - 1].capacity
    ensures ChunksOk(Grown(cs, size)) && BlocksOk(Grown(cs, size), bs + [Carved(cs, size)])
  {
    hide ChunksOk;
    GrownOk(cs, size);
    var cs', b := Grown(cs, size), Carved(cs, size);
    assert BlockOk(b, cs') by { HeadAligned(cs); }
    forall i | 0 <= i < |bs|
      ensures BlockOk(bs[i], cs') && Disjoint(bs[i], b)
    {
      assert BlockOk(bs[i], cs);
      ApartFromHead(cs, bs[i]);
    }
  }

  lemma HeadAligned(cs: seq<Chunk>)
    requires ChunksOk(cs) && cs != []
    ensures cs[|cs| - 1].Top() % 8 == cs[|cs| - 1].addr % 8
  {
    assert ChunkOk(cs[|cs| - 1]);
    SameRest(cs[|cs| - 1].addr, cs[|cs| - 1].size);
  }

  lemma SameRest(a: nat, n: nat)
    requires n % 8 == 0
    ensures (a + HEADER + n) % 8 == a % 8
  {
    var k := n / 8;
    assert a + HEADER + n == a + 8 * (3 + k);
  }

  /** A block ends before the top of the head chunk or lies outside that chunk. */
  lemma ApartFromHead(cs: seq<Chunk>, b: Block)
    requires ChunksOk(cs) && cs != [] && BlockOk(b, cs)
    ensures var head := cs[|cs| - 1];
            if b.chunk == |cs| - 1 then b.End() <= head.Top()
            else b.End() <= head.addr || head.End() < b.addr
  {
    if b.chunk < |cs| - 1 {
      assert ChunkOk(cs[b.chunk]) && Separate(cs[b.chunk], cs[|cs| - 1]);
    }
  }

  lemma AddChunkKeeps(cs: seq<Chunk>, bs: seq<Block>, addr: nat, capacity: nat)
    requires ChunksOk(cs) && BlocksOk(cs, bs) && Fresh(cs, addr, capacity)
    ensures ChunksOk(cs + [Chunk(addr, capacity, 0)]) && BlocksOk(cs + [Chunk(addr, capacity, 0)], bs)
  {
    forall i | 0 <= i < |bs|
      ensures BlockOk(bs[i], cs + [Chunk(addr, capacity, 0)])
    {
      assert BlockOk(bs[i], cs);
    }
  }

  /**
   The pointer test of Realloc succeeds exactly for the block at the top of the head chunk,
   given with its whole size, wherever the chunks lie in memory.
   */
  lemma LastBlockTest(cs: seq<Chunk>, b: Block, original: nat)
    requires ChunksOk(cs) && cs != [] && BlockOk(b, cs) && original <= b.size
    ensures b.addr == cs[|cs| - 1].Top() - original
            <==> b.chunk == |cs| - 1 && original == b.size && b.End() == cs[|cs| - 1].Top()
  {
    ApartFromHead(cs, b);
    assert ChunkOk(cs[|cs| - 1]) && ChunkOk(cs[b.chunk]);
  }

  lemma GrownOk(cs: seq<Chunk>, n: nat)
    requires ChunksOk(cs) && cs != [] && n % 8 == 0 && cs[|cs| - 1].size + n <= cs[|cs| - 1].capacity
    ensures ChunksOk(Grown(cs, n))
  {
    var k := |cs| - 1;
    var cs' := Grown(cs, n);
    assert ChunkOk(cs[k]);
    SumAligned(cs[k].size, n);
    forall i | 0 <= i < |cs'|
      ensures ChunkOk(cs'[i])
    {
      assert ChunkOk(cs[i]);
    }
    forall i, j | 0 <= i < j < |cs'|
      ensures Separate(cs'[i], cs'[j])
    {
      assert Separate(cs[i], cs[j]);
    }
  }

  lemma DifferenceAligned(a: nat, b: nat)
    requires a % 8 == 0 && b % 8 == 0 && b <= a
    ensures (a - b) % 8 == 0
  {
  }

  lemma SumAligned(a: nat, b: nat)
    requires a % 8 == 0 && b % 8 == 0
    ensures (a + b) % 8 == 0
  {
  }

  /** Growing the block at the top keeps it apart from all others. */
  lemma GrowKeeps(cs: seq<Chunk>, bs: seq<Block>, i: nat, n: nat)
    requires ChunksOk(cs) && BlocksOk(cs, bs) && cs != [] && i < |bs| && n % 8 == 0
    requires bs[i].chunk == |cs| - 1 && bs[i].End() == cs[|cs| - 1].Top()
    requires cs[|cs| - 1].size + n <= cs[|cs| - 1].capacity
    ensures ChunksOk(Grown(cs, n)) && BlocksOk(Grown(cs, n), bs[i := bs[i].(size := bs[i].size + n)])
  {
    hide ChunksOk;
    GrownOk(cs, n);
    var cs', b := Grown(cs, n), bs[i].(size := bs[i].size + n);
    assert BlockOk(bs[i], cs);
    assert BlockOk(b, cs');
    forall j | 0 <= j < |bs| && j != i
      ensures BlockOk(bs[j], cs') && Disjoint(bs[j], b)
    {
      assert BlockOk(bs[j], cs);
      ApartFromHead(cs, bs[j]);
      assert if i < j then Disjoint(bs[i], bs[j]) else Disjoint(bs[j], bs[i]);
    }
  }

  // ---------------------------------------------------------------- the class

  class MemoryPoolAllocator {
    const chunkCapacity: nat
    const userBuffer: nat         // 0 if there is none
    var chunks: seq<Chunk>        // the head is the last
    var memory: nat -> Byte
    ghost var blocks: seq<Block>  // handed out since the last Clear

    ghost predicate Valid()
      reads this
    {
      && ChunksOk(chunks) && BlocksOk(chunks, blocks)
      && Placed(chunks, userBuffer)
    }

    /** A block is aligned exactly if it is not in a user buffer that is not aligned. */
    lemma AlignedIff(i: nat)
      requires Valid() && i < |blocks|
      ensures blocks[i].addr % 8 == 0 <==> blocks[i].chunk > 0 || userBuffer % 8 == 0
    {
      assert BlockOk(blocks[i], chunks);
    }

    /** With a user buffer of `size` bytes at `buffer`, or without one. */
    constructor (chunkSize: nat, buffer: nat, size: nat, memory: nat -> Byte)
      requires buffer != 0 ==> size > HEADER
      ensures Valid() && blocks == [] && chunkCapacity == chunkSize && this.memory == memory && userBuffer == buffer
      ensures chunks == if buffer != 0 then [Chunk(buffer, size - HEADER, 0)] else []
    {
      chunkCapacity, userBuffer, this.memory := chunkSize, buffer, memory;
      chunks := if buffer != 0 then [Chunk(buffer, size - HEADER, 0)] else [];
      blocks := [];
    }

    /** Frees every chunk but the user's, which becomes empty. */
    method Clear()
      requires Valid()
      modifies this
      ensures Valid() && blocks == [] && memory == old(memory)
      ensures chunks == if userBuffer != 0 then [old(chunks)[0].(size := 0)] else []
    {
      blocks := [];
      while |chunks| > if userBuffer != 0 then 1 else 0
        invariant |chunks| <= |old(chunks)| && chunks == old(chunks)[..|chunks|] && blocks == [] && Valid()
        invariant memory == old(memory)
      {
        chunks := chunks[..|chunks| - 1];
      }
      if userBuffer != 0 {
        chunks := [chunks[0].(size := 0)];
      }
    }

    /** Whether a request makes Malloc ask for a new chunk, and of what capacity. */
    predicate NeedsChunk(size: nat)
      reads this
    {
      chunks == [] || chunks[|chunks| - 1].size + Align(size) > chunks[|chunks| - 1].capacity
    }

    /** `size` bytes, aligned, lie free between the top and the end of the head chunk. */
    predicate HasRoom(size: nat)
      reads this
    {
      chunks != [] && chunks[|chunks| - 1].Top() + Align(size) <= chunks[|chunks| - 1].End()
    }

    function NewCapacity(size: nat): nat { if chunkCapacity > Align(size) then chunkCapacity else Align(size) }

    /** A new aligned block that is apart from all others; `given` is what the base allocator returns. */
    method Malloc(size: nat, given: nat) returns (p: nat)
      requires Valid() && (size > 0 && NeedsChunk(size) && given != 0 ==> Fresh(chunks, given, NewCapacity(size)))
      modifies this
      ensures Valid() && memory == old(memory)
      ensures p == 0 <==> size == 0 || (old(NeedsChunk(size)) && given == 0)
      ensures p == 0 ==> chunks == old(chunks) && blocks == old(blocks)
      ensures p != 0 ==> chunks != [] && blocks == old(blocks) + [Block(p, Align(size), |chunks| - 1)]
      ensures p != 0 && old(HasRoom(size)) ==>
                && |chunks| == |old(chunks)| && p == old(chunks[|chunks| - 1].Top())
                && chunks[|chunks| - 1] == old(chunks[|chunks| - 1]).(size := old(chunks[|chunks| - 1].size) + Align(size))
      ensures p != 0 && !old(HasRoom(size)) ==>
                && |chunks| == |old(chunks)| + 1 && p == given + HEADER
                && chunks[|old(chunks)|].addr == given && chunks[|old(chunks)|].size == Align(size)
                && chunks[|old(chunks)|].capacity >= chunkCapacity && chunks[|old(chunks)|].capacity >= Align(size)
                && (chunks[|old(chunks)|].capacity == chunkCapacity || chunks[|old(chunks)|].capacity == Align(size))
      ensures forall k :: 0 <= k < |old(chunks)| && !(k == |old(chunks)| - 1 && |chunks| == |old(chunks)|) && k < |chunks| ==>
                chunks[k] == old(chunks)[k]
    {
      if size == 0 {
        return 0;
      }
      var n := Align(size);
      if chunks == [] || chunks[|chunks| - 1].size + n > chunks[|chunks| - 1].capacity {
        if given == 0 {
          return 0;
        }
        AddChunkKeeps(chunks, blocks, given, NewCapacity(size));
        chunks := chunks + [Chunk(given, NewCapacity(size), 0)];
      }
      CarveKeeps(chunks, blocks, n);
      var b := Carved(chunks, n);
      p := b.addr;
      chunks := Grown(chunks, n);
      blocks := blocks + [b];
    }

    /** Block `i` need not move: it shrinks, or it is the last one and the head chunk has room. */
    ghost predicate StaysInPlace(i: nat, originalSize: nat, newSize: nat)
      requires i < |blocks| && chunks != []
      reads this
    {
      var head := chunks[|chunks| - 1];
      || Align(newSize) <= Align(originalSize)
      || (blocks[i].chunk == |chunks| - 1 && blocks[i].End() == head.Top() && blocks[i].size == Align(originalSize)
          && head.size + (Align(newSize) - Align(originalSize)) <= head.capacity)
    }

    /**
     Block `i` is resized. The caller may give less than its whole size, as after a request to
     shrink it. The block stays exactly if it can; otherwise a new block `j` begins with its
     contents. No other block changes.
     */
    method Realloc(ghost i: nat, ptr: nat, originalSize: nat, newSize: nat, given: nat) returns (p: nat, ghost j: nat)
      requires Valid()
      requires ptr != 0 ==> i < |blocks| && blocks[i].addr == ptr && Align(originalSize) <= blocks[i].size
      requires newSize > 0 && NeedsChunk(newSize) && given != 0 ==> Fresh(chunks, given, NewCapacity(newSize))
      modifies this
      ensures Valid() && AllKept(old(memory), memory, old(blocks))
      ensures ptr != 0 ==> old(chunks) != []
      ensures p == 0 <==> newSize == 0
                          || (given == 0 && old(NeedsChunk(newSize))
                              && (ptr != 0 ==> !old(StaysInPlace(i, originalSize, newSize))))
      ensures ptr != 0 && newSize > 0 ==> (p == ptr <==> old(StaysInPlace(i, originalSize, newSize)))
      ensures ptr != 0 && newSize > 0 ==>
                (p == ptr <==>
                 || Align(newSize) <= Align(originalSize)
                 || (ptr + Align(originalSize) == old(chunks[|chunks| - 1].Top())
                     && ptr + Align(newSize) <= old(chunks[|chunks| - 1].End())))
      ensures p == 0 ==> blocks == old(blocks) && memory == old(memory) && chunks == old(chunks)
      ensures p != 0 ==> j < |blocks| && blocks[j].addr == p && blocks[j].size >= Align(newSize)
      ensures p != 0 ==> if p == ptr then j == i else j == |old(blocks)|
      ensures p != 0 ==> blocks == if p == ptr then old(blocks)[j := blocks[j]] else old(blocks) + [blocks[j]]
      ensures p != 0 && ptr != 0 ==>
                var n := if originalSize < newSize then originalSize else newSize;
                Bytes(memory, p, n) == Bytes(old(memory), ptr, n)
    {
      hide ChunksOk, BlocksOk, Fresh, Bytes, AllKept, Align, BlockOk, Placed;
      j := i;
      AllKeptSame(memory, blocks);
      if ptr == 0 {
        j := |blocks|;
        p := Malloc(newSize, given);
        return;
      }
      BlockAt(chunks, blocks, i);
      if newSize == 0 {
        return 0, i;
      }
      var orig, n := Align(originalSize), Align(newSize);
      if orig >= n {
        return ptr, i;
      }
      LastBlockTest(chunks, blocks[i], orig);
      var head := chunks[|chunks| - 1];
      if ptr == head.Top() - orig {
        if head.size + (n - orig) <= head.capacity {
          DifferenceAligned(n, orig);
          Grow(i, n - orig);
          return ptr, i;
        }
      }
      assert !StaysInPlace(i, originalSize, newSize);
      j := |blocks|;
      assert Align(n) == n;
      assert NeedsChunk(n) == NeedsChunk(newSize) && NewCapacity(n) == NewCapacity(newSize);
      p := Move(i, ptr, orig, n, given);
      if p != 0 {
        FewerBytes(memory, p, old(memory), ptr, orig, originalSize);
      }
    }

    /** The shortcut: the last block takes the next `n` bytes of the head chunk. */
    method Grow(ghost i: nat, n: nat)
      requires Valid() && i < |blocks| && chunks != [] && n % 8 == 0
      requires blocks[i].chunk == |chunks| - 1 && blocks[i].End() == chunks[|chunks| - 1].Top()
      requires chunks[|chunks| - 1].size + n <= chunks[|chunks| - 1].capacity
      modifies this`chunks, this`blocks
      ensures Valid() && blocks == old(blocks)[i := old(blocks)[i].(size := old(blocks)[i].size + n)]
    {
      hide ChunksOk, BlocksOk;
      GrowKeeps(chunks, blocks, i, n);
      chunks := Grown(chunks, n);
      blocks := blocks[i := blocks[i].(size := blocks[i].size + n)];
    }

    /** The general case: a new block, and the old contents copied into it. */
    method Move(ghost i: nat, ptr: nat, orig: nat, n: nat, given: nat) returns (p: nat)
      requires Valid() && i < |blocks| && blocks[i].addr == ptr && 0 < n == Align(n) && orig < n
      requires NeedsChunk(n) && given != 0 ==> Fresh(chunks, given, NewCapacity(n))
      modifies this
      ensures Valid() && AllKept(old(memory), memory, old(blocks)) && p != ptr
      ensures p == 0 <==> given == 0 && old(NeedsChunk(n))
      ensures p == 0 ==> blocks == old(blocks) && memory == old(memory) && chunks == old(chunks)
      ensures p != 0 ==> chunks != [] && blocks == old(blocks) + [Block(p, n, |chunks| - 1)]
      ensures p != 0 ==> Bytes(memory, p, orig) == Bytes(old(memory), ptr, orig)
    {
      hide ChunksOk, BlocksOk, Fresh, Bytes, AllKept, Align, BlockOk, Placed;
      AllKeptSame(memory, blocks);
      BlockAt(chunks, blocks, i);
      ghost var was := blocks;
      p := Malloc(n, given);
      if p != 0 {
        ApartBlocks(chunks, blocks, i, |was|);
        CopyBytes(p, ptr, orig, |was|);
        assert blocks[..|was|] == was;
      } else {
        NotNull(chunks, was[i]);
      }
    }

    /** memcpy into the new block `m`. */
    method CopyBytes(to: nat, from: nat, n: nat, ghost m: nat)
      requires Valid() && m < |blocks| && blocks[m].addr == to && n <= blocks[m].size
      modifies this`memory
      ensures Bytes(memory, to, n) == Bytes(old(memory), from, n)
      ensures AllKept(old(memory), memory, blocks[..m])
    {
      var before := memory;
      memory := (k: nat) => if to <= k < to + n then before(from + (k - to)) else before(k);
      forall j | 0 <= j < m
        ensures Bytes(memory, blocks[j].addr, blocks[j].size) == Bytes(before, blocks[j].addr, blocks[j].size)
      {
        assert Disjoint(blocks[j], blocks[m]);
      }
    }
  }

  /** The contents of `n` bytes from `addr` on. */
  function Bytes(memory: nat -> Byte, addr: nat, n: nat): (s: Text)
    ensures |s| == n && forall k :: 0 <= k < n ==> s[k] == memory(addr + k)
  {
    seq(n, k requires 0 <= k < n => memory(addr + k))
  }

  /** Every one of the blocks has the same contents. */
  ghost predicate AllKept(before: nat -> Byte, after: nat -> Byte, bs: seq<Block>) {
    forall j :: 0 <= j < |bs| ==> Bytes(after, bs[j].addr, bs[j].size) == Bytes(before, bs[j].addr, bs[j].size)
  }

  lemma AllKeptSame(memory: nat -> Byte, bs: seq<Block>)
    ensures AllKept(memory, memory, bs)
  {
  }

  lemma BlockAt(cs: seq<Chunk>, bs: seq<Block>, i: nat)
    requires BlocksOk(cs, bs) && i < |bs|
    ensures BlockOk(bs[i], cs) && cs != [] && bs[i].size % 8 == 0
  {
  }

  lemma NotNull(cs: seq<Chunk>, b: Block)
    requires BlockOk(b, cs)
    ensures b.addr != 0
  {
  }

  lemma ApartBlocks(cs: seq<Chunk>, bs: seq<Block>, i: nat, j: nat)
    requires BlocksOk(cs, bs) && i < j < |bs|
    ensures bs[i].addr != bs[j].addr
  {
    assert Disjoint(bs[i], bs[j]) && BlockOk(bs[i], cs) && BlockOk(bs[j], cs);
  }

  lemma FewerBytes(f: nat -> Byte, p: nat, g: nat -> Byte, q: nat, n: nat, m: nat)
    requires Bytes(f, p, n) == Bytes(g, q, n) && m <= n
    ensures Bytes(f, p, m) == Bytes(g, q, m)
  {
    assert Bytes(f, p, m) == Bytes(f, p, n)[..m];
    assert Bytes(g, q, m) == Bytes(g, q, n)[..m];
  }
}
