/** Growing blocks, clearing, whole runs, and the sums of sizes. */
module PoolSafety {
  import opened FiniteSets
  import opened Wrappers
  import opened PoolModel

  // ----- Realloc -----

  /** The caller holds a block and claims no more bytes of it than it has. */
  ghost predicate Truthful(s: Pool, ptr: int, oldSize: nat) {
    exists b :: b in s.blocks && b.at == ptr && oldSize <= b.len
  }

  lemma {:induction false} TotalResized(blocks: seq<Block>, i: nat, b: Block)
    requires i < |blocks|
    ensures Total(blocks[i := b]) == Total(blocks) - blocks[i].len + b.len
  {
    var t, last := blocks[i := b], |blocks| - 1;
    if i == last {
      assert t[..last] == blocks[..last];
    } else {
      TotalResized(blocks[..last], i, b);
      assert t[..last] == blocks[..last][i := b];
    }
  }

  /** The branch that grows a block in place. */
  predicate GrowsInPlace(s: Pool, ptr: int, o: nat, n: nat) {
    s.chunks != [] && ptr == (s.chunks[0].Top() - o) % WORD
      && (s.chunks[0].size + (n - o)) % WORD <= s.chunks[0].capacity
  }

  /** A block that seems to be the last one is the last one, whole. */
  lemma LastBlock(s: Pool, b: Block, o: nat)
    requires Valid(s) && s.chunks != [] && b in s.blocks && 0 < o <= b.len && b.at == (s.chunks[0].Top() - o) % WORD
    ensures Inside(b, s.chunks[0]) && b.len == o && b.at + o == s.chunks[0].Top()
  {
    HeadValid(s.chunks);
    BesideHead(s.chunks, b);
    NonNegative(s, b);
  }

  /** No block begins at the top of the newest chunk, so one claimed to hold
      nothing does not seem to be the last. */
  lemma NotAtTop(s: Pool, ptr: int, n: nat)
    requires Valid(s) && Truthful(s, ptr, 0)
    ensures !GrowsInPlace(s, ptr, 0, n)
  {
    hide AllDisjoint, Total, Used;
    var b :| b in s.blocks && b.at == ptr;
    if s.chunks != [] {
      assert BlockOk(s.chunks, b);
      var c :| c in s.chunks && Inside(b, c);
      var i :| 0 <= i < |s.chunks| && s.chunks[i] == c;
      assert i > 0 ==> Apart(s.chunks[0], s.chunks[i]);
      HeadValid(s.chunks);
      BesideTop(s.chunks[0], c, b);
    }
  }

  lemma BesideTop(head: Chunk, c: Chunk, b: Block)
    requires ChunkValid(head) && ChunkValid(c) && (c == head || Apart(head, c)) && Inside(b, c) && b.len > 0
    ensures b.at != head.Top() % WORD
  {
    assert 0 < head.Top() <= WORD;
    assert head.Top() < WORD ==> head.Top() % WORD == head.Top();
  }

  lemma NonNegative(s: Pool, b: Block)
    requires Valid(s) && b in s.blocks
    ensures 0 < b.at && b.at + b.len <= WORD
  {
    var c :| c in s.chunks && Inside(b, c);
    assert ChunkValid(c);
  }

  lemma SameAddress(s: Pool, i: nat, j: nat)
    requires Valid(s) && i < |s.blocks| && j < |s.blocks| && s.blocks[i].at == s.blocks[j].at
    ensures i == j
  {
    assert BlockOk(s.chunks, s.blocks[i]) && BlockOk(s.chunks, s.blocks[j]);
    assert i < j ==> Disjoint(s.blocks[i], s.blocks[j]);
    assert j < i ==> Disjoint(s.blocks[j], s.blocks[i]);
  }

  /** No other block is in the way of the last one. */
  lemma RoomAbove(s: Pool, i: nat, k: nat, n: nat)
    requires Valid(s) && s.chunks != [] && i < |s.blocks| && k < |s.blocks| && i != k
    requires s.blocks[i].at + s.blocks[i].len == s.chunks[0].Top() && Inside(s.blocks[i], s.chunks[0])
    requires s.blocks[i].len <= n && s.blocks[i].at + n <= s.chunks[0].End()
    ensures Disjoint(s.blocks[k], Block(s.blocks[i].at, n))
  {
    var b := s.blocks[k];
    assert BlockOk(s.chunks, b) && BlockOk(s.chunks, s.blocks[i]);
    BesideHead(s.chunks, b);
    assert Disjoint(s.blocks[i], b) by {
      if i < k {
        assert Disjoint(s.blocks[i], s.blocks[k]);
      } else {
        assert Disjoint(s.blocks[k], s.blocks[i]);
      }
    }
  }

  lemma GrowKeeps(s: Pool, i: nat, o: nat, n: nat)
    requires Valid(s) && s.chunks != [] && i < |s.blocks| && 0 < o < n < WORD && o % 8 == 0 && n % 8 == 0
    requires Inside(s.blocks[i], s.chunks[0]) && s.blocks[i].len == o && s.blocks[i].at + o == s.chunks[0].Top()
    requires s.chunks[0].size + (n - o) <= s.chunks[0].capacity
    ensures Valid(Pool(Grown(s.chunks, n - o), s.blocks[i := Block(s.blocks[i].at, n)]))
  {
    hide BlockOk, ChunksOk, Total, Used, AllDisjoint, Grown, Disjoint, Inside;
    var b := Block(s.blocks[i].at, n);
    var t := s.blocks[i := b];
    var chunks := Grown(s.chunks, n - o);
    GrownOk(s.chunks, n - o);
    TotalResized(s.blocks, i, b);
    GrownBlock(s, i, n - o);
    GrownDisjoint(s, i, n);
    forall x | x in t
      ensures BlockOk(chunks, x)
    {
      if x != b {
        assert x in s.blocks;
      }
    }
  }

  lemma GrownDisjoint(s: Pool, i: nat, n: nat)
    requires Valid(s) && s.chunks != [] && i < |s.blocks| && s.blocks[i].len <= n
    requires Inside(s.blocks[i], s.chunks[0]) && s.blocks[i].at + s.blocks[i].len == s.chunks[0].Top()
    requires s.blocks[i].at + n <= s.chunks[0].End()
    ensures AllDisjoint(s.blocks[i := Block(s.blocks[i].at, n)])
  {
    hide BlockOk, ChunksOk, Total, Used;
    var t := s.blocks[i := Block(s.blocks[i].at, n)];
    forall k | 0 <= k < |t| && k != i
      ensures Disjoint(t[k], t[i])
    {
      RoomAbove(s, i, k, n);
    }
  }

  lemma GrownBlock(s: Pool, i: nat, more: nat)
    requires Valid(s) && s.chunks != [] && i < |s.blocks| && more % 8 == 0
    requires Inside(s.blocks[i], s.chunks[0]) && s.blocks[i].at + s.blocks[i].len == s.chunks[0].Top()
    ensures BlockOk(Grown(s.chunks, more), Block(s.blocks[i].at, s.blocks[i].len + more))
  {
    var t := Grown(s.chunks, more);
    assert t[0] in t && BlockOk(s.chunks, s.blocks[i]);
    assert Inside(Block(s.blocks[i].at, s.blocks[i].len + more), t[0]);
  }

  /** What `Realloc` promises: the pool stays valid, and the result is
      nothing, the same block with enough bytes, or a new block. */
  ghost predicate Reserved(s: Pool, ptr: int, newSize: nat, r: Result) {
    && Valid(r.pool)
    && (r.at.None? ==> r.pool == s)
    && (r.at == Some(ptr) ==>
      && |r.pool.blocks| == |s.blocks|
      && exists i :: 0 <= i < |s.blocks| && s.blocks[i].at == ptr && r.pool.blocks == s.blocks[i := r.pool.blocks[i]]
           && r.pool.blocks[i].at == ptr && r.pool.blocks[i].len >= s.blocks[i].len && r.pool.blocks[i].len >= newSize)
    && (r.at.Some? && r.at.value != ptr
        ==> r.pool.blocks == s.blocks + [Block(r.at.value, Align(newSize))] && newSize <= Align(newSize))
  }

  /** A block that reaches beyond all addresses is in bounds of no chunk. */
  lemma OutOfBounds(chunks: seq<Chunk>, b: Block)
    requires b.at + b.len > WORD
    ensures !(ChunksOk(chunks) && BlockOk(chunks, b))
  {
    if ChunksOk(chunks) && BlockOk(chunks, b) {
      InBounds(chunks, b);
    }
  }

  lemma InBounds(chunks: seq<Chunk>, b: Block)
    requires ChunksOk(chunks) && BlockOk(chunks, b)
    ensures b.at + b.len <= WORD
  {
    var c :| c in chunks && Inside(b, c);
    assert ChunkValid(c);
  }

  /** Growing in place does what it should exactly if the sum does not wrap. */
  lemma GrowServes(s: Pool, chunkCapacity: nat, ptr: int, oldSize: nat, newSize: nat, grant: Option<int>)
    requires Valid(s) && Truthful(s, ptr, oldSize) && 0 < newSize <= WORD - 8 && 0 < oldSize <= PTRDIFF_MAX && ptr != 0
    requires Align(oldSize) < Align(newSize) && GrowsInPlace(s, ptr, Align(oldSize), Align(newSize))
    ensures Reserved(s, ptr, newSize, Realloc(s, chunkCapacity, ptr, oldSize, newSize, grant))
       <==> s.chunks[0].size + (Align(newSize) - Align(oldSize)) < WORD
  {
    hide BlockOk, ChunksOk, Total, Used, AllDisjoint, Align;
    AlignUp(oldSize);
    AlignUp(newSize);
    var o, n := Align(oldSize), Align(newSize);
    var b :| b in s.blocks && b.at == ptr && oldSize <= b.len;
    var i := IndexOf(s.blocks, ptr);
    var j :| 0 <= j < |s.blocks| && s.blocks[j] == b;
    SameAddress(s, i, j);
    assert o <= b.len by { LengthsAligned(s, b, oldSize); }
    LastBlock(s, b, o);
    assert ChunkValid(s.chunks[0]) by { ValidHead(s); }
    if s.chunks[0].size + (n - o) < WORD {
      GrowKeeps(s, i, o, n);
    } else {
      var r := Realloc(s, chunkCapacity, ptr, oldSize, newSize, grant);
      assert r.pool.blocks[i] == Block(ptr, n) && Block(ptr, n) in r.pool.blocks;
      OutOfBounds(r.pool.chunks, Block(ptr, n));
    }
  }

  lemma ValidHead(s: Pool)
    requires Valid(s) && s.chunks != []
    ensures ChunkValid(s.chunks[0])
  {
    HeadValid(s.chunks);
  }

  lemma LengthsAligned(s: Pool, b: Block, size: nat)
    requires Valid(s) && b in s.blocks && size <= b.len && size <= PTRDIFF_MAX
    ensures Align(size) <= b.len
  {
    assert BlockOk(s.chunks, b);
  }

  /** A new block is at a new address. */
  lemma NewAddress(s: Pool, size: nat, r: Result)
    requires Served(s, size, r) && r.at.Some?
    ensures r.at.value != 0 && forall b | b in s.blocks :: b.at != r.at.value
  {
    var t := r.pool;
    var last := |s.blocks|;
    assert t.blocks[last] in t.blocks;
    NonNegative(t, t.blocks[last]);
    forall b | b in s.blocks
      ensures b.at != r.at.value
    {
      var i :| 0 <= i < |s.blocks| && s.blocks[i] == b;
      assert t.blocks[i] == b;
      if b.at == r.at.value {
        SameAddress(t, i, last);
      }
    }
  }

  lemma TruthfulIsSmall(s: Pool, ptr: int, oldSize: nat)
    requires Valid(s) && Truthful(s, ptr, oldSize)
    ensures oldSize <= PTRDIFF_MAX && s.chunks != []
  {
    var b :| b in s.blocks && b.at == ptr && oldSize <= b.len;
    assert BlockOk(s.chunks, b);
    var c :| c in s.chunks && Inside(b, c);
    assert ChunkValid(c);
  }

  /** Nothing wraps on the way the request takes. */
  predicate ReallocFits(s: Pool, chunkCapacity: nat, ptr: int, oldSize: nat, newSize: nat, grant: Option<int>) {
    var o, n := Align(oldSize), Align(newSize);
    if ptr == 0 then Fits(s, chunkCapacity, newSize, grant)
    else if newSize == 0 then true
    else
      newSize <= WORD - 8
      && (o < n ==>
            if GrowsInPlace(s, ptr, o, n) then s.chunks[0].size + (n - o) < WORD else Fits(s, chunkCapacity, n, grant))
  }

  /** The block stays where it is; a size that aligned to nothing is not
      served by it. */
  lemma StaysServes(s: Pool, chunkCapacity: nat, ptr: int, oldSize: nat, newSize: nat, grant: Option<int>)
    requires Valid(s) && ptr != 0 && Truthful(s, ptr, oldSize) && 0 < newSize < WORD && oldSize <= PTRDIFF_MAX
      && Align(oldSize) >= Align(newSize)
    ensures Reserved(s, ptr, newSize, Realloc(s, chunkCapacity, ptr, oldSize, newSize, grant)) <==> newSize <= WORD - 8
  {
    hide BlockOk, ChunksOk, Total, Used, AllDisjoint, Valid, Align;
    AlignUp(oldSize);
    var b :| b in s.blocks && b.at == ptr && oldSize <= b.len;
    var i :| 0 <= i < |s.blocks| && s.blocks[i] == b;
    LengthsAligned(s, b, oldSize);
    assert s.blocks[i := s.blocks[i]] == s.blocks;
    if newSize <= WORD - 8 {
      AlignUp(newSize);
    } else {
      forall k | 0 <= k < |s.blocks|
        ensures s.blocks[k].len < newSize
      {
        BlockIsSmall(s, s.blocks[k]);
      }
    }
  }

  lemma BlockIsSmall(s: Pool, b: Block)
    requires Valid(s) && b in s.blocks
    ensures b.len <= PTRDIFF_MAX
  {
    assert BlockOk(s.chunks, b);
    var c :| c in s.chunks && Inside(b, c);
    assert ChunkValid(c);
  }

  /** A block that moves is a request of its own. */
  lemma MovesServes(s: Pool, chunkCapacity: nat, ptr: int, size: nat, n: nat, grant: Option<int>)
    requires Valid(s) && chunkCapacity < WORD && MayGrant(s, Request(chunkCapacity, n), grant) && n == Align(size)
      && n == Align(n)
    requires size <= n < WORD && (ptr == 0 || exists b :: b in s.blocks && b.at == ptr)
    ensures Reserved(s, ptr, size, Malloc(s, chunkCapacity, n, grant)) <==> Fits(s, chunkCapacity, n, grant)
  {
    hide Align, Fits, MayGrant, Malloc;
    var r := Malloc(s, chunkCapacity, n, grant);
    MallocServes(s, chunkCapacity, n, grant);
    MallocAnswers(s, chunkCapacity, n, grant);
    if Valid(r.pool) && r.at.Some? {
      NewAddress(s, n, r);
    }
  }

  /** Whatever wraps: nothing has happened, or a block was handed out. */
  lemma MallocAnswers(s: Pool, chunkCapacity: nat, size: nat, grant: Option<int>)
    ensures var r := Malloc(s, chunkCapacity, size, grant);
      && (r.at.None? ==> r.pool == s)
      && (r.at.Some? ==> r.pool.blocks == s.blocks + [Block(r.at.value, Align(size))])
  {
  }

  /** `Realloc` does what it should exactly if nothing wraps. */
  lemma ReallocServes(s: Pool, chunkCapacity: nat, ptr: int, oldSize: nat, newSize: nat, grant: Option<int>)
    requires Valid(s) && (ptr == 0 || Truthful(s, ptr, oldSize))
    requires newSize < WORD && chunkCapacity < WORD && MayGrant(s, Request(chunkCapacity, newSize), grant)
    ensures Reserved(s, ptr, newSize, Realloc(s, chunkCapacity, ptr, oldSize, newSize, grant))
       <==> ReallocFits(s, chunkCapacity, ptr, oldSize, newSize, grant)
  {
    hide Valid, Align, MayGrant, Reserved, Fits, GrowsInPlace, Malloc;
    var o, n := Align(oldSize), Align(newSize);
    if ptr == 0 {
      FirstServes(s, chunkCapacity, newSize, grant);
    } else if newSize == 0 {
      NothingReserved(s, ptr);
    } else {
      TruthfulIsSmall(s, ptr, oldSize);
      AlignUp(oldSize);
      if newSize > WORD - 8 {
        AlignWraps(newSize);
      } else {
        AlignUp(newSize);
      }
      if o >= n {
        StaysServes(s, chunkCapacity, ptr, oldSize, newSize, grant);
      } else if GrowsInPlace(s, ptr, o, n) {
        ClaimsSomething(s, ptr, oldSize, n);
        GrowServes(s, chunkCapacity, ptr, oldSize, newSize, grant);
      } else {
        assert MayGrant(s, Request(chunkCapacity, n), grant);
        MovesServes(s, chunkCapacity, ptr, newSize, n, grant);
        MoveIsMalloc(s, chunkCapacity, ptr, oldSize, newSize, grant);
      }
    }
  }

  /** Where nothing wraps, a block stays where it is exactly if it is not to
      grow, or is the last one and has room behind it; the answer is nothing
      exactly for size 0, or if the block has to move and no memory is to be
      had. */
  lemma ReallocGives(s: Pool, chunkCapacity: nat, ptr: int, oldSize: nat, newSize: nat, grant: Option<int>)
    requires Valid(s) && ptr != 0 && Truthful(s, ptr, oldSize)
    requires newSize < WORD && chunkCapacity < WORD && MayGrant(s, Request(chunkCapacity, newSize), grant)
    requires ReallocFits(s, chunkCapacity, ptr, oldSize, newSize, grant)
    ensures var r, o, n := Realloc(s, chunkCapacity, ptr, oldSize, newSize, grant), Align(oldSize), Align(newSize);
      var last := s.chunks != [] && oldSize > 0 && ptr + o == s.chunks[0].Top();
      var stays := n <= o || (last && s.chunks[0].size + (n - o) <= s.chunks[0].capacity);
      && (r.at == Some(ptr) <==> newSize > 0 && stays)
      && (r.at.None? <==> newSize == 0 || (!stays && Malloc(s, chunkCapacity, newSize, grant).at.None?))
  {
    hide Valid, Align, MayGrant, Malloc, Truthful, Fits, Reserved;
    if newSize > 0 {
      var o, n := Align(oldSize), Align(newSize);
      TruthfulIsSmall(s, ptr, oldSize);
      AlignUp(oldSize);
      AlignUp(newSize);
      if o < n {
        LastIsLast(s, ptr, oldSize, o, n);
        if !GrowsInPlace(s, ptr, o, n) {
          MoveIsMalloc(s, chunkCapacity, ptr, oldSize, newSize, grant);
          SameRequest(s, chunkCapacity, newSize, grant);
          MovedAway(s, chunkCapacity, ptr, oldSize, n, grant);
        }
      }
    }
  }

  lemma SameRequest(s: Pool, chunkCapacity: nat, size: nat, grant: Option<int>)
    requires 0 < size <= WORD - 8
    ensures Malloc(s, chunkCapacity, Align(size), grant) == Malloc(s, chunkCapacity, size, grant)
    ensures Request(chunkCapacity, Align(size)) == Request(chunkCapacity, size)
  {
    AlignUp(size);
  }

  /** A block that moves is at a new address. */
  lemma MovedAway(s: Pool, chunkCapacity: nat, ptr: int, oldSize: nat, n: nat, grant: Option<int>)
    requires Valid(s) && Truthful(s, ptr, oldSize) && n < WORD && chunkCapacity < WORD
    requires MayGrant(s, Request(chunkCapacity, n), grant) && Fits(s, chunkCapacity, n, grant)
    ensures Malloc(s, chunkCapacity, n, grant).at != Some(ptr)
  {
    hide Valid, Align, MayGrant, Malloc, Fits;
    var r := Malloc(s, chunkCapacity, n, grant);
    MallocServes(s, chunkCapacity, n, grant);
    if r.at.Some? {
      NewAddress(s, n, r);
    }
  }

  /** The comparison of addresses recognises the last block, without
      wrapping. */
  lemma LastIsLast(s: Pool, ptr: int, oldSize: nat, o: nat, n: nat)
    requires Valid(s) && Truthful(s, ptr, oldSize) && o == Align(oldSize) && o < n < WORD
    requires GrowsInPlace(s, ptr, o, n) ==> s.chunks[0].size + (n - o) < WORD
    ensures GrowsInPlace(s, ptr, o, n) <==>
      s.chunks != [] && oldSize > 0 && ptr + o == s.chunks[0].Top()
      && s.chunks[0].size + (n - o) <= s.chunks[0].capacity
  {
    hide AllDisjoint, Total, Used, Align;
    TruthfulIsSmall(s, ptr, oldSize);
    ValidHead(s);
    AlignUp(oldSize);
    var b :| b in s.blocks && b.at == ptr && oldSize <= b.len;
    LengthsAligned(s, b, oldSize);
    NonNegative(s, b);
    if GrowsInPlace(s, ptr, o, n) {
      ClaimsSomething(s, ptr, oldSize, n);
      LastBlock(s, b, o);
    }
  }

  lemma ClaimsSomething(s: Pool, ptr: int, oldSize: nat, n: nat)
    requires Valid(s) && Truthful(s, ptr, oldSize) && GrowsInPlace(s, ptr, Align(oldSize), n)
    ensures oldSize > 0
  {
    if oldSize == 0 {
      NotAtTop(s, ptr, n);
    }
  }

  lemma MoveIsMalloc(s: Pool, chunkCapacity: nat, ptr: int, oldSize: nat, newSize: nat, grant: Option<int>)
    requires ptr != 0 && newSize > 0 && Align(oldSize) < Align(newSize)
      && !GrowsInPlace(s, ptr, Align(oldSize), Align(newSize))
    ensures Realloc(s, chunkCapacity, ptr, oldSize, newSize, grant) == Malloc(s, chunkCapacity, Align(newSize), grant)
  {
    hide Align, Malloc;
  }

  lemma NothingReserved(s: Pool, ptr: int)
    requires Valid(s)
    ensures Reserved(s, ptr, 0, Result(s, None))
  {
  }

  lemma FirstServes(s: Pool, chunkCapacity: nat, newSize: nat, grant: Option<int>)
    requires Valid(s) && newSize < WORD && chunkCapacity < WORD && MayGrant(s, Request(chunkCapacity, newSize), grant)
    ensures Reserved(s, 0, newSize, Malloc(s, chunkCapacity, newSize, grant))
      <==> Fits(s, chunkCapacity, newSize, grant)
  {
    hide Align, Fits, MayGrant, Malloc;
    var r := Malloc(s, chunkCapacity, newSize, grant);
    MallocServes(s, chunkCapacity, newSize, grant);
    MallocAnswers(s, chunkCapacity, newSize, grant);
    if Served(s, newSize, r) && r.at.Some? {
      NewAddress(s, newSize, r);
    }
    if r.at == Some(0) && Valid(r.pool) {
      assert r.pool.blocks[|s.blocks|] in r.pool.blocks;
      NonNegative(r.pool, r.pool.blocks[|s.blocks|]);
    }
  }

  /** No size an object can have wraps. */
  lemma ObjectReallocFits(s: Pool, chunkCapacity: nat, ptr: int, oldSize: nat, newSize: nat, grant: Option<int>)
    requires Valid(s) && newSize <= PTRDIFF_MAX && chunkCapacity <= PTRDIFF_MAX
    ensures ReallocFits(s, chunkCapacity, ptr, oldSize, newSize, grant)
  {
    hide Align, Fits, Valid;
    ObjectSizesFit(s, chunkCapacity, newSize, grant);
    AlignedSize(newSize);
    ObjectSizesFit(s, chunkCapacity, Align(newSize), grant);
    if s.chunks != [] {
      ValidHead(s);
    }
  }

  lemma AlignedSize(size: nat)
    requires size <= PTRDIFF_MAX
    ensures Align(size) <= PTRDIFF_MAX + 1
  {
  }

  // ----- Contents -----

  /** The bytes at all addresses: those there were at first, and the copies
      `memcpy` has made since. */
  datatype Memory = Bytes(bytes: int -> int) | Copied(mem: Memory, target: int, source: int, n: nat)
  {
    function At(a: int): int {
      match this
      case Bytes(f) => f(a)
      case Copied(m, target, source, n) => if target <= a < target + n then m.At(source + (a - target)) else m.At(a)
    }
  }

  /** Memory after `Realloc`: copied if another block was handed out. */
  ghost function MemoryAfter(s: Pool, mem: Memory, ptr: int, oldSize: nat, r: Result): Memory {
    if ptr != 0 && r.at.Some? && |r.pool.blocks| > |s.blocks| && Align(oldSize) != 0 then
      Copied(mem, r.at.value, ptr, Align(oldSize))
    else mem
  }

  function ByteOf(mem: Memory, at: int, k: nat): int {
    mem.At(at + k)
  }

  /** The first `n` bytes at two places are the same. */
  ghost predicate SameBytes(mem: Memory, at: int, mem': Memory, at': int, n: nat) {
    forall k: nat | k < n :: ByteOf(mem, at, k) == ByteOf(mem', at', k)
  }

  /** The caller's bytes are found in the result, and no other block has
      changed. */
  lemma ReallocKeepsContents(s: Pool, chunkCapacity: nat, ptr: int, oldSize: nat, newSize: nat, grant: Option<int>,
                             mem: Memory)
    requires Valid(s) && ptr != 0 && Truthful(s, ptr, oldSize)
    requires newSize < WORD && chunkCapacity < WORD && MayGrant(s, Request(chunkCapacity, newSize), grant)
    requires ReallocFits(s, chunkCapacity, ptr, oldSize, newSize, grant)
    ensures var r := Realloc(s, chunkCapacity, ptr, oldSize, newSize, grant);
      var mem' := MemoryAfter(s, mem, ptr, oldSize, r);
      && (r.at.Some? ==> SameBytes(mem, ptr, mem', r.at.value, oldSize))
      && (forall b | b in s.blocks :: SameBytes(mem, b.at, mem', b.at, b.len))
  {
    hide Valid, Truthful, Align, Realloc, Malloc, SameBytes, MayGrant;
    ReallocServes(s, chunkCapacity, ptr, oldSize, newSize, grant);
    TruthfulIsSmall(s, ptr, oldSize);
    AlignUp(oldSize);
    var r := Realloc(s, chunkCapacity, ptr, oldSize, newSize, grant);
    Unchanged(s, mem);
    SameBytesSelf(mem, ptr, oldSize);
    if oldSize == 0 && r.at.Some? {
      NoBytes(mem, ptr, MemoryAfter(s, mem, ptr, oldSize, r), r.at.value);
    }
    if r.at.Some? && r.at.value != ptr && Align(oldSize) != 0 {
      MovedLarger(s, chunkCapacity, ptr, oldSize, newSize, grant);
      LengthsPositive(s);
      CopiedKeeps(s.blocks, r.pool.blocks, mem, r.at.value, ptr, Align(oldSize), Align(newSize))
        by { AreDisjoint(r.pool); }
      CopiedIs(mem, r.at.value, ptr, oldSize, Align(oldSize));
    }
  }

  lemma AreDisjoint(s: Pool)
    requires Valid(s)
    ensures AllDisjoint(s.blocks)
  {
  }

  lemma NoBytes(mem: Memory, at: int, mem': Memory, at': int)
    ensures SameBytes(mem, at, mem', at', 0)
  {
  }

  lemma ResizedLength(blocks: seq<Block>, at: int, n: nat)
    ensures |Resized(blocks, at, n)| == |blocks|
  {
  }

  lemma SameBytesSelf(mem: Memory, at: int, n: nat)
    ensures SameBytes(mem, at, mem, at, n)
  {
  }

  lemma Unchanged(s: Pool, mem: Memory)
    requires Valid(s)
    ensures forall b | b in s.blocks :: b.len > 0 && SameBytes(mem, b.at, mem, b.at, b.len)
  {
    LengthsPositive(s);
  }

  lemma CopiedIs(mem: Memory, target: int, source: int, size: nat, n: nat)
    requires size <= n
    ensures SameBytes(mem, source, Copied(mem, target, source, n), target, size)
  {
    forall k: nat | k < size
      ensures ByteOf(mem, source, k) == ByteOf(Copied(mem, target, source, n), target, k)
    {
      assert source + (target + k - target) == source + k;
    }
  }

  /** A copy into a new block changes no other. */
  lemma CopiedKeeps(before: seq<Block>, after: seq<Block>, mem: Memory, target: int, source: int, n: nat, len: nat)
    requires AllDisjoint(after) && after == before + [Block(target, len)] && n <= len
    requires forall b | b in before :: b.len > 0
    ensures forall b | b in before :: SameBytes(mem, b.at, Copied(mem, target, source, n), b.at, b.len)
  {
    forall b | b in before
      ensures SameBytes(mem, b.at, Copied(mem, target, source, n), b.at, b.len)
    {
      var i :| 0 <= i < |before| && before[i] == b;
      assert after[i] == b && after[|before|] == Block(target, len);
      assert Disjoint(after[i], after[|before|]);
    }
  }

  lemma LengthsPositive(s: Pool)
    requires Valid(s)
    ensures forall b | b in s.blocks :: b.len > 0
  {
    forall b | b in s.blocks
      ensures b.len > 0
    {
      assert BlockOk(s.chunks, b);
    }
  }

  /** A block moves only to grow. */
  lemma MovedLarger(s: Pool, chunkCapacity: nat, ptr: int, oldSize: nat, newSize: nat, grant: Option<int>)
    requires ptr != 0
    ensures var r := Realloc(s, chunkCapacity, ptr, oldSize, newSize, grant);
      r.at.Some? && r.at.value != ptr ==> Align(oldSize) < Align(newSize)
  {
  }

  // ----- Clear -----

  /** A user's buffer is the oldest chunk. */
  ghost predicate HasBuffer(s: Pool, userBuffer: Option<int>) {
    userBuffer.Some? ==> s.chunks != [] && s.chunks[|s.chunks| - 1].base == userBuffer.value
  }

  lemma {:induction false} ClearedEnds(chunks: seq<Chunk>, userBuffer: Option<int>)
    requires ChunksOk(chunks) && (userBuffer.Some? ==> chunks != [] && chunks[|chunks| - 1].base == userBuffer.value)
    ensures Cleared(chunks, userBuffer) == if userBuffer.None? then [] else [chunks[|chunks| - 1].(size := 0)]
    decreases |chunks|
  {
    if chunks != [] && (userBuffer.None? || |chunks| > 1) {
      assert chunks[0] in chunks && chunks[|chunks| - 1] in chunks;
      ClearedEnds(chunks[1..], userBuffer);
    }
  }

  /** Nothing is handed out any more, and only the user's buffer is kept. */
  lemma ClearKeeps(s: Pool, userBuffer: Option<int>)
    requires Valid(s) && HasBuffer(s, userBuffer)
    ensures var t := Clear(s, userBuffer);
      Valid(t) && HasBuffer(t, userBuffer) && Used(t.chunks) == 0 && |t.chunks| == if userBuffer.Some? then 1 else 0
  {
    ClearedEnds(s.chunks, userBuffer);
    if userBuffer.Some? {
      assert s.chunks[|s.chunks| - 1] in s.chunks;
    }
  }

  // ----- Runs -----

  datatype Op =
    | DoMalloc(size: nat, grant: Option<int>)
    | DoRealloc(ptr: int, oldSize: nat, newSize: nat, grant: Option<int>)
    | DoClear

  /** The base allocator keeps its promise, sizes are sizes of objects, and
      the caller names a block and a size it has. */
  ghost predicate Allowed(s: Pool, chunkCapacity: nat, op: Op) {
    match op
    case DoMalloc(size, grant) => size <= PTRDIFF_MAX && MayGrant(s, Request(chunkCapacity, size), grant)
    case DoRealloc(ptr, oldSize, newSize, grant) =>
      && newSize <= PTRDIFF_MAX && oldSize <= PTRDIFF_MAX && MayGrant(s, Request(chunkCapacity, newSize), grant)
      && (ptr == 0 || Truthful(s, ptr, oldSize))
    case DoClear => true
  }

  function Apply(s: Pool, chunkCapacity: nat, userBuffer: Option<int>, op: Op): Pool {
    match op
    case DoMalloc(size, grant) => Malloc(s, chunkCapacity, size, grant).pool
    case DoRealloc(ptr, oldSize, newSize, grant) => Realloc(s, chunkCapacity, ptr, oldSize, newSize, grant).pool
    case DoClear => Clear(s, userBuffer)
  }

  ghost predicate IsRun(s: Pool, chunkCapacity: nat, userBuffer: Option<int>, ops: seq<Op>)
    decreases |ops|
  {
    ops != [] ==>
      Allowed(s, chunkCapacity, ops[0])
      && IsRun(Apply(s, chunkCapacity, userBuffer, ops[0]), chunkCapacity, userBuffer, ops[1..])
  }

  ghost function After(s: Pool, chunkCapacity: nat, userBuffer: Option<int>, ops: seq<Op>): Pool
    decreases |ops|
  {
    if ops == [] then s else After(Apply(s, chunkCapacity, userBuffer, ops[0]), chunkCapacity, userBuffer, ops[1..])
  }

  lemma OldestStays(s: Pool, chunkCapacity: nat, userBuffer: Option<int>, op: Op)
    requires HasBuffer(s, userBuffer) && !op.DoClear?
    ensures HasBuffer(Apply(s, chunkCapacity, userBuffer, op), userBuffer)
  {
    hide Align, Resized, Full;
  }

  /** After any run from a valid pool: blocks are in bounds, aligned and
      disjoint, and the chunks account for them. */
  lemma {:induction false} RunKeeps(s: Pool, chunkCapacity: nat, userBuffer: Option<int>, ops: seq<Op>)
    requires Valid(s) && HasBuffer(s, userBuffer) && chunkCapacity <= PTRDIFF_MAX
      && IsRun(s, chunkCapacity, userBuffer, ops)
    ensures var t := After(s, chunkCapacity, userBuffer, ops); Valid(t) && HasBuffer(t, userBuffer)
    decreases |ops|
  {
    hide Valid, HasBuffer, MayGrant, Malloc, Realloc;
    if ops != [] {
      var t := Apply(s, chunkCapacity, userBuffer, ops[0]);
      match ops[0] {
        case DoMalloc(size, grant) =>
          ObjectSizesFit(s, chunkCapacity, size, grant);
          MallocServes(s, chunkCapacity, size, grant);
          OldestStays(s, chunkCapacity, userBuffer, ops[0]);
        case DoRealloc(ptr, oldSize, newSize, grant) =>
          ObjectReallocFits(s, chunkCapacity, ptr, oldSize, newSize, grant);
          ReallocServes(s, chunkCapacity, ptr, oldSize, newSize, grant);
          OldestStays(s, chunkCapacity, userBuffer, ops[0]);
        case DoClear => ClearKeeps(s, userBuffer);
      }
      RunKeeps(t, chunkCapacity, userBuffer, ops[1..]);
    }
  }

  // ----- Sums -----

  lemma {:induction false} UsedInRoom(chunks: seq<Chunk>)
    requires forall c | c in chunks :: ChunkValid(c)
    ensures 0 <= Used(chunks) <= Room(chunks)
  {
    if chunks != [] {
      assert chunks[0] in chunks;
      UsedInRoom(chunks[1..]);
    }
  }

  predicate InSpan(a: int, lo: int, hi: int) {
    lo <= a < hi
  }

  function Span(lo: int, hi: int): set<int> {
    set a | lo <= a < hi && InSpan(a, lo, hi)
  }

  lemma {:induction false} SpanSize(lo: int, hi: int)
    requires lo <= hi
    ensures |Span(lo, hi)| == hi - lo
    decreases hi - lo
  {
    if lo < hi {
      SpanSize(lo + 1, hi);
      assert Span(lo, hi) == {lo} + Span(lo + 1, hi);
    } else {
      assert Span(lo, hi) == {};
    }
  }

  ghost function Cover(chunks: seq<Chunk>): set<int> {
    if chunks == [] then {} else Span(chunks[0].base, chunks[0].End()) + Cover(chunks[1..])
  }

  lemma {:induction false} CoverIs(chunks: seq<Chunk>, a: int)
    ensures a in Cover(chunks) <==> exists c :: c in chunks && InSpan(a, c.base, c.End())
  {
    if chunks != [] {
      CoverIs(chunks[1..], a);
      assert chunks == [chunks[0]] + chunks[1..];
    }
  }

  /** Chunks that lie apart cover different addresses. */
  lemma FirstApart(chunks: seq<Chunk>)
    requires ChunksOk(chunks) && chunks != []
    ensures Span(chunks[0].base, chunks[0].End()) !! Cover(chunks[1..])
  {
    hide ChunkValid, Cover;
    forall a | a in Cover(chunks[1..])
      ensures a !in Span(chunks[0].base, chunks[0].End())
    {
      CoverIs(chunks[1..], a);
      var d :| d in chunks[1..] && InSpan(a, d.base, d.End());
      var i :| 0 <= i < |chunks[1..]| && chunks[1..][i] == d;
      assert Apart(chunks[0], chunks[i + 1]);
    }
  }

  lemma {:induction false} CoverSize(chunks: seq<Chunk>)
    requires ChunksOk(chunks)
    ensures |Cover(chunks)| >= Room(chunks) + HEADER * |chunks|
    ensures forall a | a in Cover(chunks) :: 0 < a < WORD
  {
    hide ChunkValid;
    if chunks != [] {
      var c := chunks[0];
      assert c in chunks && ChunkValid(c);
      assert 0 < c.base && c.base <= c.End() <= WORD by { Bounds(c); }
      assert ChunksOk(chunks[1..]);
      CoverSize(chunks[1..]);
      SpanSize(c.base, c.End());
      FirstApart(chunks);
    }
  }

  lemma Bounds(c: Chunk)
    requires ChunkValid(c)
    ensures 0 < c.base && c.base <= c.End() <= WORD
  {
  }

  /** All capacities together fit in the address space, so no sum of them
      wraps. */
  lemma RoomFits(chunks: seq<Chunk>)
    requires ChunksOk(chunks)
    ensures 0 <= Used(chunks) <= Room(chunks) < WORD
  {
    CoverSize(chunks);
    SpanSize(1, WORD);
    SubsetSize(Cover(chunks), Span(1, WORD));
    UsedInRoom(chunks);
  }
}
