/** A bump allocator over chunks: what it hands out, in unsigned 64-bit
    arithmetic on flat addresses. */
module PoolModel {
  import opened Wrappers

  /** `size_t` and pointers wrap here. */
  const WORD := 0x1_0000_0000_0000_0000
  /** No object is larger. */
  const PTRDIFF_MAX := 0x7FFF_FFFF_FFFF_FFFF
  /** `RAPIDJSON_ALIGN(sizeof(ChunkHeader))`. */
  const HEADER := 24

  /** `RAPIDJSON_ALIGN`: up to a multiple of 8, in wrapping arithmetic. */
  function Align(n: nat): nat {
    (n + 7) % WORD / 8 * 8
  }

  lemma AlignUp(n: nat)
    requires n <= WORD - 8
    ensures n <= Align(n) < n + 8 && Align(n) % 8 == 0 && Align(n) < WORD && Align(Align(n)) == Align(n)
  {
  }

  /** The last seven sizes wrap to nothing. */
  lemma AlignWraps(n: nat)
    requires WORD - 8 < n < WORD
    ensures Align(n) == 0
  {
  }

  datatype Chunk = Chunk(base: int, capacity: int, size: int) {
    function Start(): int { base + HEADER }
    function End(): int { base + HEADER + capacity }
    function Top(): int { base + HEADER + size }
  }

  /** Memory handed out. */
  datatype Block = Block(at: int, len: int)

  /** The chunks, newest first, and the blocks handed out since the last
      `Clear`, oldest first. */
  datatype Pool = Pool(chunks: seq<Chunk>, blocks: seq<Block>)

  predicate ChunkValid(c: Chunk) {
    0 < c.base && c.base % 8 == 0 && c.size % 8 == 0 && 0 <= c.size <= c.capacity <= PTRDIFF_MAX && c.End() <= WORD
  }

  predicate Apart(a: Chunk, b: Chunk) {
    a.End() <= b.base || b.End() <= a.base
  }

  predicate Disjoint(a: Block, b: Block) {
    a.at + a.len <= b.at || b.at + b.len <= a.at
  }

  /** The block lies in the used part of the chunk. */
  predicate Inside(b: Block, c: Chunk) {
    c.Start() <= b.at && b.at + b.len <= c.Top()
  }

  function Used(chunks: seq<Chunk>): int {
    if chunks == [] then 0 else chunks[0].size + Used(chunks[1..])
  }

  function Room(chunks: seq<Chunk>): int {
    if chunks == [] then 0 else chunks[0].capacity + Room(chunks[1..])
  }

  function Total(blocks: seq<Block>): int {
    if blocks == [] then 0 else Total(blocks[..|blocks| - 1]) + blocks[|blocks| - 1].len
  }

  /** Chunks are in good order and do not overlap. */
  ghost predicate ChunksOk(chunks: seq<Chunk>) {
    && (forall c | c in chunks :: ChunkValid(c))
    && (forall i, j | 0 <= i < j < |chunks| :: Apart(chunks[i], chunks[j]))
  }

  /** A block is aligned and in bounds of a chunk. */
  ghost predicate BlockOk(chunks: seq<Chunk>, b: Block) {
    b.at % 8 == 0 && b.len % 8 == 0 && b.len > 0 && exists c :: c in chunks && Inside(b, c)
  }

  ghost predicate AllDisjoint(blocks: seq<Block>) {
    forall i, j | 0 <= i < j < |blocks| :: Disjoint(blocks[i], blocks[j])
  }

  /** Blocks are aligned, in bounds of a chunk, and pairwise disjoint, and the
      chunks account for all of them. */
  ghost predicate Valid(s: Pool) {
    && ChunksOk(s.chunks)
    && (forall b | b in s.blocks :: BlockOk(s.chunks, b))
    && AllDisjoint(s.blocks)
    && Total(s.blocks) == Used(s.chunks)
  }

  // ----- Operations -----

  /** The capacity of the chunk that is requested for `n` aligned bytes. */
  function NewCapacity(chunkCapacity: nat, n: nat): nat {
    if chunkCapacity > n then chunkCapacity else n
  }

  /** What the base allocator may answer to a request: nothing, or an aligned
      object that overlaps no other. */
  ghost predicate MayGrant(s: Pool, bytes: nat, grant: Option<int>) {
    grant.Some? ==>
      && 0 < grant.value && grant.value % 8 == 0 && bytes <= PTRDIFF_MAX && grant.value + bytes <= WORD
      && forall c | c in s.chunks :: grant.value + bytes <= c.base || c.End() <= grant.value
  }

  predicate Full(s: Pool, n: nat) {
    s.chunks == [] || (s.chunks[0].size + n) % WORD > s.chunks[0].capacity
  }

  function AddChunk(s: Pool, capacity: nat, base: int): Pool {
    s.(chunks := [Chunk(base, capacity, 0)] + s.chunks)
  }

  /** Hands out `n` bytes at the top of the newest chunk. */
  function Bump(s: Pool, n: nat): Pool
    requires s.chunks != []
  {
    var c := s.chunks[0];
    Pool([c.(size := (c.size + n) % WORD)] + s.chunks[1..], s.blocks + [Block(c.Top(), n)])
  }

  datatype Result = Result(pool: Pool, at: Option<int>)

  /** `Malloc`, given what the base allocator answers if it is asked. */
  function Malloc(s: Pool, chunkCapacity: nat, size: nat, grant: Option<int>): Result {
    var n := Align(size);
    if size == 0 then Result(s, None)
    else if !Full(s, n) then Result(Bump(s, n), Some(s.chunks[0].Top()))
    else if grant.None? then Result(s, None)
    else
      var t := AddChunk(s, NewCapacity(chunkCapacity, n), grant.value);
      Result(Bump(t, n), Some(t.chunks[0].Top()))
  }

  /** The request `Malloc` makes to the base allocator if it makes one. */
  function Request(chunkCapacity: nat, size: nat): nat {
    (HEADER + NewCapacity(chunkCapacity, Align(size))) % WORD
  }

  function IndexOf(blocks: seq<Block>, at: int): (i: nat)
    ensures i <= |blocks|
    ensures i < |blocks| ==> blocks[i].at == at
    ensures (forall b | b in blocks :: b.at != at) <==> i == |blocks|
  {
    if blocks == [] then 0
    else if blocks[0].at == at then 0
    else 1 + IndexOf(blocks[1..], at)
  }

  /** The block at `at` gets `n` bytes. */
  function Resized(blocks: seq<Block>, at: int, n: nat): seq<Block> {
    var i := IndexOf(blocks, at);
    if i < |blocks| then blocks[i := Block(at, n)] else blocks
  }

  /** `Realloc` without its copy. */
  function Realloc(s: Pool, chunkCapacity: nat, ptr: int, oldSize: nat, newSize: nat, grant: Option<int>): Result {
    var o, n := Align(oldSize), Align(newSize);
    if ptr == 0 then Malloc(s, chunkCapacity, newSize, grant)
    else if newSize == 0 then Result(s, None)
    else if o >= n then Result(s, Some(ptr))
    else if s.chunks != [] && ptr == (s.chunks[0].Top() - o) % WORD
      && (s.chunks[0].size + (n - o)) % WORD <= s.chunks[0].capacity then
      var c := s.chunks[0];
      Result(Pool([c.(size := (c.size + (n - o)) % WORD)] + s.chunks[1..], Resized(s.blocks, ptr, n)), Some(ptr))
    else Malloc(s, chunkCapacity, n, grant)
  }

  /** A chunk list without the chunks that are given back: only the user's
      buffer stays, and is empty. */
  function Cleared(chunks: seq<Chunk>, userBuffer: Option<int>): seq<Chunk> {
    if chunks == [] then []
    else if userBuffer == Some(chunks[0].base) then [chunks[0].(size := 0)] + chunks[1..]
    else Cleared(chunks[1..], userBuffer)
  }

  function Clear(s: Pool, userBuffer: Option<int>): Pool {
    Pool(Cleared(s.chunks, userBuffer), [])
  }

  // ----- The newest chunk -----

  function Grown(chunks: seq<Chunk>, n: int): seq<Chunk>
    requires chunks != []
  {
    [chunks[0].(size := chunks[0].size + n)] + chunks[1..]
  }

  lemma GrownOk(chunks: seq<Chunk>, n: nat)
    requires ChunksOk(chunks) && chunks != [] && n % 8 == 0 && chunks[0].size + n <= chunks[0].capacity
    ensures ChunksOk(Grown(chunks, n)) && Used(Grown(chunks, n)) == Used(chunks) + n
    ensures forall b | BlockOk(chunks, b) :: BlockOk(Grown(chunks, n), b)
  {
    var t := Grown(chunks, n);
    assert chunks[0] in chunks && ChunkValid(chunks[0]);
    forall c | c in t
      ensures ChunkValid(c)
    {
    }
    forall b | BlockOk(chunks, b)
      ensures BlockOk(t, b)
    {
      var c :| c in chunks && Inside(b, c);
      if c == chunks[0] {
        assert t[0] in t && Inside(b, t[0]);
      } else {
        assert c in t;
      }
    }
  }

  /** Where a block of a valid pool lies relative to the newest chunk. */
  lemma BesideHead(chunks: seq<Chunk>, b: Block)
    requires ChunksOk(chunks) && chunks != [] && BlockOk(chunks, b)
    ensures Inside(b, chunks[0]) || b.at + b.len <= chunks[0].base || chunks[0].End() <= b.at
  {
    var c :| c in chunks && Inside(b, c);
    var i :| 0 <= i < |chunks| && chunks[i] == c;
    assert ChunkValid(c);
  }

  lemma TotalAppend(blocks: seq<Block>, b: Block)
    ensures Total(blocks + [b]) == Total(blocks) + b.len
  {
    assert (blocks + [b])[..|blocks|] == blocks;
  }

  lemma TopBlockOk(chunks: seq<Chunk>, n: nat)
    requires ChunksOk(chunks) && chunks != [] && n % 8 == 0 && n > 0 && chunks[0].size + n <= chunks[0].capacity
    ensures BlockOk(Grown(chunks, n), Block(chunks[0].Top(), n))
  {
    var t := Grown(chunks, n);
    assert chunks[0] in chunks && t[0] in t && Inside(Block(chunks[0].Top(), n), t[0]);
  }

  /** Bumping the newest chunk keeps the pool valid exactly if the sum does
      not wrap. */
  lemma BumpKeeps(s: Pool, n: nat)
    requires Valid(s) && s.chunks != [] && n % 8 == 0 && 0 < n < WORD && !Full(s, n)
    ensures Valid(Bump(s, n)) <==> s.chunks[0].size + n < WORD
  {
    hide BlockOk, ChunksOk, Total, Used;
    var c, added := s.chunks[0], Block(s.chunks[0].Top(), n);
    assert ChunkValid(c) by { HeadValid(s.chunks); }
    if c.size + n < WORD {
      assert Bump(s, n).chunks == Grown(s.chunks, n);
      GrownOk(s.chunks, n);
      TopBlockOk(s.chunks, n);
      TotalAppend(s.blocks, added);
      forall i | 0 <= i < |s.blocks|
        ensures Disjoint(s.blocks[i], added)
      {
        BesideHead(s.chunks, s.blocks[i]);
      }
    } else {
      assert added in Bump(s, n).blocks;
      NoRoomFor(Bump(s, n).chunks, c, added);
    }
  }

  lemma HeadValid(chunks: seq<Chunk>)
    requires ChunksOk(chunks) && chunks != []
    ensures ChunkValid(chunks[0])
  {
  }

  /** A block that reaches beyond all addresses is in bounds of no chunk. */
  lemma NoRoomFor(chunks: seq<Chunk>, c: Chunk, b: Block)
    requires ChunkValid(c) && b.at == c.Top() && c.size + b.len >= WORD
    ensures !(ChunksOk(chunks) && BlockOk(chunks, b))
  {
  }

  // ----- Malloc -----

  /** A chunk the base allocator granted keeps the pool valid, exactly if its
      size did not wrap on the way to it. */
  lemma AddChunkKeeps(s: Pool, capacity: nat, base: int)
    requires Valid(s) && capacity < WORD && MayGrant(s, (HEADER + capacity) % WORD, Some(base))
    ensures Valid(AddChunk(s, capacity, base)) <==> HEADER + capacity < WORD
  {
    var t := AddChunk(s, capacity, base);
    var c := t.chunks[0];
    assert c in t.chunks;
    if HEADER + capacity < WORD {
      forall b | b in t.blocks
        ensures BlockOk(t.chunks, b)
      {
        var d :| d in s.chunks && Inside(b, d);
        assert d in t.chunks;
      }
    }
  }

  /** Nothing wraps on the way the request takes. */
  predicate Fits(s: Pool, chunkCapacity: nat, size: nat, grant: Option<int>) {
    var n := Align(size);
    || size == 0
    || (Full(s, n) && grant.None?)
    || (&& size <= WORD - 8
        && (s.chunks != [] ==> s.chunks[0].size + n < WORD)
        && (Full(s, n) ==> HEADER + NewCapacity(chunkCapacity, n) < WORD))
  }

  /** The result of a request: the pool stays valid, and the memory handed
      out is a new block, large enough; or nothing has happened. */
  ghost predicate Served(s: Pool, size: nat, r: Result) {
    && Valid(r.pool)
    && (r.at.None? ==> r.pool == s)
    && (r.at.Some? ==> r.pool.blocks == s.blocks + [Block(r.at.value, Align(size))] && size <= Align(size))
  }

  lemma MallocFresh(s: Pool, chunkCapacity: nat, size: nat, base: int)
    requires Valid(s) && 0 < size <= WORD - 8 && chunkCapacity < WORD && Full(s, Align(size))
    requires MayGrant(s, Request(chunkCapacity, size), Some(base))
    ensures Valid(Malloc(s, chunkCapacity, size, Some(base)).pool)
      <==> HEADER + NewCapacity(chunkCapacity, Align(size)) < WORD
  {
    hide BlockOk, ChunksOk, Total, Used, Align, AllDisjoint;
    AlignUp(size);
    var n, capacity := Align(size), NewCapacity(chunkCapacity, Align(size));
    var t := AddChunk(s, capacity, base);
    AddChunkKeeps(s, capacity, base);
    if HEADER + capacity < WORD {
      BumpKeeps(t, n);
    } else {
      ChunkTooLarge(Bump(t, n).chunks);
    }
  }

  lemma ChunkTooLarge(chunks: seq<Chunk>)
    requires chunks != [] && chunks[0].capacity > PTRDIFF_MAX
    ensures !ChunksOk(chunks)
  {
    assert chunks[0] in chunks;
  }

  /** `Malloc` does what it should exactly if nothing wraps. */
  lemma MallocServes(s: Pool, chunkCapacity: nat, size: nat, grant: Option<int>)
    requires Valid(s) && size < WORD && chunkCapacity < WORD && MayGrant(s, Request(chunkCapacity, size), grant)
    ensures Served(s, size, Malloc(s, chunkCapacity, size, grant)) <==> Fits(s, chunkCapacity, size, grant)
  {
    hide Valid, MayGrant, Align;
    if size > WORD - 8 {
      AlignWraps(size);
    } else if size > 0 {
      AlignUp(size);
      if !Full(s, Align(size)) {
        BumpKeeps(s, Align(size));
      } else if grant.Some? {
        MallocFresh(s, chunkCapacity, size, grant.value);
        if s.chunks != [] {
          FullMeansNoWrap(s, Align(size));
        }
      }
    }
  }

  /** For sizes an object can have: the answer is nothing only for size 0, or
      if the newest chunk has too few bytes left and the base allocator
      refuses; else it is the first free byte of the newest chunk, or, if that
      has too few bytes left, the first behind the header of the memory
      granted. */
  lemma MallocGives(s: Pool, chunkCapacity: nat, size: nat, grant: Option<int>)
    requires Valid(s) && size <= PTRDIFF_MAX
    ensures var r, n := Malloc(s, chunkCapacity, size, grant), (size + 7) / 8 * 8;
      var room := s.chunks != [] && n <= s.chunks[0].capacity - s.chunks[0].size;
      && (r.at.None? <==> size == 0 || (!room && grant.None?))
      && (size > 0 && room ==>
            && r.at == Some(s.chunks[0].base + 24 + s.chunks[0].size)
            && r.pool.chunks == [s.chunks[0].(size := s.chunks[0].size + n)] + s.chunks[1..])
      && (size > 0 && !room && grant.Some? ==>
            && r.at == Some(grant.value + 24)
            && r.pool.chunks == [Chunk(grant.value, if chunkCapacity > n then chunkCapacity else n, n)] + s.chunks)
  {
    hide BlockOk, Total, Used, AllDisjoint;
    if s.chunks != [] {
      HeadValid(s.chunks);
    }
  }

  lemma FullMeansNoWrap(s: Pool, n: nat)
    requires Valid(s) && Full(s, n) && s.chunks != [] && n < WORD
    ensures s.chunks[0].size + n < WORD
  {
    HeadValid(s.chunks);
  }

  /** No size an object can have wraps, aligned or not. */
  lemma ObjectSizesFit(s: Pool, chunkCapacity: nat, size: nat, grant: Option<int>)
    requires Valid(s) && size <= PTRDIFF_MAX + 1 && chunkCapacity <= PTRDIFF_MAX
    ensures Fits(s, chunkCapacity, size, grant)
  {
    AlignUp(size);
    if s.chunks != [] {
      HeadValid(s.chunks);
    }
  }

  /** A request of 2^64 - 8 bytes from a chunk in use: an address is answered,
      and the chunk counts as empty again. */
  lemma WrappedRequest(chunkCapacity: nat, grant: Option<int>)
    ensures var s := Pool([Chunk(8, 64, 8)], [Block(32, 8)]);
      var r := Malloc(s, chunkCapacity, WORD - 8, grant);
      Valid(s) && r.at == Some(40) && r.pool.chunks[0].size == 0 && !Valid(r.pool)
  {
    var c := Chunk(8, 64, 8);
    var s := Pool([c], [Block(32, 8)]);
    assert c in s.chunks && Inside(Block(32, 8), c);
    assert Total(s.blocks) == 8 by { TotalAppend([], Block(32, 8)); }
    var t := Malloc(s, chunkCapacity, WORD - 8, grant).pool;
    var b := Block(40, WORD - 8);
    assert b in t.blocks;
    NoRoomFor(t.chunks, c, b);
  }
}
