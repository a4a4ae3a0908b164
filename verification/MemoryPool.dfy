/** `MemoryPoolAllocator`: a linked list of chunk headers, changed in place. */
module MemoryPool {
  import opened Wrappers
  import opened PoolModel
  import opened PoolSafety

  /** The header at the start of a chunk. */
  class ChunkHeader {
    const base: int
    var capacity: nat
    var size: nat
    var next: ChunkHeader?

    constructor (base: int, capacity: nat, next: ChunkHeader?)
      ensures this.base == base && this.capacity == capacity && size == 0 && this.next == next
    {
      this.base, this.capacity, this.size, this.next := base, capacity, 0, next;
    }

    ghost function View(): Chunk
      reads this
    {
      Chunk(base, capacity, size)
    }
  }

  ghost function Views(list: seq<ChunkHeader>): seq<Chunk>
    reads list
  {
    if list == [] then [] else [list[0].View()] + Views(list[1..])
  }

  ghost function Follower(list: seq<ChunkHeader>, i: nat): ChunkHeader? {
    if i + 1 < |list| then list[i + 1] else null
  }

  class MemoryPoolAllocator {
    var chunkHead: ChunkHeader?
    const chunkCapacity: nat
    const userBuffer: Option<int>
    /** The bytes at all addresses. */
    var mem: Memory
    /** The chunks in the order of the list, and the blocks handed out. */
    ghost var list: seq<ChunkHeader>
    ghost var blocks: seq<Block>

    ghost function Now(): Pool
      reads this, list
    {
      Pool(Views(list), blocks)
    }

    /** The list is linked from the head on. */
    ghost predicate Linked()
      reads `chunkHead, `list, list
    {
      && (forall i | 0 <= i < |list| :: list[i].next == Follower(list, i))
      && (forall i, j | 0 <= i < j < |list| :: list[i] != list[j])
      && chunkHead == if list == [] then null else list[0]
    }

    ghost predicate Valid()
      reads this, list
    {
      Linked() && PoolModel.Valid(Now()) && HasBuffer(Now(), userBuffer)
    }

    constructor (chunkCapacity: nat)
      ensures Valid() && Now() == Pool([], []) && this.chunkCapacity == chunkCapacity && userBuffer == None
    {
      chunkHead, list, blocks := null, [], [];
      this.chunkCapacity, userBuffer, mem := chunkCapacity, None, Bytes(_ => 0);
    }

    /** With the user's buffer, which must hold more than a header. */
    constructor FromBuffer(buffer: int, size: nat, chunkCapacity: nat)
      requires 0 < buffer && buffer % 8 == 0 && HEADER < size <= PTRDIFF_MAX && buffer + size <= WORD
      ensures Valid() && Now() == Pool([Chunk(buffer, size - HEADER, 0)], [])
      ensures this.chunkCapacity == chunkCapacity && userBuffer == Some(buffer) && fresh(list)
    {
      var header := new ChunkHeader(buffer, size - HEADER, null);
      chunkHead, list, blocks := header, [header], [];
      this.chunkCapacity, userBuffer, mem := chunkCapacity, Some(buffer), Bytes(_ => 0);
      new;
      assert list[1..] == [];
      var c := list[0].View();
      assert Views(list) == [c];
      OneChunkValid(c);
    }

    /** Walks the list; the sum is taken in `size_t`. */
    method Capacity() returns (capacity: nat)
      requires Valid()
      ensures capacity == Room(Now().chunks)
    {
      capacity := 0;
      var c := chunkHead;
      ghost var i := 0;
      RoomFits(Now().chunks);
      assert list[0..] == list;
      SumsNonNegative(list);
      while c != null
        invariant 0 <= i <= |list| && (i < |list| ==> c == list[i]) && (i == |list| ==> c == null)
        invariant capacity == Room(Views(list)) - Room(Views(list[i..]))
        invariant 0 <= Room(Views(list[i..])) <= Room(Views(list))
        decreases |list| - i
      {
        ViewsTail(list, i);
        assert c.next == Follower(list, i);
        capacity := (capacity + c.capacity) % WORD;
        c := c.next;
        i := i + 1;
      }
      assert list[|list|..] == [];
    }

    method Size() returns (size: nat)
      requires Valid()
      ensures size == Total(blocks) == Used(Now().chunks) <= Room(Now().chunks)
    {
      size := 0;
      var c := chunkHead;
      ghost var i := 0;
      RoomFits(Now().chunks);
      assert list[0..] == list;
      SumsNonNegative(list);
      while c != null
        invariant 0 <= i <= |list| && (i < |list| ==> c == list[i]) && (i == |list| ==> c == null)
        invariant size == Used(Views(list)) - Used(Views(list[i..]))
        invariant 0 <= Used(Views(list[i..])) <= Used(Views(list))
        decreases |list| - i
      {
        ViewsTail(list, i);
        assert c.next == Follower(list, i);
        size := (size + c.size) % WORD;
        c := c.next;
        i := i + 1;
      }
      assert list[|list|..] == [];
    }

    /** Gives the newest chunk back. */
    method FreeHead()
      requires Linked() && list != []
      modifies this`chunkHead, this`list
      ensures Linked() && list == old(list[1..]) && Views(list) == old(Views(list))[1..]
    {
      ViewsTail(list, 0);
      assert list[0..] == list;
      assert chunkHead.next == Follower(list, 0);
      TailLinked();
      chunkHead := chunkHead.next;
      list := list[1..];
    }

    /** The user's buffer counts as empty. */
    method EmptyHead()
      requires Linked() && list != []
      modifies list
      ensures Linked() && Views(list) == [old(Views(list))[0].(size := 0)] + old(Views(list))[1..]
    {
      ghost var rest := list[1..];
      ghost var views := Views(rest);
      chunkHead.size := 0;
      assert forall i | 0 <= i < |rest| :: rest[i] == list[i + 1] != chunkHead;
      assert Views(rest) == views;
    }

    /** Gives the chunks back, from the newest to the user's buffer. */
    method Clear()
      requires Valid()
      modifies this, list
      ensures Valid() && Now() == PoolModel.Clear(old(Now()), userBuffer)
      ensures Used(Now().chunks) == 0 && blocks == []
    {
      hide ChunksOk, PoolModel.Valid, HasBuffer, Linked, Views;
      ClearKeeps(Now(), userBuffer);
      blocks := [];
      HeadView();
      while chunkHead != null && Some(chunkHead.base) != userBuffer
        invariant Linked() && blocks == []
        invariant chunkHead == null <==> Views(list) == []
        invariant chunkHead != null ==> list != [] && chunkHead == list[0] && Views(list)[0] == chunkHead.View()
        invariant Cleared(Views(list), userBuffer) == Cleared(old(Views(list)), userBuffer)
        invariant forall h | h in list :: h in old(list)
        decreases |list|
      {
        FreeHead();
        HeadView();
      }
      if chunkHead != null {
        assert forall i | 0 <= i < |list| :: list[i] in old(list);
        EmptyHead();
      }
    }

    lemma TailLinked()
      requires list != []
      requires forall i | 0 <= i < |list| :: list[i].next == Follower(list, i)
      requires forall i, j | 0 <= i < j < |list| :: list[i] != list[j]
      ensures var rest := list[1..];
        && (forall i | 0 <= i < |rest| :: rest[i].next == Follower(rest, i))
        && (forall i, j | 0 <= i < j < |rest| :: rest[i] != rest[j])
    {
      var rest := list[1..];
      forall i | 0 <= i < |rest|
        ensures rest[i].next == Follower(rest, i)
      {
        assert rest[i] == list[i + 1] && Follower(rest, i) == Follower(list, i + 1);
      }
    }

    /** Links a new chunk before the others, if the base allocator has the
        memory. */
    method AddChunk(capacity: nat, grant: Option<int>) returns (ok: bool)
      requires Linked()
      modifies this`chunkHead, this`list
      ensures Linked() && blocks == old(blocks) && ok == grant.Some?
      ensures mem == old(mem)
      ensures ok ==> |list| == |old(list)| + 1 && list[1..] == old(list) && fresh(list[0])
      ensures ok ==> Now() == PoolModel.AddChunk(old(Now()), capacity, grant.value)
      ensures !ok ==> list == old(list)
    {
      if grant.None? {
        return false;
      }
      var chunk := new ChunkHeader(grant.value, capacity, chunkHead);
      chunkHead := chunk;
      list := [chunk] + list;
      assert list[1..] == old(list);
      assert forall i | 1 <= i < |list| ::
        list[i] == old(list)[i - 1] && Follower(list, i) == Follower(old(list), i - 1);
      ok := true;
    }

    /** Hands out the next `n` bytes of the newest chunk. */
    method Bump(n: nat) returns (at: int)
      requires Linked() && list != []
      modifies this, list
      ensures Linked() && list == old(list) && mem == old(mem)
      ensures Now() == PoolModel.Bump(old(Now()), n) && at == old(Now()).chunks[0].Top()
    {
      ghost var rest := list[1..];
      ghost var views := Views(rest);
      at := chunkHead.base + HEADER + chunkHead.size;
      blocks := blocks + [Block(at, n)];
      chunkHead.size := (chunkHead.size + n) % WORD;
      assert forall i | 0 <= i < |rest| :: rest[i] == list[i + 1] != chunkHead;
      assert Views(rest) == views;
    }

    /** `Malloc`; `grant` is the base allocator's answer if it is asked. */
    method Malloc(size: nat, grant: Option<int>) returns (at: Option<int>)
      requires Valid() && size < WORD && chunkCapacity < WORD
      requires MayGrant(Now(), Request(chunkCapacity, size), grant)
      modifies this, list
      ensures Linked() && mem == old(mem)
      ensures PoolModel.Result(Now(), at) == PoolModel.Malloc(old(Now()), chunkCapacity, size, grant)
      ensures Fits(old(Now()), chunkCapacity, size, grant)
         <==> Served(old(Now()), size, PoolModel.Result(Now(), at))
      ensures Fits(old(Now()), chunkCapacity, size, grant) ==> Valid()
      ensures forall h | h in list :: h in old(list) || fresh(h)
    {
      hide PoolModel.Valid, MayGrant, Align, HasBuffer, Views;
      hide PoolModel.Bump, PoolModel.AddChunk, Linked, ChunksOk, Fits;
      ghost var s := Now();
      OldestStays(s, chunkCapacity, userBuffer, DoMalloc(size, grant));
      MallocServes(s, chunkCapacity, size, grant);
      if size == 0 {
        return None;
      }
      var n := Align(size);
      HeadView();
      if chunkHead == null || (chunkHead.size + n) % WORD > chunkHead.capacity {
        var ok := AddChunk(if chunkCapacity > n then chunkCapacity else n, grant);
        if !ok {
          return None;
        }
        HeadView();
      }
      var p := Bump(n);
      at := Some(p);
    }

    /** Gives the last block more bytes of the newest chunk. */
    method Extend(ptr: int, o: nat, n: nat)
      requires Linked() && list != [] && o <= n
      modifies this, list
      ensures Linked() && list == old(list) && mem == old(mem)
      ensures var c := old(Now()).chunks[0];
        Now() == Pool([c.(size := (c.size + (n - o)) % WORD)] + old(Now()).chunks[1..], Resized(old(blocks), ptr, n))
    {
      hide Resized;
      ghost var rest := list[1..];
      ghost var views := Views(rest);
      blocks := Resized(blocks, ptr, n);
      chunkHead.size := (chunkHead.size + (n - o)) % WORD;
      assert forall i | 0 <= i < |rest| :: rest[i] == list[i + 1] != chunkHead;
      assert Views(rest) == views;
    }

    /** `Realloc`. */
    method Realloc(ptr: int, oldSize: nat, newSize: nat, grant: Option<int>) returns (at: Option<int>)
      requires Valid() && (ptr == 0 || Truthful(Now(), ptr, oldSize))
      requires newSize < WORD && chunkCapacity < WORD
      requires MayGrant(Now(), Request(chunkCapacity, newSize), grant)
      modifies this, list
      ensures Linked()
      ensures PoolModel.Result(Now(), at) == PoolModel.Realloc(old(Now()), chunkCapacity, ptr, oldSize, newSize, grant)
      ensures ReallocFits(old(Now()), chunkCapacity, ptr, oldSize, newSize, grant)
         <==> Reserved(old(Now()), ptr, newSize, PoolModel.Result(Now(), at))
      ensures ReallocFits(old(Now()), chunkCapacity, ptr, oldSize, newSize, grant) ==> Valid()
      ensures mem == MemoryAfter(old(Now()), old(mem), ptr, oldSize, PoolModel.Result(Now(), at))
      ensures forall h | h in list :: h in old(list) || fresh(h)
    {
      hide PoolModel.Valid, MayGrant, Align, HasBuffer, Views, Resized;
      hide Linked, ChunksOk, PoolModel.Malloc, Served, Truthful;
      hide ReallocFits, Fits;
      ghost var s := Now();
      OldestStays(s, chunkCapacity, userBuffer, DoRealloc(ptr, oldSize, newSize, grant));
      ReallocServes(s, chunkCapacity, ptr, oldSize, newSize, grant);
      if ptr == 0 {
        at := Malloc(newSize, grant);
        return;
      }
      if newSize == 0 {
        return None;
      }
      var o, n := Align(oldSize), Align(newSize);
      if o >= n {
        return Some(ptr);
      }
      HeadView();
      assert chunkHead != null by { BlockHasChunk(s, ptr, oldSize); }
      if ptr == (chunkHead.base + HEADER + chunkHead.size - o) % WORD {
        var increment := n - o;
        if (chunkHead.size + increment) % WORD <= chunkHead.capacity {
          ResizedLength(s.blocks, ptr, n);
          Extend(ptr, o, n);
          return Some(ptr);
        }
      }
      AlignedRequest(chunkCapacity, newSize);
      at := Malloc(n, grant);
      MallocAnswers(s, chunkCapacity, n, grant);
      if at.Some? && o != 0 {
        mem := Copied(mem, at.value, ptr, o);
      }
    }

    lemma HeadView()
      requires Linked()
      ensures chunkHead == null <==> Now().chunks == []
      ensures chunkHead != null ==> list != [] && chunkHead == list[0] && Now().chunks[0] == chunkHead.View()
    {
    }
  }

  lemma BlockHasChunk(s: Pool, ptr: int, oldSize: nat)
    requires PoolModel.Valid(s) && Truthful(s, ptr, oldSize)
    ensures s.chunks != []
  {
    var b :| b in s.blocks && b.at == ptr && oldSize <= b.len;
    assert BlockOk(s.chunks, b);
  }

  lemma AlignedRequest(chunkCapacity: nat, size: nat)
    requires size < WORD
    ensures Request(chunkCapacity, Align(size)) == Request(chunkCapacity, size) && Align(size) < WORD
  {
    if size <= WORD - 8 {
      AlignUp(size);
    } else {
      AlignWraps(size);
    }
  }

  lemma OneChunkValid(c: Chunk)
    requires ChunkValid(c) && c.size == 0
    ensures PoolModel.Valid(Pool([c], []))
  {
    assert [c][1..] == [];
  }

  lemma ViewsTail(list: seq<ChunkHeader>, i: nat)
    requires i < |list|
    ensures Views(list[i..]) == [list[i].View()] + Views(list[i + 1..])
    ensures Room(Views(list[i..])) == list[i].capacity + Room(Views(list[i + 1..]))
    ensures Used(Views(list[i..])) == list[i].size + Used(Views(list[i + 1..]))
    ensures 0 <= Room(Views(list[i + 1..])) && 0 <= Used(Views(list[i + 1..]))
  {
    assert list[i..][1..] == list[i + 1..];
    assert ([list[i].View()] + Views(list[i + 1..]))[1..] == Views(list[i + 1..]);
    SumsNonNegative(list[i + 1..]);
  }

  lemma {:induction false} SumsNonNegative(list: seq<ChunkHeader>)
    ensures 0 <= Room(Views(list)) && 0 <= Used(Views(list))
  {
    if list != [] {
      SumsNonNegative(list[1..]);
      assert Views(list)[1..] == Views(list[1..]);
    }
  }
}
