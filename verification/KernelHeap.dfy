/**
 kernel/memory/malloc.c: a bump allocator whose headers lie in the memory it
 hands out. `memory` is all of memory, and pointers are indices into it; the
 pointer 0 is NULL.
 */
module KernelHeap {
  import opened CTypes
  import opened CStrings
  import opened HeapSpec

  lemma SameHeader(before: seq<byte>, after: seq<byte>, b: Block)
    requires HasHeader(before, b) && |after| == |before|
    requires forall k :: b.start <= k < b.Payload() ==> after[k] == before[k]
    ensures HasHeader(after, b)
  {
    assert after[b.start + 8..b.start + 16] == before[b.start + 8..b.start + 16];
  }

  lemma HeaderInside(memory: seq<byte>, b: Block)
    requires HasHeader(memory, b)
    ensures b.Payload() <= b.End() <= |memory|
  {
  }

  /** The bytes of all headers are the same in both memories. */
  ghost predicate SameHeaders(before: seq<byte>, after: seq<byte>, blocks: seq<Block>) {
    |after| == |before|
    && forall i, k :: 0 <= i < |blocks| && blocks[i].start <= k < blocks[i].Payload() && k < |before| ==> after[k] == before[k]
  }

  lemma HeadersKept(before: seq<byte>, after: seq<byte>, blocks: seq<Block>)
    requires Headed(before, blocks) && SameHeaders(before, after, blocks)
    ensures Headed(after, blocks)
  {
    hide HasHeader;
    forall i | 0 <= i < |blocks|
      ensures HasHeader(after, blocks[i])
    {
      HeaderInside(before, blocks[i]);
      SameHeader(before, after, blocks[i]);
    }
  }

  /** Changes at or above the end of the heap leave every header alone. */
  lemma HeadersBelow(before: seq<byte>, after: seq<byte>, blocks: seq<Block>, base: nat, last: nat)
    requires Tiled(blocks, base, last) && |after| == |before| && Headed(before, blocks)
    requires forall k :: 0 <= k < last && k < |before| ==> after[k] == before[k]
    ensures Headed(after, blocks)
  {
    TilesDisjoint(blocks, base, last);
    hide Tiled, Headed;
    HeadersKept(before, after, blocks);
  }

  /** A change of bytes inside one payload leaves every header alone. */
  lemma HeadersOutside(before: seq<byte>, after: seq<byte>, blocks: seq<Block>, base: nat, last: nat, i: nat)
    requires Tiled(blocks, base, last) && i < |blocks| && |after| == |before| && Headed(before, blocks)
    requires forall k :: 0 <= k < |before| && !(blocks[i].Payload() <= k < blocks[i].End()) ==> after[k] == before[k]
    ensures Headed(after, blocks)
  {
    TilesDisjoint(blocks, base, last);
    hide Tiled, Headed;
    HeadersKept(before, after, blocks);
  }

  /** The heap's block with its flag set. */
  ghost function FlagSet(blocks: seq<Block>, i: nat): seq<Block>
    requires i < |blocks|
  {
    blocks[i := blocks[i].(free := true)]
  }

  lemma HeaderFreed(before: seq<byte>, b: Block)
    requires HasHeader(before, b)
    ensures HasHeader(before[b.start := 1], b.(free := true))
  {
    assert before[b.start := 1][b.start + 8..b.start + 16] == before[b.start + 8..b.start + 16];
  }

  /** Setting the flag byte of block i frees that block and no other. */
  lemma HeadersFreed(before: seq<byte>, blocks: seq<Block>, base: nat, last: nat, i: nat)
    requires Tiled(blocks, base, last) && i < |blocks| && Headed(before, blocks)
    requires blocks[i].start < |before|
    ensures Headed(before[blocks[i].start := 1], FlagSet(blocks, i))
  {
    var after := before[blocks[i].start := 1];
    TilesDisjoint(blocks, base, last);
    HeaderFreed(before, blocks[i]);
    hide HasHeader, Tiled;
    forall j | 0 <= j < |blocks| && j != i
      ensures HasHeader(after, blocks[j])
    {
      HeaderInside(before, blocks[j]);
      SameHeader(before, after, blocks[j]);
    }
    assert forall j :: 0 <= j < |blocks| ==> HasHeader(after, FlagSet(blocks, i)[j]);
  }

  lemma EmptyHeap(base: nat, memory: seq<byte>)
    ensures Tiled([], base, base) && Headed(memory, [])
  {
  }

  lemma HeadedSnoc(memory: seq<byte>, blocks: seq<Block>, b: Block)
    requires Headed(memory, blocks) && HasHeader(memory, b)
    ensures Headed(memory, blocks + [b])
  {
    hide HasHeader;
  }

  lemma ReallocMoves(h: Heap, ptr: nat, size: nat)
    requires ptr != 0 && size != 0
    ensures Call(h, Op.Realloc(ptr, size)) == (Freed(Allocated(h, size), ptr), h.last + HEADER)
    ensures Call(h, Op.Malloc(size)) == (Allocated(h, size), h.last + HEADER)
    ensures Call(Allocated(h, size), Op.Free(ptr)) == (Freed(Allocated(h, size), ptr), 0)
  {
    hide Freed;
  }

  /** What the block at ptr looks like in memory. */
  lemma BlockAt(memory: seq<byte>, blocks: seq<Block>, base: nat, last: nat, ptr: nat)
    requires Tiled(blocks, base, last) && Headed(memory, blocks) && BlockOf(blocks, ptr) < |blocks|
    ensures var b := blocks[BlockOf(blocks, ptr)];
            && b.start == ptr - HEADER && HEADER <= b.size && b.End() <= last && b.End() <= |memory|
            && LittleEndian(memory[b.start + 8..b.start + 16]) == b.size
  {
    TilesDisjoint(blocks, base, last);
    assert HasHeader(memory, blocks[BlockOf(blocks, ptr)]);
  }

  /**
   From dst to end there is a copy of what lies at src, which it does not
   overlap, and nothing behind it has changed.
   */
  ghost predicate Copied(before: seq<byte>, after: seq<byte>, src: nat, dst: nat, end: nat) {
    && |after| == |before| && dst <= end <= |after| && src + (end - dst) <= dst
    && after[dst..end] == after[src..src + (end - dst)]
    && forall k :: end <= k < |after| ==> after[k] == before[k]
  }

  /** The n bytes that were at src are at dst. */
  ghost predicate Kept(before: seq<byte>, after: seq<byte>, src: nat, dst: nat, n: nat) {
    src + n <= |before| && dst + n <= |after| && after[dst..dst + n] == before[src..src + n]
  }

  /** Only the bytes from lo to hi may differ. */
  ghost predicate SameOutside(before: seq<byte>, after: seq<byte>, lo: int, hi: int) {
    |after| == |before| && forall k :: 0 <= k < |before| && !(lo <= k < hi) ==> after[k] == before[k]
  }

  /** Below last at most the flag of the block at ptr has changed, and nothing if ptr is NULL. */
  ghost predicate SameBelow(before: seq<byte>, after: seq<byte>, last: nat, ptr: nat) {
    |after| == |before|
    && forall k :: 0 <= k < last && k < |before| && (ptr == 0 || k != ptr - HEADER) ==> after[k] == before[k]
  }

  /** Every byte of the blocks' payloads is what the client last stored there, or what it was before. */
  ghost predicate PayloadsFollow(blocks: seq<Block>, before: seq<byte>, after: seq<byte>, ops: seq<Op>) {
    |after| == |before|
    && forall i, k: nat :: 0 <= i < |blocks| && blocks[i].Payload() <= k < blocks[i].End() && k < |before| ==>
                        after[k] == LastStored(ops, k, before[k])
  }

  lemma NothingPerformed(blocks: seq<Block>, memory: seq<byte>)
    ensures PayloadsFollow(blocks, memory, memory, [])
  {
  }

  lemma LastStoredOne(op: Op, k: nat, v: byte)
    ensures LastStored([op], k, v) == if op.Store? && op.ptr + op.offset == k then op.value else v
  {
    assert [op][1..] == [];
  }

  /** A call that, below the end of the heap, changes at most the flag of the block at ptr. */
  lemma CallLeavesPayloads(blocks: seq<Block>, base: nat, last: nat, before: seq<byte>, after: seq<byte>, op: Op, ptr: nat)
    requires blocks == [] || Tiled(blocks, base, last)
    requires !op.Store? && SameBelow(before, after, last, ptr) && (ptr != 0 ==> BlockOf(blocks, ptr) < |blocks|)
    ensures PayloadsFollow(blocks, before, after, [op])
  {
    if blocks != [] {
      TilesDisjoint(blocks, base, last);
    }
    hide Tiled, LastStored;
    forall i, k: nat | 0 <= i < |blocks| && blocks[i].Payload() <= k < blocks[i].End() && k < |before|
      ensures after[k] == LastStored([op], k, before[k])
    {
      LastStoredOne(op, k, before[k]);
      if ptr != 0 {
        var j := BlockOf(blocks, ptr);
        assert j == i || blocks[j].End() <= blocks[i].start || blocks[i].End() <= blocks[j].start;
      }
    }
  }

  lemma StoreChangesPayload(blocks: seq<Block>, before: seq<byte>, op: Op)
    requires op.Store? && op.ptr + op.offset < |before|
    ensures PayloadsFollow(blocks, before, before[op.ptr + op.offset := op.value], [op])
  {
    hide LastStored;
    forall k: nat | k < |before|
      ensures before[op.ptr + op.offset := op.value][k] == LastStored([op], k, before[k])
    {
      LastStoredOne(op, k, before[k]);
    }
  }

  /** One operation and then the others. */
  lemma PayloadsChain(h: Heap, h': Heap, before: seq<byte>, mid: seq<byte>, after: seq<byte>, ops: seq<Op>)
    requires ops != [] && SamePlaces(h, h')
    requires PayloadsFollow(h.blocks, before, mid, [ops[0]]) && PayloadsFollow(h'.blocks, mid, after, ops[1..])
    ensures PayloadsFollow(h.blocks, before, after, ops)
  {
    hide LastStored;
    forall i, k: nat | 0 <= i < |h.blocks| && h.blocks[i].Payload() <= k < h.blocks[i].End() && k < |before|
      ensures after[k] == LastStored(ops, k, before[k])
    {
      assert h'.blocks[i].Payload() <= k < h'.blocks[i].End();
      assert mid[k] == LastStored([ops[0]], k, before[k]);
      LastStoredFirst(ops, k, before[k]);
    }
  }

  lemma LastStoredFirst(ops: seq<Op>, k: nat, v: byte)
    requires ops != []
    ensures LastStored(ops, k, v) == LastStored(ops[1..], k, LastStored([ops[0]], k, v))
  {
    LastStoredOne(ops[0], k, v);
  }

  /** Every defined byte is in a payload, and reads back. */
  ghost predicate Remembers(known: map<nat, byte>, blocks: seq<Block>, memory: seq<byte>) {
    forall k :: k in known ==> InPayload(blocks, k) && k < |memory| && memory[k] == known[k]
  }

  /** An operation that stores or leaves alone. */
  lemma KnownFollows(known: map<nat, byte>, h: Heap, h': Heap, before: seq<byte>, after: seq<byte>, op: Op)
    requires Remembers(known, h.blocks, before) && SamePlaces(h, h') && PayloadsFollow(h.blocks, before, after, [op])
    requires op.Store? ==> InPayload(h.blocks, op.ptr + op.offset) && op.ptr + op.offset < |before|
    ensures Remembers(if op.Store? then known[op.ptr + op.offset := op.value] else known, h'.blocks, after)
  {
    hide LastStored, SamePlaces;
    forall k | k in known || (op.Store? && k == op.ptr + op.offset)
      ensures InPayload(h'.blocks, k) && k < |after|
      ensures after[k] == if op.Store? && k == op.ptr + op.offset then op.value else known[k]
    {
      PayloadByteStays(h, h', k);
      var i :| 0 <= i < |h.blocks| && h.blocks[i].Payload() <= k < h.blocks[i].End();
      assert after[k] == LastStored([op], k, before[k]);
      LastStoredOne(op, k, before[k]);
    }
  }

  lemma StoreInPayload(blocks: seq<Block>, ptr: nat, offset: nat)
    requires BlockOf(blocks, ptr) < |blocks| && HEADER + offset < blocks[BlockOf(blocks, ptr)].size
    ensures InPayload(blocks, ptr + offset)
  {
    assert blocks[BlockOf(blocks, ptr)].Payload() <= ptr + offset < blocks[BlockOf(blocks, ptr)].End();
  }

  /** The block a realloc moves to is the last one. */
  lemma MovedPayload(h: Heap, ptr: nat, size: nat)
    requires ptr != 0 && size != 0
    ensures var (h', r) := Call(h, Op.Realloc(ptr, size));
            forall k :: r <= k < r + size ==> InPayload(h'.blocks, k)
  {
    var (h', r) := Call(h, Op.Realloc(ptr, size));
    hide BlockOf;
    var b := h'.blocks[|h.blocks|];
    assert b.Payload() == r && b.End() == r + size;
  }

  /** A realloc that moves a block: what it carries over reads back as well. */
  lemma KnownMoves(known: map<nat, byte>, h: Heap, h': Heap, before: seq<byte>, after: seq<byte>, src: nat, dst: nat, n: nat)
    requires Remembers(known, h.blocks, before) && Remembers(known, h'.blocks, after)
    requires Kept(before, after, src, dst, n)
    requires forall k :: dst <= k < dst + n ==> InPayload(h'.blocks, k)
    ensures Remembers(known + CarriedOver(known, src, dst, n), h'.blocks, after)
  {
    hide InPayload;
    forall k | dst <= k < dst + n
      ensures after[k] == before[Origin(src, dst, k)]
    {
      assert after[dst..dst + n][k - dst] == before[src..src + n][k - dst];
    }
  }

  class Allocator {
    const memory: array<byte>
    /** kernieHeap_space, last_valid_address, kernieHeap_is_set_up, have_allocated. */
    var heapSpace: nat
    var lastValid: nat
    var isSetUp: bool
    var haveAllocated: bool

    ghost var base: nat
    ghost var blocks: seq<Block>

    ghost predicate Valid()
      reads this, memory
    {
      && !haveAllocated && memory.Length < TWO64
      && (!isSetUp ==> blocks == [])
      && (isSetUp ==> Tiled(blocks, base, lastValid) && lastValid <= memory.Length)
      && Headed(memory[..], blocks)
    }

    ghost function Abs(): Heap
      reads this
    {
      Heap(blocks, if isSetUp then lastValid else heapSpace)
    }

    constructor (memory: array<byte>)
      requires memory.Length < TWO64
      ensures Valid() && this.memory == memory && Abs() == Heap([], 0) && !isSetUp
    {
      this.memory := memory;
      heapSpace, lastValid, isSetUp, haveAllocated := 0, 0, false, false;
      base, blocks := 0, [];
    }

    /** MEM_Init: where the heap will start, unless it has started already. */
    method MemInit(address: nat)
      requires Valid()
      modifies this`heapSpace
      ensures Valid() && heapSpace == address
      ensures Abs() == if isSetUp then old(Abs()) else Heap([], address)
    {
      heapSpace := address;
    }

    /** A header at a: the flag byte and the size; the padding between them is not touched. */
    method WriteHeader(a: nat, size: nat)
      requires a + HEADER <= a + size <= memory.Length && HEADER <= size < TWO64
      modifies memory
      ensures HasHeader(memory[..], Block(a, size, false))
      ensures memory[a] == 0 && LittleEndian(memory[a + 8..a + 16]) == size
      ensures forall k :: 0 <= k < memory.Length && !(a <= k < a + HEADER) ==> memory[k] == old(memory[k])
    {
      memory[a] := 0;
      var bytes := Bytes(size, 8);
      forall k | 0 <= k < 8 {
        memory[a + 8 + k] := bytes[k];
      }
      SizeRoundTrip(size);
      assert memory[..][a + 8..a + 16] == bytes;
    }

    /** A block of size payload bytes behind everything allocated so far. */
    method Malloc(size: nat) returns (ptr: nat)
      requires Valid() && Abs().last + size + HEADER <= memory.Length
      modifies this, memory
      ensures Valid() && isSetUp && (Abs(), ptr) == Call(old(Abs()), Op.Malloc(size))
      ensures base == if old(isSetUp) then old(base) else old(heapSpace)
      ensures ptr == old(Abs()).last + 16 && ptr <= memory.Length && memory[ptr - 16] == 0
      ensures LittleEndian(memory[ptr - 8..ptr]) == 16 + size
      ensures SameOutside(old(memory[..]), memory[..], ptr - HEADER, ptr)
    {
      hide HasHeader, Headed, Tiled;
      EmptyHeap(heapSpace, memory[..]);
      if !isSetUp {
        lastValid := heapSpace;
        isSetUp := true;
        base := heapSpace;
      }
      ghost var last := lastValid;
      var allocatedLocation := 0;
      var total := size + HEADER;
      if haveAllocated {
        // the search for a free block: nothing ever sets have_allocated
        assert false;
      }
      if allocatedLocation == 0 {
        allocatedLocation := lastValid;
        lastValid := lastValid + total;
        WriteHeader(allocatedLocation, total);
      }
      HeadersBelow(old(memory[..]), memory[..], blocks, base, last);
      HeadedSnoc(memory[..], blocks, Block(last, total, false));
      TiledSnoc(blocks, base, last, Block(last, total, false));
      blocks := blocks + [Block(last, total, false)];
      ptr := allocatedLocation + HEADER;
    }

    /** Marks the block at ptr free; NULL is ignored. */
    method Free(ptr: nat)
      requires Valid() && (ptr != 0 ==> BlockOf(blocks, ptr) < |blocks|)
      modifies this`blocks, memory
      ensures Valid() && Abs() == Call(old(Abs()), Op.Free(ptr)).0
      ensures SameOutside(old(memory[..]), memory[..], ptr - HEADER, ptr - HEADER + if ptr == 0 then 0 else 1)
      ensures ptr != 0 ==> 16 <= ptr < 16 + memory.Length && memory[ptr - 16] == 1
    {
      hide HasHeader, Headed, Tiled, BlockOf, LittleEndian;
      if ptr == 0 {
        return;
      }
      ghost var i, before := BlockOf(blocks, ptr), memory[..];
      BlockAt(before, blocks, base, lastValid, ptr);
      var header := ptr - HEADER;
      var size := LittleEndian(memory[header + 8..header + 16]);
      assert memory[header + 8..header + 16] == before[header + 8..header + 16];
      if size == 0 {
        return;
      }
      HeadersFreed(before, blocks, base, lastValid, i);
      TiledFlag(blocks, base, lastValid, i, true);
      memory[header] := 1;
      assert memory[..] == before[header := 1];
      blocks := FlagSet(blocks, i);
    }

    /** The block whose payload is at ptr. */
    ghost function At(ptr: nat): Block
      requires BlockOf(blocks, ptr) < |blocks|
      reads this
    {
      blocks[BlockOf(blocks, ptr)]
    }

    /**
     A new block with the contents of the old one. The copy takes the old
     payload and HEADER bytes more; they end up behind the new payload or in
     its tail, so memory must go on up to CopyEnd. Nothing behind it changes.
     */
    method Realloc(ptr: nat, size: nat) returns (r: nat)
      requires Valid() && Legal(Abs(), Op.Realloc(ptr, size), memory.Length)
      modifies this, memory
      ensures Valid() && (Abs(), r) == Call(old(Abs()), Op.Realloc(ptr, size))
      ensures old(isSetUp) ==> isSetUp && base == old(base)
      ensures ptr != 0 && size != 0 ==>
                Kept(old(memory[..]), memory[..], ptr, r, Min(old(At(ptr)).size - HEADER, size))
      ensures r == if ptr != 0 && size == 0 then 0 else old(Abs()).last + 16
      ensures ptr != 0 ==> 16 <= ptr < 16 + memory.Length && memory[ptr - 16] == 1
      ensures ptr != 0 && size != 0 ==> Copied(old(memory[..]), memory[..], ptr, r, CopyEnd(old(Abs()), ptr))
      ensures SameBelow(old(memory[..]), memory[..], old(Abs()).last, ptr)
    {
      hide HasHeader, Headed, Tiled, BlockOf, LittleEndian, Copied, Freed, Kept;
      if ptr == 0 {
        r := Malloc(size);
        return;
      }
      if size == 0 && ptr != 0 {
        Free(ptr);
        return 0;
      }
      r := Move(ptr, size);
    }

    /** A block that a pointer refers to lies within the heap. */
    lemma InUse(ptr: nat)
      requires Valid() && BlockOf(blocks, ptr) < |blocks|
      ensures isSetUp && lastValid <= memory.Length
      ensures At(ptr).Payload() == ptr && HEADER <= At(ptr).size && At(ptr).End() <= lastValid
    {
      hide HasHeader, Headed, Tiled, BlockOf;
      BlockAt(memory[..], blocks, base, lastValid, ptr);
    }

    /** The case of realloc that moves a block. */
    method Move(ptr: nat, size: nat) returns (r: nat)
      requires Valid() && BlockOf(blocks, ptr) < |blocks| && ptr != 0 && size != 0
      requires Abs().last + size + HEADER <= memory.Length && CopyEnd(Abs(), ptr) <= memory.Length
      modifies this, memory
      ensures Valid() && (Abs(), r) == Call(old(Abs()), Op.Realloc(ptr, size))
      ensures isSetUp && base == old(base)
      ensures Kept(old(memory[..]), memory[..], ptr, r, Min(old(At(ptr)).size - HEADER, size))
      ensures 16 <= ptr < 16 + memory.Length && memory[ptr - 16] == 1
      ensures Copied(old(memory[..]), memory[..], ptr, r, CopyEnd(old(Abs()), ptr))
      ensures SameBelow(old(memory[..]), memory[..], old(Abs()).last, ptr)
    {
      hide BlockOf, Freed, Copied, Kept, SameBelow, SameOutside, Call, Valid;
      ghost var h, before, b := Abs(), memory[..], At(ptr);
      InUse(ptr);
      ReallocMoves(h, ptr, size);
      r := Malloc(size);
      BlockOfExtends(h.blocks, Block(h.last, size + HEADER, false), ptr);
      assert At(ptr) == b;
      ghost var mid := memory[..];
      CopyBlock(r, ptr);
      ghost var copied := memory[..];
      Free(ptr);
      CopyChain(before, mid, copied, memory[..], ptr, r, b.size, Min(b.size - HEADER, size));
      CopyShows(before, mid, copied, memory[..], ptr, r, b.size);
    }

    /** Copies as many bytes from ptr as its header says, to the payload of the last block. */
    method CopyBlock(dst: nat, ptr: nat)
      requires Valid() && BlockOf(blocks, ptr) < |blocks|
      requires dst == blocks[|blocks| - 1].Payload() && ptr + At(ptr).size <= dst && dst + At(ptr).size <= memory.Length
      modifies memory
      ensures Valid()
      ensures Kept(old(memory[..]), memory[..], ptr, dst, At(ptr).size)
      ensures SameOutside(old(memory[..]), memory[..], dst, dst + At(ptr).size)
    {
      hide HasHeader, Headed, Tiled, BlockOf, LittleEndian;
      BlockAt(memory[..], blocks, base, lastValid, ptr);
      var header := ptr - HEADER;
      assert memory[..][header + 8..header + 16] == memory[header + 8..header + 16];
      var mcbSize := LittleEndian(memory[header + 8..header + 16]);
      CopyPayload(dst, ptr, mcbSize);
    }

    /** The copy of realloc: from a block to the payload of the last one. */
    method CopyPayload(dst: nat, src: nat, n: nat)
      requires Valid() && blocks != [] && dst == blocks[|blocks| - 1].Payload()
      requires src + n <= dst && dst + n <= memory.Length
      modifies memory
      ensures Valid()
      ensures Kept(old(memory[..]), memory[..], src, dst, n)
      ensures SameOutside(old(memory[..]), memory[..], dst, dst + n)
    {
      hide HasHeader, Headed, Tiled;
      ghost var before := memory[..];
      Memcpy(memory, dst, memory, src, n);
      ghost var after := memory[..];
      assert after == before[..dst] + before[src..src + n] + before[dst + n..];
      HeadersBeforePayload(before, after, blocks, base, lastValid);
      assert after[dst..dst + n] == before[src..src + n];
    }

    /** A client writes one byte of a payload. */
    method StorePayload(ptr: nat, offset: nat, value: byte)
      requires Valid() && BlockOf(blocks, ptr) < |blocks| && offset < At(ptr).size - HEADER
      modifies memory
      ensures Valid() && memory[..] == old(memory[..])[ptr + offset := value]
    {
      hide HasHeader, Headed, Tiled, BlockOf, LittleEndian;
      ghost var before := memory[..];
      BlockAt(before, blocks, base, lastValid, ptr);
      memory[ptr + offset] := value;
      HeadersOutside(before, memory[..], blocks, base, lastValid, BlockOf(blocks, ptr));
    }

    /**
     One operation: its effect on the heap, on every payload byte there was, and
     on the bytes the client has defined.
     */
    method Perform(op: Op, ghost known: map<nat, byte>) returns (r: nat)
      requires Valid() && Legal(Abs(), op, memory.Length) && Remembers(known, blocks, memory[..])
      modifies this, memory
      ensures Valid() && (Abs(), r) == Call(old(Abs()), op)
      ensures PayloadsFollow(old(blocks), old(memory[..]), memory[..], [op])
      ensures Remembers(Known(old(Abs()), op, known), blocks, memory[..])
    {
      hide HasHeader, Headed, Tiled, BlockOf, Freed, PayloadsFollow, Remembers, Kept, CarriedOver, SamePlaces, InPayload;
      ghost var h, before, first := Abs(), memory[..], base;
      CallKeepsPlaces(h, op);
      r := 0;
      match op {
        case Malloc(size) =>
          r := Malloc(size);
          CallLeavesPayloads(h.blocks, first, h.last, before, memory[..], op, 0);
        case Free(ptr) =>
          Free(ptr);
          CallLeavesPayloads(h.blocks, first, h.last, before, memory[..], op, ptr);
        case Realloc(ptr, size) =>
          if ptr != 0 {
            InUse(ptr);
          }
          r := Realloc(ptr, size);
          CallLeavesPayloads(h.blocks, first, h.last, before, memory[..], op, ptr);
        case Store(ptr, offset, value) =>
          BlockAt(before, h.blocks, first, h.last, ptr);
          StorePayload(ptr, offset, value);
          StoreChangesPayload(h.blocks, before, op);
          StoreInPayload(h.blocks, ptr, offset);
      }
      KnownFollows(known, h, Abs(), before, memory[..], op);
      if op.Realloc? && op.ptr != 0 && op.size != 0 {
        MovedPayload(h, op.ptr, op.size);
        KnownMoves(known, h, Abs(), before, memory[..], op.ptr, r, Min(h.blocks[BlockOf(h.blocks, op.ptr)].size - HEADER, op.size));
      }
    }

    /**
     Any run of calls and client writes. The heap in memory stays tiled: the
     headers lead through every block ever made. No block's payload changes
     but by the client's own writes. Every byte the client has defined, in a
     block that was there or one made by the run, by a write or carried over by
     realloc from a defined byte, reads back at the end.
     */
    method PerformAll(ops: seq<Op>, ghost known: map<nat, byte>) returns (results: seq<nat>)
      requires Valid() && AllLegal(Abs(), ops, memory.Length) && Remembers(known, blocks, memory[..])
      modifies this, memory
      ensures Valid() && Abs() == Calls(old(Abs()), ops) && results == Results(old(Abs()), ops)
      ensures isSetUp ==> Walk(memory[..], base, lastValid) == Some(Starts(blocks))
      ensures forall i :: 0 <= i < |blocks| ==>
                blocks[i].End() <= memory.Length
                && memory[blocks[i].start]
                   == if (i < |old(blocks)| && old(blocks)[i].free) || FreedBy(ops, blocks[i].Payload()) then 1 else 0
      ensures PayloadsFollow(old(blocks), old(memory[..]), memory[..], ops)
      ensures Remembers(KnownAfter(old(Abs()), ops, known), blocks, memory[..])
      decreases |ops|
    {
      hide HasHeader, Headed, Tiled, BlockOf, PayloadsFollow, Call, Walk, Starts, Legal, Remembers, Known, SamePlaces;
      if ops == [] {
        results := [];
        NothingPerformed(blocks, memory[..]);
      } else {
        ghost var h, before := Abs(), memory[..];
        var r := Perform(ops[0], known);
        ghost var h', mid := Abs(), memory[..];
        CallKeepsPlaces(h, ops[0]);
        var rest := PerformAll(ops[1..], Known(h, ops[0], known));
        PayloadsChain(h, h', before, mid, memory[..], ops);
        results := [r] + rest;
      }
      if isSetUp {
        HeapIsWalkable();
      }
      ShowFlags(old(Abs()), ops, old(base));
    }

    /** The flag bytes tell which blocks some call of the run has freed. */
    lemma ShowFlags(h: Heap, ops: seq<Op>, first: nat)
      requires Valid() && Abs() == Calls(h, ops) && AllLegal(h, ops, memory.Length)
      requires h.blocks == [] || Tiled(h.blocks, first, h.last)
      ensures forall i :: 0 <= i < |blocks| ==>
                blocks[i].End() <= memory.Length
                && memory[blocks[i].start]
                   == if (i < |h.blocks| && h.blocks[i].free) || FreedBy(ops, blocks[i].Payload()) then 1 else 0
    {
      EmptyHeap(h.last, []);
      hide Tiled, Calls, AllLegal, FreedBy, LittleEndian;
      forall i | 0 <= i < |blocks|
        ensures blocks[i].End() <= memory.Length
        ensures memory[blocks[i].start] == if blocks[i].free then 1 else 0
        ensures blocks[i].free <==> (i < |h.blocks| && h.blocks[i].free) || FreedBy(ops, blocks[i].Payload())
      {
        assert HasHeader(memory[..], blocks[i]);
        FreedExactly(h, ops, memory.Length, if h.blocks == [] then h.last else first, i);
      }
    }

    /** Following the sizes in memory from the base visits every block, and stops at last_valid_address. */
    lemma HeapIsWalkable()
      requires Valid() && isSetUp
      ensures Walk(memory[..], base, lastValid) == Some(Starts(blocks))
    {
      WalkVisitsAll(memory[..], blocks, base, lastValid);
    }
  }

  /** Allocation before the copy and freeing after it leave the copied bytes alone. */
  lemma CopyChain(before: seq<byte>, mid: seq<byte>, copied: seq<byte>, after: seq<byte>,
                  src: nat, dst: nat, n: nat, kept: nat)
    requires |before| == |mid| == |copied| == |after| && HEADER <= src
    requires kept <= n && src + kept <= dst - HEADER && src + n <= dst && dst + n <= |before|
    requires SameOutside(before, mid, dst - HEADER, dst)
    requires Kept(mid, copied, src, dst, n)
    requires SameOutside(copied, after, src - HEADER, src - HEADER + 1)
    ensures Kept(before, after, src, dst, kept)
  {
    var there, here := after[dst..dst + kept], before[src..src + kept];
    forall j | 0 <= j < kept
      ensures there[j] == here[j]
    {
      assert copied[dst..dst + n][j] == mid[src..src + n][j];
    }
  }

  /** The copy can still be compared with its source when everything is done. */
  lemma CopyShows(before: seq<byte>, mid: seq<byte>, copied: seq<byte>, after: seq<byte>, src: nat, dst: nat, n: nat)
    requires |before| == |mid| == |copied| == |after| && HEADER <= src && src + n <= dst && dst + n <= |mid|
    requires SameOutside(before, mid, dst - HEADER, dst)
    requires Kept(mid, copied, src, dst, n)
    requires SameOutside(mid, copied, dst, dst + n)
    requires SameOutside(copied, after, src - HEADER, src - HEADER + 1)
    ensures Copied(before, after, src, dst, dst + n)
    ensures SameBelow(before, after, dst - HEADER, src)
  {
    assert after[dst..dst + n] == copied[dst..dst + n];
    assert after[src..src + n] == mid[src..src + n];
  }

  lemma {:induction false} BlockOfExtends(blocks: seq<Block>, b: Block, ptr: nat)
    requires BlockOf(blocks, ptr) < |blocks|
    ensures BlockOf(blocks + [b], ptr) == BlockOf(blocks, ptr)
  {
    assert (blocks + [b])[1..] == blocks[1..] + [b];
    if blocks[0].Payload() != ptr {
      BlockOfExtends(blocks[1..], b, ptr);
    }
  }

  /** Changes from the last payload on leave every header alone. */
  lemma HeadersBeforePayload(before: seq<byte>, after: seq<byte>, blocks: seq<Block>, base: nat, last: nat)
    requires Tiled(blocks, base, last) && |after| == |before| && Headed(before, blocks) && blocks != []
    requires forall k :: 0 <= k < blocks[|blocks| - 1].Payload() && k < |before| ==> after[k] == before[k]
    ensures Headed(after, blocks)
  {
    TilesDisjoint(blocks, base, last);
    hide Tiled, Headed;
    HeadersKept(before, after, blocks);
  }
}
