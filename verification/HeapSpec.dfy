/**
 The layout of the kernel heap: blocks that follow each other without gaps,
 each a 16-byte header and its payload. Addresses are indices of memory.
 */
module HeapSpec {
  import opened CTypes
  import opened Numerals

  /** sizeof(mem_control_blk): a flag byte, seven bytes of padding, a 64-bit size. */
  const HEADER: nat := 16

  /** A block as the allocator made it: `size` counts header and payload. */
  datatype Block = Block(start: nat, size: nat, free: bool) {
    function End(): nat { start + size }
    function Payload(): nat { start + HEADER }
  }

  // ------------------------------------------------------ in-band headers

  /** The little-endian value of a row of bytes. */
  function LittleEndian(bytes: seq<byte>): (v: nat) {
    if bytes == [] then 0 else bytes[0] + 0x100 * LittleEndian(bytes[1..])
  }

  function Bytes(v: nat, n: nat): (bytes: seq<byte>)
    ensures |bytes| == n
  {
    if n == 0 then [] else [v % 0x100] + Bytes(v / 0x100, n - 1)
  }

  lemma {:induction false} BytesRoundTrip(v: nat, n: nat)
    requires v < Pow(0x100, n)
    ensures LittleEndian(Bytes(v, n)) == v
  {
    if n > 0 {
      DivBelow(v, 0x100, Pow(0x100, n - 1));
      BytesRoundTrip(v / 0x100, n - 1);
      assert Bytes(v, n)[1..] == Bytes(v / 0x100, n - 1);
    }
  }

  lemma SizeRoundTrip(v: uint64)
    ensures LittleEndian(Bytes(v, 8)) == v
  {
    assert Pow(0x100, 2) == 0x1_0000;
    PowDouble(0x100, 2);
    PowDouble(0x100, 4);
    BytesRoundTrip(v, 8);
  }

  /** The value of eight bytes, the least significant first. */
  lemma EightBytes(b: seq<byte>, d: seq<int>)
    requires |b| == |d| == 8 && forall i :: 0 <= i < 8 ==> b[i] == d[i]
    ensures LittleEndian(b) == d[0] + 0x100 * d[1] + 0x1_0000 * d[2] + 0x100_0000 * d[3] + 0x1_0000_0000 * d[4]
                               + 0x100_0000_0000 * d[5] + 0x1_0000_0000_0000 * d[6] + 0x100_0000_0000_0000 * d[7]
  {
    FourBytes(b[..4], b[4..], d[..4]);
    FourBytes(b[4..], [], d[4..]);
    assert b == b[..4] + b[4..] && b[4..] == b[4..] + [];
  }

  lemma FourBytes(b: seq<byte>, rest: seq<byte>, d: seq<int>)
    requires |b| == |d| == 4 && forall i :: 0 <= i < 4 ==> b[i] == d[i]
    ensures LittleEndian(b + rest) == d[0] + 0x100 * d[1] + 0x1_0000 * d[2] + 0x100_0000 * d[3] + 0x1_0000_0000 * LittleEndian(rest)
  {
    var c := b + rest;
    assert c[1..][1..] == c[2..] && c[2..][1..] == c[3..] && c[3..][1..] == rest;
    assert LittleEndian(c) == d[0] + 0x100 * LittleEndian(c[1..]);
    assert LittleEndian(c[1..]) == d[1] + 0x100 * LittleEndian(c[2..]);
    assert LittleEndian(c[2..]) == d[2] + 0x100 * LittleEndian(c[3..]);
    assert LittleEndian(c[3..]) == d[3] + 0x100 * LittleEndian(rest);
  }

  /** The size field of a header at a. */
  ghost function SizeAt(memory: seq<byte>, a: nat): nat
    requires a + HEADER <= |memory|
  {
    LittleEndian(memory[a + 8..a + 16])
  }

  /** The header of b stands in memory at its start. */
  ghost predicate HasHeader(memory: seq<byte>, b: Block) {
    && b.End() <= |memory| && HEADER <= b.size < TWO64
    && SizeAt(memory, b.start) == b.size
    && memory[b.start] == if b.free then 1 else 0
  }

  /** Every block has its header in memory. */
  ghost predicate Headed(memory: seq<byte>, blocks: seq<Block>) {
    forall i :: 0 <= i < |blocks| ==> HasHeader(memory, blocks[i])
  }

  // ---------------------------------------------------------------- tiling

  /** The blocks fill the heap from base to last, in order and without gaps. */
  ghost predicate Tiled(blocks: seq<Block>, base: nat, last: nat) {
    if blocks == [] then base == last
    else
      var b := blocks[|blocks| - 1];
      b.size >= HEADER && b.End() == last && Tiled(blocks[..|blocks| - 1], base, b.start)
  }

  /** Blocks lie in address order between base and last, and never overlap. */
  lemma {:induction false} TilesDisjoint(blocks: seq<Block>, base: nat, last: nat)
    requires Tiled(blocks, base, last)
    ensures base <= last
    ensures forall i :: 0 <= i < |blocks| ==> base <= blocks[i].start && blocks[i].size >= HEADER && blocks[i].End() <= last
    ensures forall i, j :: 0 <= i < j < |blocks| ==> blocks[i].End() <= blocks[j].start
  {
    if blocks != [] {
      TilesDisjoint(blocks[..|blocks| - 1], base, blocks[|blocks| - 1].start);
    }
  }

  /** Following the sizes in memory from cur visits these addresses and stops at stop. */
  ghost function Walk(memory: seq<byte>, cur: nat, stop: nat): Option<seq<nat>>
    decreases if stop >= cur then stop - cur else 0
  {
    if cur == stop then Some([])
    else if cur > stop || cur + HEADER > |memory| || SizeAt(memory, cur) < HEADER then None
    else match Walk(memory, cur + SizeAt(memory, cur), stop)
      case None => None
      case Some(rest) => Some([cur] + rest)
  }

  ghost function Starts(blocks: seq<Block>): seq<nat> {
    seq(|blocks|, i requires 0 <= i < |blocks| => blocks[i].start)
  }

  /** A walk can be cut at any block. */
  lemma {:induction false} WalkJoin(memory: seq<byte>, cur: nat, middle: nat, stop: nat)
    requires Walk(memory, cur, middle).Some? && middle <= stop
    ensures Walk(memory, cur, stop)
            == match Walk(memory, middle, stop)
               case None => None
               case Some(rest) => Some(Walk(memory, cur, middle).value + rest)
    decreases middle - cur
  {
    hide Walk, SizeAt;
    WalkForward(memory, cur, middle);
    if cur == middle {
      WalkNowhere(memory, cur);
      if Walk(memory, middle, stop).Some? {
        assert [] + Walk(memory, middle, stop).value == Walk(memory, middle, stop).value;
      }
    } else {
      WalkStep(memory, cur, middle);
      WalkStep(memory, cur, stop);
      var next := cur + SizeAt(memory, cur);
      WalkJoin(memory, next, middle, stop);
      if Walk(memory, middle, stop).Some? {
        var rest := Walk(memory, middle, stop).value;
        assert [cur] + Walk(memory, next, middle).value + rest == [cur] + (Walk(memory, next, middle).value + rest);
      }
    }
  }

  lemma WalkNowhere(memory: seq<byte>, cur: nat)
    ensures Walk(memory, cur, cur) == Some([])
  {
  }

  /** The first step of a walk. */
  lemma WalkStep(memory: seq<byte>, cur: nat, stop: nat)
    requires cur < stop
    ensures Walk(memory, cur, stop)
            == if cur + HEADER > |memory| || SizeAt(memory, cur) < HEADER then None
               else match Walk(memory, cur + SizeAt(memory, cur), stop)
                 case None => None
                 case Some(rest) => Some([cur] + rest)
  {
  }

  lemma WalkForward(memory: seq<byte>, cur: nat, stop: nat)
    requires Walk(memory, cur, stop).Some?
    ensures cur <= stop
  {
  }

  /** The headers in memory lead through every block exactly once, to the end of the heap. */
  lemma {:induction false} WalkVisitsAll(memory: seq<byte>, blocks: seq<Block>, base: nat, last: nat)
    requires Tiled(blocks, base, last)
    requires Headed(memory, blocks)
    ensures Walk(memory, base, last) == Some(Starts(blocks))
  {
    if blocks != [] {
      var n := |blocks| - 1;
      var b := blocks[n];
      WalkVisitsAll(memory, blocks[..n], base, b.start);
      assert HasHeader(memory, blocks[n]);
      assert Walk(memory, b.start + SizeAt(memory, b.start), last) == Some([]);
      assert [b.start] + [] == [b.start];
      assert Walk(memory, b.start, last) == Some([b.start]);
      WalkJoin(memory, base, b.start, last);
      assert Starts(blocks) == Starts(blocks[..n]) + [b.start];
    }
  }

  // ------------------------------------------------------- what calls do

  /** What is known of the heap: its blocks, and where the next one will be. */
  datatype Heap = Heap(blocks: seq<Block>, last: nat)

  /** The calls of the allocator, and a client's write of one byte of a payload. */
  datatype Op = Malloc(size: nat) | Free(ptr: nat) | Realloc(ptr: nat, size: nat)
              | Store(ptr: nat, offset: nat, value: byte)

  /** The index of the block whose payload is at ptr, or |blocks|. */
  function BlockOf(blocks: seq<Block>, ptr: nat): (i: nat)
    ensures i <= |blocks|
    ensures i < |blocks| ==> blocks[i].Payload() == ptr
    ensures forall k :: 0 <= k < i ==> blocks[k].Payload() != ptr
  {
    if blocks == [] || blocks[0].Payload() == ptr then 0 else 1 + BlockOf(blocks[1..], ptr)
  }

  function Allocated(h: Heap, size: nat): Heap {
    Heap(h.blocks + [Block(h.last, size + HEADER, false)], h.last + size + HEADER)
  }

  function Freed(h: Heap, ptr: nat): Heap {
    var i := BlockOf(h.blocks, ptr);
    if ptr == 0 || i == |h.blocks| then h else h.(blocks := h.blocks[i := h.blocks[i].(free := true)])
  }

  /** The heap after a call, and the pointer the call returns (0 is NULL). */
  function Call(h: Heap, op: Op): (Heap, nat) {
    match op
    case Malloc(size) => (Allocated(h, size), h.last + HEADER)
    case Free(ptr) => (Freed(h, ptr), 0)
    case Realloc(ptr, size) =>
      if ptr == 0 then (Allocated(h, size), h.last + HEADER)
      else if size == 0 then (Freed(h, ptr), 0)
      else (Freed(Allocated(h, size), ptr), h.last + HEADER)
    case Store(_, _, _) => (h, 0)
  }

  /** Where the copy of realloc ends: it takes the old payload and HEADER bytes more. */
  function CopyEnd(h: Heap, ptr: nat): nat
    requires BlockOf(h.blocks, ptr) < |h.blocks|
  {
    h.last + HEADER + h.blocks[BlockOf(h.blocks, ptr)].size
  }

  /** The operation uses only pointers to blocks, and memory goes on far enough behind the heap. */
  predicate Legal(h: Heap, op: Op, capacity: nat) {
    match op
    case Malloc(size) => h.last + size + HEADER <= capacity
    case Free(ptr) => ptr != 0 ==> BlockOf(h.blocks, ptr) < |h.blocks|
    case Realloc(ptr, size) =>
      && (ptr != 0 ==> BlockOf(h.blocks, ptr) < |h.blocks|)
      && (ptr == 0 || size != 0 ==> h.last + size + HEADER <= capacity)
      && (ptr != 0 && size != 0 ==> CopyEnd(h, ptr) <= capacity)
    case Store(ptr, offset, _) =>
      BlockOf(h.blocks, ptr) < |h.blocks| && HEADER + offset < h.blocks[BlockOf(h.blocks, ptr)].size
  }

  predicate AllLegal(h: Heap, ops: seq<Op>, capacity: nat)
    decreases |ops|
  {
    ops != [] ==> Legal(h, ops[0], capacity) && AllLegal(Call(h, ops[0]).0, ops[1..], capacity)
  }

  function Calls(h: Heap, ops: seq<Op>): Heap
    decreases |ops|
  {
    if ops == [] then h else Calls(Call(h, ops[0]).0, ops[1..])
  }

  /** The pointers that the calls return, in order. */
  function Results(h: Heap, ops: seq<Op>): seq<nat>
    decreases |ops|
  {
    if ops == [] then [] else [Call(h, ops[0]).1] + Results(Call(h, ops[0]).0, ops[1..])
  }

  lemma TiledSnoc(blocks: seq<Block>, base: nat, last: nat, b: Block)
    requires Tiled(blocks, base, last) && b.start == last && b.size >= HEADER
    ensures Tiled(blocks + [b], base, b.End())
  {
    assert (blocks + [b])[..|blocks|] == blocks;
  }

  lemma {:induction false} TiledFlag(blocks: seq<Block>, base: nat, last: nat, i: nat, free: bool)
    requires Tiled(blocks, base, last) && i < |blocks|
    ensures Tiled(blocks[i := blocks[i].(free := free)], base, last)
  {
    var n := |blocks| - 1;
    var changed := blocks[i := blocks[i].(free := free)];
    if i < n {
      TiledFlag(blocks[..n], base, blocks[n].start, i, free);
      assert changed[..n] == blocks[..n][i := blocks[i].(free := free)];
    } else {
      assert changed[..n] == blocks[..n];
    }
  }

  lemma AllocatedTiled(h: Heap, size: nat, base: nat)
    requires Tiled(h.blocks, base, h.last)
    ensures Tiled(Allocated(h, size).blocks, base, Allocated(h, size).last)
  {
    TiledSnoc(h.blocks, base, h.last, Block(h.last, size + HEADER, false));
  }

  lemma FreedTiled(h: Heap, ptr: nat, base: nat)
    requires Tiled(h.blocks, base, h.last)
    ensures Tiled(Freed(h, ptr).blocks, base, Freed(h, ptr).last)
  {
    var i := BlockOf(h.blocks, ptr);
    if i < |h.blocks| {
      TiledFlag(h.blocks, base, h.last, i, true);
    }
  }

  lemma CallKeepsTiling(h: Heap, op: Op, base: nat)
    requires Tiled(h.blocks, base, h.last)
    ensures var h' := Call(h, op).0; Tiled(h'.blocks, base, h'.last)
  {
    hide Tiled, Allocated, Freed;
    match op
    case Malloc(size) => AllocatedTiled(h, size, base);
    case Free(ptr) => FreedTiled(h, ptr, base);
    case Realloc(ptr, size) =>
      AllocatedTiled(h, size, base);
      FreedTiled(Allocated(h, size), ptr, base);
      FreedTiled(h, ptr, base);
    case Store(_, _, _) =>
  }

  /** The heap stays tiled over every run of calls. */
  lemma {:induction false} CallsKeepTiling(h: Heap, ops: seq<Op>, base: nat)
    requires Tiled(h.blocks, base, h.last)
    ensures Tiled(Calls(h, ops).blocks, base, Calls(h, ops).last)
    decreases |ops|
  {
    if ops != [] {
      CallKeepsTiling(h, ops[0], base);
      CallsKeepTiling(Call(h, ops[0]).0, ops[1..], base);
    }
  }

  lemma CallGrows(h: Heap, op: Op)
    ensures var (h', r) := Call(h, op); h.last <= h'.last && (r == 0 || h.last < r <= h'.last)
  {
  }

  /** Non-null results grow from call to call, so no address is returned twice. */
  lemma {:induction false} ResultsIncrease(h: Heap, ops: seq<Op>)
    ensures var r := Results(h, ops);
            && |r| == |ops|
            && (forall i :: 0 <= i < |r| ==> r[i] == 0 || r[i] > h.last)
            && (forall i, j :: 0 <= i < j < |r| && r[i] != 0 && r[j] != 0 ==> r[i] < r[j])
    decreases |ops|
  {
    hide Freed, Allocated;
    if ops != [] {
      CallGrows(h, ops[0]);
      ResultsIncrease(Call(h, ops[0]).0, ops[1..]);
    }
  }

  /** The call frees the block whose payload is at ptr, by itself or by moving it. */
  predicate Frees(op: Op, ptr: nat) {
    (op.Free? && op.ptr == ptr) || (op.Realloc? && op.ptr == ptr)
  }

  predicate FreedBy(ops: seq<Op>, ptr: nat) {
    exists j :: 0 <= j < |ops| && Frees(ops[j], ptr)
  }

  /** In a tiled heap a payload belongs to one block. */
  lemma BlockIs(blocks: seq<Block>, base: nat, last: nat, i: nat)
    requires Tiled(blocks, base, last) && i < |blocks|
    ensures BlockOf(blocks, blocks[i].Payload()) == i
  {
    TilesDisjoint(blocks, base, last);
  }

  lemma FreedFlag(h: Heap, ptr: nat, base: nat, i: nat)
    requires Tiled(h.blocks, base, h.last) && i < |h.blocks|
    ensures |Freed(h, ptr).blocks| == |h.blocks| && Freed(h, ptr).blocks[i].start == h.blocks[i].start
    ensures Freed(h, ptr).blocks[i].free <==> h.blocks[i].free || h.blocks[i].Payload() == ptr
  {
    BlockIs(h.blocks, base, h.last, i);
  }

  /** A call sets the flag of the block it frees, and of no other. */
  lemma CallFrees(h: Heap, op: Op, base: nat, i: nat)
    requires Tiled(h.blocks, base, h.last) && i < |Call(h, op).0.blocks|
    ensures var b := Call(h, op).0.blocks[i];
            b.free <==> (i < |h.blocks| && h.blocks[i].free) || Frees(op, b.Payload())
  {
    hide Tiled, BlockOf, Freed;
    match op
    case Malloc(_) =>
    case Store(_, _, _) =>
    case Free(ptr) =>
      FreedLength(h, ptr);
      FreedFlag(h, ptr, base, i);
    case Realloc(ptr, size) =>
      AllocatedTiled(h, size, base);
      FreedLength(h, ptr);
      FreedLength(Allocated(h, size), ptr);
      if ptr != 0 {
        if size == 0 {
          FreedFlag(h, ptr, base, i);
        } else {
          FreedFlag(Allocated(h, size), ptr, base, i);
        }
      }
  }

  lemma FreedLength(h: Heap, ptr: nat)
    ensures |Freed(h, ptr).blocks| == |h.blocks|
  {
  }

  /** A call does not free a block that is made later. */
  lemma LaterBlock(h: Heap, op: Op, capacity: nat, later: Heap, base: nat, i: nat)
    requires Tiled(later.blocks, base, later.last) && SamePlaces(h, later) && Legal(h, op, capacity)
    requires |h.blocks| <= i < |later.blocks|
    ensures !Frees(op, later.blocks[i].Payload())
  {
    TilesDisjoint(later.blocks, base, later.last);
    hide Tiled;
    forall j | 0 <= j < |h.blocks|
      ensures h.blocks[j].Payload() < later.blocks[i].Payload()
    {
      assert later.blocks[j].End() <= later.blocks[i].start;
    }
  }

  /** Over every run a block is free exactly if it was so before or some call has freed or moved it. */
  lemma {:induction false} FreedExactly(h: Heap, ops: seq<Op>, capacity: nat, base: nat, i: nat)
    requires Tiled(h.blocks, base, h.last) && AllLegal(h, ops, capacity) && i < |Calls(h, ops).blocks|
    ensures var b := Calls(h, ops).blocks[i];
            b.free <==> (i < |h.blocks| && h.blocks[i].free) || FreedBy(ops, b.Payload())
    decreases |ops|
  {
    hide Tiled, Legal, Frees, Call;
    if ops != [] {
      var h' := Call(h, ops[0]).0;
      CallKeepsTiling(h, ops[0], base);
      CallKeepsPlaces(h, ops[0]);
      CallsKeepPlaces(h', ops[1..]);
      FreedExactly(h', ops[1..], capacity, base, i);
      var b := Calls(h, ops).blocks[i];
      if i < |h'.blocks| {
        CallFrees(h, ops[0], base, i);
      } else {
        CallsKeepTiling(h, ops, base);
        CallsKeepPlaces(h, ops);
        LaterBlock(h, ops[0], capacity, Calls(h, ops), base, i);
      }
      FreedFirst(ops, b.Payload());
    }
  }

  lemma FreedFirst(ops: seq<Op>, ptr: nat)
    requires ops != []
    ensures FreedBy(ops, ptr) <==> Frees(ops[0], ptr) || FreedBy(ops[1..], ptr)
  {
    if j :| 0 <= j < |ops| && Frees(ops[j], ptr) {
      assert j == 0 || Frees(ops[1..][j - 1], ptr);
    }
    if j :| 0 <= j < |ops[1..]| && Frees(ops[1..][j], ptr) {
      assert Frees(ops[j + 1], ptr);
    }
  }

  /** The first n blocks have the same places in both heaps. */
  predicate SamePlaces(h: Heap, h': Heap) {
    |h.blocks| <= |h'.blocks|
    && forall i :: 0 <= i < |h.blocks| ==> h'.blocks[i].start == h.blocks[i].start && h'.blocks[i].size == h.blocks[i].size
  }

  /** No call moves, resizes or removes a block. */
  lemma CallKeepsPlaces(h: Heap, op: Op)
    ensures SamePlaces(h, Call(h, op).0)
  {
    hide BlockOf;
  }

  lemma {:induction false} CallsKeepPlaces(h: Heap, ops: seq<Op>)
    ensures SamePlaces(h, Calls(h, ops))
    decreases |ops|
  {
    hide Call;
    if ops != [] {
      CallKeepsPlaces(h, ops[0]);
      CallsKeepPlaces(Call(h, ops[0]).0, ops[1..]);
    }
  }

  /** The number of payload bytes a call that returns a block asks for. */
  function Requested(op: Op): nat {
    match op
    case Malloc(size) => size
    case Realloc(_, size) => size
    case _ => 0
  }

  /** There is a block with this payload, of this many bytes. */
  predicate IsPayload(h: Heap, ptr: nat, size: nat) {
    exists j :: 0 <= j < |h.blocks| && h.blocks[j].Payload() == ptr && h.blocks[j].size == HEADER + size
  }

  lemma CallReturnsPayload(h: Heap, op: Op)
    ensures var (h', r) := Call(h, op); r != 0 ==> IsPayload(h', r, Requested(op))
  {
    hide BlockOf;
    var (h', r) := Call(h, op);
    if r != 0 {
      assert h'.blocks[|h.blocks|].Payload() == r;
    }
  }

  lemma PayloadStays(h: Heap, h': Heap, ptr: nat, size: nat)
    requires SamePlaces(h, h') && IsPayload(h, ptr, size)
    ensures IsPayload(h', ptr, size)
  {
    var j :| 0 <= j < |h.blocks| && h.blocks[j].Payload() == ptr && h.blocks[j].size == HEADER + size;
    assert h'.blocks[j].Payload() == ptr;
  }

  /** Every non-null result is, to the end of the run, the payload of a block of the size asked for. */
  lemma {:induction false} ResultsArePayloads(h: Heap, ops: seq<Op>)
    ensures |Results(h, ops)| == |ops|
    ensures forall i :: 0 <= i < |ops| && Results(h, ops)[i] != 0 ==>
                          IsPayload(Calls(h, ops), Results(h, ops)[i], Requested(ops[i]))
    decreases |ops|
  {
    hide Call, IsPayload, SamePlaces;
    if ops != [] {
      var (h', r) := Call(h, ops[0]);
      ResultsArePayloads(h', ops[1..]);
      CallReturnsPayload(h, ops[0]);
      if r != 0 {
        CallsKeepPlaces(h', ops[1..]);
        PayloadStays(h', Calls(h', ops[1..]), r, Requested(ops[0]));
      }
    }
  }

  /** What the client last stored at address k, or v. */
  function LastStored(ops: seq<Op>, k: nat, v: byte): byte
    decreases |ops|
  {
    if ops == [] then v
    else LastStored(ops[1..], k, if ops[0].Store? && ops[0].ptr + ops[0].offset == k then ops[0].value else v)
  }

  /**
   The bytes the client has defined, by address: those it stored, and those
   that realloc carried over from defined ones.
   */
  function Known(h: Heap, op: Op, known: map<nat, byte>): map<nat, byte> {
    match op
    case Malloc(_) => known
    case Free(_) => known
    case Store(ptr, offset, value) => known[ptr + offset := value]
    case Realloc(ptr, size) =>
      if ptr == 0 || size == 0 || BlockOf(h.blocks, ptr) == |h.blocks| then known
      else known + CarriedOver(known, ptr, h.last + HEADER, Min(h.blocks[BlockOf(h.blocks, ptr)].size - HEADER, size))
  }

  /** The defined ones of the n bytes at src, at dst. */
  function CarriedOver(known: map<nat, byte>, src: nat, dst: nat, n: int): map<nat, byte> {
    map k: nat | dst <= k < dst + n && Origin(src, dst, k) in known :: known[Origin(src, dst, k)]
  }

  /** Where the byte at k comes from in a copy from src to dst. */
  function Origin(src: nat, dst: nat, k: nat): nat
    requires dst <= k
  {
    src + (k - dst)
  }

  function KnownAfter(h: Heap, ops: seq<Op>, known: map<nat, byte>): map<nat, byte>
    decreases |ops|
  {
    if ops == [] then known else KnownAfter(Call(h, ops[0]).0, ops[1..], Known(h, ops[0], known))
  }

  /** A byte that was defined stays so, also when its block is freed or moved. */
  lemma {:induction false} NothingForgotten(h: Heap, ops: seq<Op>, known: map<nat, byte>)
    ensures known.Keys <= KnownAfter(h, ops, known).Keys
    decreases |ops|
  {
    if ops != [] {
      NothingForgotten(Call(h, ops[0]).0, ops[1..], Known(h, ops[0], known));
    }
  }

  /** k is the address of a payload byte. */
  predicate InPayload(blocks: seq<Block>, k: nat) {
    exists i :: 0 <= i < |blocks| && blocks[i].Payload() <= k < blocks[i].End()
  }

  lemma PayloadByteStays(h: Heap, h': Heap, k: nat)
    requires SamePlaces(h, h') && InPayload(h.blocks, k)
    ensures InPayload(h'.blocks, k)
  {
    var i :| 0 <= i < |h.blocks| && h.blocks[i].Payload() <= k < h.blocks[i].End();
    assert h'.blocks[i].Payload() <= k < h'.blocks[i].End();
  }

  /** The copy stays inside the heap exactly when the block grows by a header's size at least. */
  lemma CopyStaysInside(h: Heap, ptr: nat, size: nat)
    requires BlockOf(h.blocks, ptr) < |h.blocks| && size != 0
    ensures var b := h.blocks[BlockOf(h.blocks, ptr)];
            var payload := b.size - HEADER;
            CopyEnd(h, ptr) <= Call(h, Realloc(ptr, size)).0.last <==> size >= payload + HEADER
  {
    assert h.blocks[BlockOf(h.blocks, ptr)].Payload() == ptr;
  }

  /**
   A realloc that goes wrong: the first block of a heap at 0x1000, of 32
   payload bytes, shrinks to 8. The copy ends 40 bytes behind the heap.
   */
  lemma ShrinkingRealloc()
    ensures var h := Call(Heap([], 0x1000), Malloc(32)).0;
            CopyEnd(h, 0x1010) == Call(h, Realloc(0x1010, 8)).0.last + 40
  {
    var h := Call(Heap([], 0x1000), Malloc(32)).0;
    assert h.blocks == [Block(0x1000, 48, false)];
    assert BlockOf(h.blocks, 0x1010) == 0;
  }
}
