/** The bump allocator of src/core/growheap.cpp: blocks cut off the last of a growing list of chunks. */
module GrowHeap {
  import opened Bytes
  import opened Modular
  import opened Wrappers

  const BYTE_ALIGN: nat := 8
  /** size_t arithmetic is modulo this. */
  const SIZE_LIMIT: nat := 0x1_0000_0000_0000_0000

  /** The size request rounded up: adding 7 and clearing the low three bits */
  function AlignSizeRequest(size: nat): nat {
    var n := if size == 0 then 1 else size;
    var sum := (n + BYTE_ALIGN - 1) % SIZE_LIMIT;
    sum - sum % BYTE_ALIGN
  }

  /** The formula for machines that are not two's complement */
  function AlignByDivision(size: nat): nat {
    var n := if size == 0 then 1 else size;
    (n / BYTE_ALIGN + if n % BYTE_ALIGN != 0 then 1 else 0) * BYTE_ALIGN % SIZE_LIMIT
  }

  /** For eight bytes q + 1 to each word of eight, r over */
  lemma RoundUp(q: nat, r: nat)
    requires r < 8 && 8 * q + r + 7 < SIZE_LIMIT
    ensures var sum := (8 * q + r + 7) % SIZE_LIMIT; sum - sum % 8 == (if r == 0 then q else q + 1) * 8
  {
    if r == 0 { Quotient(8 * q + 7, 8, q, 7); } else { Quotient(8 * q + r + 7, 8, q + 1, r - 1); }
  }

  lemma WrapAround(n: nat)
    requires SIZE_LIMIT - 8 < n < SIZE_LIMIT
    ensures var sum := (n + 7) % SIZE_LIMIT; sum - sum % 8 == 0 && n / 8 + 1 == SIZE_LIMIT / 8 && n % 8 != 0
  {
    Quotient(n + 7, SIZE_LIMIT, 1, n + 7 - SIZE_LIMIT);
    Quotient(n + 7 - SIZE_LIMIT, 8, 0, n + 7 - SIZE_LIMIT);
    Quotient(n, 8, SIZE_LIMIT / 8 - 1, n - (SIZE_LIMIT - 8));
  }

  lemma AlignmentsAgree(size: nat)
    requires size < SIZE_LIMIT
    ensures AlignSizeRequest(size) == AlignByDivision(size)
  {
    var n := if size == 0 then 1 else size;
    if n + 7 < SIZE_LIMIT { RoundUp(n / 8, n % 8); } else { WrapAround(n); }
  }

  /** The least multiple of 8 that holds the request, exactly when adding 7 to it does not wrap around. */
  lemma AlignedEnough(size: nat)
    requires size < SIZE_LIMIT
    ensures AlignSizeRequest(size) % 8 == 0
    ensures size <= 0xffff_ffff_ffff_fff8 ==>
              size <= AlignSizeRequest(size) < size + 8 + (if size == 0 then 1 else 0)
    ensures 0 < AlignSizeRequest(size) <==> size <= 0xffff_ffff_ffff_fff8
    ensures size <= AlignSizeRequest(size) <==> size <= 0xffff_ffff_ffff_fff8
  {
    var n := if size == 0 then 1 else size;
    var sum := (n + 7) % SIZE_LIMIT;
    assert sum == 8 * (sum / 8) + sum % 8;
  }

  lemma AlignTwice(size: nat)
    requires size < SIZE_LIMIT && AlignSizeRequest(size) > 0
    ensures AlignSizeRequest(AlignSizeRequest(size)) == AlignSizeRequest(size)
  {
    AlignedEnough(size);
    var a := AlignSizeRequest(size);
    assert a == 8 * (a / 8);
    assert a + 7 < SIZE_LIMIT;
    assert (a + 7) % 8 == 7;
  }

  lemma AlignNothing()
    ensures AlignSizeRequest(0) == BYTE_ALIGN
  {
    Quotient(8, 8, 1, 0);
  }

  /** Rounding the request up does not wrap around. */
  predicate Rounds(request: nat) { request <= SIZE_LIMIT - BYTE_ALIGN }

  /** A chunk: its size and its memory */
  datatype Heap = Heap(mSize: nat, mpData: array<byte>)

  datatype Pointer = Pointer(mpData: array<byte>, offset: nat)

  /** A block that was handed out: which chunk, where in it, how many bytes */
  datatype Block = Block(chunk: nat, offset: nat, size: nat)

  ghost predicate Apart(b: Block, c: Block) {
    b.chunk != c.chunk || b.offset + b.size <= c.offset || c.offset + c.size <= b.offset
  }

  ghost predicate Inside(b: Block, heaps: seq<Heap>, curOff: nat) {
    && b.chunk < |heaps| && b.offset % BYTE_ALIGN == 0
    && b.offset + b.size <= if b.chunk == |heaps| - 1 then curOff else heaps[b.chunk].mSize
  }

  /** Every chunk has memory of its own; the blocks lie in the used parts and do not overlap. */
  ghost predicate Laid(heaps: seq<Heap>, curOff: nat, blocks: seq<Block>) {
    && (forall i, j :: 0 <= i < j < |heaps| ==> heaps[i].mpData != heaps[j].mpData)
    && (forall i :: 0 <= i < |heaps| ==> heaps[i].mpData.Length == heaps[i].mSize)
    && (heaps != [] ==> curOff % BYTE_ALIGN == 0 && curOff <= heaps[|heaps| - 1].mSize)
    && (forall i :: 0 <= i < |blocks| ==> Inside(blocks[i], heaps, curOff))
    && (forall i, j :: 0 <= i < j < |blocks| ==> Apart(blocks[i], blocks[j]))
  }

  function Total(heaps: seq<Heap>): nat {
    if heaps == [] then 0 else Total(heaps[..|heaps| - 1]) + heaps[|heaps| - 1].mSize
  }

  function Sizes(blocks: seq<Block>): nat {
    if blocks == [] then 0 else Sizes(blocks[..|blocks| - 1]) + blocks[|blocks| - 1].size
  }

  /** The chunks that are closed, and the used part of the last one */
  function Used(heaps: seq<Heap>, curOff: nat): nat {
    if heaps == [] then 0 else Total(heaps[..|heaps| - 1]) + curOff
  }

  /** The bytes of chunk j that blocks got */
  function SizesIn(blocks: seq<Block>, j: nat): nat {
    if blocks == [] then 0
    else SizesIn(blocks[..|blocks| - 1], j) + if blocks[|blocks| - 1].chunk == j then blocks[|blocks| - 1].size else 0
  }

  /** The bytes of the first n chunks that no block got */
  function LeftOver(heaps: seq<Heap>, blocks: seq<Block>, n: nat): int
    requires n <= |heaps|
  {
    if n == 0 then 0 else LeftOver(heaps, blocks, n - 1) + heaps[n - 1].mSize - SizesIn(blocks, n - 1)
  }

  /** The bytes of the closed chunks that no block got */
  function Waste(heaps: seq<Heap>, blocks: seq<Block>): int {
    if heaps == [] then 0 else LeftOver(heaps, blocks, |heaps| - 1)
  }

  /** No chunk gave away more than it has, and the last one as much as its offset says. */
  ghost predicate Packed(heaps: seq<Heap>, curOff: nat, blocks: seq<Block>) {
    && (forall i :: 0 <= i < |blocks| ==> blocks[i].chunk < |heaps|)
    && (forall j :: 0 <= j < |heaps| ==> SizesIn(blocks, j) <= heaps[j].mSize)
    && (heaps != [] ==> SizesIn(blocks, |heaps| - 1) == curOff)
  }

  lemma SizesInAppend(blocks: seq<Block>, b: Block, j: nat)
    ensures SizesIn(blocks + [b], j) == SizesIn(blocks, j) + if b.chunk == j then b.size else 0
  {
    assert (blocks + [b])[..|blocks|] == blocks;
  }

  lemma {:induction false} NoneIn(blocks: seq<Block>, j: nat)
    requires forall i :: 0 <= i < |blocks| ==> blocks[i].chunk != j
    ensures SizesIn(blocks, j) == 0
  {
    if blocks != [] { NoneIn(blocks[..|blocks| - 1], j); }
  }

  function SumOfSizesIn(blocks: seq<Block>, n: nat): nat {
    if n == 0 then 0 else SumOfSizesIn(blocks, n - 1) + SizesIn(blocks, n - 1)
  }

  lemma {:induction false} SumAppend(blocks: seq<Block>, b: Block, n: nat)
    ensures SumOfSizesIn(blocks + [b], n) == SumOfSizesIn(blocks, n) + if b.chunk < n then b.size else 0
  {
    if n > 0 {
      SumAppend(blocks, b, n - 1);
      SizesInAppend(blocks, b, n - 1);
    }
  }

  lemma {:induction false} NoBlocks(n: nat)
    ensures SumOfSizesIn([], n) == 0
  {
    if n > 0 { NoBlocks(n - 1); }
  }

  /** Every block is in one chunk. */
  lemma {:induction false} SizesByChunk(blocks: seq<Block>, n: nat)
    requires forall i :: 0 <= i < |blocks| ==> blocks[i].chunk < n
    ensures Sizes(blocks) == SumOfSizesIn(blocks, n)
  {
    if blocks == [] {
      NoBlocks(n);
    } else {
      var front, b := blocks[..|blocks| - 1], blocks[|blocks| - 1];
      SizesByChunk(front, n);
      SumAppend(front, b, n);
      assert blocks == front + [b];
    }
  }

  lemma {:induction false} TotalByChunk(heaps: seq<Heap>, blocks: seq<Block>, n: nat)
    requires n <= |heaps| && forall j :: 0 <= j < n ==> SizesIn(blocks, j) <= heaps[j].mSize
    ensures Total(heaps[..n]) == SumOfSizesIn(blocks, n) + LeftOver(heaps, blocks, n) && LeftOver(heaps, blocks, n) >= 0
  {
    if n > 0 {
      TotalByChunk(heaps, blocks, n - 1);
      assert heaps[..n][..n - 1] == heaps[..n - 1];
    }
  }

  /** What is in use is what the blocks got and what no block got of the closed chunks. */
  lemma Accounted(heaps: seq<Heap>, curOff: nat, blocks: seq<Block>)
    requires Packed(heaps, curOff, blocks)
    ensures Used(heaps, curOff) == Sizes(blocks) + Waste(heaps, blocks) && Waste(heaps, blocks) >= 0
  {
    SizesByChunk(blocks, |heaps|);
    if heaps != [] { TotalByChunk(heaps, blocks, |heaps| - 1); }
  }

  lemma PackedChunk(heaps: seq<Heap>, curOff: nat, blocks: seq<Block>, h: Heap)
    requires Packed(heaps, curOff, blocks)
    ensures Packed(heaps + [h], 0, blocks)
  {
    NoneIn(blocks, |heaps|);
  }

  lemma PackedBlock(heaps: seq<Heap>, curOff: nat, blocks: seq<Block>, size: nat)
    requires Packed(heaps, curOff, blocks) && heaps != [] && curOff + size <= heaps[|heaps| - 1].mSize
    ensures Packed(heaps, curOff + size, blocks + [Block(|heaps| - 1, curOff, size)])
  {
    hide SizesIn;
    var b := Block(|heaps| - 1, curOff, size);
    forall j | 0 <= j < |heaps| ensures SizesIn(blocks + [b], j) <= heaps[j].mSize { SizesInAppend(blocks, b, j); }
    SizesInAppend(blocks, b, |heaps| - 1);
  }

  lemma LaidChunk(heaps: seq<Heap>, curOff: nat, blocks: seq<Block>, h: Heap)
    requires Laid(heaps, curOff, blocks) && h.mpData.Length == h.mSize
    requires forall i :: 0 <= i < |heaps| ==> heaps[i].mpData != h.mpData
    ensures Laid(heaps + [h], 0, blocks)
  {
    forall i | 0 <= i < |blocks| ensures Inside(blocks[i], heaps + [h], 0) {
      assert Inside(blocks[i], heaps, curOff);
    }
  }

  lemma LaidBlock(heaps: seq<Heap>, curOff: nat, blocks: seq<Block>, size: nat)
    requires Laid(heaps, curOff, blocks) && heaps != [] && size % BYTE_ALIGN == 0
    requires curOff + size <= heaps[|heaps| - 1].mSize
    ensures Laid(heaps, curOff + size, blocks + [Block(|heaps| - 1, curOff, size)])
  {
    var b := Block(|heaps| - 1, curOff, size);
    forall i | 0 <= i < |blocks| ensures Inside(blocks[i], heaps, curOff + size) && Apart(blocks[i], b) {
      assert Inside(blocks[i], heaps, curOff);
    }
  }

  /** Where a block starts */
  function At(heaps: seq<Heap>, b: Block): Pointer
    requires b.chunk < |heaps|
  {
    Pointer(heaps[b.chunk].mpData, b.offset)
  }

  class GrowHeap {
    const mInitialSize: nat
    const mGrowBy: nat
    var mHeaps: seq<Heap>
    var mCurOff: nat
    ghost var blocks: seq<Block>

    ghost predicate Valid()
      reads this
    {
      && mInitialSize % BYTE_ALIGN == 0 && mGrowBy % BYTE_ALIGN == 0 && mInitialSize + mGrowBy < SIZE_LIMIT
      && Laid(mHeaps, mCurOff, blocks) && Packed(mHeaps, mCurOff, blocks)
    }

    constructor (initialSize: nat, growBy: nat)
      requires initialSize % BYTE_ALIGN == 0 && growBy % BYTE_ALIGN == 0 && initialSize + growBy < SIZE_LIMIT
      ensures Valid() && blocks == [] && mHeaps == [] && mInitialSize == initialSize && mGrowBy == growBy
    {
      mInitialSize, mGrowBy := initialSize, growBy;
      mHeaps, mCurOff, blocks := [], 0, [];
    }

    predicate Fits(size: nat)
      reads this
    {
      mHeaps != [] && mCurOff + size < mHeaps[|mHeaps| - 1].mSize
    }

    /** A request that is not smaller than a chunk fails; any other gets the next block, in a new chunk when the last
        one has no more than just the room.  A request whose rounding wraps around, which the source asserts does not
        happen, gets a block of no bytes or of eight. */
    method Malloc(request: nat) returns (p: Option<Pointer>)
      requires Valid() && request < SIZE_LIMIT
      modifies this`mHeaps, this`mCurOff, this`blocks
      ensures Valid() && (Rounds(request) ==> p.Some? == (AlignSizeRequest(request) < mGrowBy))
      ensures p.None? ==> blocks == old(blocks)
      ensures p.None? && Rounds(request) ==> mHeaps == old(mHeaps) && mCurOff == old(mCurOff)
      ensures p.Some? ==>
                && |blocks| == |old(blocks)| + 1 && blocks[..|old(blocks)|] == old(blocks)
                && blocks[|old(blocks)|].chunk < |mHeaps| && p.value == At(mHeaps, blocks[|old(blocks)|])
                && (request <= blocks[|old(blocks)|].size <==> Rounds(request))
                && if Rounds(request) then blocks[|old(blocks)|].size == AlignSizeRequest(request)
                   else blocks[|old(blocks)|].size in {0, BYTE_ALIGN}
      ensures old(mHeaps) <= mHeaps && forall i :: |old(mHeaps)| <= i < |mHeaps| ==> fresh(mHeaps[i].mpData)
      ensures var size := AlignSizeRequest(request);
              size < mGrowBy ==>
                if old(mHeaps) != [] && old(mCurOff) + size < old(mHeaps[|mHeaps| - 1].mSize) then
                  && p.Some? && blocks[|old(blocks)|] == Block(|mHeaps| - 1, old(mCurOff), size)
                  && mHeaps == old(mHeaps) && mCurOff == old(mCurOff) + size
                else |mHeaps| > |old(mHeaps)|
      ensures p.Some? && |mHeaps| > |old(mHeaps)| ==>
                && blocks[|old(blocks)|].chunk == |mHeaps| - 1 && blocks[|old(blocks)|].offset == 0
                && mCurOff == blocks[|old(blocks)|].size
      ensures forall i :: |old(mHeaps)| <= i < |mHeaps| ==>
                            mHeaps[i].mSize == if i == 0 then mInitialSize else mGrowBy
      decreases if AlignSizeRequest(request) < mGrowBy && !Fits(AlignSizeRequest(request)) then 1 else 0
    {
      hide AlignSizeRequest, Laid, Packed, At;
      AlignedEnough(request);
      var size := AlignSizeRequest(request);
      if size >= mGrowBy { return None; }
      if |mHeaps| == 0 { AddChunk(mInitialSize); }
      if mCurOff + size < mHeaps[|mHeaps| - 1].mSize {
        var ret := Cut(size);
        p := Some(ret);
      } else {
        AddChunk(mGrowBy);
        if size > 0 { AlignTwice(request); } else { AlignNothing(); }
        p := Malloc(size);
      }
    }

    /** The next block of the last chunk */
    method Cut(size: nat) returns (ret: Pointer)
      requires Valid() && Fits(size) && size % BYTE_ALIGN == 0
      modifies this`mCurOff, this`blocks
      ensures mCurOff == old(mCurOff) + size
      ensures Valid() && blocks == old(blocks) + [Block(|mHeaps| - 1, old(mCurOff), size)]
      ensures ret == At(mHeaps, Block(|mHeaps| - 1, old(mCurOff), size))
    {
      hide Laid, Packed;
      ret := Pointer(mHeaps[|mHeaps| - 1].mpData, mCurOff);
      LaidBlock(mHeaps, mCurOff, blocks, size);
      PackedBlock(mHeaps, mCurOff, blocks, size);
      blocks := blocks + [Block(|mHeaps| - 1, mCurOff, size)];
      mCurOff := mCurOff + size;
    }

    method AddChunk(size: nat)
      requires Valid() && (size == mInitialSize || size == mGrowBy)
      modifies this`mHeaps, this`mCurOff
      ensures Valid() && mCurOff == 0 && unchanged(`blocks) && |mHeaps| == |old(mHeaps)| + 1 && old(mHeaps) <= mHeaps
      ensures mHeaps[|mHeaps| - 1].mSize == size && fresh(mHeaps[|mHeaps| - 1].mpData)
    {
      var memory := new byte[size];
      LaidChunk(mHeaps, mCurOff, blocks, Heap(size, memory));
      PackedChunk(mHeaps, mCurOff, blocks, Heap(size, memory));
      mHeaps := mHeaps + [Heap(size, memory)];
      mCurOff := 0;
    }

    method Clear()
      requires Valid()
      modifies this`mHeaps, this`blocks
      ensures Valid() && mHeaps == [] && blocks == []
    {
      mHeaps, blocks := [], [];
    }

    /** All the chunks but what is unused of the last: the blocks, and what no block got of the chunks before it. */
    method TotalMemUsage() returns (usage: nat)
      requires Valid()
      ensures usage == Used(mHeaps, mCurOff) == Sizes(blocks) + Waste(mHeaps, blocks) && Waste(mHeaps, blocks) >= 0
    {
      usage := 0;
      for i := 0 to |mHeaps|
        invariant usage == Total(mHeaps[..i])
      {
        assert mHeaps[..i + 1][..i] == mHeaps[..i];
        usage := usage + mHeaps[i].mSize;
      }
      Accounted(mHeaps, mCurOff, blocks);
      assert mHeaps[..|mHeaps|] == mHeaps;
      if |mHeaps| != 0 { usage := usage - (mHeaps[|mHeaps| - 1].mSize - mCurOff); }
    }
  }

  ghost predicate InBounds(p: Pointer, size: nat) { p.offset % 8 == 0 && p.offset + size <= p.mpData.Length }

  ghost predicate Disjoint(p: Pointer, m: nat, q: Pointer, n: nat) {
    p.mpData != q.mpData || p.offset + m <= q.offset || q.offset + n <= p.offset
  }

  lemma BlocksApart(heaps: seq<Heap>, curOff: nat, blocks: seq<Block>, i: nat, j: nat)
    requires Laid(heaps, curOff, blocks) && i < j < |blocks|
    ensures blocks[i].chunk < |heaps| && blocks[j].chunk < |heaps|
    ensures Disjoint(At(heaps, blocks[i]), blocks[i].size, At(heaps, blocks[j]), blocks[j].size)
  {
    assert Inside(blocks[i], heaps, curOff) && Inside(blocks[j], heaps, curOff) && Apart(blocks[i], blocks[j]);
  }

  lemma BlockInBounds(heaps: seq<Heap>, curOff: nat, blocks: seq<Block>, i: nat)
    requires Laid(heaps, curOff, blocks) && i < |blocks|
    ensures blocks[i].chunk < |heaps| && InBounds(At(heaps, blocks[i]), blocks[i].size)
  {
    assert Inside(blocks[i], heaps, curOff);
  }

  /** Any requests since the last Clear: the blocks are aligned, inside their chunks and disjoint, and each holds its
      request exactly when the rounding of the request did not wrap around. */
  method MallocAll(heap: GrowHeap, requests: seq<nat>) returns (ps: seq<Option<Pointer>>, ghost sizes: seq<nat>)
    requires heap.Valid() && forall i :: 0 <= i < |requests| ==> requests[i] < SIZE_LIMIT
    modifies heap
    ensures heap.Valid() && |ps| == |sizes| == |requests|
    ensures forall i :: 0 <= i < |ps| && Rounds(requests[i]) ==>
                          ps[i].Some? == (AlignSizeRequest(requests[i]) < heap.mGrowBy)
    ensures forall i :: 0 <= i < |ps| && ps[i].Some? ==>
                          InBounds(ps[i].value, sizes[i]) && (requests[i] <= sizes[i] <==> Rounds(requests[i]))
    ensures forall i, j :: 0 <= i < j < |ps| && ps[i].Some? && ps[j].Some? ==>
                             Disjoint(ps[i].value, sizes[i], ps[j].value, sizes[j])
  {
    hide AlignSizeRequest, Laid, Packed;
    ps, sizes := [], [];
    ghost var which: seq<nat> := [];
    for i := 0 to |requests|
      invariant heap.Valid() && |ps| == |which| == |sizes| == i
      invariant forall j :: 0 <= j < i && Rounds(requests[j]) ==>
                              ps[j].Some? == (AlignSizeRequest(requests[j]) < heap.mGrowBy)
      invariant forall j :: 0 <= j < i && ps[j].Some? ==>
                              Served(heap.mHeaps, heap.blocks, which[j], ps[j].value, sizes[j]) &&
                              (requests[j] <= sizes[j] <==> Rounds(requests[j]))
      invariant forall j, k :: 0 <= j < k < i && ps[j].Some? && ps[k].Some? ==> which[j] < which[k]
    {
      ghost var heaps, blocks := heap.mHeaps, heap.blocks;
      var p := heap.Malloc(requests[i]);
      forall j | 0 <= j < i && ps[j].Some? ensures Served(heap.mHeaps, heap.blocks, which[j], ps[j].value, sizes[j]) {
        assert Served(heaps, blocks, which[j], ps[j].value, sizes[j]);
      }
      ps := ps + [p];
      which := which + [|blocks|];
      sizes := sizes + [if p.Some? then heap.blocks[|blocks|].size else 0];
    }
    forall i | 0 <= i < |ps| && ps[i].Some? ensures InBounds(ps[i].value, sizes[i]) {
      BlockInBounds(heap.mHeaps, heap.mCurOff, heap.blocks, which[i]);
    }
    forall i, j | 0 <= i < j < |ps| && ps[i].Some? && ps[j].Some?
      ensures Disjoint(ps[i].value, sizes[i], ps[j].value, sizes[j])
    {
      BlocksApart(heap.mHeaps, heap.mCurOff, heap.blocks, which[i], which[j]);
    }
  }

  /** The pointer is the start of the k-th block, of the given size. */
  ghost predicate Served(heaps: seq<Heap>, blocks: seq<Block>, k: nat, p: Pointer, size: nat) {
    k < |blocks| && blocks[k].chunk < |heaps| && size == blocks[k].size && p == At(heaps, blocks[k])
  }
}
