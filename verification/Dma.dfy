/** The DMA pool of mm.h: an aligned bump allocator over one megabyte, with a table of the blocks handed out. */
module Dma {
  import opened Machine
  import opened CString

  const DMA_POOL_SIZE := 0x10_0000
  const MAX_DMA_ALLOCATIONS := 256

  // ---------------------------------------------------------------- alignment

  /** The expression `(alignment - (addr % alignment)) % alignment`. */
  function Padding(addr: nat, alignment: nat): nat {
    if alignment == 0 then 0 else (alignment - addr % alignment) % alignment
  }

  predicate Aligned(addr: nat, alignment: nat)
    requires alignment > 0
  {
    addr % alignment == 0
  }

  /** The padding reaches the next multiple of the alignment, and no less would. */
  lemma PaddingIsLeast(addr: nat, alignment: nat)
    requires alignment > 0
    ensures Aligned(addr + Padding(addr, alignment), alignment)
    ensures forall a :: addr <= a < addr + Padding(addr, alignment) ==> !Aligned(a, alignment)
  {
    var q, r := addr / alignment, addr % alignment;
    assert addr == q * alignment + r;
    PaddingValue(addr, alignment);
    hide Padding, Aligned;
    FromQuotient(q, r, alignment);
  }

  lemma PaddingValue(addr: nat, alignment: nat)
    requires alignment > 0
    ensures Padding(addr, alignment) == if addr % alignment == 0 then 0 else alignment - addr % alignment
  {
    var r := addr % alignment;
    if r == 0 {
      Remainder(1, 0, alignment);
    } else {
      Remainder(0, alignment - r, alignment);
    }
  }

  lemma FromQuotient(q: nat, r: nat, m: nat)
    requires r < m
    ensures Aligned(q * m + r + (if r == 0 then 0 else m - r), m)
    ensures forall a :: q * m + r <= a < q * m + r + (if r == 0 then 0 else m - r) ==> !Aligned(a, m)
  {
    if r == 0 {
      Remainder(q, 0, m);
    } else {
      assert q * m + r + (m - r) == (q + 1) * m + 0;
      Remainder(q + 1, 0, m);
      forall a | q * m + r <= a < q * m + m ensures !Aligned(a, m) {
        assert a == q * m + (a - q * m);
        Remainder(q, a - q * m, m);
      }
    }
  }

  lemma Remainder(q: nat, r: nat, m: nat)
    requires r < m
    ensures (q * m + r) % m == r
  {
    var x: int := q * m + r;
    assert x == (x / m) * m + x % m;
    assert (x / m - q) * m == r - x % m;
    SmallMultiple(x / m - q, m, r - x % m);
  }

  lemma SmallMultiple(k: int, m: int, d: int)
    requires k * m == d && -m < d < m
    ensures k == 0
  {
    assert k >= 1 ==> k * m >= m;
    assert k <= -1 ==> k * m <= -m;
  }

  // ---------------------------------------------------------------- the specification

  /** A block as it was requested and placed. */
  datatype Block = Block(addr: nat, size: nat, alignment: nat, used: bool)

  datatype Pool = Pool(base: nat, offset: nat, blocks: seq<Block>)

  datatype Op = Alloc(size: nat, alignment: nat) | Free(addr: nat)

  /** The bytes the request takes from the pool. */
  function Need(p: Pool, size: nat, alignment: nat): nat {
    Padding(p.base + p.offset, alignment) + size
  }

  function AllocStep(p: Pool, size: nat, alignment: nat): (Option<nat>, Pool) {
    if |p.blocks| >= MAX_DMA_ALLOCATIONS || p.offset + Need(p, size, alignment) > DMA_POOL_SIZE then (None, p)
    else
      var addr := p.base + p.offset + Padding(p.base + p.offset, alignment);
      (Some(addr), p.(offset := p.offset + Need(p, size, alignment),
                        blocks := p.blocks + [Block(addr, size, alignment, true)]))
  }

  /** The request could be placed there: behind what is in use, aligned if it asks for that, and inside the pool. */
  ghost predicate Place(p: Pool, size: nat, alignment: nat, a: nat) {
    p.base + p.offset <= a && a + size <= p.base + 0x10_0000 && (alignment > 0 ==> Aligned(a, alignment))
  }

  /**
   * A request is refused exactly if 256 blocks are handed out or there is no place for it, and then changes nothing;
   * one that is granted becomes the last block, in the first place there is, and the earlier blocks stay.
   */
  lemma GrantedIfItFits(p: Pool, size: nat, alignment: nat)
    ensures var (r, q) := AllocStep(p, size, alignment);
      && (r == None <==> |p.blocks| >= 256 || !exists a: nat :: Place(p, size, alignment, a))
      && (r == None ==> q == p)
      && (r.Some? ==>
            && Place(p, size, alignment, r.value) && (forall a: nat :: Place(p, size, alignment, a) ==> r.value <= a)
            && q.base == p.base && q.base + q.offset == r.value + size
            && q.blocks == p.blocks + [Block(r.value, size, alignment, true)])
  {
    var at := p.base + p.offset;
    var first := at + Padding(at, alignment);
    if alignment == 0 {
      NoPadding(at);
    } else {
      PaddingIsLeast(at, alignment);
    }
    hide Padding, Aligned;
    assert Place(p, size, alignment, first) <==> p.offset + Need(p, size, alignment) <= DMA_POOL_SIZE;
    forall a: nat | Place(p, size, alignment, a) ensures first <= a {
      assert alignment > 0 ==> Aligned(a, alignment);
    }
  }

  /** The index of the first block at `addr`; |blocks| if there is none. */
  function Find(blocks: seq<Block>, addr: nat): (i: nat)
    ensures i <= |blocks| && forall j :: 0 <= j < i ==> blocks[j].addr != addr
    ensures i < |blocks| ==> blocks[i].addr == addr
  {
    if blocks == [] || blocks[0].addr == addr then 0 else 1 + Find(blocks[1..], addr)
  }

  /** Freeing marks the first block at the address and gives no memory back. */
  function FreeStep(p: Pool, addr: nat): Pool {
    var i := Find(p.blocks, addr);
    if i == |p.blocks| then p else p.(blocks := p.blocks[i := p.blocks[i].(used := false)])
  }

  /** Only the first block at the address is marked; the pool's offset and all places stay. */
  lemma FreeMarks(p: Pool, addr: nat)
    ensures var q := FreeStep(p, addr);
      && q.base == p.base && q.offset == p.offset && |q.blocks| == |p.blocks|
      && forall i :: 0 <= i < |p.blocks| ==>
           && q.blocks[i].addr == p.blocks[i].addr && q.blocks[i].size == p.blocks[i].size
           && q.blocks[i].alignment == p.blocks[i].alignment
           && var first := p.blocks[i].addr == addr && forall j :: 0 <= j < i ==> p.blocks[j].addr != addr;
              q.blocks[i].used == (p.blocks[i].used && !first)
  {
    hide Find;
  }

  function Apply(p: Pool, op: Op): Pool {
    match op
    case Alloc(size, alignment) => AllocStep(p, size, alignment).1
    case Free(addr) => FreeStep(p, addr)
  }

  function RunAll(p: Pool, ops: seq<Op>): Pool
    decreases |ops|
  {
    if ops == [] then p else Apply(RunAll(p, ops[..|ops| - 1]), ops[|ops| - 1])
  }

  /** The end of the block before the `i`-th. */
  function Before(p: Pool, i: nat): nat
    requires i <= |p.blocks|
  {
    if i == 0 then p.base else p.blocks[i - 1].addr + p.blocks[i - 1].size
  }

  /** Every block starts at the first suitable address behind the block before it; the offset is the end of the last. */
  ghost predicate Packed(p: Pool) {
    && |p.blocks| <= MAX_DMA_ALLOCATIONS && p.offset <= DMA_POOL_SIZE
    && p.base + p.offset == Before(p, |p.blocks|)
    && forall i {:trigger Placed(p, i)} :: 0 <= i < |p.blocks| ==> Placed(p, i)
  }

  ghost predicate Placed(p: Pool, i: nat)
    requires i < |p.blocks|
  {
    p.blocks[i].addr == Before(p, i) + Padding(Before(p, i), p.blocks[i].alignment)
  }

  lemma EmptyPacked(base: nat)
    ensures Packed(Pool(base, 0, []))
  {
  }

  lemma AllocPacked(p: Pool, size: nat, alignment: nat)
    requires Packed(p)
    ensures Packed(AllocStep(p, size, alignment).1)
  {
    hide Padding;
    var q := AllocStep(p, size, alignment).1;
    forall i | 0 <= i < |q.blocks| ensures Placed(q, i) {
      assert i < |p.blocks| ==> Placed(p, i);
      assert Before(q, i) == Before(p, i);
    }
  }

  lemma FreePacked(p: Pool, addr: nat)
    requires Packed(p)
    ensures Packed(FreeStep(p, addr))
  {
    hide Padding, Find;
    var q := FreeStep(p, addr);
    forall i | 0 <= i < |q.blocks| ensures Placed(q, i) {
      assert Placed(p, i) && Before(q, i) == Before(p, i);
    }
  }

  lemma {:induction false} RunPacked(base: nat, ops: seq<Op>)
    ensures Packed(RunAll(Pool(base, 0, []), ops)) && RunAll(Pool(base, 0, []), ops).base == base
    decreases |ops|
  {
    if ops != [] {
      var p := RunAll(Pool(base, 0, []), ops[..|ops| - 1]);
      RunPacked(base, ops[..|ops| - 1]);
      match ops[|ops| - 1]
      case Alloc(size, alignment) => AllocPacked(p, size, alignment);
      case Free(addr) => FreePacked(p, addr);
    }
  }

  lemma {:induction false} BeforeGrows(p: Pool, i: nat, j: nat)
    requires Packed(p) && i <= j <= |p.blocks|
    ensures Before(p, i) <= Before(p, j)
    decreases j
  {
    hide Padding;
    if i < j {
      BeforeGrows(p, i, j - 1);
      assert Placed(p, j - 1);
    }
  }

  /**
   * After any allocations and frees every block lies in the pool, aligned as requested, at the least address behind the
   * block before it that is.
   */
  lemma RunPlacesBlock(base: nat, ops: seq<Op>, i: nat)
    requires i < |RunAll(Pool(base, 0, []), ops).blocks|
    ensures var p := RunAll(Pool(base, 0, []), ops);
      base <= p.blocks[i].addr && p.blocks[i].addr + p.blocks[i].size <= base + p.offset && AtLeastPlace(p, i)
  {
    hide RunAll, Packed, Padding, Aligned, AtLeastPlace;
    var p := RunAll(Pool(base, 0, []), ops);
    RunPacked(base, ops);
    BlockPlace(p, i);
    InPool(p, i);
  }

  /** The blocks are in order and disjoint. */
  lemma RunKeepsBlocksApart(base: nat, ops: seq<Op>, i: nat, j: nat)
    requires i < j < |RunAll(Pool(base, 0, []), ops).blocks|
    ensures var p := RunAll(Pool(base, 0, []), ops); p.blocks[i].addr + p.blocks[i].size <= p.blocks[j].addr
  {
    hide RunAll, Packed;
    RunPacked(base, ops);
    Apart(RunAll(Pool(base, 0, []), ops), i, j);
  }

  /** The offset is the end of the last block, or 0 if there is none, and inside the pool. */
  lemma RunOffset(base: nat, ops: seq<Op>)
    ensures var p := RunAll(Pool(base, 0, []), ops);
      && p.offset <= DMA_POOL_SIZE
      && base + p.offset ==
         if p.blocks == [] then base else p.blocks[|p.blocks| - 1].addr + p.blocks[|p.blocks| - 1].size
  {
    hide RunAll;
    RunPacked(base, ops);
  }

  /** The block starts at the first address behind the block before it that its alignment allows. */
  ghost predicate AtLeastPlace(p: Pool, i: nat)
    requires i < |p.blocks|
  {
    var b := p.blocks[i];
    && Before(p, i) <= b.addr
    && if b.alignment == 0 then b.addr == Before(p, i)
       else Aligned(b.addr, b.alignment) && forall a :: Before(p, i) <= a < b.addr ==> !Aligned(a, b.alignment)
  }

  lemma Apart(p: Pool, i: nat, j: nat)
    requires Packed(p) && i < j < |p.blocks|
    ensures p.blocks[i].addr + p.blocks[i].size <= p.blocks[j].addr
  {
    hide Padding;
    assert Placed(p, i) && Placed(p, j);
    BeforeGrows(p, i + 1, j);
  }

  lemma InPool(p: Pool, i: nat)
    requires Packed(p) && i < |p.blocks|
    ensures p.base <= p.blocks[i].addr && p.blocks[i].addr + p.blocks[i].size <= p.base + p.offset
  {
    hide Padding;
    assert Placed(p, i);
    BeforeGrows(p, 0, i);
    BeforeGrows(p, i + 1, |p.blocks|);
  }

  lemma NoPadding(addr: nat)
    ensures Padding(addr, 0) == 0
  {
  }

  lemma BlockPlace(p: Pool, i: nat)
    requires Packed(p) && i < |p.blocks|
    ensures AtLeastPlace(p, i)
  {
    var b := p.blocks[i];
    NoPadding(Before(p, i));
    assert Placed(p, i);
    if b.alignment > 0 {
      PaddingIsLeast(Before(p, i), b.alignment);
    }
    hide Padding, Aligned, Packed;
  }

  // ---------------------------------------------------------------- the 32-bit test

  /** The test of `dma_alloc` for enough room, in `size_t` arithmetic. */
  predicate Admits(offset: nat, padding: nat, size: nat) {
    U32(offset + U32(padding + size)) <= DMA_POOL_SIZE
  }

  /** The sum of the three wraps around to a value that looks as if it fitted. */
  predicate WrapsIntoPool(offset: nat, padding: nat, size: nat) {
    offset + padding + size >= TWO32 && U32(offset + padding + size) <= DMA_POOL_SIZE
  }

  lemma TwoStepSum(a: nat, b: nat)
    ensures U32(a + U32(b)) == U32(a + b)
  {
  }

  /** The test is right just when the sum does not wrap into the pool. */
  lemma AdmitsIsRight(offset: nat, padding: nat, size: nat)
    requires offset <= DMA_POOL_SIZE
    ensures (Admits(offset, padding, size) <==> offset + padding + size <= DMA_POOL_SIZE)
      <==> !WrapsIntoPool(offset, padding, size)
  {
    TwoStepSum(offset, padding + size);
  }

  /** It goes wrong: after 16 bytes, all but the last 16 bytes of the address space are admitted. */
  lemma WrappedRequest(base: nat)
    ensures var p, size := AllocStep(Pool(base, 0, []), 16, 1).1, 0xFFFF_FFF0;
      && p.offset == 16 && size < TWO32 && Padding(base + p.offset, 1) == 0
      && Admits(p.offset, Padding(base + p.offset, 1), size) && p.offset + size > DMA_POOL_SIZE
  {
    PaddingValue(base, 1);
    PaddingValue(base + 16, 1);
    assert base % 1 == 0 && (base + 16) % 1 == 0;
    hide Padding;
    assert AllocStep(Pool(base, 0, []), 16, 1).1.offset == 16;
    assert U32(0xFFFF_FFF0) == 0xFFFF_FFF0 && U32(0x1_0000_0000) == 0;
  }

  /** It does not for requests whose size and alignment stay a pool's size below 2^32 together. */
  lemma ModestRequest(offset: nat, addr: nat, size: nat, alignment: nat)
    requires offset <= DMA_POOL_SIZE && size + alignment < TWO32 - DMA_POOL_SIZE
    ensures !WrapsIntoPool(offset, Padding(addr, alignment), size)
  {
    hide Padding;
    PaddingBelow(addr, alignment);
  }

  lemma PaddingBelow(addr: nat, alignment: nat)
    ensures Padding(addr, alignment) <= alignment && (alignment > 0 ==> Padding(addr, alignment) < alignment)
  {
    if alignment == 0 {
      NoPadding(addr);
    } else {
      PaddingValue(addr, alignment);
    }
  }

  /** The request is let through although it does not fit. */
  predicate LeavesPool(p: Pool, size: nat, alignment: nat) {
    |p.blocks| < MAX_DMA_ALLOCATIONS && WrapsIntoPool(p.offset, Padding(p.base + p.offset, alignment), size)
  }

  /** What the test lets through is the requests that fit and those that wrap. */
  lemma RoomFacts(offset: nat, padding: nat, size: nat)
    requires offset <= DMA_POOL_SIZE
    ensures offset + padding + size <= DMA_POOL_SIZE ==>
      Admits(offset, padding, size) && U32(padding + size) == padding + size
    ensures Admits(offset, padding, size) && offset + padding + size > DMA_POOL_SIZE
      <==> WrapsIntoPool(offset, padding, size)
  {
    TwoStepSum(offset, padding + size);
  }

  // ---------------------------------------------------------------- the pool

  /** `dma_allocation_t`. */
  datatype Allocation = Allocation(virt_addr: nat, phys_addr: nat, size: nat, used: bool)

  /** The table entry records the block; the physical address is the virtual one. */
  predicate Records(a: Allocation, b: Block) {
    a == Allocation(b.addr, b.addr, b.size, b.used)
  }

  class DmaPool {
    /** `dma_pool`, and the address it lies at. */
    const pool: array<Byte>
    const base: nat
    var dma_pool_offset: nat
    const allocations: array<Allocation>
    var dma_alloc_count: nat
    ghost var model: Pool

    ghost predicate Valid()
      reads this, allocations
    {
      && pool.Length == DMA_POOL_SIZE && allocations.Length == MAX_DMA_ALLOCATIONS
      && 0 < base && base + DMA_POOL_SIZE < TWO32
      && Packed(model) && model.base == base && model.offset == dma_pool_offset && |model.blocks| == dma_alloc_count
      && forall i :: 0 <= i < dma_alloc_count ==> Records(allocations[i], model.blocks[i])
    }

    constructor (pool: array<Byte>, base: nat)
      requires pool.Length == DMA_POOL_SIZE && 0 < base && base + DMA_POOL_SIZE < TWO32
      ensures Valid() && model == Pool(base, 0, []) && this.pool == pool && fresh(allocations)
    {
      this.pool, this.base := pool, base;
      allocations := new Allocation[MAX_DMA_ALLOCATIONS](_ => Allocation(0, 0, 0, false));
      dma_pool_offset, dma_alloc_count, model := 0, 0, Pool(base, 0, []);
    }

    /** `mm_init`: the pool is empty again. */
    method Init()
      requires Valid()
      modifies this, allocations
      ensures Valid() && model == Pool(base, 0, [])
      ensures forall i :: 0 <= i < MAX_DMA_ALLOCATIONS ==> !allocations[i].used
    {
      hide Packed, Padding;
      dma_pool_offset, dma_alloc_count, model := 0, 0, Pool(base, 0, []);
      EmptyPacked(base);
      for i := 0 to MAX_DMA_ALLOCATIONS
        modifies allocations
        invariant forall j :: 0 <= j < i ==> !allocations[j].used
      {
        allocations[i] := allocations[i].(used := false);
      }
    }

    /**
     * A new block is zeroed, and no byte outside it changes; `virt` 0 stands for NULL. `outside` stands for a block
     * that does not lie in the pool: the code then writes other memory, and nothing is said of what follows.
     */
    method Alloc(size: nat, alignment: nat) returns (virt: nat, phys: nat, outside: bool)
      requires Valid() && size < TWO32 && alignment < TWO32
      modifies this, pool, allocations
      ensures outside == LeavesPool(old(model), size, alignment)
      ensures !outside ==> Valid()
      ensures !outside ==>
        var (r, p) := AllocStep(old(model), size, alignment);
        && model == p && virt == (if r.Some? then r.value else 0)
        && (r.Some? ==> phys == virt && base <= virt && virt - base + size <= pool.Length)
      ensures !outside ==> pool[..] == if virt == 0 then old(pool[..])
        else old(pool[..])[..virt - base] + seq(size, _ => 0) + old(pool[..])[virt - base + size..]
    {
      virt, phys, outside := 0, 0, false;
      if dma_alloc_count >= MAX_DMA_ALLOCATIONS {
        return;
      }
      var addr := base + dma_pool_offset;
      var align_offset := AlignOffset(addr, alignment);
      RoomFacts(dma_pool_offset, align_offset, size);
      AllocPacked(model, size, alignment);
      hide Padding, Packed, WrapsIntoPool, U32;
      var total := U32(align_offset + size);
      if U32(dma_pool_offset + total) > DMA_POOL_SIZE {
        return;
      }
      if dma_pool_offset + align_offset + size > DMA_POOL_SIZE {
        return 0, 0, true;
      }
      addr := addr + align_offset;
      Grant(addr, total, size, alignment);
      return addr, addr, false;
    }

    /** A successful allocation: the bookkeeping, and the zeroes. */
    method Grant(addr: nat, total: nat, size: nat, ghost alignment: nat)
      requires Valid() && dma_alloc_count < MAX_DMA_ALLOCATIONS && base <= addr && addr - base + size <= pool.Length
      requires Packed(Pool(base, dma_pool_offset + total, model.blocks + [Block(addr, size, alignment, true)]))
      modifies this, pool, allocations
      ensures Valid()
      ensures model ==
        Pool(base, old(dma_pool_offset) + total, old(model).blocks + [Block(addr, size, alignment, true)])
      ensures pool[..] == old(pool[..])[..addr - base] + seq(size, _ => 0) + old(pool[..])[addr - base + size..]
    {
      hide Packed;
      Put(addr, total, size, alignment);
      Memset(pool, addr - base, 0, size);
    }

    /** The padding, as `dma_alloc` computes it. */
    method AlignOffset(addr: nat, alignment: nat) returns (align_offset: nat)
      ensures align_offset == Padding(addr, alignment)
    {
      align_offset := 0;
      if alignment > 0 {
        align_offset := (alignment - addr % alignment) % alignment;
      }
    }

    /** The bookkeeping of a successful allocation. */
    method Put(addr: nat, total: nat, size: nat, ghost alignment: nat)
      requires Valid() && dma_alloc_count < MAX_DMA_ALLOCATIONS
      requires Packed(Pool(base, dma_pool_offset + total, model.blocks + [Block(addr, size, alignment, true)]))
      modifies this, allocations
      ensures Valid()
      ensures model ==
        Pool(base, old(dma_pool_offset) + total, old(model).blocks + [Block(addr, size, alignment, true)])
    {
      hide Packed;
      allocations[dma_alloc_count] := Allocation(addr, addr, size, true);
      dma_alloc_count := dma_alloc_count + 1;
      dma_pool_offset := dma_pool_offset + total;
      model := Pool(base, dma_pool_offset, model.blocks + [Block(addr, size, alignment, true)]);
    }

    /** `dma_free`. */
    method Free(virt: nat)
      requires Valid()
      modifies this`model, allocations
      ensures Valid() && model == FreeStep(old(model), virt)
    {
      FreePacked(model, virt);
      hide Padding, Packed;
      var i := 0;
      while i < dma_alloc_count
        invariant 0 <= i <= dma_alloc_count && model == old(model) && allocations[..] == old(allocations[..])
        invariant forall j :: 0 <= j < i ==> model.blocks[j].addr != virt
      {
        if allocations[i].virt_addr == virt {
          FirstIs(model.blocks, virt, i);
          allocations[i] := allocations[i].(used := false);
          model := FreeStep(model, virt);
          return;
        }
        i := i + 1;
      }
      FirstIs(model.blocks, virt, dma_alloc_count);
    }
  }

  lemma FirstIs(blocks: seq<Block>, addr: nat, i: nat)
    requires i <= |blocks| && (forall j :: 0 <= j < i ==> blocks[j].addr != addr)
    requires (i < |blocks| ==> blocks[i].addr == addr)
    ensures Find(blocks, addr) == i
  {
  }
}
