/**
 * The fixed-size block allocator of the Naga runtime: the generic
 * free-item list `Pool<T>`, the untyped `MemoryPool` that carves cells out
 * of blocks obtained from the platform allocator, the typed pool
 * `UTxMemoryPool<T, count>` and the per-class `operator new`/`delete`
 * routing of `DEFINE_MEMORY_POOL`.
 *
 * Memory is abstract: a cell is an `Address(block, offset)` naming a block
 * by the identifier the platform allocator handed out and a byte offset
 * from the block's start.  The platform allocator is a parameter that
 * either yields a block identifier not yet owned by the pool or fails.
 */
module MemPool {
  import opened Base

  /** Size of a pointer, hence of `Block` and `FreeItem` (one link each). */
  const PointerSize: nat := 8

  type BlockId = nat

  /** A cell address: a block and a byte offset from its start. */
  datatype Address = Address(block: BlockId, offset: nat)


  /** The cell size: the requested size, but room for one free-list link at least. */
  function ObjectSize(size: nat): (r: nat)
    ensures r >= PointerSize && r >= size
    ensures r == size || r == PointerSize
  {
    if size >= PointerSize then size else PointerSize
  }

  function Pow2(k: nat): (r: nat)
    ensures r >= 1
  {
    if k == 0 then 1 else 2 * Pow2(k - 1)
  }

  /** Powers of two from the fifth on are at least 32. */
  lemma {:induction false} Pow2Large(k: nat)
    requires k >= 5
    ensures Pow2(k) >= 32
  {
    if k > 5 { Pow2Large(k - 1); }
  }

  /** Powers of two from the fourth on are multiples of 16. */
  lemma {:induction false} Pow2Multiple16(k: nat)
    requires k >= 4
    ensures Pow2(k) % 16 == 0
  {
    if k > 4 {
      Pow2Multiple16(k - 1);
      ModUnique(Pow2(k), 16, 2 * (Pow2(k - 1) / 16), 0);
    }
  }

  /** The only powers of two between 4 and 16 are 4, 8 and 16. */
  lemma Pow2InRange(k: nat)
    ensures 4 <= Pow2(k) <= 16 ==> Pow2(k) in {4, 8, 16}
  {
    if k >= 5 { Pow2Large(k); }
  }

  /** Number of trailing zero bits of a positive number. */
  function TrailingZeros(x: nat): nat
    requires x > 0
    decreases x
  {
    if x % 2 == 1 then 0 else 1 + TrailingZeros(x / 2)
  }

  /**
   * `x & (~x + 1)`: the lowest set bit of `x`, the largest power of two
   * dividing it.
   */
  function LowestSetBit(x: nat): (r: nat)
    requires x > 0
    ensures r >= 1 && x % r == 0 && (x / r) % 2 == 1
    decreases x
  {
    if x % 2 == 1 then
      ModUnique(x, 1, x, 0);
      1
    else
      var r' := LowestSetBit(x / 2);
      HalvingStep(x, r', x / 2 / r');
      2 * r'
  }

  /** An even number is twice its half, so a divisor of the half doubles. */
  lemma HalvingStep(x: nat, d: nat, q: nat)
    requires x % 2 == 0 && d >= 1 && (x / 2) % d == 0 && q == x / 2 / d
    ensures x % (2 * d) == 0 && x / (2 * d) == q
  {
    assert x / 2 == d * q;
    assert x == 2 * (x / 2);
    assert x == (2 * d) * q;
    ModUnique(x, 2 * d, q, 0);
  }

  lemma {:induction false} LowestSetBitIsPow2(x: nat)
    requires x > 0
    ensures LowestSetBit(x) == Pow2(TrailingZeros(x))
    decreases x
  {
    if x % 2 == 0 { LowestSetBitIsPow2(x / 2); }
  }

  /**
   * The alignment the pool keeps: the lowest set bit of the cell size,
   * clamped to [4, 16]; for a size that is a multiple of 4 it divides the
   * size, so every cell of a block keeps the alignment of the first.
   */
  function Alignment(objectSize: nat): (r: nat)
    requires objectSize > 0
    ensures r == 4 || r == 8 || r == 16
    ensures r == (if LowestSetBit(objectSize) < 4 then 4
                  else if LowestSetBit(objectSize) > 16 then 16
                  else LowestSetBit(objectSize))
    ensures objectSize % 4 == 0 ==> objectSize % r == 0
  {
    var lsb := LowestSetBit(objectSize);
    var k := TrailingZeros(objectSize);
    LowestSetBitIsPow2(objectSize);
    Pow2InRange(k);
    if objectSize % 4 == 0 then
      SmallBitNotMultiple4(objectSize, lsb, k);
      if lsb > 16 then
        Pow2UpTo3(k);
        Pow2Multiple16(k);
        DividesTransitive(objectSize, lsb, 16);
        16
      else lsb
    else if lsb < 4 then 4 else if lsb > 16 then 16 else lsb
  }

  lemma Pow2UpTo3(k: nat)
    ensures k <= 3 ==> Pow2(k) <= 8
  {
    if k <= 3 {
      assert Pow2(0) == 1 && Pow2(1) == 2 && Pow2(2) == 4 && Pow2(3) == 8;
    }
  }

  /** Divisibility is transitive. */
  lemma DividesTransitive(x: nat, a: nat, b: nat)
    requires a > 0 && b > 0 && x % a == 0 && a % b == 0
    ensures x % b == 0
  {
    var q, m := x / a, a / b;
    assert x == a * q && a == b * m;
    assert x == b * (m * q);
    ModUnique(x, b, m * q, 0);
  }

  /** A multiple of 4 has its lowest set bit at 4 or above. */
  lemma SmallBitNotMultiple4(x: nat, lsb: nat, k: nat)
    requires x > 0 && lsb == LowestSetBit(x) == Pow2(k) && x % 4 == 0
    ensures lsb >= 4
  {
    var q := x / 4;
    ModUnique(x, 2, 2 * q, 0);
    Pow2Small(k);
  }

  lemma {:induction false} Pow2Small(k: nat)
    ensures Pow2(k) == 1 || Pow2(k) == 2 || Pow2(k) >= 4
  {
    if k > 2 { Pow2Small(k - 1); }
  }

  /**
   * The block leader: the smallest multiple of the alignment that leaves
   * room for the block header (one link).
   */
  function BlockLeader(align: nat): (r: nat)
    requires align > 0
    ensures r % align == 0 && PointerSize <= r < PointerSize + align
  {
    var q := (PointerSize + align - 1) / align;
    ModUnique(q * align, align, q, 0);
    q * align
  }

  /** With 8-byte links the leader is 16 bytes for 16-byte alignment, else 8. */
  lemma BlockLeaderValues(size: nat)
    ensures BlockLeader(Alignment(ObjectSize(size))) == if Alignment(ObjectSize(size)) == 16 then 16 else 8
  {
    var a := Alignment(ObjectSize(size));
    var r := BlockLeader(a);
    if a == 16 {
      ModUnique(r, 16, 1, 0);
    } else if a == 8 {
      ModUnique(r, 8, 1, 0);
    } else {
      ModUnique(r, 4, r / 4, 0);
    }
  }

  /**
   * `Pool<T>`: a list of items used as a stack; the pool does not own the
   * items' lifetimes.
   */
  class Pool<T> {
    var items: seq<T>

    constructor ()
      ensures items == []
    {
      items := [];
    }

    function Count(): (n: nat)
      reads this
      ensures n == |items|
    {
      |items|
    }

    predicate Empty()
      reads this
      ensures Empty() <==> Count() == 0
    {
      |items| == 0
    }

    /** Takes the front item; the front of an empty list is not defined. */
    method RemoveItem() returns (item: T)
      requires !Empty()
      modifies this
      ensures item == old(items[0]) && items == old(items[1..])
      ensures Count() == old(Count()) - 1
    {
      item := items[0];
      items := items[1..];
    }

    method AddItem(item: T)
      modifies this
      ensures items == [item] + old(items)
      ensures Count() == old(Count()) + 1 && !Empty()
    {
      items := [item] + items;
    }

    method Clear()
      modifies this
      ensures items == [] && Empty()
    {
      items := [];
    }
  }

  /** The item added last is the one removed first, and the pool is as before. */
  method AddThenRemove<T>(pool: Pool<T>, item: T) returns (removed: T)
    modifies pool
    ensures removed == item && pool.items == old(pool.items)
  {
    pool.AddItem(item);
    removed := pool.RemoveItem();
  }

  lemma MulPred(s: nat, d: nat)
    requires s > 0
    ensures d * (s - 1) == (s - 1) * d == s * d - d
  {
  }

  /**
   * Moving the cursor of the newest block down one cell carves exactly that
   * cell, which had not been carved before.
   */
  lemma BumpKeepsCells(live: set<Address>, blocks: seq<BlockId>, leader: nat, size: nat, count: nat, slots: nat)
    requires blocks != [] && 0 < slots <= count && size > 0
    requires forall a :: a in live ==> Carved(a, blocks, leader, size, count, slots * size)
    ensures forall a :: a in live ==> Carved(a, blocks, leader, size, count, (slots - 1) * size)
    ensures var cell := Address(blocks[0], leader + (slots - 1) * size);
      Carved(cell, blocks, leader, size, count, (slots - 1) * size)
      && Uncarved(cell, blocks, leader, slots * size)
  {
    MulPred(slots, size);
    ModUnique((slots - 1) * size, size, slots - 1, 0);
  }

  lemma ProductFacts(b: nat, k: nat, s: nat, d: nat)
    requires d > 0 && s * d == 0
    ensures s == 0 && (b + 1) * k - k == b * k
  {
  }

  /** Prepending a block whose cells are all uncarved carves nothing new. */
  lemma NewBlockKeepsCells(live: set<Address>, blocks: seq<BlockId>, block: BlockId, leader: nat, size: nat, count: nat)
    requires block !in blocks
    requires forall a :: a in live ==> Carved(a, blocks, leader, size, count, 0)
    ensures forall a :: a in live ==> Carved(a, [block] + blocks, leader, size, count, count * size)
  {
    forall a | a in live
      ensures Carved(a, [block] + blocks, leader, size, count, count * size)
    {
      assert a.block in blocks;
    }
  }

  /** `a` is the start of a cell of one of `blocks`. */
  ghost predicate CellOf(a: Address, blocks: seq<BlockId>, leader: nat, size: nat, count: nat)
  {
    size > 0 && a.block in blocks && leader <= a.offset
    && (a.offset - leader) % size == 0 && (a.offset - leader) / size < count
  }

  /** `a` lies below the cursor `leader + freePos` of the newest block. */
  ghost predicate Uncarved(a: Address, blocks: seq<BlockId>, leader: nat, freePos: nat)
  {
    blocks != [] && a.block == blocks[0] && a.offset < leader + freePos
  }

  /** `a` is a cell that has been handed out at least once. */
  ghost predicate Carved(a: Address, blocks: seq<BlockId>, leader: nat, size: nat, count: nat, freePos: nat)
  {
    CellOf(a, blocks, leader, size, count) && !Uncarved(a, blocks, leader, freePos)
  }

  /** `MemoryPool.Consistent` on the values of the pool's fields. */
  ghost predicate PoolInvariant(objectSize: nat, objectCount: nat, blocks: seq<BlockId>, blockLeader: nat,
                                freeBlock: Option<Address>, freePos: nat, freeList: seq<Address>,
                                Live: set<Address>, Slots: nat)
  {
    PointerSize <= objectSize && objectCount > 0
    && blockLeader == BlockLeader(Alignment(objectSize))
    && freePos == Slots * objectSize
    && (blocks == [] ==> Slots == 0 && freeBlock == None)
    && (blocks != [] ==> Slots <= objectCount && freeBlock == Some(Address(blocks[0], blockLeader)))
    && (forall i, j :: 0 <= i < j < |blocks| ==> blocks[i] != blocks[j])
    && (forall a :: a in Live ==> Carved(a, blocks, blockLeader, objectSize, objectCount, freePos))
    && (forall i :: 0 <= i < |freeList| ==>
          Carved(freeList[i], blocks, blockLeader, objectSize, objectCount, freePos) && freeList[i] !in Live)
    && (forall i, j :: 0 <= i < j < |freeList| ==> freeList[i] != freeList[j])
  }

  /**
   * Moving the cursor down one cell, with an empty free list, keeps the
   * invariant, hands out a cell that was not live, and leaves at least
   * one cell carved in the newest block.
   */
  lemma BumpKeepsInvariant(objectSize: nat, objectCount: nat, blocks: seq<BlockId>, blockLeader: nat,
                           freeBlock: Option<Address>, freePos: nat, Live: set<Address>, Slots: nat)
    requires PoolInvariant(objectSize, objectCount, blocks, blockLeader, freeBlock, freePos, [], Live, Slots)
    requires Slots > 0
    ensures freePos >= objectSize && freePos - objectSize == (Slots - 1) * objectSize
    ensures blocks != []
    ensures var cell := Address(blocks[0], blockLeader + (freePos - objectSize));
      cell !in Live && CellOf(cell, blocks, blockLeader, objectSize, objectCount)
      && PoolInvariant(objectSize, objectCount, blocks, blockLeader, freeBlock, freePos - objectSize, [],
                       Live + {cell}, Slots - 1)
      && Slots - 1 < objectCount
  {
    MulPred(Slots, objectSize);
    BumpKeepsCells(Live, blocks, blockLeader, objectSize, objectCount, Slots);
  }

  /**
   * `MemoryPool`: cells of `objectSize` bytes, `objectCount` to a block.
   * `blocks` lists the blocks newest first (the chain through
   * `mNextBlock`); the newest block's cells below `blockLeader + freePos`
   * have never been handed out; `freeList` is the chain of freed cells,
   * head first.  `Live` holds the cells currently handed out and
   * `Slots == freePos / objectSize`.
   */
  class MemoryPool {
    var objectSize: nat
    var objectCount: nat
    var blocks: seq<BlockId>
    var blockLeader: nat
    var freeBlock: Option<Address>
    var freePos: nat
    var freeList: seq<Address>
    ghost var Live: set<Address>
    ghost var Slots: nat

    /** `a` is the start of one of the cells of a block of this pool. */
    ghost predicate IsCell(a: Address)
      reads this
    {
      CellOf(a, blocks, blockLeader, objectSize, objectCount)
    }

    /** `a` lies in the part of the newest block the cursor has not reached. */
    ghost predicate Unused(a: Address)
      reads this
    {
      Uncarved(a, blocks, blockLeader, freePos)
    }

    /** The pool's invariant, except that the newest block may be untouched. */
    ghost predicate Consistent()
      reads this
    {
      PoolInvariant(objectSize, objectCount, blocks, blockLeader, freeBlock, freePos, freeList, Live, Slots)
    }

    /**
     * Between calls: free list and unused region are disjoint from each
     * other and from the cells handed out, and the newest block has had at
     * least one cell carved.
     */
    ghost predicate Valid()
      reads this
    {
      Consistent() && (blocks != [] ==> Slots < objectCount)
    }

    /** Number of cells taken from blocks so far, handed out or freed. */
    ghost function CarvedCount(): int
      reads this
    {
      |blocks| * objectCount - Slots
    }

    /** `Construct(size, count)`: no blocks, empty free list, cursor at 0. */
    constructor (size: nat, count: nat)
      requires count > 0
      ensures Valid()
      ensures objectSize == ObjectSize(size) && objectCount == count
      ensures blockLeader == BlockLeader(Alignment(ObjectSize(size)))
      ensures blocks == [] && freeBlock == None && freePos == 0 && freeList == []
      ensures Live == {}
    {
      objectCount := count;
      objectSize := ObjectSize(size);
      blocks := [];
      freeBlock := None;
      freePos := 0;
      freeList := [];
      blockLeader := BlockLeader(Alignment(ObjectSize(size)));
      Live := {};
      Slots := 0;
    }

    /**
     * Hands out a cell: the head of the free list if there is one,
     * otherwise the next cell below the cursor in the newest block,
     * prepending a block from `platform` when the newest one is used up.
     * `platform` is what the platform allocator returns if called.
     */
    method Alloc(platform: Option<BlockId>) returns (r: Option<Address>)
      requires Valid()
      requires platform.Some? ==> platform.value !in blocks
      modifies this
      ensures Valid()
      ensures objectSize == old(objectSize) && objectCount == old(objectCount)
      ensures blockLeader == old(blockLeader)
      ensures r.Some? ==> IsCell(r.value) && r.value !in old(Live) && Live == old(Live) + {r.value}
      // a freed cell is reused first, last freed first
      ensures old(freeList) != [] ==>
        r == Some(old(freeList[0])) && freeList == old(freeList[1..])
        && blocks == old(blocks) && freeBlock == old(freeBlock) && freePos == old(freePos)
      // a new block is needed but the platform allocator fails
      ensures old(freeList) == [] && old(freePos) == 0 && platform.None? ==>
        r.None? && blocks == old(blocks) && freeBlock == old(freeBlock)
        && freePos == old(freePos) && freeList == old(freeList) && Live == old(Live)
      // a new block is prepended and its topmost cell handed out
      ensures old(freeList) == [] && old(freePos) == 0 && platform.Some? ==>
        blocks == [platform.value] + old(blocks)
        && freeBlock == Some(Address(platform.value, blockLeader))
        && freePos == (objectCount - 1) * objectSize && freeList == []
        && r == Some(Address(platform.value, blockLeader + freePos))
      // the cursor moves down one cell in the newest block
      ensures old(freeList) == [] && old(freePos) > 0 ==>
        blocks == old(blocks) && freeBlock == old(freeBlock) && freeList == []
        && freePos == old(freePos) - objectSize
        && r == Some(Address(blocks[0], blockLeader + freePos))
      ensures old(freeList) == [] && r.Some? ==> CarvedCount() == old(CarvedCount()) + 1
      ensures old(freeList) != [] || r.None? ==> CarvedCount() == old(CarvedCount())
    {
      if freeList != [] {
        r := TakeFree();
        return;
      }
      if freePos == 0 {
        if platform.None? {
          return None;
        }
        AddBlock(platform.value);
      }
      r := Bump();
    }

    /** `Alloc` from the free list. */
    method TakeFree() returns (r: Option<Address>)
      requires Valid() && freeList != []
      modifies this
      ensures Valid()
      ensures r == Some(old(freeList[0])) && freeList == old(freeList[1..])
      ensures r.value !in old(Live) && IsCell(r.value) && Live == old(Live) + {r.value}
      ensures objectSize == old(objectSize) && objectCount == old(objectCount)
      ensures blockLeader == old(blockLeader) && blocks == old(blocks) && Slots == old(Slots)
      ensures freeBlock == old(freeBlock) && freePos == old(freePos)
      ensures CarvedCount() == old(CarvedCount())
    {
      r := Some(freeList[0]);
      freeList := freeList[1..];
      Live := Live + {r.value};
    }

    /** `Alloc` prepending a fresh block: the cursor goes to its top. */
    method AddBlock(block: BlockId)
      requires Valid() && freePos == 0 && freeList == [] && block !in blocks
      modifies this
      ensures Consistent() && Slots == objectCount
      ensures blocks == [block] + old(blocks) && freeBlock == Some(Address(block, blockLeader))
      ensures freePos == objectCount * objectSize
      ensures objectSize == old(objectSize) && objectCount == old(objectCount)
      ensures blockLeader == old(blockLeader) && freeList == [] && Live == old(Live)
      ensures CarvedCount() == old(CarvedCount())
    {
      ProductFacts(|blocks|, objectCount, Slots, objectSize);
      NewBlockKeepsCells(Live, blocks, block, blockLeader, objectSize, objectCount);
      blocks := [block] + blocks;
      freeBlock := Some(Address(block, blockLeader));
      freePos := objectCount * objectSize;
      Slots := objectCount;
    }

    /** `Alloc` from the cursor: one cell down in the newest block. */
    method Bump() returns (r: Option<Address>)
      requires Consistent() && Slots > 0 && freeList == []
      modifies this
      ensures Valid()
      ensures objectSize == old(objectSize) && objectCount == old(objectCount)
      ensures blockLeader == old(blockLeader) && blocks == old(blocks)
      ensures freeBlock == old(freeBlock) && freeList == []
      ensures freePos == old(freePos) - objectSize && Slots == old(Slots) - 1
      ensures r == Some(Address(blocks[0], blockLeader + freePos))
      ensures r.value !in old(Live) && IsCell(r.value) && Live == old(Live) + {r.value}
      ensures CarvedCount() == old(CarvedCount()) + 1
    {
      BumpKeepsInvariant(objectSize, objectCount, blocks, blockLeader, freeBlock, freePos, Live, Slots);
      ghost var slots := Slots - 1;
      var pos := freePos - objectSize;
      var cell := Address(blocks[0], blockLeader + pos);
      freePos := pos;
      Slots := slots;
      r := Some(cell);
      Live := Live + {cell};
    }

    /** Pushes a handed-out cell on the free list; a null item is ignored. */
    method Free(item: Option<Address>)
      requires Valid()
      requires item.Some? ==> item.value in Live
      modifies this
      ensures Valid()
      ensures objectSize == old(objectSize) && objectCount == old(objectCount)
      ensures blockLeader == old(blockLeader) && blocks == old(blocks)
      ensures freeBlock == old(freeBlock) && freePos == old(freePos)
      ensures item.None? ==> freeList == old(freeList) && Live == old(Live)
      ensures item.Some? ==> freeList == [item.value] + old(freeList) && Live == old(Live) - {item.value}
      ensures CarvedCount() == old(CarvedCount())
    {
      if item.Some? {
        freeList := [item.value] + freeList;
        Live := Live - {item.value};
      }
    }

    /**
     * The destructor: empties the free list and the cursor, then walks the
     * block chain from the newest block, releasing each block once.
     */
    method Destroy() returns (released: seq<BlockId>)
      requires Valid()
      modifies this
      ensures released == old(blocks)
      ensures blocks == [] && freeList == [] && freeBlock == None && freePos == 0
      ensures Live == {} && Slots == 0
    {
      freeList := [];
      freeBlock := None;
      freePos := 0;
      var rest := blocks;
      released := [];
      while rest != []
        invariant released + rest == old(blocks)
        decreases |rest|
      {
        released := released + [rest[0]];
        rest := rest[1..];
      }
      blocks := [];
      Live := {};
      Slots := 0;
    }
  }

  /** Every block but the newest is full: one block per `objectCount` cells carved. */
  lemma BlockCount(pool: MemoryPool)
    requires pool.Valid()
    ensures |pool.blocks| == (pool.CarvedCount() + pool.objectCount - 1) / pool.objectCount
  {
    var k := pool.objectCount;
    if pool.blocks == [] {
      ModUnique(k - 1, k, 0, k - 1);
    } else {
      var b := |pool.blocks|;
      assert pool.CarvedCount() + k - 1 == k * b + (k - 1 - pool.Slots);
      ModUnique(pool.CarvedCount() + k - 1, k, b, k - 1 - pool.Slots);
    }
  }

  /**
   * `UTxMemoryPool<T, count>`: the single pool serving objects of
   * `typeSize` bytes (`sizeof(T)`), `count` of them to a block.
   */
  class TypedPool {
    const typeSize: nat
    const count: nat
    const pool: MemoryPool

    ghost predicate Valid()
      reads pool
    {
      pool.Valid() && pool.objectSize == ObjectSize(typeSize) && pool.objectCount == count
    }

    constructor (typeSize: nat, count: nat)
      requires count > 0
      ensures Valid() && fresh(pool)
      ensures this.typeSize == typeSize && this.count == count
      ensures pool.blocks == [] && pool.freeList == [] && pool.Live == {}
    {
      this.typeSize := typeSize;
      this.count := count;
      pool := new MemoryPool(typeSize, count);
    }

    /** Memory for one `T`, taken from the pool. */
    method Allocate(platform: Option<BlockId>) returns (r: Option<Address>)
      requires Valid()
      requires platform.Some? ==> platform.value !in pool.blocks
      modifies pool
      ensures Valid()
      ensures r.Some? ==> pool.IsCell(r.value) && r.value !in old(pool.Live) && pool.Live == old(pool.Live) + {r.value}
      ensures r.None? ==> pool.Live == old(pool.Live) && platform.None?
      ensures old(pool.freeList) != [] ==> r == Some(old(pool.freeList[0]))
    {
      r := pool.Alloc(platform);
    }

    /** Returns the memory of a destroyed `T` to the pool. */
    method Delete(item: Option<Address>)
      requires Valid()
      requires item.Some? ==> item.value in pool.Live
      modifies pool
      ensures Valid()
      ensures item.None? ==> pool.freeList == old(pool.freeList) && pool.Live == old(pool.Live)
      ensures item.Some? ==>
        pool.freeList == [item.value] + old(pool.freeList) && pool.Live == old(pool.Live) - {item.value}
    {
      pool.Free(item);
    }
  }

  /** Where `DEFINE_MEMORY_POOL`'s operators send a request. */
  datatype Allocator = GlobalHeap | ClassPool

  /** The size test shared by the pooled `operator new` and `operator delete`. */
  function RouteFor(size: nat, classSize: nat): (a: Allocator)
  {
    if size != classSize then GlobalHeap else ClassPool
  }

  /**
   * A class declared with `DEFINE_MEMORY_POOL(cls, count)`: requests of
   * exactly `classSize` bytes use the class's typed pool, others the
   * global heap.
   */
  class PooledClass {
    const classSize: nat
    const typed: TypedPool

    ghost predicate Valid()
      reads typed.pool
    {
      typed.Valid() && typed.typeSize == classSize
    }

    constructor (classSize: nat, count: nat)
      requires count > 0
      ensures Valid() && fresh(typed) && fresh(typed.pool)
      ensures this.classSize == classSize && typed.count == count
      ensures typed.pool.Live == {} && typed.pool.blocks == []
    {
      this.classSize := classSize;
      typed := new TypedPool(classSize, count);
    }

    /**
     * `cls::operator new(size)`; `heap` is what the global `operator new`
     * returns if called.
     */
    method New(size: nat, platform: Option<BlockId>, heap: Option<Address>) returns (r: Option<Address>)
      requires Valid()
      requires platform.Some? ==> platform.value !in typed.pool.blocks
      modifies typed.pool
      ensures Valid()
      ensures RouteFor(size, classSize) == GlobalHeap ==> r == heap && typed.pool.Live == old(typed.pool.Live)
      ensures RouteFor(size, classSize) == GlobalHeap ==> typed.pool.freeList == old(typed.pool.freeList)
      ensures RouteFor(size, classSize) == GlobalHeap ==> unchanged(typed.pool)
      ensures RouteFor(size, classSize) == ClassPool && r.Some? ==>
        r.value !in old(typed.pool.Live) && typed.pool.Live == old(typed.pool.Live) + {r.value}
      ensures RouteFor(size, classSize) == ClassPool && r.None? ==> typed.pool.Live == old(typed.pool.Live)
    {
      if size != classSize {
        return heap;
      }
      r := typed.Allocate(platform);
    }

    /**
     * `cls::operator delete(item, size)`; `toHeap` is the item handed to
     * the global `operator delete`, if any.
     */
    method Delete(item: Option<Address>, size: nat) returns (toHeap: Option<Address>)
      requires Valid()
      requires RouteFor(size, classSize) == ClassPool && item.Some? ==> item.value in typed.pool.Live
      modifies typed.pool
      ensures Valid()
      ensures RouteFor(size, classSize) == GlobalHeap ==>
        toHeap == item && typed.pool.Live == old(typed.pool.Live) && typed.pool.freeList == old(typed.pool.freeList)
      ensures RouteFor(size, classSize) == GlobalHeap ==> unchanged(typed.pool)
      ensures RouteFor(size, classSize) == ClassPool ==> toHeap == None
      ensures RouteFor(size, classSize) == ClassPool && item.None? ==>
        typed.pool.Live == old(typed.pool.Live) && typed.pool.freeList == old(typed.pool.freeList)
      ensures RouteFor(size, classSize) == ClassPool && item.Some? ==>
        typed.pool.freeList == [item.value] + old(typed.pool.freeList)
        && typed.pool.Live == old(typed.pool.Live) - {item.value}
    {
      if size != classSize {
        return item;
      }
      typed.Delete(item);
      toHeap := None;
    }
  }

  /**
   * Allocating and then deleting with the same size sends the cell back to
   * where it came from: a pool cell to the pool, a heap block to the heap.
   */
  method NewThenDelete(cls: PooledClass, size: nat, platform: Option<BlockId>, heap: Option<Address>)
    returns (r: Option<Address>, toHeap: Option<Address>)
    requires cls.Valid()
    requires platform.Some? ==> platform.value !in cls.typed.pool.blocks
    modifies cls.typed.pool
    ensures cls.Valid() && cls.typed.pool.Live == old(cls.typed.pool.Live)
    ensures size != cls.classSize ==> r == heap && toHeap == heap
    ensures size == cls.classSize ==> toHeap == None
    ensures size == cls.classSize && r.Some? ==> cls.typed.pool.freeList != [] && cls.typed.pool.freeList[0] == r.value
  {
    r := cls.New(size, platform, heap);
    ghost var live := cls.typed.pool.Live;
    toHeap := cls.Delete(r, size);
    if size == cls.classSize && r.Some? {
      assert live == old(cls.typed.pool.Live) + {r.value};
      assert cls.typed.pool.Live == live - {r.value};
    }
  }

  /** A cell freed and then allocated again is handed straight back. */
  method FreeThenAlloc(pool: MemoryPool, item: Address) returns (r: Option<Address>)
    requires pool.Valid() && item in pool.Live
    modifies pool
    ensures pool.Valid() && r == Some(item)
    ensures pool.Live == old(pool.Live) && pool.freeList == old(pool.freeList)
    ensures pool.blocks == old(pool.blocks) && pool.freePos == old(pool.freePos)
  {
    pool.Free(Some(item));
    r := pool.Alloc(None);
  }

  /**
   * A pool of 32-byte objects, four to a block: five allocations use two
   * blocks, hand out five distinct cells from the top of each block down,
   * and leave three cells uncarved.
   */
  method FiveAllocations() returns (cells: seq<Address>, blockCount: nat, uncarved: nat)
    ensures |cells| == 5 && blockCount == 2 && uncarved == 3
    ensures forall i, j :: 0 <= i < j < 5 ==> cells[i] != cells[j]
    ensures cells[0].block == cells[3].block && cells[0].offset > cells[1].offset > cells[2].offset > cells[3].offset
  {
    var pool, first := FirstBlock();
    var e := pool.Alloc(Some(200));
    cells := first + [e.value];
    blockCount := |pool.blocks|;
    uncarved := pool.freePos / pool.objectSize;
  }

  /** Four allocations from a fresh pool of 32-byte objects, four to a block. */
  method FirstBlock() returns (pool: MemoryPool, cells: seq<Address>)
    ensures fresh(pool) && pool.Valid() && pool.objectSize == 32 && pool.objectCount == 4
    ensures pool.blocks == [100] && pool.freePos == 0 && pool.freeList == []
    ensures |cells| == 4 && (forall i :: 0 <= i < 4 ==> cells[i] in pool.Live)
    ensures forall i, j :: 0 <= i < j < 4 ==> cells[i] != cells[j]
    ensures cells[0].block == cells[3].block && cells[0].offset > cells[1].offset > cells[2].offset > cells[3].offset
  {
    pool := new MemoryPool(32, 4);
    assert pool.objectSize == 32;
    var a := pool.Alloc(Some(100));
    var b := pool.Alloc(None);
    var c := pool.Alloc(None);
    var d := pool.Alloc(None);
    cells := [a.value, b.value, c.value, d.value];
  }
}
