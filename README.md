# Naga runtime model

A Dafny model of the "Naga" object runtime of the FlappyBird game: the
sequential, single-threaded support library under `Classes/Naga/`. It covers:

- the fixed-size block allocator;
- intrusive reference counting with its smart-pointer handle;
- interface tags standing in for RTTI, and per-class construction counters;
- the string interner;
- the lazy singleton;
- the bit-flag set;
- the small string helpers.

One file per part of the runtime:

| file | module | models |
|---|---|---|
| `base.dfy` | `Base` | nullable values (`Option`), bytes, 32-bit words, division facts |
| `utility.dfy` | `Utility` | `FileName`, the `ToLower` overloads, `StringConvert` |
| `bit_status.dfy` | `BitStatus` | the `BitStatus` flag word and the status constants |
| `mem_pool.dfy` | `MemPool` | `Pool<T>`, `MemoryPool`, `UTxMemoryPool<T, count>`, `DEFINE_MEMORY_POOL` |
| `object.dfy` | `Objects` | `Object` reference counting, the `GetInterface` chain, `CastInterface`, `IsType`, `ClsObjectCount` |
| `smart_pointer.dfy` | `SmartPointers` | `PointerTrait` and `SmartPointer` |
| `unique_string.dfy` | `UniqueStrings` | `hash_value`, `strcmp`, `UTxUniqueString` and its operators |
| `interner.dfy` | `Interner` | `UTxUniqueStringManager` |
| `singleton.dfy` | `Globals` | `Singleton<UTxUniqueStringManager>`, the global `Intern`, the cached `InterfaceID()` |

Modelling choices:

- **Memory.** Memory is abstract. A pool cell is an `Address(block, offset)`: a block is named by the identifier the platform allocator returned, and the offset is in bytes from the block's start. The platform allocator is an `Option<BlockId>` parameter, with `None` for a failed `malloc`. The pool tracks, as ghost state:
  - `Live`, the set of cells handed out;
  - `Slots`, the cells still uncarved in the newest block.

  Its invariant keeps these apart: the free list, the uncarved region and the live cells are pairwise disjoint, and every one is a real cell of an owned block.
- **Object deletion.** Deleting an object (`delete this`) sets a ghost `alive` flag to false. A ghost counter `deletions` records that it happened exactly once.
- **Strings.** C strings are `seq<byte>`. The text of a C string is its bytes up to the first NUL (`UpToNul`), and the end of the sequence stands for a terminator. The null pointer is `None`.
- **Interned strings.** Interned strings are objects, so a `UTxUniqueString*` comparison is reference comparison. The interner's character buffers are real 1024-byte arrays that `AddString` fills with a loop.
- **The string hash** is computed on plain `char`, which is signed on the target. Each step is `h * 31 + c`, and the `int` accumulator is reduced modulo 2^32.
- **`Singleton`** is generic in the source. Here it is modelled for its one use inside the runtime, the string manager.

## Model

| member | source | states |
|---|---|---|
| `MemPool.ObjectSize` | Classes/Naga/MemPool.cpp:11 | the cell size is the requested size or one link (8 bytes), whichever is larger |
| `MemPool.LowestSetBit` | Classes/Naga/MemPool.cpp:17 | `x & (~x + 1)` is the largest power of two dividing `x`: it divides `x` and leaves an odd quotient |
| `MemPool.LowestSetBitIsPow2` | Classes/Naga/MemPool.cpp:17 | that value is `2^k`, where `k` is the number of trailing zero bits of `x` |
| `MemPool.Alignment` | Classes/Naga/MemPool.cpp:17-21 | the lowest set bit is clamped to 4, 8 or 16; for cell sizes that are multiples of 4 it divides the size, so all cells of a block keep the alignment |
| `MemPool.BlockLeader` | Classes/Naga/MemPool.cpp:23 | the leader is a multiple of the alignment, at least the block header (8), and less than header plus alignment: the smallest such multiple |
| `MemPool.BlockLeaderValues` | Classes/Naga/MemPool.cpp:17-23 | with 8-byte links the leader is 16 for 16-byte alignment and 8 otherwise |
| `MemPool.MemoryPool.constructor` | Classes/Naga/MemPool.cpp:8-24 | `Construct`: no blocks, empty free list, cursor 0, size and leader as above; the pool invariant holds |
| `MemPool.MemoryPool.Alloc` | Classes/Naga/MemPool.cpp:56-86 | four cases: (1) free-list head, LIFO, with blocks and cursor unchanged; (2) failed platform allocation gives null and no change; (3) a new block is prepended, the cursor goes to `count*size` and its top cell is returned; (4) a bump moves the cursor down one cell and returns `base + freePos`. The result is a real cell that was not live, and the invariant is kept |
| `MemPool.MemoryPool.TakeFree` | Classes/Naga/MemPool.cpp:58-64 | the free-list branch of `Alloc`: the head is returned, the tail remains, and nothing else changes |
| `MemPool.MemoryPool.AddBlock` | Classes/Naga/MemPool.cpp:66-81 | the new-block branch: one block is prepended, the base is set past the leader and `freePos = count*size`; no live cell is disturbed |
| `MemPool.MemoryPool.Bump` | Classes/Naga/MemPool.cpp:84-85 | the bump branch: `freePos` drops by one cell size; the returned cell was never carved before, is now live, and the pool's invariant still holds |
| `MemPool.BumpKeepsInvariant` | Classes/Naga/MemPool.cpp:84-85 | on the field values: with an empty free list and cells left, the cell below the cursor is a cell of the newest block that is not live, and moving the cursor onto it keeps the invariant |
| `MemPool.MemoryPool.Free` | Classes/Naga/MemPool.cpp:91-99 | a null item changes nothing; otherwise the item is pushed on the free-list head and is no longer live |
| `MemPool.MemoryPool.Destroy` | Classes/Naga/MemPool.cpp:29-51 | every block of the chain is released once, newest first; blocks, free list and cursor end empty, and no cell is live or left uncarved |
| `MemPool.BlockCount` | Classes/Naga/MemPool.cpp:66-85 | the pool holds one block per `count` cells carved, rounded up: blocks grow by one per `count` fresh allocations |
| `MemPool.FreeThenAlloc` | Classes/Naga/MemPool.cpp:58-64 | `Free(p)` followed by `Alloc()` returns `p` and restores the pool |
| `MemPool.FirstBlock` | Classes/Naga/MemPool.cpp:66-85 | four allocations from a pool of 32-byte objects, four per block, fill one block with distinct cells at descending offsets |
| `MemPool.FiveAllocations` | Classes/Naga/MemPool.cpp:66-85 | a fifth allocation opens a second block; five distinct cells, and three cells left uncarved |
| `MemPool.Pool.Count` | Classes/Naga/MemPool.h:55-58 | the number of items held |
| `MemPool.Pool.Empty` | Classes/Naga/MemPool.h:63-66 | holds iff `Count() == 0` |
| `MemPool.Pool.RemoveItem` | Classes/Naga/MemPool.h:72-77 | needs a non-empty pool; returns the front item, drops it and decreases `Count` by one |
| `MemPool.Pool.AddItem` | Classes/Naga/MemPool.h:82-85 | inserts at the front; `Count` grows by one |
| `MemPool.Pool.Clear` | Classes/Naga/MemPool.h:90-93 | the pool is empty afterwards |
| `MemPool.AddThenRemove` | Classes/Naga/MemPool.h:72-85 | the item added last is removed first, leaving the pool as it was |
| `MemPool.TypedPool.constructor` | Classes/Naga/MemPool.h:185-197 | one pool built with object size `sizeof(T)` and `count` objects per block |
| `MemPool.TypedPool.Allocate` | Classes/Naga/MemPool.h:173-175 | the pool's `Alloc`: a fresh live cell, or null only when the platform allocation fails |
| `MemPool.TypedPool.Delete` | Classes/Naga/MemPool.h:180-182 | the pool's `Free` |
| `MemPool.PooledClass.New` | Classes/Naga/MemPool.h:208-213 | a size other than `sizeof(cls)` is served by the global allocator and leaves the pool alone; an exact match comes from the pool |
| `MemPool.PooledClass.Delete` | Classes/Naga/MemPool.h:214-220 | the same size test: pool cells go back to the pool, anything else to the global `operator delete`, leaving the pool alone |
| `MemPool.NewThenDelete` | Classes/Naga/MemPool.h:207-220 | a pooled `new` followed by `delete` with the same size returns the cell to where it came from |
| `Objects.Object.constructor` | Classes/Naga/Object.cpp:31-35 | the count is the constructor argument; the object is live |
| `Objects.Object.Default` | Classes/Naga/Object.h:39 | the default initial count is 0 |
| `Objects.Object.RefCount` | Classes/Naga/Object.cpp:83-86 | the reference count, read without change; `AddRef` and `ReleaseRef` state their effect through it |
| `Objects.Object.AddRef` | Classes/Naga/Object.cpp:75-78 | the count grows by exactly one |
| `Objects.Object.ReleaseRef` | Classes/Naga/Object.cpp:66-70 | the count drops by one; the object is deleted exactly when the new count is at most 0 |
| `Objects.Object.Delete` | Classes/Naga/Object.cpp:58-61 | the object is disposed, once; nothing may use it afterwards |
| `Objects.Object.GetInterfaceFrom` | Classes/Naga/InterfaceID.h:91-96 | a level answers `this` for its own ID and otherwise asks its parent; the result is `this` iff the tag is an ID of that level or an ancestor, or "NAGA.Object"; otherwise null |
| `Objects.Object.GetInterface` | Classes/Naga/Object.cpp:47-53 | on the whole chain: `this` iff the tag is one of the class IDs or the interned "NAGA.Object", null otherwise |
| `Objects.AncestorQuerySucceeds` | Classes/Naga/InterfaceID.h:91-96 | a query with any ancestor's ID finds the object |
| `Objects.CastInterface` | Classes/Naga/Object.h:83-108 | null stays null with no query; otherwise exactly the `GetInterface` answer |
| `Objects.IsType` | Classes/Naga/Object.h:113-127 | holds iff the object answers the query with a non-null pointer, i.e. the ID is in its chain |
| `Objects.ClassCounters.constructor` | Classes/Naga/InterfaceID.h:129-131 | both counters start at 0 |
| `Objects.ClassCounters.NetObjectCount` | Classes/Naga/InterfaceID.h:108-111 | the live count is constructions minus destructions |
| `Objects.ClassCounters.NetObjectID` | Classes/Naga/Object.h:129-137 | `ObjectID<T>()` and `NetObjectID()` give the number of constructions so far |
| `Objects.ClassCounters.Increase` | Classes/Naga/InterfaceID.h:116-120 | both counters grow by one |
| `Objects.ClassCounters.Decrease` | Classes/Naga/InterfaceID.h:121-124 | only the live count drops |
| `Objects.ClassCounters.Construct` | Classes/Naga/InterfaceID.h:56-64 | both constructors of `ClsObjectCount` add one to the live count and one to the ID |
| `Objects.ClassCounters.Destruct` | Classes/Naga/InterfaceID.h:66-69 | the destructor removes one from the live count and leaves the ID |
| `Objects.ConstructAndDestroy` | Classes/Naga/InterfaceID.h:56-131 | after `made` constructions and `destroyed` destructions, the live count is their difference and the ID is `made` |
| `SmartPointers.AddRef` | Classes/Naga/SmartPointer.h:58-63 | adds one reference unless the pointer is null |
| `SmartPointers.ReleaseRef` | Classes/Naga/SmartPointer.h:65-69 | releases one reference unless the pointer is null |
| `SmartPointers.SmartPointer.Null` | Classes/Naga/SmartPointer.h:81-84 | a null handle; no count changes |
| `SmartPointers.SmartPointer.FromRaw` | Classes/Naga/SmartPointer.h:89-93 | holds the pointer and adds one reference when it is not null |
| `SmartPointers.SmartPointer.Copy` | Classes/Naga/SmartPointer.h:98-114 | shares the other handle's object and adds one reference when it is not null |
| `SmartPointers.SmartPointer.Move` | Classes/Naga/SmartPointer.h:120-126 | takes the pointer, leaves the source null; no count changes |
| `SmartPointers.SmartPointer.Destroy` | Classes/Naga/SmartPointer.h:131-134 | releases one reference when not null |
| `SmartPointers.SmartPointer.Assign` | Classes/Naga/SmartPointer.h:155-184 | assigning the held pointer changes nothing: its count, liveness and deletion record stay as they were, so the handle can still be destroyed; otherwise the new object gains a reference, then the old one loses one, and the handle switches |
| `SmartPointers.SmartPointer.AssignHandle` | Classes/Naga/SmartPointer.h:189-218 | the other handle is left as it was; assigning the pointer already held changes no count, no liveness and no deletion record; otherwise the other handle's object gains a reference and stays live, the old object loses one and is deleted exactly when its count reaches 0 or less, and the handle switches |
| `SmartPointers.SmartPointer.IsNull` | Classes/Naga/SmartPointer.h:224 | holds iff the held pointer is null |
| `SmartPointers.SmartPointer.Pointer` | Classes/Naga/SmartPointer.h:140-150 | the held pointer, the same one the conversions to `T*` give; null exactly when `IsNull()` holds |
| `SmartPointers.SmartPointer.Attach` | Classes/Naga/SmartPointer.h:235-239 | replaces the pointer with no reference traffic |
| `SmartPointers.SmartPointer.Detach` | Classes/Naga/SmartPointer.h:245-250 | returns the pointer, leaves the handle null, releases nothing |
| `SmartPointers.SmartPointer.EqualsRaw` | Classes/Naga/SmartPointer.h:255-266 | address comparison with a raw pointer |
| `SmartPointers.SmartPointer.EqualsHandle` | Classes/Naga/SmartPointer.h:271-282 | address comparison of the two held pointers |
| `SmartPointers.HandleTraffic` | Classes/Naga/SmartPointer.h:89-218 | a sequence of construction from a pointer, self-assignment of a pointer and of a handle, copy, move, pointer assignment, handle assignment and destruction over two objects leaves both counts where they started; each object is deleted exactly once when it started at 0, and never otherwise |
| `SmartPointers.ShareAndRelease` | Classes/Naga/SmartPointer.h:89-134 | `n` handles created and destroyed leave the count as it was; an object starting at 0 is deleted exactly once, by the last release |
| `UniqueStrings.UpToNul` | Classes/Naga/UniqueString.cpp:39-40 | the text of a C string is the prefix before the first NUL, followed by a NUL unless the bytes end |
| `UniqueStrings.HashValue` | Classes/Naga/UniqueString.cpp:31-48 | a null string hashes to 0 with length 0; otherwise the hash of the text before the NUL and its length |
| `UniqueStrings.Hash` | Classes/Naga/UniqueString.cpp:39-40 | the hash loop's value: `h * 31 + c` folded over the signed characters, modulo 2^32; its closed form is `HashIsPolynomial` |
| `UniqueStrings.HashIsPolynomial` | Classes/Naga/UniqueString.cpp:39-40 | the folded hash is the polynomial `sum c_i * 31^(n-1-i)` in the signed characters, modulo 2^32 |
| `UniqueStrings.Strcmp` | Classes/Naga/UniqueString.h:75-78 | the sign of `strcmp`, always -1, 0 or 1; the lemmas below give its meaning |
| `UniqueStrings.StrcmpZeroIffEqual` | Classes/Naga/UniqueString.h:75-78 | `strcmp` answers 0 iff the strings are equal |
| `UniqueStrings.StrcmpAntisymmetric` | Classes/Naga/UniqueString.h:126-159 | swapping the operands flips the sign, so `<` and `>` are converse |
| `UniqueStrings.StrcmpTransitive` | Classes/Naga/UniqueString.h:126-129 | the order `strcmp` induces is transitive |
| `UniqueStrings.UniqueString.constructor` | Classes/Naga/UniqueString.cpp:62-66 | the string adopts the buffer position, length and hash code it is given; its text is the `len` bytes at that position |
| `UniqueStrings.UniqueString.Text` | Classes/Naga/UniqueString.h:55-56 | `Buffer()` and the conversion to `const char*`: the bytes at `mpBuffer` are the string's text, `mLength` of them |
| `UniqueStrings.UniqueString.FromBuffer` | Classes/Naga/UniqueString.cpp:53-57 | the string adopts a terminated buffer; its length is the `strlen` of the buffer and the hash cache is empty |
| `UniqueStrings.UniqueString.Length` | Classes/Naga/UniqueString.h:48-49 | `Length()` and `Size()` give the number of characters of the text |
| `UniqueStrings.UniqueString.Empty` | Classes/Naga/UniqueString.h:50 | holds iff the length is 0 |
| `UniqueStrings.UniqueString.HashCodeValue` | Classes/Naga/UniqueString.cpp:81-88 | the value `HashCode()` returns is always the hash of the text |
| `UniqueStrings.UniqueString.HashCode` | Classes/Naga/UniqueString.cpp:81-88 | returns the hash of the text, computing and caching it only when the cache is 0 |
| `UniqueStrings.UniqueString.Compare` | Classes/Naga/UniqueString.h:75-78 | 0 iff the text equals the argument's text, a null argument read as "" |
| `UniqueStrings.UniqueString.CompareNoCase` | Classes/Naga/UniqueString.h:91-97 | 0 iff both sides agree after lower-casing |
| `UniqueStrings.UniqueString.RelateUnique` | Classes/Naga/UniqueString.h:110-159 | `==` and `!=` compare addresses only; `<` and `>` follow the sign of `strcmp`; `<=` and `>=` hold at once for the same address |
| `UniqueStrings.UniqueString.RelateText` | Classes/Naga/UniqueString.h:164-255 | comparisons with a `UTxString` or a `const char*` (null read as "") are content comparisons: `==` and `!=` test text equality, and `<`, `<=`, `>=`, `>` test the sign of `strcmp` on the two texts |
| `UniqueStrings.ShortcutAgreesWithCompare` | Classes/Naga/UniqueString.h:134-151 | the address shortcut of `<=` and `>=` never changes the answer `strcmp` would give |
| `UniqueStrings.SameBufferSameText` | Classes/Naga/UniqueString.h:110-121 | two strings at the same address hold the same text |
| `UniqueStrings.CaseInsensitiveEqual` | Classes/Naga/UniqueString.h:91-97 | texts differing only in letter case compare equal without case |
| `UniqueStrings.HashCollision` | Classes/Naga/UniqueString.cpp:39-40 | "Aa" and "BB" share the hash 2112 |
| `Interner.UniqueStringManager.constructor` | Classes/Naga/UniqueString.cpp:141-148 | one fresh buffer, no strings, empty table |
| `Interner.UniqueStringManager.Alloc` | Classes/Naga/UniqueString.cpp:121-128 | a fresh 1024-byte buffer is appended and becomes the current one, filled from 0 |
| `Interner.UniqueStringManager.Search` | Classes/Naga/UniqueString.cpp:210-219 | the bucket scan finds the entry with the text, and finds nothing iff no entry holds it |
| `Interner.UniqueStringManager.Find` | Classes/Naga/UniqueString.cpp:205-223 | the lookup without change: non-null iff the text is interned, and then the entry holding it |
| `Interner.UniqueStringManager.FindAsWritten` | Classes/Naga/UniqueString.cpp:205-223 | a null string is scanned as the empty string and reaches `strcmp` with a null pointer exactly when "" is interned |
| `Interner.UniqueStringManager.AddString` | Classes/Naga/UniqueString.cpp:255-277 | a fresh buffer is started when `bufNext + len + 1 >= bufLength`; the text and terminator are copied; `bufNext` advances by `len + 1`; exactly one entry joins the hash bucket; `mCount` grows by one |
| `Interner.UniqueStringManager.CopyText` | Classes/Naga/UniqueString.cpp:265-267 | the copy loop writes the text and its terminator at `bufNext` and leaves earlier strings intact |
| `Interner.UniqueStringManager.Register` | Classes/Naga/UniqueString.cpp:270-274 | the new string is appended to its bucket and counted |
| `Interner.UniqueStringManager.Intern` | Classes/Naga/UniqueString.cpp:228-250 | null gives null and no change; a hit returns the existing entry and changes nothing (table, buffers, `mCount`); only a miss adds an entry |
| `Interner.UniqueStringManager.Count` | Classes/Naga/UniqueString.cpp:191-193 | as written: the number of hash buckets |
| `Interner.UniqueStringManager.StringCount` | Classes/Naga/UniqueString.cpp:276 | `mCount` is the number of unique strings |
| `Interner.Canonical` | Classes/Naga/UniqueString.cpp:228-250 | the interner is pointer-canonical: two entries hold the same text iff they are the same object |
| `Interner.EqualityIsContent` | Classes/Naga/UniqueString.cpp:228-250 | for interned strings the address test `==` holds iff the texts are equal |
| `Interner.InternTwice` | Classes/Naga/UniqueString.cpp:236-249 | interning the same text twice returns the identical object |
| `Interner.CollidingStrings` | Classes/Naga/UniqueString.cpp:191-193 | after interning "Aa" and "BB", `Count()` is 1 while there are 2 strings |
| `Interner.NullFindAfterEmptyString` | Classes/Naga/UniqueString.cpp:205-223 | once "" is interned, `Find(nullptr)` as written reaches `strcmp` with a null pointer; the corrected lookup returns null |
| `Globals.ManagerSingleton.constructor` | Classes/Naga/Singleton.h:91-92 | the instance pointer starts null |
| `Globals.ManagerSingleton.InstancePtr` | Classes/Naga/Singleton.h:73-81 | creates the instance only when the pointer is null (the constructor's assertion holds there); otherwise returns the stored one |
| `Globals.ManagerSingleton.Instance` | Classes/Naga/Singleton.h:86-88 | the object `InstancePtr()` returns |
| `Globals.ManagerSingleton.Destroy` | Classes/Naga/Singleton.h:65-67 | the pointer is cleared |
| `Globals.InstanceTwice` | Classes/Naga/Singleton.h:57-81 | two calls with no destruction between them give the same instance; after a destruction a new one is created |
| `Globals.Intern` | Classes/Naga/UniqueString.cpp:282-286 | the global `Intern` interns through the singleton manager, creating it on first use |
| `Globals.InterfaceIDCache.InterfaceID` | Classes/Naga/InterfaceID.h:86-90 | the first call interns the tag; every later call returns the same pointer |
| `Globals.InterfaceIDsAgree` | Classes/Naga/InterfaceID.h:86-90 | two classes get the identical ID iff their tags spell the same text |
| `BitStatus.StatusConstants` | Classes/Naga/BitStatus.h:31-47 | `kNone = kUninitialized = 0`, `kInitialized = kRealized = 1`, `kIdle = 2`, `kAlive = 4`, `kUserDefined = 8` |
| `BitStatus.BitStatus.constructor` | Classes/Naga/BitStatus.h:63 | the status is the initial value |
| `BitStatus.BitStatus.Set` | Classes/Naga/BitStatus.h:175-178 | ORs the flags in; afterwards they are all set |
| `BitStatus.BitStatus.Unset` | Classes/Naga/BitStatus.h:199-202 | clears exactly the flags; afterwards none of them is set |
| `BitStatus.BitStatus.SetTo` | Classes/Naga/BitStatus.h:183-186 | `Set(p)` when the flag argument is true, `Unset(p)` otherwise |
| `BitStatus.BitStatus.Clear` | Classes/Naga/BitStatus.h:191-194 | the status is 0 and not dirty |
| `BitStatus.BitStatus.AndAssign` | Classes/Naga/BitStatus.h:125-130 | the AND-assignment stores what the AND operator returns |
| `BitStatus.BitStatus.OrAssign` | Classes/Naga/BitStatus.h:133-138 | the OR-assignment stores what the OR operator returns |
| `BitStatus.OtherBitsUnchanged` | Classes/Naga/BitStatus.h:175-202 | `Set` and `Unset` leave every bit outside the flags as it was |
| `BitStatus.BitStatus.IsSet` | Classes/Naga/BitStatus.h:207-210 | `IsSet(p)` holds iff every bit of `p` is set in the status |
| `BitStatus.BitStatus.IsAnySet` | Classes/Naga/BitStatus.h:215-218 | `IsAnySet(p)` holds iff some bit of `p` is set in the status |
| `BitStatus.BitStatus.IsDirty` | Classes/Naga/BitStatus.h:165 | `IsDirty()` holds iff some bit of the status is set |
| `BitStatus.BitStatus.And` | Classes/Naga/BitStatus.h:109-112 | bit `i` of the result is set iff it is set in both the status and the operand |
| `BitStatus.BitStatus.Or` | Classes/Naga/BitStatus.h:117-120 | bit `i` of the result is set iff it is set in the status or in the operand |
| `BitStatus.EmptyProp` | Classes/Naga/BitStatus.h:207-218 | `IsSet(0)` always holds and `IsAnySet(0)` never does |
| `Utility.LowerByte` | Classes/Naga/Utility.h:71 | the C-locale `tolower` changes 'A'..'Z' only |
| `Utility.ToLower` | Classes/Naga/Utility.h:75-87 | the copying overloads, `transform(..., ::tolower)` over a whole string: same length, each character the C-locale lower case of the input's character at that position (non-letters kept), and no upper-case letter left |
| `Utility.ToLowerIdempotent` | Classes/Naga/Utility.h:69-87 | lowering twice equals lowering once |
| `Utility.ToLowerInPlace` | Classes/Naga/Utility.h:69-73 | the in-place overload: the argument's characters become their lower-case forms |
| `Utility.FindLastSlash` | Classes/Naga/Utility.h:94 | `find_last_of("/")`: npos iff there is no '/', otherwise the index of the last one |
| `Utility.FileNameNoSlash` | Classes/Naga/Utility.h:95-96 | a path without '/' is its own file name |
| `Utility.FileName` | Classes/Naga/Utility.h:92-98 | the file name is a suffix of the path, holds no '/', and a '/' precedes it when the path has one: exactly the part after the last '/' |
| `Utility.WidenString` | Classes/Naga/Utility.h:56-59 | element-wise widening, preserving length |
| `Utility.NarrowString` | Classes/Naga/Utility.h:61-64 | element-wise narrowing, preserving length |
| `Utility.NarrowWidenRoundTrip` | Classes/Naga/Utility.h:56-64 | narrowing a widened string gives it back |

## Left out

- The platform allocators (`_aligned_malloc`, `malloc`, `free`, the global `operator new` and `delete`) are parameters or results. Their answer is passed in, and a released block is returned in a list.
- Real address arithmetic is not modelled beyond the block leader. Cells are block and offset pairs, and the header and link are taken to be 8 bytes, as on a 64-bit target.
- `MemPool.MemoryPool.Alloc` requires a block handed out by the platform allocator to be new to the pool. The platform guarantees this, and the code relies on it.
- `MemPool.MemoryPool.Free` requires the item to be a cell that is currently handed out. The code does not check this; a foreign or double free corrupts the list.
- The reference count, the class counters and the pool counters are unbounded integers. The model does not wrap them at 32 bits.
- `UniqueStrings.UniqueString` does not model its `Object` base class or its reference count. It is modelled only as the string it holds. The interner's table holds `SmartPointer`s to its strings, and that reference traffic is not modelled either.
- `SmartPointers.SmartPointer` is modelled for handles to `Object` only. The templated element type is not modelled.
- `UniqueStrings.UniqueString.Compare` does not model the null `mpBuffer` that the destructor leaves behind. No live string has a null buffer.
- `Interner.UniqueStringManager.Find` and `Intern` read the cached hash through `HashCodeValue`. They do not model the cache write that `HashCode()` may make during a lookup. That write happens only for an entry whose hash is 0, such as "", and it stores the value already cached.
- The manager's destructor, which nulls the buffer pointer and sets `mBufNext` to -1, is not modelled. Destroying the singleton only resets its pointer.
- `Interner.UniqueStringManager.Intern` requires a text shorter than the 1024-byte buffer. The source does not check this, and a longer string overflows the buffer.
- `Globals.InterfaceIDCache.InterfaceID` requires its cached ID to be an entry of the current manager. After the manager is destroyed, the source's static pointer dangles.
- `strcmp` is modelled by the sign of its result. The runtime only tests the sign.
- `BitStatus.BitStatus` models `BitStatus<unsigned int>` (`UTxBitStatus32`) only. The 16-bit and 64-bit instances `UTxBitStatus16` and `UTxBitStatus64` behave the same on their own word widths and are not modelled.
- `Utility.WidenString` and `Utility.NarrowString` take `wchar_t` as a 32-bit signed value. On the Win32 target it is 16-bit unsigned. The sign extension of bytes 128..255 then wraps to 0xFF80..0xFFFF, and narrowing still keeps the low eight bits, so the round trip holds on both.
- `Utility.LowerByte` and `UniqueStrings.UniqueString.CompareNoCase` assume the "C" locale, where `tolower` changes only 'A'..'Z'. On a signed-`char` target, bytes 128..255 reach `::tolower` as negative values, which C leaves undefined; the model maps them to themselves.
- `MemPool.MemoryPool.constructor`, `MemPool.TypedPool.constructor` and `MemPool.PooledClass.constructor` require a positive number of objects per block. The source never checks this; the count is a template constant. With a count of 0 the cursor would go negative, and allocations would return memory in front of the block's cells.
- Thread safety: the source has no synchronisation, and none is modelled.
- `Classes/Naga/Utility.cpp` is not part of this model. It only prints diagnostics.
- `RefCounted.h` is not part of this model. It declares the abstract contract that `Object` implements.

## Findings

| source | as written | input that shows it | evidently intended | confidence | as-written member | corrected member |
|---|---|---|---|---|---|---|
| Classes/Naga/UniqueString.cpp:191-193 | `Count()` returns `mStringTable.size()`, the number of hash buckets, although it is documented as the number of unique strings; `mCount` is kept but never read | intern "Aa" then "BB" (both hash to 2112): `Count()` is 1 while there are 2 strings | return `mCount` | high, not executed | `Interner.CollidingStrings` | `Interner.UniqueStringManager.StringCount` |
| Classes/Naga/UniqueString.cpp:205-223 | `Find(nullptr)` is not guarded like `Intern`: the null string gets hash 0 and length 0, and the bucket scan calls `strcmp(buffer, nullptr)` on the entry for "" | intern "", then call `Find(nullptr)` | return null for a null string, as `Intern` does | medium, not executed | `Interner.NullFindAfterEmptyString` | `Interner.UniqueStringManager.Find` |
