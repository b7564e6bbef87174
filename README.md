# DynamicArray over a recycling memory resource, in Dafny

This project models the two components of the repository that hold its
logic, and proves what they promise.

- `CustomMemoryResource` (`memory_resource.dfy`, module `MemoryResource`) is a
  memory resource that keeps two tables. One maps each live block's address to
  the shape (bytes, alignment) it was allocated with. The other maps each shape
  to a stack of freed addresses. Allocation reuses the most recently freed
  block of exactly the requested shape, and otherwise takes a fresh block from
  the system. Deallocation refuses an address that is not live. Otherwise it
  moves the block to the stack of the shape recorded for it. The destructor
  hands every block it ever obtained back to the system.
- `DynamicArray<T>` (`dynamic_array.dfy`, module `Container`) is a growable
  array. It keeps a buffer, a size and a capacity, and takes its buffer from
  the memory resource. When the buffer is full it doubles the capacity (the
  first buffer holds 2 elements). `at` and `erase` throw `out_of_range`. Erase
  shifts the later elements down. `reserve` reallocates and copies. Moving an
  array hands over its buffer.

`outcomes.dfy` (module `Outcomes`) holds the exceptions as values (`Error`,
`Result`, `Outcome`) and `Option`, which stands for a pointer that may be null.
Module `ContainerScenarios` (in `dynamic_array.dfy`) replays the repository's
move-assignment test through the contracts alone: two arrays on one resource,
each owning its own buffer.

How the model is built:

- The resource's transitions are functions on a value `State(liveBlocks,
  freeBlocks, nextFresh)`: `Allocate`, `Deallocate`, and the invariant
  `Consistent` that both preserve. The class `CustomMemoryResource` keeps the
  same tables as map fields and updates them in place. Its methods are proved
  to follow those functions.
- The source's `allocated` table is the field `liveBlocks`, because `allocated`
  is a reserved word in Dafny.
- `::operator new` is a counter. The k-th fresh block has address k, so the
  addresses ever issued are exactly `[0, nextFresh)`, and `nextFresh` counts
  the system allocations. The table `issued` records, per address, the shape
  (bytes, alignment) the system was asked for when it issued the block.
- The invariant `Consistent` says that every issued block is live or pooled,
  never both, and pooled at most once. It also says that each block is
  recorded, live or pooled, with the shape the system issued it for. So a
  reused block was issued for exactly the shape requested, and the
  destructor's aligned `::operator delete` matches the `::operator new`.
- `DynamicArray` is a class over an `array<T>` with fields `sz`, `cap` and
  `block`. `block` is the buffer's address in the resource, or `None` for the
  null pointer. Every `reserve` that grows the buffer is stated as one
  `Allocate` of the new shape followed by one `Deallocate` of the old buffer,
  applied to the resource's tables (predicate `Regrown`).
- A buffer of `n` elements is a block of shape `(n * elemSize, elemAlign)`.
  `elemSize` and `elemAlign` stand for `sizeof(T)` and `alignof(T)` and are
  given to the constructor.
- An exception is a returned `Err`/`Fail` value, and the state is unchanged
  when it is thrown.

## Model

| member | source | states |
|---|---|---|
| `MemoryResource.Initial` | include/MemoryResource.h:23-29 | a resource that has allocated nothing has no live and no pooled block and satisfies the ownership invariant |
| `MemoryResource.Allocate` | src/MemoryResource.cpp:8-31 | the returned address is recorded as live with the requested (bytes, alignment); if the pool of that shape is non-empty the result is its last element, the pool loses exactly that element and no system allocation happens; otherwise the result is a fresh address, the system-allocation count grows by one and the address is recorded as issued for the requested shape; every other pool is unchanged |
| `MemoryResource.Deallocate` | src/MemoryResource.cpp:33-48 | fails with `InvalidFree` exactly when the address is not live; otherwise the address leaves the live table and is pushed onto the pool of the shape recorded for it, every other pool is unchanged and no system call happens |
| `MemoryResource.AllocatePreservesConsistent` | src/MemoryResource.cpp:8-31 | from a consistent state, allocation never returns a live or still-pooled address, returns an address the system issued for exactly the requested shape (a reused block is as good as a fresh one), and keeps the invariant: every issued address is live or pooled, never both, pooled at most once, and recorded with the shape it was issued for |
| `MemoryResource.DeallocatePreservesConsistent` | src/MemoryResource.cpp:37-44 | from a consistent state, freeing a live address succeeds, leaves the address in a pool and keeps the same invariant |
| `MemoryResource.DeallocateIgnoresCallerShape` | src/MemoryResource.cpp:34-35 | the bytes and alignment passed to deallocation do not affect the outcome |
| `MemoryResource.RoundTrip` | src/MemoryResource.cpp:8-48 | allocate, deallocate the returned address, and allocate the same shape again: the free succeeds, the second allocation returns the same address with no new system allocation, and the live table and every pool end as after the first allocation |
| `MemoryResource.CustomMemoryResource.constructor` | include/MemoryResource.h:14 | a new resource has empty tables and satisfies the invariant |
| `MemoryResource.CustomMemoryResource.DoAllocate` | src/MemoryResource.cpp:8-31 | the in-place update of the two maps (pop of the stack, or fresh address) yields exactly `Allocate`'s state and address and keeps the invariant |
| `MemoryResource.CustomMemoryResource.DoDeallocate` | src/MemoryResource.cpp:33-48 | throws `InvalidFree` exactly when the address is not live, with the tables unchanged; otherwise the in-place erase and push yield exactly `Deallocate`'s state; the invariant is kept |
| `MemoryResource.CustomMemoryResource.DoIsEqual` | src/MemoryResource.cpp:50-52 | two resources are equal exactly when they are the same object |
| `MemoryResource.CustomMemoryResource.Destroy` | src/MemoryResource.cpp:54-67 | the destructor releases every address ever obtained from the system, live or pooled, each exactly once, and passes for each the alignment the system issued it with |
| `Container.GrownCapacity` | include/DynamicArray.h:194-198 | the capacity chosen when the buffer is full is larger than the old one and at least 2; it is twice the old one when the old one was non-zero |
| `Container.RemovedShifts` | include/DynamicArray.h:162-175 | after erasing index i, the elements before i stay put, every later one moves down by one, the length drops by one, and exactly one copy of the erased element is gone |
| `Container.DynamicArray.constructor` | include/DynamicArray.h:15-17 | a new array has no elements, capacity 0 and no buffer, uses the given resource, and owns a storage object no other array shares |
| `Container.DynamicArray.Destroy` | include/DynamicArray.h:71-74 | the destructor destroys all elements and, if a buffer is held, deallocates it once from the resource; with no buffer the resource is untouched |
| `Container.DynamicArray.MoveFrom` | include/DynamicArray.h:79-87 | the new array takes over the source's buffer, contents, size and capacity; the source ends empty with capacity 0, no buffer, a storage object of its own, and still valid, so it can be used again |
| `Container.DynamicArray.MoveAssign` | include/DynamicArray.h:90-102 | self-move changes nothing and keeps the same buffer; otherwise the target's old buffer is deallocated once, the target takes over the source's buffer and contents, and the source ends empty with capacity 0, no buffer and a storage object of its own |
| `Container.DynamicArray.PushBack` | include/DynamicArray.h:104-114 | the contents become the old contents with the value appended; with room left the buffer, capacity and resource are unchanged; with a full buffer the array gets a new buffer of its own whose capacity is `GrownCapacity` of the old one, through one allocation and one release of the old buffer |
| `Container.DynamicArray.EmplaceBack` | include/DynamicArray.h:116-121 | as `PushBack`, with the appended element built from the arguments |
| `Container.DynamicArray.Size` | include/DynamicArray.h:123 | the size is the number of live elements |
| `Container.DynamicArray.Capacity` | include/DynamicArray.h:124 | the capacity is the number of slots of the buffer and is at least the size |
| `Container.DynamicArray.Empty` | include/DynamicArray.h:153 | true exactly when there are no live elements |
| `Container.DynamicArray.Get` | include/DynamicArray.h:126-132 | for an index below the size, returns the live element at that index |
| `Container.DynamicArray.Put` | include/DynamicArray.h:126-128 | writing through `operator[]` replaces exactly the element at that index |
| `Container.DynamicArray.At` | include/DynamicArray.h:134-142 | throws `OutOfRange` exactly when the index is not below the size; otherwise returns the element at that index |
| `Container.DynamicArray.Traverse` | include/DynamicArray.h:144-151 | stepping an iterator from `begin` (position 0, `Begin`) to `end` (one past the last live element, `End`) visits exactly the live elements, in index order |
| `Container.DynamicArray.Clear` | include/DynamicArray.h:155-159 | no live elements remain; buffer and capacity stay, the resource is not called and the array stays valid |
| `Container.DynamicArray.Erase` | include/DynamicArray.h:162-175 | throws `OutOfRange` exactly when the index is not below the size, changing nothing; otherwise the contents lose exactly that element with the order of the rest kept; buffer and capacity unchanged |
| `Container.DynamicArray.Reserve` | include/DynamicArray.h:177-191 | a request not above the capacity changes nothing; otherwise the capacity becomes exactly the request, the contents are unchanged and in order, a new buffer is allocated once and the old one, if any, is deallocated once |
| `Container.RegrownKeepsOtherBlocks` | include/DynamicArray.h:177-191 | when one array grows, every other live block of the resource stays live with its recorded shape and the new buffer is none of them, so arrays sharing a resource never share a buffer |
| `ContainerScenarios.MoveAssignment` | test/test.cpp:269-286 | on one resource, `source` holding 10, 20 moved onto `target` holding 5 leaves `target` with 10, 20 and `source` empty |
| `Container.MoveElements` | include/DynamicArray.h:182-185 | the element loop of `reserve` leaves the new buffer's first `size` slots equal to the old live elements, in order |
| `Container.DynamicArray.EnsureCapacity` | include/DynamicArray.h:194-198 | afterwards the size is below the capacity; the buffer grows only when it was full, to `GrownCapacity` of the old capacity |

`sz <= cap`, `cap == data.Length` and "a buffer is held exactly when
`cap > 0`" are the container's invariant `Inv`. Its `Valid` adds that the
held buffer is a live block of the resource, recorded with the buffer's shape,
and that the resource is consistent. Every method that changes the array keeps
`Valid`, except the destructor `Destroy`, after which the object is gone.
`cbegin`/`cend` and the const overloads of `begin`/`end`/`operator[]` are the
same positions and reads as `Begin`, `End` and `Get`.

## Left out

- Logging through `MR_LOG_ENABLED` and every console line: a diagnostic side channel with no effect on the tables.
- Real `::operator new`/`::operator delete`: a counter gives fresh addresses, and `Destroy` returns the addresses it releases, with the alignment passed for each, instead of calling the system. Addresses are therefore only meaningful within one resource, whether an address is actually aligned is not modelled (only the shape asked for is recorded in `issued`), and out-of-memory is not modelled.
- The order in which the resource's destructor walks its two maps (ascending keys in `std::map`): the model releases the live blocks first and then the pools, shape by shape, but picks keys in no particular order.
- `polymorphic_allocator` byte arithmetic and object lifetimes: elements are values, `construct` is an assignment and `destroy` does nothing, so `clear` needs no loop. The slot in `erase` that is moved into after being destroyed is modelled only by the sequence that results.
- Container.DynamicArray.MoveAssign: requires both arrays to use the same resource. The source keeps the target's own resource while adopting the source's buffer, and only the same-resource case is exercised. It also requires that two distinct arrays do not own the same buffer, which C++ ownership guarantees and the model cannot see.
- Container.DynamicArray.Destroy: leaves the fields as they are, so the object no longer satisfies `Valid`; the source's object is gone at that point.
- The constructor's default argument `std::pmr::get_default_resource()`: the model's constructor always takes the resource explicitly.
- Iterators are positions (`nat`) into `[0, size)`; pointer arithmetic and invalidation on mutation are not modelled.
- `main.cpp`, `include/Person.h` and the counting decorator in the tests are not part of this model. The decorator counts every `do_allocate` and `do_deallocate` call, reuses included; the model has no such count. `nextFresh` counts only the calls to `::operator new`.
- Container.DynamicArray.PushBack: takes the new element by value. In the C++ code, `push_back` first makes room, and on a full array `reserve` moves every element out and destroys it. A reference into the array itself, as in `arr.push_back(arr[0])`, then reads a destroyed object, which is undefined behaviour; the model appends the original value.
- Container.DynamicArray.EmplaceBack: takes the constructor arguments by value, so `arr.emplace_back(arr[0])` on a full array appends the original element; in the C++ code the argument refers into the buffer that `reserve` has already moved out and destroyed, which is the same undefined behaviour as for `PushBack`.
- Container.DynamicArray: the element type must have a default value (`T(0)`), because a Dafny array is initialised when it is created. The source needs no default constructor, since it allocates raw storage.
- Container.GrownCapacity: the doubling `cap * 2` is on unbounded integers. The source's `size_t` product wraps past 2^64, which only a capacity above 2^63 could reach.
