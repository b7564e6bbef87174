/** `DynamicArray<T>`: a growable array whose buffer comes from a
    `CustomMemoryResource`. The buffer is a Dafny array; the address under
    which the resource knows it is kept beside it, so that every growth and
    every release shows up as calls on the resource's tables. */
module Container {
  import opened Outcomes
  import opened MemoryResource

  /** The capacity `ensure_capacity` asks for when the buffer is full:
      2 for an empty array, twice the old capacity otherwise. */
  function GrownCapacity(cap: nat): (r: nat)
    ensures r > cap && r >= 2
    ensures cap == 0 ==> r == 2
    ensures cap > 0 ==> r == 2 * cap
  {
    if cap == 0 then 2 else cap * 2
  }

  /** The live elements after erasing the one at `index`. */
  function Removed<T>(s: seq<T>, index: nat): (r: seq<T>)
    requires index < |s|
  {
    s[..index] + s[index + 1..]
  }

  /** Erasing removes exactly one occurrence of the erased element, keeps
      the elements before it where they were and moves every later one down
      by one place. */
  lemma RemovedShifts<T>(s: seq<T>, index: nat)
    requires index < |s|
    ensures |Removed(s, index)| == |s| - 1
    ensures forall j :: 0 <= j < index ==> Removed(s, index)[j] == s[j]
    ensures forall j :: index <= j < |s| - 1 ==> Removed(s, index)[j] == s[j + 1]
    ensures multiset(Removed(s, index)) + multiset{s[index]} == multiset(s)
  {
    assert s == s[..index] + [s[index]] + s[index + 1..];
  }

  /** The allocator traffic of one `reserve` that grows the buffer: an
      allocation for the new buffer, which became `newBlock`, followed by
      the deallocation of the old buffer when there was one. */
  ghost predicate Regrown(before: State, oldBlock: Option<Addr>, oldShape: Shape,
                          newShape: Shape, newBlock: Addr, after: State)
  {
    var a := Allocate(before, newShape.0, newShape.1);
    && a.addr == newBlock
    && match oldBlock
       case None => after == a.state
       case Some(p) => Deallocate(a.state, p, oldShape.0, oldShape.1) == Ok(after)
  }

  /** A growth leaves every other live block of the resource live with the
      shape recorded for it, and the new buffer is none of them: buffers of
      distinct arrays on one resource stay distinct. */
  lemma RegrownKeepsOtherBlocks(before: State, oldBlock: Option<Addr>, oldShape: Shape,
                                newShape: Shape, newBlock: Addr, after: State, p: Addr)
    requires Consistent(before)
    requires Regrown(before, oldBlock, oldShape, newShape, newBlock, after)
    requires p in before.liveBlocks && oldBlock != Some(p)
    ensures p != newBlock
    ensures p in after.liveBlocks && after.liveBlocks[p] == before.liveBlocks[p]
  {
    AllocatePreservesConsistent(before, newShape.0, newShape.1);
  }

  /** The element loop of `reserve`: the first `n` elements of `src` are
      constructed, in order, in the new buffer `dst`. */
  method MoveElements<T>(src: array<T>, dst: array<T>, n: nat)
    requires n <= src.Length && n <= dst.Length && src != dst
    modifies dst
    ensures dst[..n] == src[..n]
  {
    for i := 0 to n
      invariant dst[..i] == src[..i]
    {
      dst[i] := src[i];
    }
  }

  class DynamicArray<T(0)> {
    /** The memory resource behind the array's allocator. */
    const mr: CustomMemoryResource
    /** `sizeof(T)` and `alignof(T)`: a buffer of `n` elements is a block of
        shape `(n * elemSize, elemAlign)`. */
    const elemSize: nat
    const elemAlign: nat

    /** The buffer; slots `[0, sz)` hold the live elements. */
    var data: array<T>
    var sz: nat
    var cap: nat
    /** The buffer's address in `mr`, or None for the null pointer. */
    var block: Option<Addr>

    function BufferShape(n: nat): Shape
    {
      (n * elemSize, elemAlign)
    }

    /** The container's own invariant. */
    ghost predicate Inv()
      reads this
    {
      && sz <= cap
      && cap == data.Length
      && (block.Some? <==> cap > 0)
    }

    /** The container's invariant, and its buffer is a live block of `mr`
        recorded with the buffer's shape. */
    ghost predicate Valid()
      reads this, mr
    {
      && Inv()
      && mr.Valid()
      && (block.Some? ==>
            && block.value in mr.liveBlocks
            && ShapeOf(mr.liveBlocks[block.value]) == BufferShape(cap))
    }

    ghost function Contents(): seq<T>
      reads this, data
      requires Inv()
    {
      data[..sz]
    }

    /** The constructor: no elements, no capacity, no buffer. */
    constructor (mr: CustomMemoryResource, elemSize: nat, elemAlign: nat)
      requires mr.Valid()
      ensures Valid()
      ensures this.mr == mr && this.elemSize == elemSize && this.elemAlign == elemAlign
      ensures Contents() == [] && cap == 0 && block == None
      ensures fresh(data)
    {
      this.mr := mr;
      this.elemSize := elemSize;
      this.elemAlign := elemAlign;
      data := new T[0];
      sz, cap := 0, 0;
      block := None;
    }

    /** The destructor: destroys the elements and, if there is a buffer,
        returns it to the resource. The object is not used afterwards. */
    method Destroy()
      requires Valid()
      modifies this, mr
      ensures Inv() && Contents() == []
      ensures mr.Valid()
      ensures old(block).None? ==> mr.Model() == old(mr.Model())
      ensures old(block).Some? ==>
                Deallocate(old(mr.Model()), old(block).value, old(cap) * elemSize, elemAlign)
                  == Ok(mr.Model())
    {
      Clear();
      if block.Some? {
        var r := mr.DoDeallocate(block.value, cap * elemSize, elemAlign);
      }
    }

    /** The move constructor: takes over `other`'s buffer, size and
        capacity and leaves `other` empty, without a buffer and usable. */
    constructor MoveFrom(other: DynamicArray<T>)
      requires other.Valid()
      modifies other
      ensures Valid() && other.Valid()
      ensures mr == other.mr && elemSize == other.elemSize && elemAlign == other.elemAlign
      ensures data == old(other.data) && block == old(other.block) && cap == old(other.cap)
      ensures Contents() == old(other.Contents())
      ensures other.Contents() == [] && other.cap == 0 && other.block == None
      ensures fresh(other.data)
    {
      mr := other.mr;
      elemSize := other.elemSize;
      elemAlign := other.elemAlign;
      data := other.data;
      sz := other.sz;
      cap := other.cap;
      block := other.block;
      new;
      other.data := new T[0];
      other.sz, other.cap := 0, 0;
      other.block := None;
    }

    /** Move assignment. Moving an array onto itself changes nothing;
        otherwise this array's elements are destroyed, its buffer goes back
        to the resource, and it takes over `other`'s buffer, which leaves
        `other` empty. Both arrays use the same resource, and two distinct
        arrays never own the same buffer. */
    method MoveAssign(other: DynamicArray<T>)
      requires Valid() && other.Valid()
      requires other.mr == mr && other.elemSize == elemSize && other.elemAlign == elemAlign
      requires other != this && block.Some? ==> other.block != block
      modifies this, other, mr
      ensures Valid() && other.Valid()
      ensures other == this ==>
                && data == old(data) && Contents() == old(Contents())
                && cap == old(cap) && block == old(block)
                && mr.Model() == old(mr.Model())
      ensures other != this ==>
                && Contents() == old(other.Contents())
                && data == old(other.data) && cap == old(other.cap) && block == old(other.block)
                && other.Contents() == [] && other.cap == 0 && other.block == None
                && fresh(other.data)
                && (old(block).None? ==> mr.Model() == old(mr.Model()))
                && (old(block).Some? ==>
                      Deallocate(old(mr.Model()), old(block).value, old(cap) * elemSize, elemAlign)
                        == Ok(mr.Model()))
    {
      if other != this {
        Clear();
        if block.Some? {
          var r := mr.DoDeallocate(block.value, cap * elemSize, elemAlign);
        }
        data, sz, cap, block := other.data, other.sz, other.cap, other.block;
        other.data := new T[0];
        other.sz, other.cap := 0, 0;
        other.block := None;
      }
    }

    /** `push_back` (by copy or by move): makes room if the buffer is full,
        then constructs the new last element. */
    method PushBack(v: T)
      requires Valid()
      modifies this, data, mr
      ensures Valid()
      ensures Contents() == old(Contents()) + [v]
      ensures old(sz) < old(cap) ==>
                && data == old(data) && cap == old(cap) && block == old(block)
                && mr.Model() == old(mr.Model())
      ensures old(sz) == old(cap) ==>
                && fresh(data) && cap == GrownCapacity(old(cap))
                && Regrown(old(mr.Model()), old(block), BufferShape(old(cap)),
                           BufferShape(cap), block.value, mr.Model())
    {
      EnsureCapacity();
      data[sz] := v;
      sz := sz + 1;
    }

    /** `emplace_back(args...)`: like `PushBack`, but the new element is
        built from `args` in place by `build`. */
    method EmplaceBack<A>(build: A -> T, args: A)
      requires Valid()
      modifies this, data, mr
      ensures Valid()
      ensures Contents() == old(Contents()) + [build(args)]
      ensures old(sz) < old(cap) ==>
                && data == old(data) && cap == old(cap) && block == old(block)
                && mr.Model() == old(mr.Model())
      ensures old(sz) == old(cap) ==>
                && fresh(data) && cap == GrownCapacity(old(cap))
                && Regrown(old(mr.Model()), old(block), BufferShape(old(cap)),
                           BufferShape(cap), block.value, mr.Model())
    {
      EnsureCapacity();
      data[sz] := build(args);
      sz := sz + 1;
    }

    function Size(): (n: nat)
      reads this, data
      requires Inv()
      ensures n == |Contents()|
    {
      sz
    }

    function Capacity(): (c: nat)
      reads this, data
      requires Inv()
      ensures c == data.Length && c >= |Contents()|
    {
      cap
    }

    function Empty(): (b: bool)
      reads this, data
      requires Inv()
      ensures b <==> Contents() == []
    {
      sz == 0
    }

    /** `operator[]` read: unchecked, so the index must be in range. */
    function Get(i: nat): (x: T)
      reads this, data
      requires Inv() && i < sz
      ensures x == Contents()[i]
    {
      data[i]
    }

    /** `operator[]` used as an lvalue: overwrites one live element. */
    method Put(i: nat, v: T)
      requires Valid() && i < sz
      modifies data
      ensures Valid()
      ensures Contents() == old(Contents())[i := v]
    {
      data[i] := v;
    }

    /** `at`: checked access, throwing `out_of_range` past the last live
        element. */
    function At(i: nat): (r: Result<T>)
      reads this, data
      requires Inv()
      ensures r.Err? <==> i >= |Contents()|
      ensures r.Err? ==> r.error == OutOfRange
      ensures r.Ok? ==> r.value == Contents()[i]
    {
      if i >= sz then Err(OutOfRange) else Ok(data[i])
    }

    /** `begin`: the iterator at the first slot. */
    function Begin(): (it: nat)
      ensures it == 0
    {
      0
    }

    /** `end`: the iterator one past the last live element. */
    function End(): (it: nat)
      reads this, data
      requires Inv()
      ensures it == |Contents()|
    {
      sz
    }

    /** A range-for loop over `[begin(), end())`: visits exactly the live
        elements, in index order. */
    method Traverse() returns (visited: seq<T>)
      requires Inv()
      ensures visited == Contents()
    {
      visited := [];
      var it := Begin();
      while it != End()
        invariant 0 <= it <= sz
        invariant visited == data[..it]
        decreases sz - it
      {
        visited := visited + [Get(it)];
        it := it + 1;
      }
    }

    /** `clear`: destroys every element; capacity and buffer stay and the
        resource is not called. */
    method Clear()
      requires Valid()
      modifies this
      ensures Valid()
      ensures Contents() == []
      ensures data == old(data) && cap == old(cap) && block == old(block)
    {
      sz := 0;
    }

    /** `erase`: throws `out_of_range` for an index past the last live
        element; otherwise shifts the later elements down one slot. The
        capacity never shrinks. */
    method Erase(index: nat) returns (r: Outcome)
      requires Valid()
      modifies this, data
      ensures Valid()
      ensures r == (if index < old(sz) then Pass else Fail(OutOfRange))
      ensures index < old(sz) ==> Contents() == Removed(old(Contents()), index)
      ensures old(sz) <= index ==> Contents() == old(Contents())
      ensures data == old(data) && cap == old(cap) && block == old(block)
    {
      if index >= sz {
        return Fail(OutOfRange);
      }
      ghost var before := data[..sz];
      var i := index;
      while i + 1 < sz
        modifies data
        invariant index <= i < sz
        invariant forall j :: 0 <= j < index ==> data[j] == before[j]
        invariant forall j :: index <= j < i ==> data[j] == before[j + 1]
        invariant forall j :: i < j < sz ==> data[j] == before[j]
      {
        data[i] := data[i + 1];
        i := i + 1;
      }
      sz := sz - 1;
      assert data[..sz] == before[..index] + before[index + 1..];
      r := Pass;
    }

    /** `reserve`: a request no larger than the capacity does nothing.
        Otherwise one allocation of exactly `newCapacity` elements, the live
        elements copied across in order, and one deallocation of the old
        buffer if there was one. */
    method Reserve(newCapacity: nat)
      requires Valid()
      modifies this, mr
      ensures Valid()
      ensures Contents() == old(Contents())
      ensures newCapacity <= old(cap) ==>
                && data == old(data) && cap == old(cap) && block == old(block)
                && mr.Model() == old(mr.Model())
      ensures old(cap) < newCapacity ==>
                && fresh(data) && cap == newCapacity
                && Regrown(old(mr.Model()), old(block), BufferShape(old(cap)),
                           BufferShape(newCapacity), block.value, mr.Model())
    {
      if newCapacity <= cap {
        return;
      }
      ghost var elements := Contents();
      var addr := mr.DoAllocate(newCapacity * elemSize, elemAlign);
      var newData := new T[newCapacity];
      MoveElements(data, newData, sz);
      assert newData[..sz] == elements;
      if block.Some? {
        var r := mr.DoDeallocate(block.value, cap * elemSize, elemAlign);
      }
      data, cap, block := newData, newCapacity, Some(addr);
    }

    /** `ensure_capacity`: grows the buffer only when it is full. */
    method EnsureCapacity()
      requires Valid()
      modifies this, mr
      ensures Valid()
      ensures sz < cap
      ensures Contents() == old(Contents())
      ensures old(sz) < old(cap) ==>
                && data == old(data) && cap == old(cap) && block == old(block)
                && mr.Model() == old(mr.Model())
      ensures old(sz) == old(cap) ==>
                && fresh(data) && cap == GrownCapacity(old(cap))
                && Regrown(old(mr.Model()), old(block), BufferShape(old(cap)),
                           BufferShape(cap), block.value, mr.Model())
    {
      if sz < cap {
        return;
      }
      Reserve(GrownCapacity(cap));
    }
  }
}

module ContainerScenarios {
  import opened Outcomes
  import opened MemoryResource
  import opened Container

  /** A new array of 4-byte ints on `mem` after one `push_back(x)`: its
      first buffer, of two elements, is the one allocation on `mem`. */
  method NewWithOne(mem: CustomMemoryResource, x: int) returns (a: DynamicArray<int>)
    requires mem.Valid()
    modifies mem
    ensures fresh(a) && fresh(a.data)
    ensures a.Valid() && a.mr == mem && a.elemSize == 4 && a.elemAlign == 4
    ensures a.Contents() == [x] && a.cap == 2 && a.block.Some?
    ensures Regrown(old(mem.Model()), None, (0, 4), (8, 4), a.block.value, mem.Model())
  {
    a := new DynamicArray<int>(mem, 4, 4);
    a.PushBack(x);
  }

  /** The set-up of the move-assignment test: on one resource, `source`
      holds 10, 20 and `target` holds 5, each in a buffer of its own. */
  method SourceAndTarget(mem: CustomMemoryResource)
    returns (source: DynamicArray<int>, target: DynamicArray<int>)
    requires mem.Valid()
    modifies mem
    ensures fresh(source) && fresh(source.data) && fresh(target) && fresh(target.data)
    ensures source.Valid() && target.Valid()
    ensures source.mr == mem && target.mr == mem
    ensures source.elemSize == target.elemSize && source.elemAlign == target.elemAlign
    ensures source.Contents() == [10, 20] && target.Contents() == [5]
    ensures target.block.Some? ==> source.block != target.block
  {
    source := NewWithOne(mem, 10);
    source.PushBack(20);
    ghost var beforeTarget := mem.Model();
    target := NewWithOne(mem, 5);
    RegrownKeepsOtherBlocks(beforeTarget, None, (0, 4), (8, 4),
                            target.block.value, mem.Model(), source.block.value);
  }

  /** `target = std::move(source)` between two arrays on one resource:
      the target ends with 10, 20 and the source ends empty. */
  method MoveAssignment() returns (first: int, second: int, targetSize: nat, sourceSize: nat)
    ensures first == 10 && second == 20 && targetSize == 2 && sourceSize == 0
  {
    var mem := new CustomMemoryResource();
    var source, target := SourceAndTarget(mem);
    target.MoveAssign(source);
    first, second := target.Get(0), target.Get(1);
    targetSize, sourceSize := target.Size(), source.Size();
  }
}
