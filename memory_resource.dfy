/** The recycling memory resource: a table of live blocks and, per block
    shape, a stack of freed blocks that later requests of the same shape
    reuse before asking the system for fresh memory.

    The transitions are first stated as functions on a `State` value
    (`Allocate`, `Deallocate`) together with the invariant `Consistent`
    they preserve; the class `CustomMemoryResource` then updates its maps in
    place and is proved to follow those functions. */
module MemoryResource {
  import opened Outcomes

  /** An address handed out by the system allocator. The system allocator
      is modelled as a counter: the k-th fresh block has address k. */
  type Addr = nat

  /** The key of a free pool: (size in bytes, alignment). */
  type Shape = (nat, nat)

  /** What the resource records about a live block. */
  datatype BlockInfo = BlockInfo(size: nat, alignment: nat)

  function ShapeOf(info: BlockInfo): Shape
  {
    (info.size, info.alignment)
  }

  /** The resource's tables, and the system allocator's side: the next
      address it returns (equal to the number of fresh blocks obtained so
      far) and, for every address it returned, the shape it was asked for. */
  datatype State = State(
    liveBlocks: map<Addr, BlockInfo>,
    freeBlocks: map<Shape, seq<Addr>>,
    nextFresh: Addr,
    issued: map<Addr, Shape>)

  /** The state after an allocation, and the address it returned. */
  datatype Allocation = Allocation(state: State, addr: Addr)

  /** The stack of freed blocks of one shape; a shape without an entry has
      an empty stack. */
  function Pool(s: State, key: Shape): seq<Addr>
  {
    if key in s.freeBlocks then s.freeBlocks[key] else []
  }

  /** `a` sits in some free pool. */
  ghost predicate Pooled(s: State, a: Addr)
  {
    exists key :: a in Pool(s, key)
  }

  /** `a` sits in the free pool of some shape outside `keys`. */
  ghost predicate PooledOutside(s: State, a: Addr, keys: set<Shape>)
  {
    exists key :: key !in keys && a in Pool(s, key)
  }

  ghost predicate NoDup<T>(xs: seq<T>)
  {
    forall i, j :: 0 <= i < j < |xs| ==> xs[i] != xs[j]
  }

  /** The live block `a` is recorded with the shape the system issued it
      for. */
  ghost predicate RecordedAsIssued(s: State, a: Addr)
    requires a in s.liveBlocks
  {
    a in s.issued && ShapeOf(s.liveBlocks[a]) == s.issued[a]
  }

  /** The issued block `a` is live, or sits in the pool of the shape the
      system issued it for. */
  ghost predicate Held(s: State, a: Addr)
    requires a in s.issued
  {
    a in s.liveBlocks || a in Pool(s, s.issued[a])
  }

  /** The ownership invariant. The addresses ever obtained from the system
      are exactly `[0, nextFresh)`. A live block is recorded with the shape
      the system issued it for. A pooled block sits only in the pool of the
      shape the system issued it for, at most once, and is not live. Every
      issued block is live or pooled. The clauses on `RecordedAsIssued`
      and `Held` are triggered only where a proof names those predicates,
      so the methods that merely carry the invariant stay cheap to check. */
  ghost predicate Consistent(s: State)
  {
    && (forall a: Addr :: a in s.issued <==> a < s.nextFresh)
    && (forall a :: a in s.liveBlocks ==> a in s.issued)
    && (forall a {:trigger RecordedAsIssued(s, a)} :: a in s.liveBlocks ==> RecordedAsIssued(s, a))
    && (forall key, a :: a in Pool(s, key) ==>
          a in s.issued && s.issued[a] == key && a !in s.liveBlocks)
    && (forall key :: NoDup(Pool(s, key)))
    && (forall a {:trigger Held(s, a)} :: a in s.issued ==> Held(s, a))
  }

  /** A resource that has not allocated anything yet. */
  function Initial(): (s: State)
    ensures Consistent(s)
    ensures forall a: Addr :: a !in s.liveBlocks && !Pooled(s, a)
  {
    State(map[], map[], 0, map[])
  }

  /** `do_allocate(bytes, alignment)`: pop the most recently freed block of
      this exact shape if there is one, otherwise take a fresh block; in both
      cases record the block as live with the requested shape. */
  function Allocate(s: State, bytes: nat, alignment: nat): (r: Allocation)
    ensures r.state.liveBlocks == s.liveBlocks[r.addr := BlockInfo(bytes, alignment)]
    ensures var stack := Pool(s, (bytes, alignment));
            stack != [] ==>
              && r.addr == stack[|stack| - 1]
              && Pool(r.state, (bytes, alignment)) == stack[..|stack| - 1]
              && r.state.nextFresh == s.nextFresh && r.state.issued == s.issued
    ensures Pool(s, (bytes, alignment)) == [] ==>
              && r.addr == s.nextFresh && r.state.nextFresh == s.nextFresh + 1
              && Pool(r.state, (bytes, alignment)) == []
              && r.state.issued == s.issued[r.addr := (bytes, alignment)]
    ensures forall key :: key != (bytes, alignment) ==> Pool(r.state, key) == Pool(s, key)
  {
    var key := (bytes, alignment);
    var stack := Pool(s, key);
    if stack != [] then
      var p := stack[|stack| - 1];
      Allocation(State(s.liveBlocks[p := BlockInfo(bytes, alignment)],
                       s.freeBlocks[key := stack[..|stack| - 1]],
                       s.nextFresh, s.issued), p)
    else
      var p := s.nextFresh;
      Allocation(State(s.liveBlocks[p := BlockInfo(bytes, alignment)],
                       s.freeBlocks,
                       s.nextFresh + 1, s.issued[p := key]), p)
  }

  /** `do_deallocate(p, bytes, alignment)`: refuse an address that is not
      live; otherwise drop it from the live table and push it onto the pool
      of the shape RECORDED for it. The caller's `bytes` and `alignment`
      play no part. */
  function Deallocate(s: State, p: Addr, bytes: nat, alignment: nat): (r: Result<State>)
    ensures r.Err? <==> p !in s.liveBlocks
    ensures r.Err? ==> r.error == InvalidFree
    ensures r.Ok? ==>
              var key := ShapeOf(s.liveBlocks[p]);
              && r.value.liveBlocks == s.liveBlocks - {p}
              && Pool(r.value, key) == Pool(s, key) + [p]
              && (forall other :: other != key ==> Pool(r.value, other) == Pool(s, other))
              && r.value.nextFresh == s.nextFresh && r.value.issued == s.issued
  {
    if p !in s.liveBlocks then
      Err(InvalidFree)
    else
      var key := ShapeOf(s.liveBlocks[p]);
      Ok(State(s.liveBlocks - {p}, s.freeBlocks[key := Pool(s, key) + [p]], s.nextFresh, s.issued))
  }

  /** An allocation never hands out a block that is live or still pooled,
      it hands out a block the system issued for exactly the requested
      shape (a reused block is indistinguishable from a fresh one), and it
      keeps the ownership invariant. */
  lemma AllocatePreservesConsistent(s: State, bytes: nat, alignment: nat)
    requires Consistent(s)
    ensures var r := Allocate(s, bytes, alignment);
            && r.addr !in s.liveBlocks
            && !Pooled(r.state, r.addr)
            && r.addr in r.state.issued && r.state.issued[r.addr] == (bytes, alignment)
            && Consistent(r.state)
  {
    if Pool(s, (bytes, alignment)) != [] {
      ReusePreservesConsistent(s, bytes, alignment);
    } else {
      FreshPreservesConsistent(s, bytes, alignment);
    }
  }

  /** The reuse case of `AllocatePreservesConsistent`: the popped block
      was issued for the requested shape and sits in no other pool. */
  lemma ReusePreservesConsistent(s: State, bytes: nat, alignment: nat)
    requires Consistent(s)
    requires Pool(s, (bytes, alignment)) != []
    ensures var r := Allocate(s, bytes, alignment);
            && r.addr !in s.liveBlocks
            && (forall k :: r.addr !in Pool(r.state, k))
            && r.addr in r.state.issued && r.state.issued[r.addr] == (bytes, alignment)
            && Consistent(r.state)
  {
    var r := Allocate(s, bytes, alignment);
    var t := r.state;
    var p := r.addr;
    ReuseKeepsPools(s, bytes, alignment);
    forall a | a in t.liveBlocks ensures RecordedAsIssued(t, a) {
      if a != p {
        assert RecordedAsIssued(s, a);
      }
    }
    forall a | a in t.issued ensures Held(t, a) {
      assert Held(s, a);
      var key := (bytes, alignment);
      var stack := Pool(s, key);
      if a !in s.liveBlocks && a != p && s.issued[a] == key {
        var i :| 0 <= i < |stack| && stack[i] == a;
        assert i < |stack| - 1 && stack[..|stack| - 1][i] == a;
      }
    }
  }

  /** The pool half of `ReusePreservesConsistent`: the popped block was
      issued for the requested shape, and leaves every pool. */
  lemma ReuseKeepsPools(s: State, bytes: nat, alignment: nat)
    requires Consistent(s)
    requires Pool(s, (bytes, alignment)) != []
    ensures var r := Allocate(s, bytes, alignment);
            && r.addr in s.issued && s.issued[r.addr] == (bytes, alignment)
            && (forall k :: r.addr !in Pool(r.state, k))
            && (forall key :: NoDup(Pool(r.state, key)))
            && (forall key, a :: a in Pool(r.state, key) ==>
                  a in r.state.issued && r.state.issued[a] == key && a !in r.state.liveBlocks)
  {
    var r := Allocate(s, bytes, alignment);
    var key := (bytes, alignment);
    var stack := Pool(s, key);
    var t := r.state;
    var p := r.addr;
    assert p in Pool(s, key) && s.issued[p] == key;
    assert NoDup(stack);
    forall k ensures p !in Pool(t, k) {
      if k == key {
        forall i | 0 <= i < |stack| - 1 ensures stack[i] != p { }
      } else {
        assert Pool(t, k) == Pool(s, k);
      }
    }
  }

  /** The fresh case of `AllocatePreservesConsistent`: the new address was
      never issued before, so it is neither live nor pooled. */
  lemma FreshPreservesConsistent(s: State, bytes: nat, alignment: nat)
    requires Consistent(s)
    requires Pool(s, (bytes, alignment)) == []
    ensures var r := Allocate(s, bytes, alignment);
            && r.addr !in s.liveBlocks
            && (forall k :: r.addr !in Pool(r.state, k))
            && r.addr in r.state.issued && r.state.issued[r.addr] == (bytes, alignment)
            && Consistent(r.state)
  {
    var r := Allocate(s, bytes, alignment);
    forall k ensures Pool(r.state, k) == Pool(s, k) { }
    forall a | a in r.state.issued ensures Held(r.state, a) {
      if a != r.addr {
        assert Held(s, a);
      }
    }
    forall a | a in r.state.liveBlocks ensures RecordedAsIssued(r.state, a) {
      if a != r.addr {
        assert RecordedAsIssued(s, a);
      }
    }
  }

  /** A successful deallocation keeps the ownership invariant: the freed
      block moves from the live table to exactly one pool. */
  lemma DeallocatePreservesConsistent(s: State, p: Addr, bytes: nat, alignment: nat)
    requires Consistent(s)
    requires p in s.liveBlocks
    ensures var r := Deallocate(s, p, bytes, alignment);
            && r.Ok?
            && Pooled(r.value, p)
            && Consistent(r.value)
  {
    var t := Deallocate(s, p, bytes, alignment).value;
    assert p in Pool(t, ShapeOf(s.liveBlocks[p]));
    DeallocateKeepsPools(s, p, bytes, alignment);
    forall a | a in t.liveBlocks ensures RecordedAsIssued(t, a) {
      assert RecordedAsIssued(s, a);
    }
    forall a | a in t.issued ensures Held(t, a) {
      assert Held(s, a);
    }
  }

  /** The pool half of `DeallocatePreservesConsistent`: the freed block
      joins the pool of the shape it was issued for, where it was not
      yet. */
  lemma DeallocateKeepsPools(s: State, p: Addr, bytes: nat, alignment: nat)
    requires Consistent(s)
    requires p in s.liveBlocks
    ensures var t := Deallocate(s, p, bytes, alignment).value;
            && (forall key :: NoDup(Pool(t, key)))
            && (forall key, a :: a in Pool(t, key) ==>
                  a in t.issued && t.issued[a] == key && a !in t.liveBlocks)
  {
    var t := Deallocate(s, p, bytes, alignment).value;
    var key := ShapeOf(s.liveBlocks[p]);
    assert RecordedAsIssued(s, p);
    forall k ensures NoDup(Pool(t, k)) {
      if k == key {
        assert NoDup(Pool(s, k)) && p !in Pool(s, k);
      } else {
        assert Pool(t, k) == Pool(s, k);
      }
    }
  }

  /** Which shape the caller passes to a deallocation makes no difference. */
  lemma DeallocateIgnoresCallerShape(s: State, p: Addr, b1: nat, a1: nat, b2: nat, a2: nat)
    ensures Deallocate(s, p, b1, a1) == Deallocate(s, p, b2, a2)
  {
  }

  /** Allocating a block, freeing it and allocating the same shape again
      returns the very same address without a new system allocation; the
      live table and every pool end as they were after the first
      allocation. No invariant is needed for this. */
  lemma RoundTrip(s: State, bytes: nat, alignment: nat)
    ensures var first := Allocate(s, bytes, alignment);
            var freed := Deallocate(first.state, first.addr, bytes, alignment);
            && freed.Ok?
            && var second := Allocate(freed.value, bytes, alignment);
            && second.addr == first.addr
            && second.state.nextFresh == first.state.nextFresh
            && second.state.liveBlocks == first.state.liveBlocks
            && second.state.issued == first.state.issued
            && (forall key :: Pool(second.state, key) == Pool(first.state, key))
  {
  }

  /** `CustomMemoryResource`: the two tables as map fields that the
      operations update in place, plus the system allocator's counter. */
  class CustomMemoryResource {
    /** The source's `allocated` table: live address to the shape it was allocated with. */
    var liveBlocks: map<Addr, BlockInfo>
    /** Shape to the stack of freed addresses of that shape. */
    var freeBlocks: map<Shape, seq<Addr>>
    /** The address `::operator new` returns next. */
    var nextFresh: Addr
    /** The shape `::operator new` was asked for, per address it returned. */
    var issued: map<Addr, Shape>

    function Model(): State
      reads this
    {
      State(liveBlocks, freeBlocks, nextFresh, issued)
    }

    ghost predicate Valid()
      reads this
    {
      Consistent(Model())
    }

    constructor ()
      ensures Valid()
      ensures Model() == Initial()
    {
      liveBlocks := map[];
      freeBlocks := map[];
      nextFresh := 0;
      issued := map[];
    }

    method DoAllocate(bytes: nat, alignment: nat) returns (p: Addr)
      requires Valid()
      modifies this
      ensures Valid()
      ensures p !in old(liveBlocks)
      ensures Allocation(Model(), p) == Allocate(old(Model()), bytes, alignment)
    {
      AllocatePreservesConsistent(Model(), bytes, alignment);
      var key := (bytes, alignment);
      if key in freeBlocks && freeBlocks[key] != [] {
        var stack := freeBlocks[key];
        p := stack[|stack| - 1];
        freeBlocks := freeBlocks[key := stack[..|stack| - 1]];
        liveBlocks := liveBlocks[p := BlockInfo(bytes, alignment)];
        return;
      }
      p := nextFresh;
      nextFresh := nextFresh + 1;
      issued := issued[p := key];
      liveBlocks := liveBlocks[p := BlockInfo(bytes, alignment)];
    }

    method DoDeallocate(p: Addr, bytes: nat, alignment: nat) returns (r: Outcome)
      requires Valid()
      modifies this
      ensures Valid()
      ensures r == (if p in old(liveBlocks) then Pass else Fail(InvalidFree))
      ensures r.Pass? ==> Deallocate(old(Model()), p, bytes, alignment) == Ok(Model())
      ensures r.Fail? ==> Model() == old(Model())
    {
      if p !in liveBlocks {
        return Fail(InvalidFree);
      }
      DeallocatePreservesConsistent(Model(), p, bytes, alignment);
      var info := liveBlocks[p];
      liveBlocks := liveBlocks - {p};
      var key := (info.size, info.alignment);
      var stack := if key in freeBlocks then freeBlocks[key] else [];
      freeBlocks := freeBlocks[key := stack + [p]];
      r := Pass;
    }

    /** `do_is_equal`: two resources are interchangeable only when they are
        the same object. */
    predicate DoIsEqual(other: CustomMemoryResource)
      ensures DoIsEqual(other) <==> other == this
    {
      this == other
    }

    /** The destructor: hands every block back to the system, first the live
        ones and then the pooled ones shape by shape, each with the
        alignment it records for the block. The results list the released
        addresses in release order, with the alignment passed for each: each
        address ever obtained from the system appears exactly once, and is
        released with the alignment the system issued it for. */
    method Destroy() returns (released: seq<Addr>, alignments: seq<nat>)
      requires Valid()
      ensures NoDup(released)
      ensures forall a: Addr :: a in released <==> a < nextFresh
      ensures |alignments| == |released|
      ensures forall i :: 0 <= i < |released| ==>
                released[i] in issued && alignments[i] == issued[released[i]].1
    {
      released, alignments := [], [];
      var live := liveBlocks.Keys;
      while live != {}
        invariant live <= liveBlocks.Keys
        invariant NoDup(released) && |alignments| == |released|
        invariant forall i :: 0 <= i < |released| ==>
                    released[i] in issued && alignments[i] == issued[released[i]].1
        invariant forall a :: a in released <==> a in liveBlocks && a !in live
        decreases live
      {
        var p :| p in live;
        assert RecordedAsIssued(Model(), p);
        released, alignments := released + [p], alignments + [liveBlocks[p].alignment];
        live := live - {p};
      }
      var shapes := freeBlocks.Keys;
      while shapes != {}
        invariant shapes <= freeBlocks.Keys
        invariant NoDup(released) && |alignments| == |released|
        invariant forall i :: 0 <= i < |released| ==>
                    released[i] in issued && alignments[i] == issued[released[i]].1
        invariant forall a :: a in released <==> a in liveBlocks || PooledOutside(Model(), a, shapes)
        decreases shapes
      {
        var key :| key in shapes;
        var stack := freeBlocks[key];
        assert stack == Pool(Model(), key);
        for i := 0 to |stack|
          invariant NoDup(released) && |alignments| == |released|
          invariant forall i :: 0 <= i < |released| ==>
                      released[i] in issued && alignments[i] == issued[released[i]].1
          invariant forall a :: a in released <==>
                      a in liveBlocks || PooledOutside(Model(), a, shapes) || a in stack[..i]
        {
          var x := stack[i];
          assert x in issued && issued[x] == key;
          assert !PooledOutside(Model(), x, shapes);
          assert x !in stack[..i] by {
            assert NoDup(Pool(Model(), key));
          }
          assert stack[..i + 1] == stack[..i] + [x];
          released, alignments := released + [x], alignments + [key.1];
        }
        assert stack[..|stack|] == stack;
        shapes := shapes - {key};
      }
      forall a: Addr ensures a in released <==> a < nextFresh {
        if a in issued && a !in liveBlocks {
          assert Held(Model(), a);
          assert PooledOutside(Model(), a, shapes);
        }
        if PooledOutside(Model(), a, shapes) {
          var k :| k !in shapes && a in Pool(Model(), k);
        }
      }
    }
  }
}
