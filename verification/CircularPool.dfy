/** MemPool (aos/common/mem_pool.h:14-111): a fixed number of blocks, flags that say which are free, and
    an index that is moved around the circle to the next free block after every allocation. */
module CircularPool {
  /** One turn of the scan: the next index, back to 0 at the end of the store. */
  function Advance(size: nat, index: nat): (next: nat)
    requires index < size
    ensures next < size
  {
    if index + 1 == size then 0 else index + 1
  }

  function Position(size: nat, start: nat, turns: nat): (index: nat)
    requires start < size
    ensures index < size
  {
    if turns == 0 then start else Advance(size, Position(size, start, turns - 1))
  }

  /** The scan from start ends after exactly these turns: it stands on a free block and passed none. */
  ghost predicate StopsAfter(free: seq<bool>, start: nat, turns: nat)
    requires start < |free|
  {
    && free[Position(|free|, start, turns)]
    && forall k :: 0 <= k < turns ==> !free[Position(|free|, start, k)]
  }

  function FreeBlocks(free: seq<bool>): set<nat> {
    set i | 0 <= i < |free| && free[i]
  }

  lemma {:induction false} PositionIs(size: nat, start: nat, turns: nat)
    requires start < size && turns <= size
    ensures Position(size, start, turns) == if start + turns < size then start + turns else start + turns - size
  {
    if turns == 0 {
    } else {
      PositionIs(size, start, turns - 1);
    }
  }

  /** How far the scan from start has to go to reach block i. */
  function Distance(size: nat, start: nat, i: nat): (turns: nat)
    requires start < size && i < size
    ensures turns < size && Position(size, start, turns) == i
  {
    var turns := if start <= i then i - start else i + size - start;
    PositionIs(size, start, turns);
    turns
  }

  lemma {:induction false} FirstStop(free: seq<bool>, start: nat, turns: nat) returns (first: nat)
    requires start < |free| && free[Position(|free|, start, turns)]
    ensures first <= turns && StopsAfter(free, start, first)
  {
    if k: nat :| k < turns && free[Position(|free|, start, k)] {
      first := FirstStop(free, start, k);
    } else {
      first := turns;
    }
  }

  ghost predicate ScanEnds(free: seq<bool>, start: nat)
    requires start < |free|
  {
    exists turns: nat :: StopsAfter(free, start, turns)
  }

  /** The scan, which has no other exit, ends exactly if some block is free; and then within one round. */
  lemma ScanEndsExactlyIf(free: seq<bool>, start: nat)
    requires start < |free|
    ensures ScanEnds(free, start) <==> FreeBlocks(free) != {}
    ensures forall turns: nat :: StopsAfter(free, start, turns) ==> turns < |free|
  {
    if i :| i in FreeBlocks(free) {
      var first := FirstStop(free, start, Distance(|free|, start, i));
    }
    forall turns: nat | StopsAfter(free, start, turns)
      ensures Position(|free|, start, turns) in FreeBlocks(free) && turns < |free|
    {
      var d := Distance(|free|, start, Position(|free|, start, turns));
    }
  }

  /** An allocation returns exactly if two blocks are free when it is called: taking the last free block
      leaves the scan without an end. */
  lemma AllocateReturnsExactlyIf(free: seq<bool>, next: nat)
    requires next < |free| && free[next]
    ensures ScanEnds(free[next := false], next) <==> |FreeBlocks(free)| >= 2
  {
    var taken := free[next := false];
    ScanEndsExactlyIf(taken, next);
    assert FreeBlocks(taken) == FreeBlocks(free) - {next};
    assert FreeBlocks(free) == FreeBlocks(taken) + {next};
  }

  datatype ObjectBlock<T> = ObjectBlock(object_: T, isFree: bool)

  /** A pointer to an object is the index of its block. */
  class MemPool<T> {
    const store: array<ObjectBlock<T>>
    var nextFree: nat

    ghost function Flags(): (free: seq<bool>)
      reads store
      ensures |free| == store.Length
      ensures forall i :: 0 <= i < store.Length ==> free[i] == store[i].isFree
    {
      seq(store.Length, i requires 0 <= i < store.Length reads store => store[i].isFree)
    }

    /** The next free index points at a free block. */
    ghost predicate Valid()
      reads this, store
    {
      nextFree < store.Length && store[nextFree].isFree
    }

    ghost function InUse(): set<nat>
      reads store
    {
      set i | 0 <= i < store.Length && !store[i].isFree
    }

    constructor (size: nat, blank: T)
      requires 0 < size
      ensures Valid() && store.Length == size && InUse() == {} && fresh(store)
    {
      store := new ObjectBlock<T>[size](_ => ObjectBlock(blank, true));
      nextFree := 0;
    }

    /** Moves to the first free block at or after the index, around the circle.  The warning that the
        pool is out of space belongs to a scan that never ends. */
    method UpdateNextFreeIndex() returns (warned: bool, ghost turns: nat)
      requires nextFree < store.Length && FreeBlocks(Flags()) != {}
      modifies `nextFree
      ensures Valid() && !warned
      ensures nextFree == Position(store.Length, old(nextFree), turns)
      ensures StopsAfter(Flags(), old(nextFree), turns)
    {
      var initialFreeIndex := nextFree;
      ScanEndsExactlyIf(Flags(), initialFreeIndex);
      ghost var last: nat :| StopsAfter(Flags(), initialFreeIndex, last);
      turns := 0;
      warned := false;
      while !store[nextFree].isFree
        invariant nextFree < store.Length && turns <= last
        invariant nextFree == Position(store.Length, initialFreeIndex, turns)
        invariant !warned
        decreases last - turns
      {
        nextFree := nextFree + 1;
        if nextFree == store.Length {
          nextFree := 0;
        }
        turns := turns + 1;
        PositionIs(store.Length, initialFreeIndex, turns);
        if initialFreeIndex == nextFree {
          warned := true;
        }
      }
    }

    /** Puts the object into a block that was not in use; no other block is touched. */
    method Allocate(value: T) returns (elem: nat)
      requires Valid() && |FreeBlocks(Flags())| >= 2
      modifies `nextFree, store
      ensures Valid()
      ensures elem == old(nextFree) && elem !in old(InUse())
      ensures store[..] == old(store[..])[elem := ObjectBlock(value, false)]
    {
      elem := nextFree;
      ghost var before := Flags();
      AllocateReturnsExactlyIf(before, nextFree);
      store[elem] := ObjectBlock(value, false);
      assert Flags() == before[elem := false];
      ScanEndsExactlyIf(Flags(), nextFree);
      var _, _ := UpdateNextFreeIndex();
    }

    /** Takes back a block that is in use. */
    method Deallocate(elem: nat)
      requires Valid() && elem in InUse()
      modifies store
      ensures Valid()
      ensures store[..] == old(store[..])[elem := old(store[elem]).(isFree := true)]
    {
      store[elem] := store[elem].(isFree := true);
    }

    method Reset()
      requires nextFree < store.Length
      modifies `nextFree, store
      ensures Valid() && InUse() == {} && nextFree == 0
      ensures forall i :: 0 <= i < store.Length ==> store[i].object_ == old(store[i]).object_
    {
      for i := 0 to store.Length
        invariant nextFree == old(nextFree)
        invariant forall j :: 0 <= j < store.Length ==>
                    store[j] == old(store[j]).(isFree := j < i || old(store[j]).isFree)
      {
        store[i] := store[i].(isFree := true);
      }
      nextFree := 0;
    }
  }
}
