/** The lock-free free list of MemoryPoolThreadSafety (aos/common/mem_pool.h:167-214) as interleaved
    atomic steps over sequentially consistent memory. */
module LockFreePool {
  import opened Basics

  type Block = nat
  type Tid = nat

  const NULL: Block := 0

  /** Where a thread is inside Allocate or Deallocate. */
  datatype Local =
    | Outside
    | Loaded(block: Block)                // Allocate has read the head
    | Linked(block: Block, next: Block)   // ... and the head's link
    | Fallback                            // Allocate turns to the underlying pool
    | Picked(block: Block)                // ... whose malloc has seen its next block
    | Freeing(obj: Block)                 // Deallocate owns the block
    | Pushing(obj: Block, head: Block)    // ... has seen a head
    | Ready(obj: Block, head: Block)      // ... and has written it into the block

  /** link is the first word of every block obtained; a live object may hold anything there. */
  datatype State = State(head: Block, link: map<Block, Block>, live: set<Block>, obtained: set<Block>,
                         threads: map<Tid, Local>)

  const INIT: State := State(NULL, map[], {}, {}, map[])

  function At(s: State, t: Tid): Local {
    if t in s.threads then s.threads[t] else Outside
  }

  function Moved(s: State, t: Tid, l: Local): State {
    s.(threads := s.threads[t := l])
  }

  /** Deallocate(b) has been entered: the object is destroyed and the block is the thread's. */
  function Claimed(s: State, t: Tid, b: Block): State {
    Moved(s.(live := s.live - {b}), t, Freeing(b))
  }

  /** The atomic steps.  word is what the new object, or its user, leaves in the first word.  The malloc of
      the underlying pool is not synchronised: it sees its next block and takes it in two steps. */
  datatype Action =
    | LoadHead(t: Tid)
    | ReadLink(t: Tid)
    | PopCas(t: Tid, word: Block)
    | FallbackPicks(t: Tid, block: Block)
    | FallbackGives(t: Tid, word: Block)
    | FallbackFails(t: Tid)
    | StartFree(t: Tid, block: Block)
    | LoadForPush(t: Tid)
    | WriteLink(t: Tid)
    | PushCas(t: Tid)
    | UserWrites(block: Block, word: Block)

  /** StartFree is the client's promise: only a live block is deallocated, and only once. */
  predicate Enabled(s: State, a: Action) {
    match a
    case LoadHead(t) => At(s, t).Outside?
    case ReadLink(t) => At(s, t).Loaded? && At(s, t).block in s.link
    case PopCas(t, _) => At(s, t).Linked?
    case FallbackPicks(t, b) => At(s, t).Fallback? && b != NULL && b !in s.obtained
    case FallbackGives(t, _) => At(s, t).Picked?
    case FallbackFails(t) => At(s, t).Fallback?
    case StartFree(t, b) => At(s, t).Outside? && b in s.live
    case LoadForPush(t) => At(s, t).Freeing?
    case WriteLink(t) => At(s, t).Pushing?
    case PushCas(t) => At(s, t).Ready?
    case UserWrites(b, _) => b in s.live
  }

  function Step(s: State, a: Action): State
    requires Enabled(s, a)
  {
    match a
    case LoadHead(t) => Moved(s, t, if s.head == NULL then Fallback else Loaded(s.head))
    case ReadLink(t) => Moved(s, t, Linked(At(s, t).block, s.link[At(s, t).block]))
    case PopCas(t, w) =>
      var l := At(s, t);
      if s.head == l.block then
        Moved(s.(head := l.next, live := s.live + {l.block}, link := s.link[l.block := w]), t, Outside)
      else Moved(s, t, Fallback)
    case FallbackPicks(t, b) => Moved(s, t, Picked(b))
    case FallbackGives(t, w) =>
      var b := At(s, t).block;
      Moved(s.(obtained := s.obtained + {b}, live := s.live + {b}, link := s.link[b := w]), t, Outside)
    case FallbackFails(t) => Moved(s, t, Outside)
    case StartFree(t, b) => Claimed(s, t, b)
    case LoadForPush(t) => Moved(s, t, Pushing(At(s, t).obj, s.head))
    case WriteLink(t) =>
      var l := At(s, t);
      Moved(s.(link := s.link[l.obj := l.head]), t, Ready(l.obj, l.head))
    case PushCas(t) =>
      var l := At(s, t);
      if s.head == l.head then Moved(s.(head := l.obj), t, Outside)
      else Moved(s, t, Pushing(l.obj, s.head))
    case UserWrites(b, w) => s.(link := s.link[b := w])
  }

  /** A thread is popping between its load of the head and its compare-and-swap. */
  predicate Popping(l: Local) {
    l.Loaded? || l.Linked?
  }

  /** A thread is inside Allocate. */
  predicate Allocating(l: Local) {
    Popping(l) || l.Fallback? || l.Picked?
  }

  function Allocators(s: State): set<Tid> {
    set t | t in s.threads && Allocating(s.threads[t])
  }

  predicate Owns(l: Local) {
    l.Freeing? || l.Pushing? || l.Ready?
  }

  /** The blocks on their way into the free list. */
  function BeingPushed(s: State): set<Block> {
    set t | t in s.threads && Owns(s.threads[t]) :: s.threads[t].obj
  }

  function Listed(free: seq<Block>): set<Block> {
    set b | b in free
  }

  function NextOf(free: seq<Block>, i: nat): Block {
    if i + 1 < |free| then free[i + 1] else NULL
  }

  /** The links from head spell out the free list. */
  predicate Chain(head: Block, link: map<Block, Block>, free: seq<Block>) {
    && head == (if free == [] then NULL else free[0])
    && forall i :: 0 <= i < |free| ==>
         free[i] in link && link[free[i]] == NextOf(free, i)
  }

  ghost predicate OwnersDiffer(s: State) {
    forall t, u :: t in s.threads && u in s.threads && t != u && Owns(s.threads[t]) && Owns(s.threads[u])
                   ==> s.threads[t].obj != s.threads[u].obj
  }

  /** The free list has no repeats, and live, listed and being-pushed blocks partition all blocks ever
      obtained. */
  ghost predicate Partition(s: State, free: seq<Block>) {
    && NULL !in s.obtained
    && Chain(s.head, s.link, free) && NoRepeats(free)
    && s.obtained == s.live + Listed(free) + BeingPushed(s)
    && s.live !! Listed(free) && s.live !! BeingPushed(s) && Listed(free) !! BeingPushed(s)
    && OwnersDiffer(s)
  }

  ghost predicate Knows(s: State, free: seq<Block>, l: Local) {
    && (Popping(l) ==> l.block in free)
    && (l.Picked? ==> l.block != NULL && l.block !in s.obtained)
    && (l.Linked? ==> l.block in s.link && s.link[l.block] == l.next)
    && (l.Ready? ==> l.obj in s.link && s.link[l.obj] == l.head)
  }

  /** What the threads know: a popper's block is still listed with the link it read, a block picked from
      the underlying pool is still new, and a pusher's block holds the head it wrote. */
  ghost predicate Knowledge(s: State, free: seq<Block>) {
    forall t :: t in s.threads ==> Knows(s, free, s.threads[t])
  }

  ghost predicate Inv(s: State, free: seq<Block>) {
    Partition(s, free) && Knowledge(s, free)
  }

  /** At most one thread is inside Allocate. */
  ghost predicate OneAllocating(s: State) {
    forall t, u :: t in s.threads && u in s.threads && Allocating(s.threads[t]) && Allocating(s.threads[u]) ==> t == u
  }

  function Owned(l: Local): set<Block> {
    if Owns(l) then {l.obj} else {}
  }

  lemma PushedAfter(s: State, t: Tid, l: Local)
    requires OwnersDiffer(s) && (Owns(l) ==> l.obj !in BeingPushed(s) - Owned(At(s, t)))
    ensures BeingPushed(Moved(s, t, l)) == BeingPushed(s) - Owned(At(s, t)) + Owned(l)
    ensures OwnersDiffer(Moved(s, t, l))
  {
    var s' := Moved(s, t, l);
    forall u | u in s.threads && u != t && Owns(s.threads[u])
      ensures s.threads[u].obj in BeingPushed(s) - Owned(At(s, t))
    {
    }
    forall b
      ensures b in BeingPushed(s') <==> b in BeingPushed(s) - Owned(At(s, t)) + Owned(l)
    {
      if b in BeingPushed(s') {
        var u :| u in s'.threads && Owns(s'.threads[u]) && s'.threads[u].obj == b;
        assert u != t ==> s.threads[u].obj == b;
      }
      if b in BeingPushed(s) - Owned(At(s, t)) {
        var u :| u in s.threads && Owns(s.threads[u]) && s.threads[u].obj == b;
        assert u != t && u in s'.threads && s'.threads[u] == s.threads[u];
      }
      if b in Owned(l) {
        assert t in s'.threads && s'.threads[t] == l;
      }
    }
  }

  /** Steps that change only what one thread knows. */
  lemma MovedKeeps(s: State, free: seq<Block>, t: Tid, l: Local)
    requires Inv(s, free) && Owned(l) == Owned(At(s, t)) && Knows(s, free, l)
    ensures Inv(Moved(s, t, l), free)
  {
    PushedAfter(s, t, l);
    assert BeingPushed(Moved(s, t, l)) == BeingPushed(s);
  }

  /** A popper's block that is the head is the first of the list, with the link the popper read. */
  lemma PopperHoldsFirst(s: State, free: seq<Block>, t: Tid)
    requires Inv(s, free) && At(s, t).Linked? && s.head == At(s, t).block
    ensures free != [] && s.head == free[0] && At(s, t).next == NextOf(free, 0)
    ensures s.head in s.obtained && s.head !in s.live && s.head !in BeingPushed(s)
  {
    assert Knows(s, free, At(s, t));
    assert s.head in Listed(free);
  }

  lemma PoppedChain(s: State, free: seq<Block>, w: Block)
    requires Inv(s, free) && free != []
    ensures Chain(NextOf(free, 0), s.link[free[0] := w], free[1..]) && NoRepeats(free[1..])
    ensures Listed(free[1..]) == Listed(free) - {free[0]} && free[0] in Listed(free)
  {
    var rest := free[1..];
    assert free == [free[0]] + rest;
    forall i | 0 <= i < |rest|
      ensures rest[i] != free[0] && rest[i] in s.link && s.link[rest[i]] == NextOf(rest, i)
    {
      assert rest[i] == free[i + 1] && NextOf(rest, i) == NextOf(free, i + 1);
    }
  }

  lemma PopKeeps(s: State, free: seq<Block>, t: Tid, w: Block) returns (free': seq<Block>)
    requires Inv(s, free) && OneAllocating(s) && At(s, t).Linked?
    ensures Inv(Step(s, PopCas(t, w)), free')
    ensures if s.head == At(s, t).block then free != [] && free[0] == s.head && free' == free[1..] else free' == free
    ensures Step(s, PopCas(t, w)).live == s.live + if s.head == At(s, t).block then {s.head} else {}
    ensures At(Step(s, PopCas(t, w)), t) == if s.head == At(s, t).block then Outside else Fallback
  {
    var l := At(s, t);
    if s.head != l.block {
      MovedKeeps(s, free, t, Fallback);
      return free;
    }
    PopperHoldsFirst(s, free, t);
    PoppedChain(s, free, w);
    free' := free[1..];
    var mid := s.(head := l.next, live := s.live + {l.block}, link := s.link[l.block := w]);
    assert BeingPushed(mid) == BeingPushed(s);
    PushedAfter(mid, t, Outside);
    PoppedKnowledge(s, free, t, Moved(mid, t, Outside), w);
  }

  lemma PoppedKnowledge(s: State, free: seq<Block>, t: Tid, s': State, w: Block)
    requires Inv(s, free) && OneAllocating(s) && At(s, t).Linked? && free != []
    requires s'.threads == s.threads[t := Outside] && s'.link == s.link[free[0] := w]
    ensures Knowledge(s', free[1..])
  {
    forall u | u in s'.threads
      ensures Knows(s', free[1..], s'.threads[u])
    {
      if u != t {
        assert Knows(s, free, s.threads[u]) && !Allocating(s.threads[u]);
        if s.threads[u].Ready? {
          assert s.threads[u].obj in BeingPushed(s) && free[0] in Listed(free);
        }
      }
    }
  }

  lemma FallbackKeeps(s: State, free: seq<Block>, t: Tid, w: Block)
    requires Inv(s, free) && OneAllocating(s) && Enabled(s, FallbackGives(t, w))
    ensures Inv(Step(s, FallbackGives(t, w)), free)
    ensures At(s, t).block !in s.obtained
  {
    var b := At(s, t).block;
    assert Knows(s, free, At(s, t));
    var mid := s.(obtained := s.obtained + {b}, live := s.live + {b}, link := s.link[b := w]);
    assert b !in Listed(free) && b !in BeingPushed(s);
    assert BeingPushed(mid) == BeingPushed(s);
    PushedAfter(mid, t, Outside);
    var s' := Moved(mid, t, Outside);
    assert Partition(s', free);
    forall u | u in s'.threads
      ensures Knows(s', free, s'.threads[u])
    {
      if u != t {
        assert Knows(s, free, s.threads[u]) && !Allocating(s.threads[u]);
        if s.threads[u].Ready? {
          assert s.threads[u].obj in BeingPushed(s);
        }
      }
    }
  }

  lemma StartFreeKeeps(s: State, free: seq<Block>, t: Tid, b: Block)
    requires Inv(s, free) && Enabled(s, StartFree(t, b))
    ensures Inv(Step(s, StartFree(t, b)), free)
  {
    var mid := s.(live := s.live - {b});
    assert BeingPushed(mid) == BeingPushed(s);
    PushedAfter(mid, t, Freeing(b));
    var s' := Moved(mid, t, Freeing(b));
    forall u | u in s'.threads
      ensures Knows(s', free, s'.threads[u])
    {
      if u != t {
        assert Knows(s, free, s.threads[u]);
      }
    }
  }

  /** Writing the first word of a block that is not listed. */
  lemma WordKeeps(s: State, free: seq<Block>, b: Block, w: Block)
    requires Inv(s, free) && b !in free
    requires forall t :: t in s.threads && s.threads[t].Ready? ==> s.threads[t].obj != b
    ensures Inv(s.(link := s.link[b := w]), free)
  {
    var s' := s.(link := s.link[b := w]);
    assert BeingPushed(s') == BeingPushed(s);
    forall u | u in s'.threads
      ensures Knows(s', free, s'.threads[u])
    {
      assert Knows(s, free, s.threads[u]);
    }
  }

  lemma WriteLinkKeeps(s: State, free: seq<Block>, t: Tid)
    requires Inv(s, free) && At(s, t).Pushing?
    ensures Inv(Step(s, WriteLink(t)), free)
  {
    var l := At(s, t);
    assert l.obj in BeingPushed(s) && l.obj !in Listed(free);
    WordKeeps(s, free, l.obj, l.head);
    MovedKeeps(s.(link := s.link[l.obj := l.head]), free, t, Ready(l.obj, l.head));
  }

  lemma PushKeeps(s: State, free: seq<Block>, t: Tid) returns (free': seq<Block>)
    requires Inv(s, free) && At(s, t).Ready?
    ensures Inv(Step(s, PushCas(t)), free')
    ensures free' == if s.head == At(s, t).head then [At(s, t).obj] + free else free
    ensures At(Step(s, PushCas(t)), t) == if s.head == At(s, t).head then Outside else Pushing(At(s, t).obj, s.head)
  {
    var l := At(s, t);
    if s.head != l.head {
      MovedKeeps(s, free, t, Pushing(l.obj, s.head));
      return free;
    }
    assert Knows(s, free, l) && l.obj in BeingPushed(s) && l.obj !in Listed(free);
    free' := [l.obj] + free;
    assert Listed(free') == Listed(free) + {l.obj};
    var mid := s.(head := l.obj);
    assert BeingPushed(mid) == BeingPushed(s);
    PushedAfter(mid, t, Outside);
    var s' := Moved(mid, t, Outside);
    assert Partition(s', free');
    forall u | u in s'.threads
      ensures Knows(s', free', s'.threads[u])
    {
      if u != t {
        assert Knows(s, free, s.threads[u]);
      }
    }
  }

  /** Every step keeps the partition while at most one thread is inside Allocate. */
  lemma StepKeeps(s: State, free: seq<Block>, a: Action) returns (free': seq<Block>)
    requires Inv(s, free) && OneAllocating(s) && Enabled(s, a)
    ensures Inv(Step(s, a), free')
  {
    free' := free;
    match a {
      case LoadHead(t) =>
        if s.head != NULL {
          assert free != [] && s.head == free[0];
        }
        MovedKeeps(s, free, t, if s.head == NULL then Fallback else Loaded(s.head));
      case ReadLink(t) =>
        assert Knows(s, free, At(s, t));
        MovedKeeps(s, free, t, Linked(At(s, t).block, s.link[At(s, t).block]));
      case PopCas(t, w) => free' := PopKeeps(s, free, t, w);
      case FallbackPicks(t, b) => MovedKeeps(s, free, t, Picked(b));
      case FallbackGives(t, w) => FallbackKeeps(s, free, t, w);
      case FallbackFails(t) => MovedKeeps(s, free, t, Outside);
      case StartFree(t, b) => StartFreeKeeps(s, free, t, b);
      case LoadForPush(t) => MovedKeeps(s, free, t, Pushing(At(s, t).obj, s.head));
      case WriteLink(t) => WriteLinkKeeps(s, free, t);
      case PushCas(t) => free' := PushKeeps(s, free, t);
      case UserWrites(b, w) =>
        assert b !in Listed(free) && b !in BeingPushed(s);
        WordKeeps(s, free, b, w);
    }
  }

  // ----- One thread left alone -----

  ghost predicate NobodyAllocates(s: State) {
    forall t :: t in s.threads ==> !Allocating(s.threads[t])
  }

  /** After a failed swap the thread can still get any new block from the underlying pool. */
  lemma FailedSwapCanFallBack(s: State, t: Tid, w: Block, b: Block)
    requires At(s, t).Linked? && s.head != At(s, t).block && b != NULL && b !in s.obtained
    ensures var s' := Step(s, PopCas(t, w)); Enabled(s', FallbackPicks(t, b)) && s' == Moved(s, t, Fallback)
  {
  }

  lemma OnlyAllocator(s: State, t: Tid, l: Local)
    requires NobodyAllocates(s)
    ensures OneAllocating(Moved(s, t, l))
  {
  }

  /** A thread that allocates alone gets the first listed block, if there is one. */
  lemma AllocatesAlone(s: State, free: seq<Block>, t: Tid, w: Block) returns (s': State)
    requires Inv(s, free) && NobodyAllocates(s) && At(s, t).Outside? && free != []
    ensures Enabled(s, LoadHead(t)) && Enabled(Step(s, LoadHead(t)), ReadLink(t))
    ensures var linked := Step(Step(s, LoadHead(t)), ReadLink(t));
            Enabled(linked, PopCas(t, w)) && s' == Step(linked, PopCas(t, w))
    ensures Inv(s', free[1..]) && At(s', t).Outside? && s'.live == s.live + {free[0]} && free[0] !in s.live
  {
    assert free[0] in s.link && s.head == free[0] && free[0] in Listed(free);
    assert free[0] in s.obtained;
    var loaded := Step(s, LoadHead(t));
    MovedKeeps(s, free, t, Loaded(free[0]));
    var linked := Step(loaded, ReadLink(t));
    MovedKeeps(loaded, free, t, Linked(free[0], s.link[free[0]]));
    assert linked.threads == Moved(s, t, Linked(free[0], s.link[free[0]])).threads;
    OnlyAllocator(s, t, At(linked, t));
    var rest := PopKeeps(linked, free, t, w);
    s' := Step(linked, PopCas(t, w));
  }

  /** A thread that allocates alone from an empty list gets any block that is new. */
  lemma AllocatesNew(s: State, t: Tid, b: Block, w: Block) returns (s': State)
    requires Inv(s, []) && NobodyAllocates(s) && At(s, t).Outside? && b != NULL && b !in s.obtained
    ensures Enabled(s, LoadHead(t)) && Enabled(Step(s, LoadHead(t)), FallbackPicks(t, b))
    ensures var picked := Step(Step(s, LoadHead(t)), FallbackPicks(t, b));
            Enabled(picked, FallbackGives(t, w)) && s' == Step(picked, FallbackGives(t, w))
    ensures Inv(s', []) && At(s', t).Outside? && s'.live == s.live + {b} && b !in s.live
  {
    var turned := Step(s, LoadHead(t));
    MovedKeeps(s, [], t, Fallback);
    var picked := Step(turned, FallbackPicks(t, b));
    MovedKeeps(turned, [], t, Picked(b));
    assert picked.threads == Moved(s, t, Picked(b)).threads;
    OnlyAllocator(s, t, Picked(b));
    FallbackKeeps(picked, [], t, w);
    s' := Step(picked, FallbackGives(t, w));
  }

  /** A thread that deallocates alone puts its block in front of the list. */
  lemma DeallocatesAlone(s: State, free: seq<Block>, t: Tid, b: Block) returns (s': State)
    requires Inv(s, free) && At(s, t).Outside? && b in s.live
    ensures Enabled(s, StartFree(t, b)) && Enabled(Step(s, StartFree(t, b)), LoadForPush(t))
    ensures var pushing := Step(Step(s, StartFree(t, b)), LoadForPush(t));
            && Enabled(pushing, WriteLink(t)) && Enabled(Step(pushing, WriteLink(t)), PushCas(t))
            && s' == Step(Step(pushing, WriteLink(t)), PushCas(t))
    ensures Inv(s', [b] + free) && At(s', t).Outside? && s'.live == s.live - {b}
    ensures NobodyAllocates(s) ==> NobodyAllocates(s')
  {
    StartFreeKeeps(s, free, t, b);
    var claimed := Step(s, StartFree(t, b));
    MovedKeeps(claimed, free, t, Pushing(b, s.head));
    var pushing := Step(claimed, LoadForPush(t));
    WriteLinkKeeps(pushing, free, t);
    var ready := Step(pushing, WriteLink(t));
    var more := PushKeeps(ready, free, t);
    s' := Step(ready, PushCas(t));
  }

  // ----- Runs -----

  function Run(acts: seq<Action>): State
    requires Possible(acts)
    decreases |acts|, 1
  {
    if acts == [] then INIT else Step(Run(acts[..|acts| - 1]), acts[|acts| - 1])
  }

  /** Every action is enabled when it is taken. */
  predicate Possible(acts: seq<Action>)
    decreases |acts|, 0
  {
    acts == [] || (Possible(acts[..|acts| - 1]) && Enabled(Run(acts[..|acts| - 1]), acts[|acts| - 1]))
  }

  /** At no moment are more than n threads inside Allocate. */
  predicate AtMost(n: nat, acts: seq<Action>)
    requires Possible(acts)
  {
    |Allocators(Run(acts))| <= n && (acts == [] || AtMost(n, acts[..|acts| - 1]))
  }

  lemma FewAllocators(s: State)
    requires |Allocators(s)| <= 1
    ensures OneAllocating(s)
  {
    forall t, u | t in s.threads && u in s.threads && Allocating(s.threads[t]) && Allocating(s.threads[u])
      ensures t == u
    {
      assert t in Allocators(s) && u in Allocators(s);
      if t != u {
        assert {t, u} <= Allocators(s);
        SubsetSize({t, u}, Allocators(s));
      }
    }
  }

  lemma {:induction false} SubsetSize(a: set<Tid>, b: set<Tid>)
    requires a <= b
    ensures |a| <= |b|
    decreases a
  {
    if a == {} {
    } else {
      var t :| t in a;
      SubsetSize(a - {t}, b - {t});
    }
  }

  /** Every interleaving with one thread inside Allocate at a time keeps the partition. */
  lemma {:induction false} RunKeeps(acts: seq<Action>) returns (free: seq<Block>)
    requires Possible(acts) && AtMost(1, acts)
    ensures Inv(Run(acts), free)
  {
    if acts == [] {
      free := [];
    } else {
      var before := acts[..|acts| - 1];
      free := RunKeeps(before);
      FewAllocators(Run(before));
      free := StepKeeps(Run(before), free, acts[|acts| - 1]);
    }
  }

  /** The step hands out a block that is live already, from the free list or from the underlying pool. */
  predicate HandsOutLive(s: State, a: Action) {
    || (a.PopCas? && At(s, a.t).Linked? && s.head == At(s, a.t).block && s.head in s.live)
    || (a.FallbackGives? && At(s, a.t).Picked? && At(s, a.t).block in s.live)
  }

  /** With at most n threads inside Allocate at a time, no run ever hands out a live block. */
  ghost predicate SafeFor(n: nat) {
    forall acts, a :: Possible(acts) && AtMost(n, acts) && Enabled(Run(acts), a) ==> !HandsOutLive(Run(acts), a)
  }

  lemma OneAllocatorIsSafe(n: nat)
    requires n <= 1
    ensures SafeFor(n)
  {
    forall acts, a | Possible(acts) && AtMost(n, acts) && Enabled(Run(acts), a)
      ensures !HandsOutLive(Run(acts), a)
    {
      AtMostMore(n, 1, acts);
      var free := RunKeeps(acts);
      if a.PopCas? && At(Run(acts), a.t).Linked? && Run(acts).head == At(Run(acts), a.t).block {
        PopperHoldsFirst(Run(acts), free, a.t);
      } else if a.FallbackGives? {
        FewAllocators(Run(acts));
        FallbackKeeps(Run(acts), free, a.t, a.word);
      }
    }
  }

  lemma {:induction false} AtMostMore(n: nat, m: nat, acts: seq<Action>)
    requires n <= m && Possible(acts) && AtMost(n, acts)
    ensures AtMost(m, acts)
  {
    if acts == [] {
    } else {
      AtMostMore(n, m, acts[..|acts| - 1]);
    }
  }
}
