/** Two threads inside Allocate break MemoryPoolThreadSafety: a popper whose block leaves the list and comes
    back installs a stale link, and two calls of the underlying pool's malloc take the same block.  Together
    with the invariant for one thread this says exactly how many threads may be inside Allocate. */
module AbaRace {
  import opened LockFreePool

  /** A run of threads 1 and 2. */
  predicate TwoThreads(acts: seq<Action>) {
    Possible(acts) && AtMost(2, acts) && Run(acts).threads.Keys <= {1, 2}
  }

  lemma Extend(acts: seq<Action>, a: Action) returns (acts': seq<Action>)
    requires TwoThreads(acts) && Enabled(Run(acts), a) && Step(Run(acts), a).threads.Keys <= {1, 2}
    ensures TwoThreads(acts') && Run(acts') == Step(Run(acts), a)
  {
    acts' := acts + [a];
    assert acts'[..|acts|] == acts;
    assert Allocators(Run(acts')) <= {1, 2};
    SubsetSize(Allocators(Run(acts')), {1, 2});
  }

  /** The head is null: a fresh block. */
  lemma Fresh(acts: seq<Action>, t: Tid, b: Block) returns (acts': seq<Action>)
    requires TwoThreads(acts) && (t == 1 || t == 2) && At(Run(acts), t).Outside? && Run(acts).head == NULL
    requires b != NULL && b !in Run(acts).obtained
    ensures TwoThreads(acts')
    ensures var s := Run(acts);
            Run(acts') == State(s.head, s.link[b := 0], s.live + {b}, s.obtained + {b}, s.threads[t := Outside])
  {
    var s := Run(acts);
    acts' := Extend(acts, LoadHead(t));
    assert Run(acts') == s.(threads := s.threads[t := Fallback]);
    acts' := Extend(acts', FallbackPicks(t, b));
    acts' := Extend(acts', FallbackGives(t, 0));
  }

  /** Deallocate up to its load of the head. */
  lemma BeginFree(acts: seq<Action>, t: Tid, b: Block) returns (acts': seq<Action>)
    requires TwoThreads(acts) && (t == 1 || t == 2) && At(Run(acts), t).Outside? && b in Run(acts).live
    ensures TwoThreads(acts')
    ensures var s := Run(acts);
            Run(acts') == State(s.head, s.link, s.live - {b}, s.obtained, s.threads[t := Pushing(b, s.head)])
  {
    acts' := Extend(acts, StartFree(t, b));
    acts' := Extend(acts', LoadForPush(t));
  }

  lemma EndFree(acts: seq<Action>, t: Tid) returns (acts': seq<Action>)
    requires TwoThreads(acts) && (t == 1 || t == 2) && At(Run(acts), t).Pushing?
    requires Run(acts).head == At(Run(acts), t).head
    ensures TwoThreads(acts')
    ensures var s := Run(acts);
            var b := At(s, t).obj;
            Run(acts') == State(b, s.link[b := s.head], s.live, s.obtained, s.threads[t := Outside])
  {
    acts' := Extend(acts, WriteLink(t));
    acts' := Extend(acts', PushCas(t));
  }

  lemma Free(acts: seq<Action>, t: Tid, b: Block) returns (acts': seq<Action>)
    requires TwoThreads(acts) && (t == 1 || t == 2) && At(Run(acts), t).Outside? && b in Run(acts).live
    ensures TwoThreads(acts')
    ensures var s := Run(acts);
            Run(acts') == State(b, s.link[b := s.head], s.live - {b}, s.obtained, s.threads[t := Outside])
  {
    acts' := BeginFree(acts, t, b);
    acts' := EndFree(acts', t);
  }

  /** Allocate up to its compare-and-swap. */
  lemma BeginPop(acts: seq<Action>, t: Tid) returns (acts': seq<Action>)
    requires TwoThreads(acts) && (t == 1 || t == 2) && At(Run(acts), t).Outside?
    requires Run(acts).head != NULL && Run(acts).head in Run(acts).link
    ensures TwoThreads(acts')
    ensures var s := Run(acts);
            Run(acts') == s.(threads := s.threads[t := Linked(s.head, s.link[s.head])])
  {
    acts' := Extend(acts, LoadHead(t));
    acts' := Extend(acts', ReadLink(t));
  }

  lemma EndPop(acts: seq<Action>, t: Tid) returns (acts': seq<Action>)
    requires TwoThreads(acts) && (t == 1 || t == 2) && At(Run(acts), t).Linked?
    requires Run(acts).head == At(Run(acts), t).block
    ensures TwoThreads(acts')
    ensures var s := Run(acts);
            Run(acts') == State(At(s, t).next, s.link[s.head := 0], s.live + {s.head}, s.obtained,
                                s.threads[t := Outside])
  {
    acts' := Extend(acts, PopCas(t, 0));
  }

  /** Blocks 1 and 2 are listed. */
  lemma TwoListed() returns (acts: seq<Action>)
    ensures TwoThreads(acts)
    ensures Run(acts) == State(1, map[1 := 2, 2 := NULL], {}, {1, 2}, map[1 := Outside])
  {
    acts := [];
    assert Allocators(INIT) == {};
    acts := Fresh(acts, 1, 1);
    acts := Fresh(acts, 1, 2);
    acts := Free(acts, 1, 2);
    acts := Free(acts, 1, 1);
    assert Run(acts).link == map[1 := 2, 2 := NULL] && Run(acts).live == {} && Run(acts).obtained == {1, 2};
    assert Run(acts).threads == map[1 := Outside];
  }

  /** Thread 1 stops before its compare-and-swap with block 1 and link 2; thread 2 takes both blocks and
      gives block 1 back; thread 1 goes on and makes the live block 2 the head. */
  lemma StaleLink() returns (acts: seq<Action>)
    ensures TwoThreads(acts)
    ensures var s := Run(acts);
            At(s, 1).Outside? && s.head == 2 && 2 in s.live && 2 in s.link
  {
    acts := TwoListed();
    acts := BeginPop(acts, 1);
    acts := BeginPop(acts, 2);
    acts := EndPop(acts, 2);
    acts := BeginPop(acts, 2);
    acts := EndPop(acts, 2);
    acts := Free(acts, 2, 1);
    acts := EndPop(acts, 1);
  }

  /** With two threads popping, a live block is handed out a second time. */
  lemma TwoPoppersAreUnsafe() returns (acts: seq<Action>, a: Action)
    ensures TwoThreads(acts) && Enabled(Run(acts), a) && HandsOutLive(Run(acts), a) && a.PopCas?
  {
    acts := StaleLink();
    acts := BeginPop(acts, 1);
    a := PopCas(1, 0);
  }

  /** Both threads have found the list empty and are about to ask the underlying pool. */
  lemma BothFallBack() returns (acts: seq<Action>)
    ensures TwoThreads(acts)
    ensures Run(acts) == State(NULL, map[], {}, {}, map[1 := Fallback, 2 := Fallback])
  {
    acts := [];
    assert Allocators(INIT) == {};
    acts := Extend(acts, LoadHead(1));
    acts := Extend(acts, LoadHead(2));
    assert Run(acts).threads == map[1 := Fallback, 2 := Fallback];
  }

  /** No popping is needed: two threads inside the unsynchronised malloc of the underlying pool get the
      same block. */
  lemma TwoFallbacksAreUnsafe() returns (acts: seq<Action>, a: Action)
    ensures TwoThreads(acts) && Enabled(Run(acts), a) && HandsOutLive(Run(acts), a) && a.FallbackGives?
  {
    acts := BothFallBack();
    acts := Extend(acts, FallbackPicks(1, 1));
    acts := Extend(acts, FallbackPicks(2, 1));
    acts := Extend(acts, FallbackGives(1, 0));
    a := FallbackGives(2, 0);
  }

  /** The pool never hands out a live block for exactly those bounds on the threads inside Allocate. */
  lemma SafeExactlyForOneAllocator(n: nat)
    ensures SafeFor(n) <==> n <= 1
  {
    if n <= 1 {
      OneAllocatorIsSafe(n);
    } else {
      var acts, a := TwoPoppersAreUnsafe();
      AtMostMore(2, n, acts);
      assert Possible(acts) && AtMost(n, acts) && Enabled(Run(acts), a) && HandsOutLive(Run(acts), a);
    }
  }
}
