/** RefCounted (aos/common/ref_counted.h:17-32) on top of the lock-free pool: intrusive pointers count
    the references to an object, and the release that takes the count from 1 to 0 deallocates it. */
module RefCounts {
  import opened LockFreePool

  /** count is the object's own counter; held has one copy of a block for every intrusive pointer to it;
      raw are the objects allocated but not yet put into an intrusive pointer; due are the threads that
      saw the count drop to 0 and have yet to call Deallocate. */
  datatype Counted = Counted(pool: State, count: map<Block, int>, held: multiset<Block>, raw: set<Block>,
                             due: map<Tid, Block>)

  const START: Counted := Counted(INIT, map[], multiset{}, {}, map[])

  datatype Move =
    | Pool(a: Action)
    | Adopt(block: Block)
    | AddRef(block: Block)
    | Release(t: Tid, block: Block)
    | Destroy(t: Tid)

  function Actor(a: Action): set<Tid> {
    if a.UserWrites? then {} else {a.t}
  }

  function Dying(s: Counted): set<Block> {
    set t | t in s.due :: s.due[t]
  }

  function CountOf(s: Counted, b: Block): int {
    if b in s.count then s.count[b] else 0
  }

  /** Clients copy, drop and write through pointers they hold.  Nothing here asks that a block that is
      destroyed be live. */
  predicate Allowed(s: Counted, m: Move) {
    match m
    case Pool(a) =>
      && Enabled(s.pool, a) && !a.StartFree? && Actor(a) !! s.due.Keys
      && (a.UserWrites? ==> a.block in s.held || a.block in s.raw)
    case Adopt(b) => b in s.raw
    case AddRef(b) => b in s.held
    case Release(t, b) => b in s.held && At(s.pool, t).Outside? && t !in s.due
    case Destroy(t) => t in s.due
  }

  /** The blocks a step of the pool hands out. */
  function Handed(s: State, a: Action): set<Block>
    requires Enabled(s, a)
  {
    match a
    case PopCas(t, _) => if s.head == At(s, t).block then {s.head} else {}
    case FallbackGives(t, _) => {At(s, t).block}
    case _ => {}
  }

  function Zeroed(count: map<Block, int>, blocks: set<Block>): map<Block, int> {
    map b | b in count.Keys + blocks :: if b in blocks then 0 else count[b]
  }

  function Next(s: Counted, m: Move): Counted
    requires Allowed(s, m)
  {
    match m
    case Pool(a) =>
      s.(pool := Step(s.pool, a), raw := s.raw + Handed(s.pool, a), count := Zeroed(s.count, Handed(s.pool, a)))
    case Adopt(b) =>
      s.(raw := s.raw - {b}, held := s.held + multiset{b}, count := s.count[b := CountOf(s, b) + 1])
    case AddRef(b) =>
      s.(held := s.held + multiset{b}, count := s.count[b := CountOf(s, b) + 1])
    case Release(t, b) =>
      s.(held := s.held - multiset{b}, count := s.count[b := CountOf(s, b) - 1],
         due := if CountOf(s, b) == 1 then s.due[t := b] else s.due)
    case Destroy(t) =>
      s.(pool := Claimed(s.pool, t, s.due[t]), due := s.due - {t})
  }

  /** A live object is fresh, referenced or dying, its counter is the number of pointers to it, and no
      pointer, fresh or dying object is a block that is not live. */
  predicate CountsAgree(s: Counted, b: Block) {
    if b in s.pool.live then
      && b in s.count && s.count[b] == s.held[b]
      && (if b in s.held then b !in s.raw && b !in Dying(s) else b in s.raw <==> b !in Dying(s))
    else
      b !in s.held && b !in s.raw && b !in Dying(s)
  }

  ghost predicate Agree(s: Counted) {
    forall b :: CountsAgree(s, b)
  }

  /** A dying object is due to one thread, which is not inside the pool. */
  ghost predicate OneDestroyer(s: Counted) {
    && (forall t :: t in s.due ==> At(s.pool, t).Outside?)
    && (forall t, u :: t in s.due && u in s.due && t != u ==> s.due[t] != s.due[u])
  }

  ghost predicate Sound(s: Counted, free: seq<Block>) {
    Inv(s.pool, free) && Agree(s) && OneDestroyer(s)
  }

  /** With one allocating thread a step of the pool hands out blocks that are not live, and changes the live blocks
      by exactly those. */
  lemma HandedIsNew(s: State, free: seq<Block>, a: Action)
    requires Inv(s, free) && OneAllocating(s) && Enabled(s, a) && !a.StartFree?
    ensures Handed(s, a) !! s.live && Step(s, a).live == s.live + Handed(s, a)
    ensures forall t :: t !in Actor(a) ==> At(Step(s, a), t) == At(s, t)
  {
    if a.PopCas? && s.head == At(s, a.t).block {
      PopperHoldsFirst(s, free, a.t);
    } else if a.FallbackGives? {
      FallbackKeeps(s, free, a.t, a.word);
    }
  }

  lemma PoolKeeps(s: Counted, free: seq<Block>, a: Action) returns (free': seq<Block>)
    requires Sound(s, free) && OneAllocating(s.pool) && Allowed(s, Pool(a))
    ensures Sound(Next(s, Pool(a)), free')
  {
    free' := StepKeeps(s.pool, free, a);
    HandedIsNew(s.pool, free, a);
    var s' := Next(s, Pool(a));
    assert Dying(s') == Dying(s);
    forall b
      ensures CountsAgree(s', b)
    {
      assert CountsAgree(s, b);
    }
  }

  lemma CountKeeps(s: Counted, free: seq<Block>, m: Move)
    requires Sound(s, free) && Allowed(s, m) && (m.Adopt? || m.AddRef?)
    ensures Sound(Next(s, m), free)
  {
    var s' := Next(s, m);
    assert CountsAgree(s, m.block);
    assert Dying(s') == Dying(s);
    forall b
      ensures CountsAgree(s', b)
    {
      assert CountsAgree(s, b);
    }
  }

  lemma ReleaseKeeps(s: Counted, free: seq<Block>, t: Tid, b: Block)
    requires Sound(s, free) && Allowed(s, Release(t, b))
    ensures Sound(Next(s, Release(t, b)), free)
    ensures b in Dying(Next(s, Release(t, b))) <==> s.held[b] == 1
  {
    var s' := Next(s, Release(t, b));
    assert CountsAgree(s, b);
    assert Dying(s') == Dying(s) + (if s.held[b] == 1 then {b} else {}) by {
      DueTo(s, s', t, b);
    }
    forall c
      ensures CountsAgree(s', c)
    {
      assert CountsAgree(s, c);
    }
    forall u | u in s.due
      ensures s.due[u] != b
    {
      assert s.due[u] in Dying(s);
    }
  }

  lemma DueTo(s: Counted, s': Counted, t: Tid, b: Block)
    requires t !in s.due && (s'.due == s.due || s'.due == s.due[t := b])
    ensures Dying(s') == Dying(s) + (if s'.due == s.due then {} else {b})
  {
    forall u | u in s.due
      ensures s.due[u] in Dying(s')
    {
      assert u in s'.due && s'.due[u] == s.due[u];
    }
    if s'.due != s.due {
      assert t in s'.due && s'.due[t] == b;
    }
  }

  /** What is destroyed is live and nobody's: the pool may take it back. */
  lemma DestroyIsAllowed(s: Counted, free: seq<Block>, t: Tid)
    requires Sound(s, free) && t in s.due
    ensures Enabled(s.pool, StartFree(t, s.due[t]))
    ensures s.due[t] !in s.held && s.due[t] !in s.raw && CountOf(s, s.due[t]) == 0
  {
    assert s.due[t] in Dying(s) && CountsAgree(s, s.due[t]);
  }

  lemma DestroyKeeps(s: Counted, free: seq<Block>, t: Tid)
    requires Sound(s, free) && Allowed(s, Destroy(t))
    ensures Sound(Next(s, Destroy(t)), free)
    ensures Dying(Next(s, Destroy(t))) == Dying(s) - {s.due[t]}
  {
    DestroyIsAllowed(s, free, t);
    StartFreeKeeps(s.pool, free, t, s.due[t]);
    var s' := Next(s, Destroy(t));
    forall u | u in s.due && u != t
      ensures s.due[u] in Dying(s')
    {
      assert u in s'.due && s'.due[u] == s.due[u];
    }
    forall b
      ensures CountsAgree(s', b)
    {
      assert CountsAgree(s, b);
    }
  }

  lemma MoveKeeps(s: Counted, free: seq<Block>, m: Move) returns (free': seq<Block>)
    requires Sound(s, free) && OneAllocating(s.pool) && Allowed(s, m)
    ensures Sound(Next(s, m), free')
  {
    free' := free;
    match m {
      case Pool(a) => free' := PoolKeeps(s, free, a);
      case Adopt(_) => CountKeeps(s, free, m);
      case AddRef(_) => CountKeeps(s, free, m);
      case Release(t, b) => ReleaseKeeps(s, free, t, b);
      case Destroy(t) => DestroyKeeps(s, free, t);
    }
  }

  // ----- Runs -----

  function After(moves: seq<Move>): Counted
    requires CanHappen(moves)
    decreases |moves|, 1
  {
    if moves == [] then START else Next(After(moves[..|moves| - 1]), moves[|moves| - 1])
  }

  /** Every move is allowed when it is made. */
  predicate CanHappen(moves: seq<Move>)
    decreases |moves|, 0
  {
    moves == [] || (CanHappen(moves[..|moves| - 1]) && Allowed(After(moves[..|moves| - 1]), moves[|moves| - 1]))
  }

  /** Never more than one thread is inside Allocate. */
  predicate OneAllocator(moves: seq<Move>)
    requires CanHappen(moves)
  {
    |Allocators(After(moves).pool)| <= 1 && (moves == [] || OneAllocator(moves[..|moves| - 1]))
  }

  /** How often block b was handed out, lost its last reference, and was destroyed. */
  datatype Ledger = Ledger(handed: nat, dropped: nat, destroyed: nat)

  function Count(moves: seq<Move>, b: Block): Ledger
    requires CanHappen(moves)
  {
    if moves == [] then Ledger(0, 0, 0) else
    var before := moves[..|moves| - 1];
    Entered(Count(before, b), After(before), moves[|moves| - 1], b)
  }

  function Entered(l: Ledger, s: Counted, m: Move, b: Block): Ledger
    requires Allowed(s, m)
  {
    match m
    case Pool(a) => if b in Handed(s.pool, a) then l.(handed := l.handed + 1) else l
    case Release(_, c) => if c == b && CountOf(s, b) == 1 then l.(dropped := l.dropped + 1) else l
    case Destroy(t) => if s.due[t] == b then l.(destroyed := l.destroyed + 1) else l
    case _ => l
  }

  /** A block has been handed out as often as it has been destroyed, plus once if an object lives in it
      now; and destroyed as often as a release took its count from 1 to 0, short of one still to come. */
  predicate Balanced(l: Ledger, s: Counted, b: Block) {
    && l.handed == l.destroyed + (if b in s.pool.live then 1 else 0)
    && l.dropped == l.destroyed + (if b in Dying(s) then 1 else 0)
  }

  lemma PoolStaysBalanced(l: Ledger, s: Counted, free: seq<Block>, a: Action, b: Block)
    requires Sound(s, free) && OneAllocating(s.pool) && Allowed(s, Pool(a)) && Balanced(l, s, b)
    ensures Balanced(Entered(l, s, Pool(a), b), Next(s, Pool(a)), b)
  {
    HandedIsNew(s.pool, free, a);
    assert Dying(Next(s, Pool(a))) == Dying(s);
  }

  lemma ReleaseStaysBalanced(l: Ledger, s: Counted, free: seq<Block>, t: Tid, c: Block, b: Block)
    requires Sound(s, free) && Allowed(s, Release(t, c)) && Balanced(l, s, b)
    ensures Balanced(Entered(l, s, Release(t, c), b), Next(s, Release(t, c)), b)
  {
    assert CountsAgree(s, b) && CountsAgree(s, c);
    DueTo(s, Next(s, Release(t, c)), t, c);
  }

  lemma EnteredStaysBalanced(l: Ledger, s: Counted, free: seq<Block>, m: Move, b: Block)
    requires Sound(s, free) && OneAllocating(s.pool) && Allowed(s, m) && Balanced(l, s, b)
    ensures Balanced(Entered(l, s, m, b), Next(s, m), b)
  {
    match m {
      case Pool(a) => PoolStaysBalanced(l, s, free, a, b);
      case Release(t, c) => ReleaseStaysBalanced(l, s, free, t, c, b);
      case Destroy(t) =>
        DestroyIsAllowed(s, free, t);
        DestroyKeeps(s, free, t);
      case _ =>
        assert Dying(Next(s, m)) == Dying(s);
    }
  }

  /** In every interleaving with one allocating thread and any number of releasing threads, each object
      is destroyed exactly once, after the release that took its count from 1 to 0. */
  lemma {:induction false} DestroyedExactlyOnce(moves: seq<Move>, b: Block) returns (free: seq<Block>)
    requires CanHappen(moves) && OneAllocator(moves)
    ensures Sound(After(moves), free) && Balanced(Count(moves, b), After(moves), b)
  {
    if moves == [] {
      free := [];
      assert BeingPushed(START.pool) == {} && Dying(START) == {};
    } else {
      var before := moves[..|moves| - 1];
      free := DestroyedExactlyOnce(before, b);
      FewAllocators(After(before).pool);
      EnteredStaysBalanced(Count(before, b), After(before), free, moves[|moves| - 1], b);
      free := MoveKeeps(After(before), free, moves[|moves| - 1]);
    }
  }

  /** Nothing leaks: once no pointer is held, no fresh object is kept and no destruction is pending, every
      block ever obtained is in the free list or on its way there, destroyed as often as handed out. */
  lemma NothingLeaks(moves: seq<Move>, b: Block) returns (free: seq<Block>)
    requires CanHappen(moves) && OneAllocator(moves)
    requires After(moves).held == multiset{} && After(moves).raw == {} && After(moves).due == map[]
    ensures Inv(After(moves).pool, free)
    ensures After(moves).pool.obtained == Listed(free) + BeingPushed(After(moves).pool)
    ensures Count(moves, b).handed == Count(moves, b).dropped == Count(moves, b).destroyed
  {
    free := DestroyedExactlyOnce(moves, b);
    var s := After(moves);
    forall c
      ensures c !in s.pool.live
    {
      assert CountsAgree(s, c);
    }
  }
}
