/** The Bybit order book feed (aoe/bybit/order_book_sync/order_book_sync.h): a snapshot is applied as it
    arrives, a diff only if its id follows the one before. */
module BybitSync {
  import opened Basics
  import opened BookTheory
  import opened BookStrand

  datatype Message = Message(id: nat, depth: Depth)

  datatype Event = SnapshotMsg(message: Message) | DiffMsg(message: Message)

  /** Calls on the order book. */
  datatype Call = Clear | FeedSnapshot(message: Message) | FeedDiff(message: Message)

  /** The fields, and the calls so far.  The two ids start at zero here. */
  datatype State = State(diffId: nat, snapId: nat, received: bool, log: seq<Call>)

  const INIT: State := State(0, 0, false, [])

  function OnSnapshot(s: State, m: Message): State {
    if s.snapId == m.id then s.(received := true)
    else State(m.id, m.id, true, s.log + (if m.id == 1 then [Clear, FeedSnapshot(m)] else [FeedSnapshot(m)]))
  }

  function OnDiff(s: State, m: Message): State {
    if !s.received then s
    else if s.diffId + 1 != m.id then State(0, 0, false, s.log + [Clear])
    else s.(diffId := m.id, log := s.log + [FeedDiff(m)])
  }

  function Step(s: State, e: Event): State {
    match e
    case SnapshotMsg(m) => OnSnapshot(s, m)
    case DiffMsg(m) => OnDiff(s, m)
  }

  function Run(es: seq<Event>): State {
    if es == [] then INIT else Step(Run(es[..|es| - 1]), es[|es| - 1])
  }

  /** Ids are at least one. */
  predicate Numbered(es: seq<Event>) {
    forall e :: e in es ==> e.message.id >= 1
  }

  function Tell(b: Book, c: Call): Book {
    match c
    case Clear => EMPTY
    case FeedSnapshot(m) => Apply(b, m.depth)
    case FeedDiff(m) => Apply(b, m.depth)
  }

  function BookOf(log: seq<Call>): Book {
    if log == [] then EMPTY else Tell(BookOf(log[..|log| - 1]), log[|log| - 1])
  }

  /** An observer that accepts, between two clears, nothing or one snapshot followed by diffs with
      consecutive ids. */
  datatype View = Fresh | Fed(snapshot: Message, diffs: seq<Message>) | Broken

  function LastId(snapshot: Message, diffs: seq<Message>): nat {
    if diffs == [] then snapshot.id else diffs[|diffs| - 1].id
  }

  function Observe(v: View, c: Call): View {
    if v.Broken? then Broken
    else
      match c
      case Clear => Fresh
      case FeedSnapshot(m) => if v.Fresh? then Fed(m, []) else Broken
      case FeedDiff(m) =>
        if v.Fed? && m.id == LastId(v.snapshot, v.diffs) + 1 then Fed(v.snapshot, v.diffs + [m]) else Broken
  }

  function ViewOf(log: seq<Call>): View {
    if log == [] then Fresh else Observe(ViewOf(log[..|log| - 1]), log[|log| - 1])
  }

  lemma Snoc(log: seq<Call>, c: Call)
    ensures ViewOf(log + [c]) == Observe(ViewOf(log), c) && BookOf(log + [c]) == Tell(BookOf(log), c)
  {
    assert (log + [c])[..|log|] == log;
  }

  lemma RunSnoc(es: seq<Event>, e: Event)
    ensures Run(es + [e]) == Step(Run(es), e)
  {
    assert (es + [e])[..|es|] == es;
  }

  /** A new snapshot that does not come from a restart finds no book to merge into. */
  predicate CleanStep(s: State, e: Event) {
    e.SnapshotMsg? ==> e.message.id == s.snapId || e.message.id == 1 || !s.received
  }

  predicate CleanRun(es: seq<Event>) {
    es == [] || (CleanRun(es[..|es| - 1]) && CleanStep(Run(es[..|es| - 1]), es[|es| - 1]))
  }

  ghost predicate Inv(s: State) {
    && (!s.received ==> s.snapId == 0 && s.diffId == 0 && BookOf(s.log) == EMPTY && !ViewOf(s.log).Fed?)
    && (s.received ==> !ViewOf(s.log).Fresh? && 1 <= s.snapId <= s.diffId)
    && (ViewOf(s.log).Fed? ==>
          && ViewOf(s.log).snapshot.id == s.snapId
          && LastId(ViewOf(s.log).snapshot, ViewOf(s.log).diffs) == s.diffId)
  }

  lemma SnapshotInv(s: State, m: Message)
    requires Inv(s) && m.id >= 1
    ensures Inv(OnSnapshot(s, m))
    ensures ViewOf(OnSnapshot(s, m).log).Broken? <==> ViewOf(s.log).Broken? || !CleanStep(s, SnapshotMsg(m))
  {
    if m.id == s.snapId {
      assert OnSnapshot(s, m).log == s.log;
    } else if m.id == 1 {
      Snoc(s.log, Clear);
      Snoc(s.log + [Clear], FeedSnapshot(m));
      assert s.log + [Clear] + [FeedSnapshot(m)] == s.log + [Clear, FeedSnapshot(m)];
      assert ViewOf(OnSnapshot(s, m).log) == if ViewOf(s.log).Broken? then Broken else Fed(m, []);
    } else {
      Snoc(s.log, FeedSnapshot(m));
    }
  }

  lemma DiffInv(s: State, m: Message)
    requires Inv(s)
    ensures Inv(OnDiff(s, m)) && (ViewOf(OnDiff(s, m).log).Broken? <==> ViewOf(s.log).Broken?)
  {
    Snoc(s.log, Clear);
    Snoc(s.log, FeedDiff(m));
  }

  lemma StepInv(s: State, e: Event)
    requires Inv(s) && e.message.id >= 1
    ensures Inv(Step(s, e))
    ensures ViewOf(Step(s, e).log).Broken? <==> ViewOf(s.log).Broken? || !CleanStep(s, e)
  {
    match e
    case SnapshotMsg(m) => SnapshotInv(s, m);
    case DiffMsg(m) => DiffInv(s, m);
  }

  /** Every run: without a received snapshot the book is empty.  And the book is being fed one snapshot
      and consecutive diffs exactly if every new non-restart snapshot found the machine without one. */
  lemma {:induction false} RunInv(es: seq<Event>)
    requires Numbered(es)
    ensures Inv(Run(es))
    ensures !ViewOf(Run(es).log).Broken? <==> CleanRun(es)
  {
    if es == [] {
    } else {
      assert es[|es| - 1] in es;
      RunInv(es[..|es| - 1]);
      StepInv(Run(es[..|es| - 1]), es[|es| - 1]);
    }
  }

  function Replayed(snapshot: Message, diffs: seq<Message>): Book {
    if diffs == [] then Apply(EMPTY, snapshot.depth)
    else Apply(Replayed(snapshot, diffs[..|diffs| - 1]), diffs[|diffs| - 1].depth)
  }

  /** The diffs are numbered from the snapshot on. */
  predicate Consecutive(snapshot: Message, diffs: seq<Message>) {
    forall i :: 0 <= i < |diffs| ==> diffs[i].id == snapshot.id + 1 + i
  }

  /** What the observer has seen gives the book. */
  predicate Determines(v: View, b: Book) {
    && (v.Fresh? ==> b == EMPTY)
    && (v.Fed? ==> b == Replayed(v.snapshot, v.diffs) && Consecutive(v.snapshot, v.diffs))
  }

  lemma ReplayedSnoc(snapshot: Message, diffs: seq<Message>, m: Message)
    ensures Replayed(snapshot, diffs + [m]) == Apply(Replayed(snapshot, diffs), m.depth)
  {
    assert (diffs + [m])[..|diffs|] == diffs;
  }

  lemma ConsecutiveSnoc(snapshot: Message, diffs: seq<Message>, m: Message)
    requires Consecutive(snapshot, diffs) && m.id == LastId(snapshot, diffs) + 1
    ensures Consecutive(snapshot, diffs + [m])
  {
    assert diffs != [] ==> diffs[|diffs| - 1].id == snapshot.id + |diffs|;
  }

  lemma DiffDetermines(v: View, b: Book, m: Message)
    requires Determines(v, b)
    ensures Determines(Observe(v, FeedDiff(m)), Apply(b, m.depth))
  {
    hide Apply, Replayed, Consecutive, LastId;
    if v.Fed? && m.id == LastId(v.snapshot, v.diffs) + 1 {
      ReplayedSnoc(v.snapshot, v.diffs, m);
      ConsecutiveSnoc(v.snapshot, v.diffs, m);
    }
  }

  /** A message reports the exchange's book, or its single update. */
  ghost predicate TrueUpdate(h: History, m: Message) {
    m.id >= 1 && Reports(h, m.depth, m.id - 1, m.id)
  }

  ghost predicate TrueView(h: History, snapshot: Message, diffs: seq<Message>) {
    && Apply(EMPTY, snapshot.depth) == ExchangeBook(h, snapshot.id)
    && forall i :: 0 <= i < |diffs| ==> TrueUpdate(h, diffs[i])
  }

  lemma UpdateConverges(h: History, m: Message)
    requires TrueUpdate(h, m)
    ensures Apply(ExchangeBook(h, m.id - 1), m.depth) == ExchangeBook(h, m.id)
  {
    ReportApplies(ExchangeBook(h, m.id - 1), h, m.depth, m.id - 1, m.id);
    ApplyRangeSplit(EMPTY, h, 0, m.id - 1, m.id);
  }

  lemma ReplayStep(h: History, snapshot: Message, diffs: seq<Message>)
    requires diffs != [] && TrueUpdate(h, diffs[|diffs| - 1])
    requires Replayed(snapshot, diffs[..|diffs| - 1]) == ExchangeBook(h, diffs[|diffs| - 1].id - 1)
    ensures Replayed(snapshot, diffs) == ExchangeBook(h, diffs[|diffs| - 1].id)
  {
    UpdateConverges(h, diffs[|diffs| - 1]);
  }

  lemma ViewPrefix(h: History, snapshot: Message, diffs: seq<Message>)
    requires diffs != [] && TrueView(h, snapshot, diffs) && Consecutive(snapshot, diffs)
    ensures var n := |diffs| - 1;
            && TrueView(h, snapshot, diffs[..n]) && Consecutive(snapshot, diffs[..n])
            && TrueUpdate(h, diffs[n]) && LastId(snapshot, diffs[..n]) == diffs[n].id - 1
  {
  }

  lemma {:induction false} ReplayConverges(h: History, snapshot: Message, diffs: seq<Message>)
    requires TrueView(h, snapshot, diffs) && Consecutive(snapshot, diffs)
    ensures Replayed(snapshot, diffs) == ExchangeBook(h, LastId(snapshot, diffs))
  {
    if diffs == [] {
    } else {
      ViewPrefix(h, snapshot, diffs);
      ReplayConverges(h, snapshot, diffs[..|diffs| - 1]);
      ReplayStep(h, snapshot, diffs);
    }
  }

  // ----- What the book holds now -----

  /** The messages behind the book: the observer starts again at every clear, and at every snapshot on an
      empty book. */
  function Told(log: seq<Call>): View {
    if log == [] then Fresh
    else
      var before, c := log[..|log| - 1], log[|log| - 1];
      match c
      case Clear => Fresh
      case FeedSnapshot(m) => if BookOf(before) == EMPTY then Fed(m, []) else Broken
      case FeedDiff(_) => Observe(Told(before), c)
  }

  lemma ToldSnoc(log: seq<Call>, c: Call)
    ensures Told(log + [c]) ==
            match c
            case Clear => Fresh
            case FeedSnapshot(m) => if BookOf(log) == EMPTY then Fed(m, []) else Broken
            case FeedDiff(_) => Observe(Told(log), c)
  {
    assert (log + [c])[..|log|] == log;
  }

  lemma {:induction false} ToldDeterminesBook(log: seq<Call>)
    ensures Determines(Told(log), BookOf(log))
  {
    if log == [] {
    } else {
      var init, c := log[..|log| - 1], log[|log| - 1];
      ToldDeterminesBook(init);
      if c.FeedDiff? {
        DiffDetermines(Told(init), BookOf(init), c.message);
      }
    }
  }

  /** The last new snapshot of the run was a restart or found an empty book. */
  predicate LastSnapshotFits(es: seq<Event>) {
    es == [] ||
    var before, e := es[..|es| - 1], es[|es| - 1];
    if e.SnapshotMsg? && e.message.id != Run(before).snapId
    then e.message.id == 1 || BookOf(Run(before).log) == EMPTY
    else LastSnapshotFits(before)
  }

  /** While a snapshot is received, the observer knows the messages behind the book exactly if the last new
      snapshot fitted, and then they are that snapshot and the diffs up to the current id. */
  ghost predicate Follows(s: State, fits: bool) {
    && (!s.received ==> s.snapId == 0 && s.diffId == 0 && BookOf(s.log) == EMPTY)
    && (s.received ==> s.snapId >= 1 && !Told(s.log).Fresh? && (Told(s.log).Fed? <==> fits))
    && (s.received && Told(s.log).Fed? ==>
          && Told(s.log).snapshot.id == s.snapId
          && LastId(Told(s.log).snapshot, Told(s.log).diffs) == s.diffId)
  }

  lemma SnapshotFollows(s: State, m: Message, fits: bool)
    requires Follows(s, fits) && m.id >= 1
    ensures Follows(OnSnapshot(s, m), if m.id != s.snapId then m.id == 1 || BookOf(s.log) == EMPTY else fits)
  {
    if m.id == s.snapId {
      assert OnSnapshot(s, m).log == s.log;
    } else if m.id == 1 {
      Snoc(s.log, Clear);
      ToldSnoc(s.log + [Clear], FeedSnapshot(m));
      assert s.log + [Clear] + [FeedSnapshot(m)] == s.log + [Clear, FeedSnapshot(m)];
    } else {
      ToldSnoc(s.log, FeedSnapshot(m));
    }
  }

  lemma DiffFollows(s: State, m: Message, fits: bool)
    requires Follows(s, fits)
    ensures Follows(OnDiff(s, m), fits)
  {
    Snoc(s.log, Clear);
    ToldSnoc(s.log, FeedDiff(m));
  }

  lemma {:induction false} RunFollows(es: seq<Event>)
    requires Numbered(es)
    ensures Follows(Run(es), LastSnapshotFits(es))
  {
    if es == [] {
    } else {
      var before := es[..|es| - 1];
      assert es[|es| - 1] in es;
      RunFollows(before);
      match es[|es| - 1]
      case SnapshotMsg(m) => SnapshotFollows(Run(before), m, LastSnapshotFits(before));
      case DiffMsg(m) => DiffFollows(Run(before), m, LastSnapshotFits(before));
    }
  }

  /** Convergence: in every received state whose last new snapshot was a restart or found an empty book,
      whatever was merged before, the book is that snapshot plus the diffs with consecutive ids up to the
      current one, hence the exchange's book at that id for any history of which those messages are
      true. */
  lemma Convergence(h: History, es: seq<Event>)
    requires Numbered(es) && LastSnapshotFits(es) && Run(es).received
    ensures var s := Run(es);
            var v := Told(s.log);
            && v.Fed? && v.snapshot.id == s.snapId && Consecutive(v.snapshot, v.diffs)
            && BookOf(s.log) == Replayed(v.snapshot, v.diffs)
            && (TrueView(h, v.snapshot, v.diffs) ==> BookOf(s.log) == ExchangeBook(h, s.diffId))
  {
    RunFollows(es);
    var v := Told(Run(es).log);
    ToldDeterminesBook(Run(es).log);
    if TrueView(h, v.snapshot, v.diffs) {
      ReplayConverges(h, v.snapshot, v.diffs);
    }
  }

  /** A clean run fits. */
  lemma {:induction false} CleanRunFits(es: seq<Event>)
    requires Numbered(es) && CleanRun(es)
    ensures LastSnapshotFits(es)
  {
    if es == [] {
    } else {
      CleanRunFits(es[..|es| - 1]);
      RunInv(es[..|es| - 1]);
    }
  }

  // ----- What a stream of diffs does, and one snapshot -----

  function FeedAll(s: State, ms: seq<Message>): State {
    if ms == [] then s else OnDiff(FeedAll(s, ms[..|ms| - 1]), ms[|ms| - 1])
  }

  function DepthsOf(ms: seq<Message>): (depths: seq<Depth>)
    ensures |depths| == |ms|
  {
    seq(|ms|, i requires 0 <= i < |ms| => ms[i].depth)
  }

  /** The messages are numbered one by one after the id. */
  predicate Following(id: nat, ms: seq<Message>) {
    forall i :: 0 <= i < |ms| ==> ms[i].id == id + 1 + i
  }

  lemma FollowingSnoc(id: nat, ms: seq<Message>)
    requires ms != []
    ensures Following(id, ms) <==> Following(id, ms[..|ms| - 1]) && ms[|ms| - 1].id == id + |ms|
  {
  }

  /** One diff on a received book: it is applied exactly if its id is the next one, and clears the book
      otherwise. */
  lemma DiffStep(s: State, m: Message)
    ensures var s' := OnDiff(s, m);
            && (s'.received <==> s.received && m.id == s.diffId + 1)
            && (s'.received ==>
                  s'.snapId == s.snapId && s'.diffId == m.id && BookOf(s'.log) == Apply(BookOf(s.log), m.depth))
            && (s.received && !s'.received ==> s'.snapId == 0 && s'.diffId == 0 && BookOf(s'.log) == EMPTY)
            && (!s.received ==> s' == s)
  {
    Snoc(s.log, Clear);
    Snoc(s.log, FeedDiff(m));
  }

  /** A received book is still received after a list of diffs exactly if their ids are consecutive from the
      current id, and is then the old book with each depth applied in order; otherwise it is empty. */
  lemma {:induction false} ReceivedExactlyWhileConsecutive(s: State, ms: seq<Message>)
    requires s.received
    ensures var s' := FeedAll(s, ms);
            && (s'.received <==> Following(s.diffId, ms))
            && (s'.received ==>
                  && s'.snapId == s.snapId && s'.diffId == s.diffId + |ms|
                  && BookOf(s'.log) == ApplyAll(BookOf(s.log), DepthsOf(ms)))
            && (!s'.received ==> s'.snapId == 0 && s'.diffId == 0 && BookOf(s'.log) == EMPTY)
  {
    if ms == [] {
    } else {
      hide OnDiff, BookOf, Apply, Following;
      var init, m := ms[..|ms| - 1], ms[|ms| - 1];
      ReceivedExactlyWhileConsecutive(s, init);
      DiffStep(FeedAll(s, init), m);
      FollowingSnoc(s.diffId, ms);
      assert DepthsOf(ms)[..|ms| - 1] == DepthsOf(init);
    }
  }

  /** One snapshot: a repeated id changes neither ids nor book; a new one is applied to the book, which a
      restart clears first. */
  lemma SnapshotStep(s: State, m: Message)
    ensures var s', repeated := OnSnapshot(s, m), m.id == s.snapId;
            && s'.received && s'.snapId == m.id && s'.diffId == (if repeated then s.diffId else m.id)
            && BookOf(s'.log) == if repeated then BookOf(s.log)
                                 else Apply(if m.id == 1 then EMPTY else BookOf(s.log), m.depth)
  {
    Snoc(s.log, FeedSnapshot(m));
    Snoc(s.log, Clear);
    Snoc(s.log + [Clear], FeedSnapshot(m));
    assert s.log + [Clear] + [FeedSnapshot(m)] == s.log + [Clear, FeedSnapshot(m)];
  }

  predicate SameFields(a: State, b: State) {
    a.diffId == b.diffId && a.snapId == b.snapId && a.received == b.received
  }

  /** The snapshot message leaves exactly the snapshot's book. */
  predicate Replaces(s: State, m: Message) {
    BookOf(OnSnapshot(s, m).log) == Apply(EMPTY, m.depth)
  }

  const NOTHING: Depth := Depth([], [])

  function OneBid(p: Price): Depth {
    Depth([Entry(p, 1.0)], [])
  }

  /** A snapshot with one bid, then empty diffs up to an id. */
  function BidThenNothing(snapId: nat, diffId: nat, p: Price): seq<Event>
    requires snapId <= diffId
  {
    if diffId == snapId then [SnapshotMsg(Message(snapId, OneBid(p)))]
    else BidThenNothing(snapId, diffId - 1, p) + [DiffMsg(Message(diffId, NOTHING))]
  }

  lemma NothingFollows(es: seq<Event>, m: Message)
    requires Numbered(es) && Run(es).received && m.id == Run(es).diffId + 1 && m.depth == NOTHING
    ensures var s, s' := Run(es), Run(es + [DiffMsg(m)]);
            && Numbered(es + [DiffMsg(m)]) && s'.received && s'.diffId == m.id && s'.snapId == s.snapId
            && BookOf(s'.log) == BookOf(s.log)
  {
    RunSnoc(es, DiffMsg(m));
    Snoc(Run(es).log, FeedDiff(m));
    assert Apply(BookOf(Run(es).log), NOTHING) == BookOf(Run(es).log);
  }

  lemma {:induction false} BidThenNothingRun(snapId: nat, diffId: nat, p: Price)
    requires 1 <= snapId <= diffId
    ensures var es := BidThenNothing(snapId, diffId, p);
            && Numbered(es) && Run(es).diffId == diffId && Run(es).snapId == snapId && Run(es).received
            && BookOf(Run(es).log) == Book(map[p := 1.0], map[])
  {
    hide Run, BookOf;
    if diffId == snapId {
      OneBidRun(snapId, p);
    } else {
      BidThenNothingRun(snapId, diffId - 1, p);
      NothingFollows(BidThenNothing(snapId, diffId - 1, p), Message(diffId, NOTHING));
    }
  }

  lemma OneBidRun(id: nat, p: Price)
    requires 1 <= id
    ensures var s := Run([SnapshotMsg(Message(id, OneBid(p)))]);
            s.diffId == id && s.snapId == id && s.received && BookOf(s.log) == Book(map[p := 1.0], map[])
  {
    var m := Message(id, OneBid(p));
    RunSnoc([], SnapshotMsg(m));
    assert [] + [SnapshotMsg(m)] == [SnapshotMsg(m)];
    Snoc([], Clear);
    Snoc([], FeedSnapshot(m));
    Snoc([Clear], FeedSnapshot(m));
    assert [] + [Clear] == [Clear] && [] + [FeedSnapshot(m)] == [FeedSnapshot(m)];
    assert [Clear] + [FeedSnapshot(m)] == [Clear, FeedSnapshot(m)];
    assert OneBid(p).bids[..0] == [];
    assert Apply(EMPTY, OneBid(p)) == Book(map[p := 1.0], map[]);
  }

  /** A bid at a price the snapshot does not touch survives a snapshot that does not clear. */
  lemma OldBidStays(s: State, m: Message, p: Price)
    requires s.received && BookOf(s.log) == Book(map[p := 1.0], map[])
    requires LastWrite(m.depth.bids, p) == None && (m.id == s.snapId || m.id != 1)
    ensures p in BookOf(OnSnapshot(s, m).log).bids && p !in Apply(EMPTY, m.depth).bids
  {
    OverwriteAllReads(map[], m.depth.bids, p);
    OverwriteAllReads(map[p := 1.0], m.depth.bids, p);
    Snoc(s.log, FeedSnapshot(m));
  }

  lemma FreshOrClearedReplaces(s: State, m: Message)
    requires m.id != s.snapId && (m.id == 1 || BookOf(s.log) == EMPTY)
    ensures Replaces(s, m)
  {
    Snoc(s.log, FeedSnapshot(m));
    Snoc(s.log, Clear);
    Snoc(s.log + [Clear], FeedSnapshot(m));
    assert s.log + [Clear] + [FeedSnapshot(m)] == s.log + [Clear, FeedSnapshot(m)];
  }

  /** Over all runs that leave the fields as they are now, a snapshot message leaves exactly the snapshot's
      book if and only if its id is new and it is either a restart or finds no received snapshot.  In
      particular the snapshot of a second restart in a row, again with id 1, is taken for a re-push. */
  lemma SnapshotReplacesExactlyIf(es: seq<Event>, m: Message)
    requires Numbered(es) && m.id >= 1
    ensures (forall fs :: Numbered(fs) && SameFields(Run(fs), Run(es)) ==> Replaces(Run(fs), m))
            <==> m.id != Run(es).snapId && (m.id == 1 || !Run(es).received)
  {
    var s := Run(es);
    RunInv(es);
    if m.id != s.snapId && (m.id == 1 || !s.received) {
      forall fs | Numbered(fs) && SameFields(Run(fs), s)
        ensures Replaces(Run(fs), m)
      {
        RunInv(fs);
        FreshOrClearedReplaces(Run(fs), m);
      }
    } else {
      var p := PriceAbove(m.depth.bids);
      UntouchedPrice(m.depth.bids, p);
      var fs := BidThenNothing(s.snapId, s.diffId, p);
      BidThenNothingRun(s.snapId, s.diffId, p);
      OldBidStays(Run(fs), m, p);
      assert SameFields(Run(fs), s) && !Replaces(Run(fs), m);
    }
  }

  /** A run that merges: the snapshot 9 is empty, and the bid of the snapshot 5 is still in the book. */
  lemma MergeKeepsAnOldBid()
    ensures var es := [SnapshotMsg(Message(5, OneBid(1.0)))] + [SnapshotMsg(Message(9, NOTHING))];
            Run(es).received && Run(es).snapId == 9 && BookOf(Run(es).log) == Book(map[1.0 := 1.0], map[])
    ensures Apply(EMPTY, NOTHING) == EMPTY
  {
    var es, m := [SnapshotMsg(Message(5, OneBid(1.0)))], Message(9, NOTHING);
    OneBidRun(5, 1.0);
    RunSnoc(es, SnapshotMsg(m));
    Snoc(Run(es).log, FeedSnapshot(m));
  }

  /** A run with two restarts: the empty snapshot of the second one is ignored. */
  lemma SecondRestartIsIgnored()
    ensures var es := [SnapshotMsg(Message(1, OneBid(1.0)))] + [SnapshotMsg(Message(1, NOTHING))];
            Run(es).received && BookOf(Run(es).log) == Book(map[1.0 := 1.0], map[])
  {
    var es := [SnapshotMsg(Message(1, OneBid(1.0)))];
    OneBidRun(1, 1.0);
    RunSnoc(es, SnapshotMsg(Message(1, NOTHING)));
  }

  lemma GapClears(es: seq<Event>, m: Message)
    requires Run(es).received && m.id != Run(es).diffId + 1
    ensures var s := Run(es + [DiffMsg(m)]); !s.received && s.snapId == 0 && BookOf(s.log) == EMPTY
  {
    RunSnoc(es, DiffMsg(m));
    Snoc(Run(es).log, Clear);
  }

  lemma FreshSnapshotFits(es: seq<Event>, m: Message)
    requires m.id >= 1 && !Run(es).received && Run(es).snapId == 0 && BookOf(Run(es).log) == EMPTY
    ensures LastSnapshotFits(es + [SnapshotMsg(m)]) && Run(es + [SnapshotMsg(m)]).received
    ensures Replaces(Run(es), m) && BookOf(Run(es + [SnapshotMsg(m)]).log) == Apply(EMPTY, m.depth)
  {
    RunSnoc(es, SnapshotMsg(m));
    FreshOrClearedReplaces(Run(es), m);
    assert (es + [SnapshotMsg(m)])[..|es|] == es;
  }

  lemma NotCleanAgain(es: seq<Event>, e: Event)
    requires !CleanRun(es)
    ensures !CleanRun(es + [e])
  {
    assert (es + [e])[..|es|] == es;
  }

  lemma MergeIsNotClean(es: seq<Event>, m: Message)
    requires Run(es).received && m.id != Run(es).snapId && m.id != 1
    ensures !CleanRun(es + [SnapshotMsg(m)])
    ensures Run(es + [SnapshotMsg(m)]).received && Run(es + [SnapshotMsg(m)]).diffId == m.id
  {
    assert (es + [SnapshotMsg(m)])[..|es|] == es;
  }

  /** A run that merges and recovers: after the gap before id 20 the book is cleared, and the snapshot 30
      fits although the run is not clean. */
  lemma GapEndsAMerge()
    ensures var es := [SnapshotMsg(Message(5, OneBid(1.0)))] + [SnapshotMsg(Message(9, NOTHING))]
                      + [DiffMsg(Message(20, NOTHING))] + [SnapshotMsg(Message(30, NOTHING))];
            && Numbered(es) && LastSnapshotFits(es) && !CleanRun(es)
            && Run(es).received && BookOf(Run(es).log) == Apply(EMPTY, NOTHING)
  {
    var first := [SnapshotMsg(Message(5, OneBid(1.0)))];
    var merged := first + [SnapshotMsg(Message(9, NOTHING))];
    var cleared := merged + [DiffMsg(Message(20, NOTHING))];
    OneBidRun(5, 1.0);
    hide Run, LastSnapshotFits, CleanRun, BookOf, Apply;
    MergeIsNotClean(first, Message(9, NOTHING));
    GapClears(merged, Message(20, NOTHING));
    FreshSnapshotFits(cleared, Message(30, NOTHING));
    NotCleanAgain(merged, DiffMsg(Message(20, NOTHING)));
    NotCleanAgain(cleared, SnapshotMsg(Message(30, NOTHING)));
  }

  /** In any run a snapshot message changes nothing exactly if it repeats the id of the last one. */
  lemma RepushChangesNothing(es: seq<Event>, m: Message)
    requires Numbered(es) && m.id >= 1
    ensures OnSnapshot(Run(es), m) == Run(es) <==> m.id == Run(es).snapId
  {
    RunInv(es);
    if m.id != Run(es).snapId {
      assert |OnSnapshot(Run(es), m).log| > |Run(es).log|;
    }
  }

  // ----- The object -----

  function JobOf(c: Call): Job {
    match c
    case Clear => ProcessClear
    case FeedSnapshot(m) => ProcessEvent(m.depth)
    case FeedDiff(m) => ProcessEvent(m.depth)
  }

  function JobsOf(log: seq<Call>): seq<Job> {
    seq(|log|, i requires 0 <= i < |log| => JobOf(log[i]))
  }

  lemma {:induction false} JobsMakeTheBook(log: seq<Call>)
    ensures RunJobs(EMPTY, JobsOf(log)) == BookOf(log)
  {
    if log == [] {
    } else {
      JobsMakeTheBook(log[..|log| - 1]);
      assert JobsOf(log)[..|log| - 1] == JobsOf(log[..|log| - 1]);
    }
  }

  lemma JobsSnoc(log: seq<Call>, c: Call)
    ensures JobsOf(log + [c]) == JobsOf(log) + [JobOf(c)]
  {
  }

  class OrderBookSync {
    const orderBook: Strand
    var currentDiffUpdateId: nat
    var currentSnapshotUpdateId: nat
    var receivedSnapshotSuccess: bool
    ghost var log: seq<Call>
    ghost var trace: seq<Event>

    constructor (orderBook: Strand)
      requires orderBook.Sent() == []
      ensures Valid() && trace == [] && this.orderBook == orderBook
    {
      this.orderBook := orderBook;
      currentDiffUpdateId, currentSnapshotUpdateId, receivedSnapshotSuccess := 0, 0, false;
      log, trace := [], [];
    }

    ghost function Now(): State
      reads this
    {
      State(currentDiffUpdateId, currentSnapshotUpdateId, receivedSnapshotSuccess, log)
    }

    ghost predicate Valid()
      reads this, orderBook
    {
      Now() == Run(trace) && orderBook.Sent() == JobsOf(log)
    }

    /** A call on the order book. */
    method Tell(c: Call)
      requires orderBook.Sent() == JobsOf(log)
      modifies `log, orderBook`posted
      ensures orderBook.Sent() == JobsOf(log) && log == old(log) + [c]
    {
      JobsSnoc(log, c);
      match c {
        case Clear => orderBook.Clear();
        case FeedSnapshot(m) => orderBook.OnEvent(m.depth);
        case FeedDiff(m) => orderBook.OnEvent(m.depth);
      }
      log := log + [c];
    }

    /** The strand step of a snapshot. */
    method AcceptSnapshot(m: Message)
      requires Valid()
      modifies this, orderBook`posted
      ensures Valid() && orderBook.ran == old(orderBook.ran)
      ensures trace == old(trace) + [SnapshotMsg(m)] && Now() == OnSnapshot(old(Now()), m)
    {
      RunSnoc(trace, SnapshotMsg(m));
      ProcessSnapshot(m);
      trace := trace + [SnapshotMsg(m)];
    }

    method ProcessSnapshot(m: Message)
      requires orderBook.Sent() == JobsOf(log)
      modifies `receivedSnapshotSuccess, `currentSnapshotUpdateId, `currentDiffUpdateId, `log, orderBook`posted
      ensures orderBook.Sent() == JobsOf(log)
      ensures Now() == OnSnapshot(old(Now()), m)
    {
      receivedSnapshotSuccess := true;
      if currentSnapshotUpdateId == m.id {
        return;
      }
      currentSnapshotUpdateId := m.id;
      if currentSnapshotUpdateId == 1 {
        Tell(Clear);
      }
      currentDiffUpdateId := currentSnapshotUpdateId;
      Tell(FeedSnapshot(m));
    }

    /** The strand step of a diff. */
    method AcceptDiff(m: Message)
      requires Valid()
      modifies this, orderBook`posted
      ensures Valid() && orderBook.ran == old(orderBook.ran)
      ensures trace == old(trace) + [DiffMsg(m)] && Now() == OnDiff(old(Now()), m)
    {
      RunSnoc(trace, DiffMsg(m));
      ProcessDiff(m);
      trace := trace + [DiffMsg(m)];
    }

    method ProcessDiff(m: Message)
      requires orderBook.Sent() == JobsOf(log)
      modifies `receivedSnapshotSuccess, `currentSnapshotUpdateId, `currentDiffUpdateId, `log, orderBook`posted
      ensures orderBook.Sent() == JobsOf(log)
      ensures Now() == OnDiff(old(Now()), m)
      ensures receivedSnapshotSuccess <==> old(receivedSnapshotSuccess) && m.id == old(currentDiffUpdateId) + 1
      ensures receivedSnapshotSuccess ==> BookOf(log) == Apply(BookOf(old(log)), m.depth)
    {
      DiffStep(Now(), m);
      hide BookOf, Apply;
      if !receivedSnapshotSuccess {
        return;
      }
      if currentDiffUpdateId + 1 != m.id {
        Tell(Clear);
        receivedSnapshotSuccess := false;
        currentDiffUpdateId := 0;
        currentSnapshotUpdateId := 0;
        return;
      }
      Tell(FeedDiff(m));
      currentDiffUpdateId := m.id;
    }
  }

  /** Convergence, on the objects: once the strand has run everything, the mutable nodes hold the
      exchange's book at the current id. */
  lemma ReceivedBookIsTheExchangeBook(sync: OrderBookSync, listener: OrderBookEventListener, h: History)
    requires sync.Valid() && listener.Valid() && listener.strand == sync.orderBook && sync.orderBook.posted == []
    requires Numbered(sync.trace) && LastSnapshotFits(sync.trace) && sync.receivedSnapshotSuccess
    requires var v := Told(sync.log); v.Fed? ==> TrueView(h, v.snapshot, v.diffs)
    ensures listener.inner.Contents() == ExchangeBook(h, sync.currentDiffUpdateId)
  {
    assert listener.strand.ran + [] == listener.strand.ran;
    JobsMakeTheBook(sync.log);
    Convergence(h, sync.trace);
  }

  // ----- Both strands at work -----

  ghost predicate Connected(sync: OrderBookSync, listener: OrderBookEventListener)
    reads sync, sync.orderBook, listener, listener.strand, listener.inner, listener.inner.bids, listener.inner.asks,
          listener.inner.Footprint()
  {
    sync.Valid() && listener.Valid() && listener.strand == sync.orderBook
  }

  method DeliverEvent(sync: OrderBookSync, listener: OrderBookEventListener, event: Event)
    requires Connected(sync, listener)
    modifies sync, sync.orderBook`posted
    ensures Connected(sync, listener) && sync.trace == old(sync.trace) + [event]
    ensures listener.inner.Footprint() == old(listener.inner.Footprint())
  {
    hide JobsOf, RunJobs, Run;
    match event
    case SnapshotMsg(m) => sync.AcceptSnapshot(m);
    case DiffMsg(m) => sync.AcceptDiff(m);
  }

  method RunNext(sync: OrderBookSync, listener: OrderBookEventListener)
    requires Connected(sync, listener)
    modifies sync.orderBook, listener.inner.Footprint()
    ensures Connected(sync, listener)
    ensures fresh(listener.inner.Footprint() - old(listener.inner.Footprint()))
  {
    hide JobsOf, RunJobs, Run;
    if listener.strand.posted != [] {
      listener.RunOne();
    }
  }

  method RunRest(sync: OrderBookSync, listener: OrderBookEventListener)
    requires Connected(sync, listener)
    modifies sync.orderBook, listener.inner.Footprint()
    ensures Connected(sync, listener) && listener.strand.posted == []
  {
    hide JobsOf, RunJobs, Run;
    listener.RunAll();
  }

  method TakeTurns(sync: OrderBookSync, listener: OrderBookEventListener, turns: seq<Turn<Event>>)
    requires Connected(sync, listener) && sync.trace == []
    modifies sync, sync.orderBook, listener.inner.Footprint()
    ensures Connected(sync, listener) && sync.trace == Delivered(turns)
    ensures fresh(listener.inner.Footprint() - old(listener.inner.Footprint()))
  {
    hide Connected;
    for k := 0 to |turns|
      invariant Connected(sync, listener) && sync.trace == Delivered(turns[..k])
      invariant fresh(listener.inner.Footprint() - old(listener.inner.Footprint()))
    {
      assert turns[..k + 1][..k] == turns[..k];
      match turns[k] {
        case Deliver(event) => DeliverEvent(sync, listener, event);
        case BookTurn => RunNext(sync, listener);
      }
    }
    assert turns[..|turns|] == turns;
  }

  method Connect() returns (sync: OrderBookSync, listener: OrderBookEventListener)
    ensures Connected(sync, listener) && sync.trace == []
    ensures fresh(sync) && fresh(sync.orderBook) && fresh(listener.inner.Footprint())
  {
    hide JobsOf, RunJobs, Run;
    listener := new OrderBookEventListener();
    sync := new OrderBookSync(listener.strand);
  }

  /** If a snapshot is received and the last new one fitted, the nodes hold the exchange's book for every
      history of which the messages behind the book are true. */
  ghost predicate NodesAreRight(sync: OrderBookSync, listener: OrderBookEventListener)
    reads sync, listener, listener.inner, listener.inner.bids, listener.inner.asks, listener.inner.Footprint()
  {
    && listener.inner.Valid()
    && (Numbered(sync.trace) && LastSnapshotFits(sync.trace) && sync.receivedSnapshotSuccess
        ==> var v := Told(sync.log);
            && v.Fed?
            && (forall h: History :: TrueView(h, v.snapshot, v.diffs) ==>
                  listener.inner.Contents() == ExchangeBook(h, sync.currentDiffUpdateId)))
  }

  lemma DrainedNodesAreRight(sync: OrderBookSync, listener: OrderBookEventListener)
    requires Connected(sync, listener) && listener.strand.posted == []
    ensures NodesAreRight(sync, listener)
  {
    hide JobsOf, RunJobs, TrueView;
    if Numbered(sync.trace) && LastSnapshotFits(sync.trace) && sync.receivedSnapshotSuccess {
      RunFollows(sync.trace);
      var v := Told(sync.log);
      forall h: History | TrueView(h, v.snapshot, v.diffs)
        ensures listener.inner.Contents() == ExchangeBook(h, sync.currentDiffUpdateId)
      {
        ReceivedBookIsTheExchangeBook(sync, listener, h);
      }
    }
  }

  method Finish(sync: OrderBookSync, listener: OrderBookEventListener)
    requires Connected(sync, listener)
    modifies sync.orderBook, listener.inner.Footprint()
    ensures Connected(sync, listener) && listener.strand.posted == [] && NodesAreRight(sync, listener)
  {
    hide NodesAreRight, Connected;
    RunRest(sync, listener);
    DrainedNodesAreRight(sync, listener);
  }

  /** The objects, from their construction through any interleaving of deliveries and jobs until the book's
      strand has nothing left. */
  method Interleave(turns: seq<Turn<Event>>) returns (sync: OrderBookSync, listener: OrderBookEventListener)
    ensures Connected(sync, listener) && sync.trace == Delivered(turns)
    ensures listener.strand.posted == [] && NodesAreRight(sync, listener)
  {
    hide NodesAreRight, Connected;
    sync, listener := Connect();
    TakeTurns(sync, listener, turns);
    Finish(sync, listener);
  }
}
