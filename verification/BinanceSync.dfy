/** The OrderBookSync object of Binance (spot and futures): its fields are changed in place by one
    method per event, and it drives an order book behind a strand
    (aoe/binance/order_book_sync/order_book_sync.h). */
module BinanceSync {
  import opened Basics
  import opened BookTheory
  import opened BookStrand
  import opened BinanceProtocol
  import opened BinancePhases
  import opened BinanceConvergence

  /** The jobs that an output posts to the order book's strand. */
  function JobOf(o: Output): seq<Job> {
    match o
    case Clear => [ProcessClear]
    case Request => []
    case FeedSnapshot(snap) => [ProcessEvent(snap.depth)]
    case FeedDiff(d) => [ProcessEvent(d.depth)]
  }

  function JobsOf(log: seq<Output>): seq<Job> {
    if log == [] then [] else JobsOf(log[..|log| - 1]) + JobOf(log[|log| - 1])
  }

  lemma JobsSnoc(log: seq<Output>, o: Output)
    ensures JobsOf(log + [o]) == JobsOf(log) + JobOf(o)
  {
    assert (log + [o])[..|log|] == log;
  }

  /** One output does to the book what its job does, if it has one. */
  lemma JobTells(b: Book, o: Output)
    ensures |JobOf(o)| <= 1
    ensures Tell(b, o) == if JobOf(o) == [] then b else RunJob(b, JobOf(o)[0])
  {
  }

  /** Running the posted jobs gives the book of the outputs. */
  lemma {:induction false} JobsMakeTheBook(log: seq<Output>)
    ensures RunJobs(EMPTY, JobsOf(log)) == BookOf(log)
  {
    if log == [] {
    } else {
      var init, o := log[..|log| - 1], log[|log| - 1];
      JobsMakeTheBook(init);
      JobTells(BookOf(init), o);
      if JobOf(o) == [] {
        assert JobsOf(init) + [] == JobsOf(init);
      } else {
        RunJobsSnoc(EMPTY, JobsOf(init), JobOf(o)[0]);
      }
    }
  }

  /** What the replay loop leaves: the last update id, the diffs not applied, the outputs, the flag
      diff_packet_lost_, and whether the rest of the buffer is to be cleared. */
  datatype ReplayEnd = ReplayEnd(last: nat, diffs: seq<Diff>, log: seq<Output>, packetLost: bool, clear: bool)

  /** The loop from any of its iterations on. */
  function ReplayFrom(rule: Rule, last: nat, ds: seq<Diff>, log: seq<Output>, packetLost: bool): ReplayEnd
    decreases |ds|
  {
    if ds == [] then ReplayEnd(last, ds, log, packetLost, false)
    else if Lost(rule, last, ds[0]) then ReplayEnd(last, ds, log, true, true)
    else ReplayFrom(rule, ds[0].final, ds[1..], log + [FeedDiff(ds[0])], false)
  }

  /** The loop applies exactly the diffs that chain. */
  lemma {:induction false} ReplayIsChained(rule: Rule, last: nat, ds: seq<Diff>, log: seq<Output>, lost: bool)
    ensures var n := Chained(rule, last, ds);
            var r := ReplayFrom(rule, last, ds, log, lost);
            && r.diffs == ds[n..] && r.last == FinalOf(last, ds[..n]) && r.log == log + Feeds(ds[..n])
            && r.clear == (n < |ds|)
            && r.packetLost == if r.clear then true else if n > 0 then false else lost
    decreases |ds|
  {
    if ds == [] || Lost(rule, last, ds[0]) {
      assert log + Feeds(ds[..0]) == log;
    } else {
      var rest, log1 := ds[1..], log + [FeedDiff(ds[0])];
      ReplayIsChained(rule, ds[0].final, rest, log1, false);
      var m := Chained(rule, ds[0].final, rest);
      assert ds[1 + m..] == rest[m..];
      assert ds[..1 + m] == [ds[0]] + rest[..m];
      assert log1 + Feeds(rest[..m]) == log + Feeds(ds[..1 + m]);
    }
  }

  lemma ReplayIsBuffer(rule: Rule, s: State)
    ensures var r := ReplayFrom(rule, s.last, s.diffs, s.log, s.packetLost);
            && (r.diffs == [] || r.clear)
            && ReplayBuffer(rule, s) ==
               s.(last := r.last, log := r.log, diffs := [], packetLost := r.packetLost,
                  needMake := r.clear || s.needMake, processed := !r.clear && s.processed)
  {
    ReplayIsChained(rule, s.last, s.diffs, s.log, s.packetLost);
  }

  class OrderBookSync {
    const rule: Rule
    const orderBook: Strand
    var lastDiffUpdateId: nat
    var lastSnapshotUpdateId: nat
    var needMakeSnapshot: bool
    var needProcessCurrentSnapshot: bool
    var diffPacketLost: bool
    var snapshotRequestInFlight: bool
    var snapshotWasProcessed: bool
    var lastSnapshot: Option<Snapshot>
    var diffs: seq<Diff>

    /** The outputs so far, and the events that led to them. */
    ghost var log: seq<Output>
    ghost var trace: seq<Event>

    constructor (rule: Rule, orderBook: Strand)
      requires orderBook.Sent() == []
      ensures Valid() && trace == [] && this.rule == rule && this.orderBook == orderBook
    {
      this.rule, this.orderBook := rule, orderBook;
      lastDiffUpdateId, lastSnapshotUpdateId := 0, 0;
      needMakeSnapshot, needProcessCurrentSnapshot, diffPacketLost := true, false, true;
      snapshotRequestInFlight, snapshotWasProcessed := false, false;
      lastSnapshot, diffs, log, trace := None, [], [], [];
    }

    ghost function Now(): State
      reads this
    {
      State(lastDiffUpdateId, lastSnapshotUpdateId, needMakeSnapshot, needProcessCurrentSnapshot, diffPacketLost,
            snapshotRequestInFlight, snapshotWasProcessed, lastSnapshot, diffs, log)
    }

    /** The fields are where the protocol is after the trace, and the strand was sent the outputs. */
    ghost predicate Valid()
      reads this, orderBook
    {
      && Now() == Run(rule, trace)
      && (needProcessCurrentSnapshot ==> lastSnapshot.Some?)
      && orderBook.Sent() == JobsOf(log)
    }

    method CheckPacketLost(d: Diff) returns (lost: bool)
      ensures lost == Lost(rule, lastDiffUpdateId, d)
      ensures Numbered(rule, d) ==> (lost <==> Base(rule, d) != lastDiffUpdateId)
    {
      match rule
      case Spot => lost := d.first != lastDiffUpdateId + 1;
      case Futures => lost := d.prev != lastDiffUpdateId;
    }

    /** The strand step of a snapshot. */
    method AcceptSnapshot(snap: Snapshot)
      requires Valid()
      modifies this
      ensures Valid() && trace == old(trace) + [SnapshotEvent(snap)]
      ensures Now() == OnSnapshot(old(Now()), snap)
    {
      RunSnoc(rule, trace, SnapshotEvent(snap));
      ProcessSnapshot(snap);
      trace := trace + [SnapshotEvent(snap)];
    }

    method ProcessSnapshot(snap: Snapshot)
      modifies `lastSnapshotUpdateId, `lastSnapshot, `snapshotRequestInFlight, `diffs, `lastDiffUpdateId,
               `needProcessCurrentSnapshot, `needMakeSnapshot
      ensures Now() == OnSnapshot(old(Now()), snap)
    {
      lastSnapshotUpdateId := snap.id;
      lastSnapshot := Some(snap);
      snapshotRequestInFlight := false;
      SkipEarlierDiffs();
      if !snap.pairKnown {
        needProcessCurrentSnapshot := false;
        needMakeSnapshot := true;
        return;
      }
      needProcessCurrentSnapshot := true;
    }

    /** The trim loop. */
    method SkipEarlierDiffs()
      modifies `diffs, `lastDiffUpdateId
      ensures Trimmed(diffs, lastDiffUpdateId) == Trim(old(diffs), lastSnapshotUpdateId, old(lastDiffUpdateId))
      ensures var next, k := lastSnapshotUpdateId + 1, |old(diffs)| - |diffs|;
              && 0 <= k && diffs == old(diffs)[k..]
              && lastDiffUpdateId == (if k == 0 then old(lastDiffUpdateId) else old(diffs)[k - 1].final)
              && (forall i :: 0 <= i < k ==> !(old(diffs)[i].first <= next <= old(diffs)[i].final))
              && (diffs != [] ==> diffs[0].first <= next <= diffs[0].final)
    {
      TrimStopsAtFirstFit(diffs, lastSnapshotUpdateId, lastDiffUpdateId);
      while diffs != []
        invariant Trim(diffs, lastSnapshotUpdateId, lastDiffUpdateId) ==
                  Trim(old(diffs), lastSnapshotUpdateId, old(lastDiffUpdateId))
        decreases |diffs|
      {
        var diff := diffs[0];
        if diff.first <= lastSnapshotUpdateId + 1 && diff.final >= lastSnapshotUpdateId + 1 {
          break;
        }
        lastDiffUpdateId := diff.final;
        diffs := diffs[1..];
      }
    }

    /** The strand step of a diff. */
    method AcceptDiff(d: Diff)
      requires Valid()
      modifies this, orderBook`posted
      ensures Valid() && trace == old(trace) + [DiffEvent(d)] && orderBook.ran == old(orderBook.ran)
      ensures Now() == OnDiff(rule, old(Now()), d)
    {
      RunSnoc(rule, trace, DiffEvent(d));
      ProcessDiff(d);
      trace := trace + [DiffEvent(d)];
    }

    /** A call on the order book. */
    method Tell(o: Output)
      requires orderBook.Sent() == JobsOf(log)
      modifies `log, orderBook`posted
      ensures orderBook.Sent() == JobsOf(log) && log == old(log) + [o]
    {
      JobsSnoc(log, o);
      match o {
        case Clear => orderBook.Clear();
        case Request =>
        case FeedSnapshot(snap) => orderBook.OnEvent(snap.depth);
        case FeedDiff(d) => orderBook.OnEvent(d.depth);
      }
      log := log + [o];
    }

    method ProcessDiff(d: Diff)
      requires needProcessCurrentSnapshot ==> lastSnapshot.Some?
      requires orderBook.Sent() == JobsOf(log)
      modifies this, orderBook`posted
      ensures Now() == OnDiff(rule, old(Now()), d) && trace == old(trace)
      ensures needProcessCurrentSnapshot ==> lastSnapshot.Some?
      ensures orderBook.Sent() == JobsOf(log)
    {
      hide OnBuffered, JobsOf, Numbered, Base, Lost;
      if snapshotWasProcessed {
        var packetLost := CheckPacketLost(d);
        if !packetLost {
          Tell(FeedDiff(d));
          lastDiffUpdateId := d.final;
          return;
        }
      }
      diffs := diffs + [d];
      ProcessBuffer();
    }

    method ProcessBuffer()
      requires needProcessCurrentSnapshot ==> lastSnapshot.Some?
      requires orderBook.Sent() == JobsOf(log)
      modifies `needProcessCurrentSnapshot, `snapshotWasProcessed, `lastDiffUpdateId, `diffs, `diffPacketLost, `log,
               `needMakeSnapshot, `snapshotRequestInFlight, orderBook`posted
      ensures Now() == OnBuffered(rule, old(Now()))
      ensures needProcessCurrentSnapshot ==> lastSnapshot.Some?
      ensures orderBook.Sent() == JobsOf(log)
    {
      if needMakeSnapshot {
        if !snapshotRequestInFlight {
          RequestSnapshot();
          return;
        }
      }
      if snapshotRequestInFlight {
        return;
      }
      CatchUp();
    }

    method RequestSnapshot()
      requires orderBook.Sent() == JobsOf(log)
      modifies `snapshotRequestInFlight, `needMakeSnapshot, `log, orderBook`posted
      ensures snapshotRequestInFlight && !needMakeSnapshot && log == old(log) + [Clear, Request]
      ensures orderBook.Sent() == JobsOf(log)
    {
      Tell(Clear);
      snapshotRequestInFlight := true;
      Tell(Request);
      needMakeSnapshot := false;
    }

    method CatchUp()
      requires needProcessCurrentSnapshot ==> lastSnapshot.Some?
      requires orderBook.Sent() == JobsOf(log)
      modifies `needProcessCurrentSnapshot, `snapshotWasProcessed, `lastDiffUpdateId, `diffs, `diffPacketLost, `log,
               `needMakeSnapshot, orderBook`posted
      ensures Now() == ReplayBuffer(rule, ApplySnapshot(old(Now()))) && !needProcessCurrentSnapshot
      ensures orderBook.Sent() == JobsOf(log)
    {
      ApplyLastSnapshot();
      Replay();
    }

    method ApplyLastSnapshot()
      requires needProcessCurrentSnapshot ==> lastSnapshot.Some?
      requires orderBook.Sent() == JobsOf(log)
      modifies `needProcessCurrentSnapshot, `snapshotWasProcessed, `log, orderBook`posted
      ensures Now() == ApplySnapshot(old(Now())) && !needProcessCurrentSnapshot
      ensures orderBook.Sent() == JobsOf(log)
    {
      if needProcessCurrentSnapshot {
        needProcessCurrentSnapshot := false;
        Tell(FeedSnapshot(lastSnapshot.value));
        snapshotWasProcessed := true;
      }
    }

    /** The replay loop: applies diffs as long as they chain. */
    method ReplayChain() returns (needClearBufferDiffs: bool)
      requires orderBook.Sent() == JobsOf(log)
      modifies `lastDiffUpdateId, `diffs, `diffPacketLost, `log, orderBook`posted
      ensures ReplayEnd(lastDiffUpdateId, diffs, log, diffPacketLost, needClearBufferDiffs) ==
              ReplayFrom(rule, old(lastDiffUpdateId), old(diffs), old(log), old(diffPacketLost))
      ensures orderBook.Sent() == JobsOf(log)
    {
      while diffs != []
        invariant ReplayFrom(rule, lastDiffUpdateId, diffs, log, diffPacketLost) ==
                  ReplayFrom(rule, old(lastDiffUpdateId), old(diffs), old(log), old(diffPacketLost))
        invariant orderBook.Sent() == JobsOf(log)
        decreases |diffs|
      {
        var firstDiff := diffs[0];
        diffPacketLost := CheckPacketLost(firstDiff);
        if diffPacketLost {
          return true;
        }
        lastDiffUpdateId := firstDiff.final;
        diffs := diffs[1..];
        Tell(FeedDiff(firstDiff));
      }
      return false;
    }

    /** What is to be done when the replay met a lost packet. */
    method StartAgain()
      modifies `diffs, `needMakeSnapshot, `snapshotWasProcessed
      ensures diffs == [] && needMakeSnapshot && !snapshotWasProcessed
    {
      needMakeSnapshot := true;
      snapshotWasProcessed := false;
      while diffs != []
        invariant needMakeSnapshot && !snapshotWasProcessed
        decreases |diffs|
      {
        diffs := diffs[1..];
      }
    }

    method Replay()
      requires orderBook.Sent() == JobsOf(log)
      modifies `lastDiffUpdateId, `diffs, `diffPacketLost, `log, `needMakeSnapshot, `snapshotWasProcessed,
               orderBook`posted
      ensures Now() == ReplayBuffer(rule, old(Now()))
      ensures orderBook.Sent() == JobsOf(log)
    {
      ReplayIsBuffer(rule, Now());
      var needClearBufferDiffs := ReplayChain();
      if needClearBufferDiffs {
        StartAgain();
      }
    }
  }

  /** Convergence, on the objects: once the strand has run everything, the mutable nodes of a synced
      machine hold the exchange's book. */
  lemma SyncedBookIsTheExchangeBook(sync: OrderBookSync, listener: OrderBookEventListener, h: History)
    requires sync.Valid() && listener.Valid() && listener.strand == sync.orderBook && sync.orderBook.posted == []
    requires Admissible(sync.rule, sync.trace) && TrueFeed(sync.rule, h, sync.trace)
    requires LastTrimFits(sync.rule, sync.trace)
    requires Synced(sync.Now()) && sync.lastDiffUpdateId >= sync.lastSnapshotUpdateId
    ensures listener.inner.Contents() == ExchangeBook(h, sync.lastDiffUpdateId)
  {
    assert listener.strand.ran + [] == listener.strand.ran;
    JobsMakeTheBook(sync.log);
    Convergence(sync.rule, h, sync.trace);
  }

  // ----- Both strands at work -----

  ghost predicate Connected(sync: OrderBookSync, listener: OrderBookEventListener)
    reads sync, sync.orderBook, listener, listener.strand, listener.inner, listener.inner.bids, listener.inner.asks,
          listener.inner.Footprint()
  {
    sync.Valid() && listener.Valid() && listener.strand == sync.orderBook
  }

  method DeliverEvent(sync: OrderBookSync, listener: OrderBookEventListener, event: Event)
    requires Connected(sync, listener)
    modifies sync, sync.orderBook`posted
    ensures Connected(sync, listener) && sync.trace == old(sync.trace) + [event]
    ensures listener.inner.Footprint() == old(listener.inner.Footprint())
  {
    hide JobsOf, RunJobs, Run;
    match event
    case SnapshotEvent(snap) => sync.AcceptSnapshot(snap);
    case DiffEvent(d) => sync.AcceptDiff(d);
  }

  method RunNext(sync: OrderBookSync, listener: OrderBookEventListener)
    requires Connected(sync, listener)
    modifies sync.orderBook, listener.inner.Footprint()
    ensures Connected(sync, listener)
    ensures fresh(listener.inner.Footprint() - old(listener.inner.Footprint()))
  {
    hide JobsOf, RunJobs, Run;
    if listener.strand.posted != [] {
      listener.RunOne();
    }
  }

  method RunRest(sync: OrderBookSync, listener: OrderBookEventListener)
    requires Connected(sync, listener)
    modifies sync.orderBook, listener.inner.Footprint()
    ensures Connected(sync, listener) && listener.strand.posted == []
  {
    hide JobsOf, RunJobs, Run;
    listener.RunAll();
  }

  method TakeTurns(sync: OrderBookSync, listener: OrderBookEventListener, turns: seq<Turn<Event>>)
    requires Connected(sync, listener) && sync.trace == []
    modifies sync, sync.orderBook, listener.inner.Footprint()
    ensures Connected(sync, listener) && sync.trace == Delivered(turns)
    ensures fresh(listener.inner.Footprint() - old(listener.inner.Footprint()))
  {
    hide Connected;
    for k := 0 to |turns|
      invariant Connected(sync, listener) && sync.trace == Delivered(turns[..k])
      invariant fresh(listener.inner.Footprint() - old(listener.inner.Footprint()))
    {
      assert turns[..k + 1][..k] == turns[..k];
      match turns[k] {
        case Deliver(event) => DeliverEvent(sync, listener, event);
        case BookTurn => RunNext(sync, listener);
      }
    }
    assert turns[..|turns|] == turns;
  }

  method Connect(rule: Rule) returns (sync: OrderBookSync, listener: OrderBookEventListener)
    ensures Connected(sync, listener) && sync.rule == rule && sync.trace == []
    ensures fresh(sync) && fresh(sync.orderBook) && fresh(listener.inner.Footprint())
  {
    hide JobsOf, RunJobs, Run;
    listener := new OrderBookEventListener();
    sync := new OrderBookSync(rule, listener.strand);
  }

  /** If every delivery was true, the last trim did not overshoot and the machine is synced at or past its
      snapshot, the nodes hold the exchange's book. */
  ghost predicate NodesAreRight(sync: OrderBookSync, listener: OrderBookEventListener)
    reads sync, listener, listener.inner, listener.inner.bids, listener.inner.asks, listener.inner.Footprint()
  {
    && listener.inner.Valid()
    && (Admissible(sync.rule, sync.trace) && LastTrimFits(sync.rule, sync.trace)
        && Synced(sync.Now()) && sync.lastDiffUpdateId >= sync.lastSnapshotUpdateId
        ==> forall h: History :: TrueFeed(sync.rule, h, sync.trace) ==>
              listener.inner.Contents() == ExchangeBook(h, sync.lastDiffUpdateId))
  }

  lemma DrainedNodesAreRight(sync: OrderBookSync, listener: OrderBookEventListener)
    requires Connected(sync, listener) && listener.strand.posted == []
    ensures NodesAreRight(sync, listener)
  {
    hide JobsOf, RunJobs, Run, TrueFeed;
    forall h: History | TrueFeed(sync.rule, h, sync.trace)
      ensures Admissible(sync.rule, sync.trace) && LastTrimFits(sync.rule, sync.trace)
              && Synced(sync.Now()) && sync.lastDiffUpdateId >= sync.lastSnapshotUpdateId
              ==> listener.inner.Contents() == ExchangeBook(h, sync.lastDiffUpdateId)
    {
      if Admissible(sync.rule, sync.trace) && LastTrimFits(sync.rule, sync.trace)
         && Synced(sync.Now()) && sync.lastDiffUpdateId >= sync.lastSnapshotUpdateId {
        SyncedBookIsTheExchangeBook(sync, listener, h);
      }
    }
  }

  method Finish(sync: OrderBookSync, listener: OrderBookEventListener)
    requires Connected(sync, listener)
    modifies sync.orderBook, listener.inner.Footprint()
    ensures Connected(sync, listener) && listener.strand.posted == [] && NodesAreRight(sync, listener)
  {
    hide NodesAreRight, Connected;
    RunRest(sync, listener);
    DrainedNodesAreRight(sync, listener);
  }

  /** The objects, from their construction through any interleaving of deliveries and jobs until the book's
      strand has nothing left. */
  method Interleave(rule: Rule, turns: seq<Turn<Event>>) returns (sync: OrderBookSync, listener: OrderBookEventListener)
    ensures Connected(sync, listener) && sync.rule == rule && sync.trace == Delivered(turns)
    ensures listener.strand.posted == [] && NodesAreRight(sync, listener)
  {
    hide NodesAreRight, Connected;
    sync, listener := Connect(rule);
    TakeTurns(sync, listener, turns);
    Finish(sync, listener);
  }
}
