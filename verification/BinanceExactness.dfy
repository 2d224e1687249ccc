/** How exact the convergence hypothesis is.  What the book was told since its last clear fixes the exchange's
    book exactly when the replay starts at or before the snapshot; and if an update was reported to the run by
    no delivery at all, no book is right for every history of which the deliveries are true. */
module BinanceExactness {
  import opened Basics
  import opened BookTheory
  import opened BinanceProtocol
  import opened BinancePhases
  import opened BinanceConvergence

  function AllBids(ds: seq<Diff>): seq<Entry> {
    if ds == [] then [] else AllBids(ds[..|ds| - 1]) + ds[|ds| - 1].depth.bids
  }

  lemma {:induction false} UntouchedReplay(snap: Snapshot, ds: seq<Diff>, p: Price)
    requires LastWrite(snap.depth.bids, p) == None && LastWrite(AllBids(ds), p) == None
    ensures p !in Replayed(snap, ds).bids
  {
    if ds == [] {
      OverwriteAllReads(map[], snap.depth.bids, p);
    } else {
      var init, d := ds[..|ds| - 1], ds[|ds| - 1];
      LastWriteConcat(AllBids(init), d.depth.bids, p);
      UntouchedReplay(snap, init, p);
      OverwriteAllReads(Replayed(snap, init).bids, d.depth.bids, p);
    }
  }

  lemma {:induction false} UntouchedRange(rule: Rule, h: History, ds: seq<Diff>, p: Price)
    requires ds != [] && IsChain(rule, ds) && forall d :: d in ds ==> TrueDiff(rule, h, d)
    requires LastWrite(AllBids(ds), p) == None
    ensures Base(rule, ds[0]) < FinalOf(0, ds)
    ensures LastWrite(BidWrites(h, Base(rule, ds[0]), FinalOf(0, ds)), p) == None
  {
    var init, d := ds[..|ds| - 1], ds[|ds| - 1];
    assert d in ds;
    LastWriteConcat(AllBids(init), d.depth.bids, p);
    assert LastWrite(d.depth.bids, p) == LastWrite(BidWrites(h, Base(rule, d), d.final), p);
    if init == [] {
    } else {
      UntouchedRange(rule, h, init, p);
      assert !Lost(rule, ds[|ds| - 2].final, ds[|ds| - 1]);
      WritesSplit(h, Base(rule, ds[0]), Base(rule, d), d.final);
      LastWriteConcat(BidWrites(h, Base(rule, ds[0]), Base(rule, d)), BidWrites(h, Base(rule, d), d.final), p);
    }
  }

  /** The same history with one more bid overwrite at the end of update id k. */
  function WithExtra(h: History, k: nat, e: Entry): History {
    (n: nat) => if n == k then Depth(h(n).bids + [e], h(n).asks) else h(n)
  }

  lemma {:induction false} ExtraIsElsewhere(h: History, k: nat, e: Entry, a: nat, n: nat)
    requires n < k || k <= a
    ensures BidWrites(WithExtra(h, k, e), a, n) == BidWrites(h, a, n)
    ensures AskWrites(WithExtra(h, k, e), a, n) == AskWrites(h, a, n)
    decreases n
  {
    if n <= a {
    } else {
      ExtraIsElsewhere(h, k, e, a, n - 1);
    }
  }

  /** An update in the gap between snapshot and replay goes unnoticed. */
  lemma GapGoesUnnoticed(rule: Rule, h: History, snap: Snapshot, ds: seq<Diff>) returns (h': History)
    requires ds != [] && IsChain(rule, ds) && TrueView(rule, h, snap, ds)
    requires snap.id < Base(rule, ds[0])
    ensures TrueView(rule, h', snap, ds)
    ensures Replayed(snap, ds) != ExchangeBook(h', FinalOf(0, ds))
  {
    var p := PriceAbove(snap.depth.bids + AllBids(ds));
    UntouchedPrice(snap.depth.bids, p);
    UntouchedPrice(AllBids(ds), p);
    var k, n := Base(rule, ds[0]), FinalOf(0, ds);
    h' := WithExtra(h, k, Entry(p, 1.0));
    ExtraIsElsewhere(h, k, Entry(p, 1.0), 0, snap.id);
    forall d | d in ds
      ensures TrueDiff(rule, h', d)
    {
      var i :| 0 <= i < |ds| && ds[i] == d;
      ChainGrows(rule, ds, i);
      ExtraIsElsewhere(h, k, Entry(p, 1.0), Base(rule, d), d.final);
    }
    UntouchedReplay(snap, ds, p);
    UntouchedRange(rule, h', ds, p);
    WritesSplit(h', 0, k, n);
    LastWriteConcat(BidWrites(h', 0, k), BidWrites(h', k, n), p);
    ExtraIsLast(h, k, Entry(p, 1.0));
    OverwriteAllReads(map[], BidWrites(h', 0, n), p);
  }

  lemma ExtraIsLast(h: History, k: nat, e: Entry)
    requires k > 0
    ensures LastWrite(BidWrites(WithExtra(h, k, e), 0, k), e.price) == Some(e.qty)
  {
    var w := BidWrites(WithExtra(h, k, e), 0, k);
    var front := BidWrites(WithExtra(h, k, e), 0, k - 1) + h(k).bids;
    assert w == front + [e];
    LastWriteConcat(front, [e], e.price);
  }

  /** The book after a snapshot and some diffs is the exchange's, whichever history they are true of. */
  ghost predicate RightForAll(rule: Rule, snap: Snapshot, ds: seq<Diff>) {
    forall h: History :: TrueView(rule, h, snap, ds) ==> Replayed(snap, ds) == ExchangeBook(h, FinalOf(0, ds))
  }

  /** A snapshot and a chain of diffs that has reached it fix the exchange's book if and only if the chain
      starts at or before the snapshot. */
  lemma ViewIsExact(rule: Rule, h0: History, snap: Snapshot, ds: seq<Diff>)
    requires ds != [] && IsChain(rule, ds) && TrueView(rule, h0, snap, ds) && snap.id <= FinalOf(0, ds)
    ensures RightForAll(rule, snap, ds) <==> Base(rule, ds[0]) <= snap.id
  {
    if Base(rule, ds[0]) <= snap.id {
      forall h: History | TrueView(rule, h, snap, ds)
        ensures Replayed(snap, ds) == ExchangeBook(h, FinalOf(0, ds))
      {
        ViewConverges(rule, h, snap, ds);
      }
    } else {
      var h' := GapGoesUnnoticed(rule, h0, snap, ds);
      assert TrueView(rule, h', snap, ds);
    }
  }

  /** Exactness.  Take a synced run whose last diff has reached the snapshot, and suppose what its book
      was told is true of some history.  Then its book is what it was told, and that is right for every
      history of which it is true if and only if the first replayed diff starts at or before the snapshot. */
  lemma ConvergenceIsExact(rule: Rule, es: seq<Event>, h0: History)
    requires Admissible(rule, es)
    requires Synced(Run(rule, es)) && Run(rule, es).last >= Run(rule, es).snapId
    requires var v := ViewOf(rule, Run(rule, es).log); v.Fed? && TrueView(rule, h0, v.snapshot, v.diffs)
    ensures var s := Run(rule, es);
            var v := ViewOf(rule, s.log);
            && v.diffs != [] && v.snapshot.id == s.snapId && FinalOf(0, v.diffs) == s.last
            && BookOf(s.log) == Replayed(v.snapshot, v.diffs)
            && (RightForAll(rule, v.snapshot, v.diffs) <==> Base(rule, v.diffs[0]) <= s.snapId)
  {
    var s := Run(rule, es);
    var v := ViewOf(rule, s.log);
    RunInv(rule, es);
    ViewDeterminesBook(rule, s.log);
    ViewIsExact(rule, h0, v.snapshot, v.diffs);
  }

  // ----- The same over everything a run was given -----

  /** Update id k is reported by no diff of the run and contained in no snapshot of it. */
  predicate Unreported(rule: Rule, k: nat, es: seq<Event>) {
    forall e :: e in es ==>
      match e
      case SnapshotEvent(snap) => snap.id < k
      case DiffEvent(d) => d.final < k || k <= Base(rule, d)
  }

  lemma PriceNotIn(es: seq<Entry>, fs: seq<Entry>, p: Price)
    requires forall e :: e in es + fs ==> e.price < p
    ensures LastWrite(es, p) == None && LastWrite(fs, p) == None
  {
    assert forall e :: e in es ==> e in es + fs;
    assert forall e :: e in fs ==> e in es + fs;
    UntouchedPrice(es, p);
    UntouchedPrice(fs, p);
  }

  lemma ExtraIsUnreported(rule: Rule, h: History, es: seq<Event>, k: nat, e: Entry)
    requires TrueFeed(rule, h, es) && Unreported(rule, k, es)
    ensures TrueFeed(rule, WithExtra(h, k, e), es)
  {
    forall event | event in es
      ensures TrueEvent(rule, WithExtra(h, k, e), event)
    {
      match event
      case SnapshotEvent(snap) => ExtraIsElsewhere(h, k, e, 0, snap.id);
      case DiffEvent(d) => ExtraIsElsewhere(h, k, e, Base(rule, d), d.final);
    }
  }

  /** An extra bid at a price the exchange never wrote is in its book from then on. */
  lemma ExtraStays(h: History, k: nat, e: Entry, n: nat)
    requires 0 < k <= n && e.qty != 0.0 && LastWrite(BidWrites(h, 0, n), e.price) == None
    ensures e.price in ExchangeBook(WithExtra(h, k, e), n).bids
  {
    var h' := WithExtra(h, k, e);
    WritesSplit(h, 0, k, n);
    LastWriteConcat(BidWrites(h, 0, k), BidWrites(h, k, n), e.price);
    ExtraIsElsewhere(h, k, e, k, n);
    WritesSplit(h', 0, k, n);
    LastWriteConcat(BidWrites(h', 0, k), BidWrites(h', k, n), e.price);
    ExtraIsLast(h, k, e);
    OverwriteAllReads(map[], BidWrites(h', 0, n), e.price);
  }

  /** If some update between the snapshot and the replay was never reported to the run at all, then a
      history of which every delivery of the run is true has another book than the synced machine. */
  lemma UnreportedGoesUnnoticed(rule: Rule, es: seq<Event>, h: History, k: nat) returns (h': History)
    requires Admissible(rule, es) && TrueFeed(rule, h, es) && Synced(Run(rule, es))
    requires Unreported(rule, k, es) && 0 < k <= Run(rule, es).last
    ensures TrueFeed(rule, h', es)
    ensures BookOf(Run(rule, es).log) != ExchangeBook(h', Run(rule, es).last)
  {
    var s := Run(rule, es);
    RunInv(rule, es);
    ViewDeterminesBook(rule, s.log);
    var v := ViewOf(rule, s.log);
    var told, written := v.snapshot.depth.bids + AllBids(v.diffs), BidWrites(h, 0, s.last);
    var p := PriceAbove(told + written);
    assert forall e :: e in told ==> e in told + written;
    PriceNotIn(told, written, p);
    PriceNotIn(v.snapshot.depth.bids, AllBids(v.diffs), p);
    UntouchedReplay(v.snapshot, v.diffs, p);
    h' := WithExtra(h, k, Entry(p, 1.0));
    ExtraIsUnreported(rule, h, es, k, Entry(p, 1.0));
    ExtraStays(h, k, Entry(p, 1.0), s.last);
  }

  // ----- A run that needs the hypothesis -----

  const NOTHING: Depth := Depth([], [])

  const ONE_BID: Depth := Depth([Entry(1.0, 1.0)], [])

  /** The exchange sets one bid at update k, if k is not 0, and changes nothing else. */
  function OneBid(k: nat): History {
    (n: nat) => if n == k then ONE_BID else NOTHING
  }

  const D1: Diff := Diff(5, 6, 4, NOTHING)
  const SNAP: Snapshot := Snapshot(3, true, NOTHING)
  const D2: Diff := Diff(7, 7, 6, NOTHING)
  const UP_TO_SNAPSHOT: seq<Event> := [DiffEvent(D1), SnapshotEvent(SNAP)]
  const LATE_BUFFER: seq<Event> := UP_TO_SNAPSHOT + [DiffEvent(D2)]

  lemma {:induction false} NothingWritten(k: nat, a: nat, n: nat)
    requires n < k || k <= a
    ensures BidWrites(OneBid(k), a, n) == [] && AskWrites(OneBid(k), a, n) == []
    decreases n
  {
    if n <= a {
    } else {
      NothingWritten(k, a, n - 1);
    }
  }

  lemma UpToSnapshotRun(rule: Rule)
    ensures Admissible(rule, UP_TO_SNAPSHOT)
    ensures var s := Run(rule, UP_TO_SNAPSHOT);
            SnapshotReady(s) && Overshoots(s) && s.last == 6 && s.log == [Clear, Request] && s.snapshot == Some(SNAP)
  {
    RunSnoc(rule, [], DiffEvent(D1));
    assert [] + [DiffEvent(D1)] == [DiffEvent(D1)];
    var s := Run(rule, [DiffEvent(D1)]);
    assert s == OnDiff(rule, INIT, D1);
    assert [] + [D1] == [D1];
    RunSnoc(rule, [DiffEvent(D1)], SnapshotEvent(SNAP));
    assert [DiffEvent(D1)] + [SnapshotEvent(SNAP)] == UP_TO_SNAPSHOT;
    assert Trim([D1], 3, 0) == Trimmed([], 6);
  }

  lemma LateBufferRun(rule: Rule)
    ensures Admissible(rule, LATE_BUFFER) && !LastTrimFits(rule, LATE_BUFFER)
    ensures var s := Run(rule, LATE_BUFFER);
            Synced(s) && s.last == 7 && s.snapId == 3 && ViewOf(rule, s.log) == Fed(SNAP, [D2])
  {
    UpToSnapshotRun(rule);
    RunInv(rule, UP_TO_SNAPSHOT);
    RunSnoc(rule, UP_TO_SNAPSHOT, DiffEvent(D2));
    var s := Run(rule, UP_TO_SNAPSHOT);
    ReadyDiff(rule, s, D2);
    assert s.diffs + [D2] == [D2];
    assert Chained(rule, 6, [D2]) == 1;
    assert [D2][..1] == [D2];
    assert LATE_BUFFER[..2] == UP_TO_SNAPSHOT;
    assert !LastTrimFits(rule, UP_TO_SNAPSHOT);
  }

  /** An empty diff is true wherever nothing is written. */
  lemma NothingReported(rule: Rule, k: nat, d: Diff)
    requires d.depth == NOTHING && Numbered(rule, d) && (d.final < k || k <= Base(rule, d))
    ensures TrueDiff(rule, OneBid(k), d)
  {
    NothingWritten(k, Base(rule, d), d.final);
  }

  lemma EmptySnapshotIsTrue(k: nat, snap: Snapshot)
    requires snap.depth == NOTHING && (snap.id < k || k == 0)
    ensures TrueSnapshot(OneBid(k), snap)
  {
    NothingWritten(k, 0, snap.id);
  }

  lemma BidIsWritten(k: nat, a: nat, n: nat)
    requires a < k <= n
    ensures BidWrites(OneBid(k), a, n) == ONE_BID.bids && AskWrites(OneBid(k), a, n) == []
  {
    WritesSplit(OneBid(k), a, k, n);
    NothingWritten(k, k, n);
    NothingWritten(k, a, k - 1);
  }

  lemma BidIsInTheBook(k: nat, n: nat)
    requires 0 < k <= n
    ensures ExchangeBook(OneBid(k), n) != EMPTY
  {
    BidIsWritten(k, 0, n);
    OverwriteAllReads(map[], ONE_BID.bids, 1.0);
  }

  lemma LateBufferIsTrue(rule: Rule)
    ensures TrueFeed(rule, OneBid(4), LATE_BUFFER)
  {
    EmptySnapshotIsTrue(4, SNAP);
    NothingReported(rule, 4, D1);
    NothingReported(rule, 4, D2);
    forall e | e in LATE_BUFFER
      ensures TrueEvent(rule, OneBid(4), e)
    {
      assert e == DiffEvent(D1) || e == SnapshotEvent(SNAP) || e == DiffEvent(D2);
    }
  }

  /** An empty snapshot and an empty diff make an empty book. */
  lemma EmptyReplay(snap: Snapshot, d: Diff)
    requires snap.depth == NOTHING && d.depth == NOTHING
    ensures Replayed(snap, [d]) == EMPTY
  {
    assert [d][..0] == [];
    assert Replayed(snap, []) == EMPTY;
  }

  /** Before update 4 is buffered, the snapshot of update 3 arrives: the trim drops the diff of updates
      5 and 6, which starts beyond the snapshot, and the machine syncs on the next diff without ever
      having seen the bid of update 4.  Every delivery was true. */
  lemma OvershootMissesAnUpdate(rule: Rule)
    ensures Admissible(rule, LATE_BUFFER) && TrueFeed(rule, OneBid(4), LATE_BUFFER)
    ensures !LastTrimFits(rule, LATE_BUFFER)
    ensures var s := Run(rule, LATE_BUFFER);
            Synced(s) && s.last >= s.snapId && BookOf(s.log) != ExchangeBook(OneBid(4), s.last)
  {
    LateBufferRun(rule);
    LateBufferIsTrue(rule);
    ViewDeterminesBook(rule, Run(rule, LATE_BUFFER).log);
    EmptyReplay(SNAP, D2);
    BidIsInTheBook(4, 7);
  }
}
