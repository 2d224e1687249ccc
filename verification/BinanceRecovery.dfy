/** One round of recovery, on both rules: exactly when the trim overshoots, exactly when the round ends on
    the exchange's book, and the runs in which it does not. */
module BinanceRecovery {
  import opened Basics
  import opened BookTheory
  import opened BinanceProtocol
  import opened BinancePhases
  import opened BinanceConvergence
  import opened BinanceExactness
  import opened BinanceProgress

  /** The snapshot is older than the buffer, or ends between two of its diffs in ids that no diff names
      although they chain; both can be seen on the buffer and the snapshot id. */
  predicate FallsBetween(ds: seq<Diff>, snapId: nat)
    requires ds != []
  {
    || snapId + 1 < ds[0].first
    || exists i :: 0 < i < |ds| && EndsBefore(ds[i - 1], snapId) && StartsBeyond(ds[i], snapId)
  }

  predicate EndsBefore(d: Diff, snapId: nat) {
    d.final <= snapId
  }

  predicate StartsBeyond(d: Diff, snapId: nat) {
    snapId + 1 < d.first
  }

  lemma ChainTail(rule: Rule, ds: seq<Diff>)
    requires |ds| > 1 && IsChain(rule, ds) && AllNumbered(rule, ds)
    ensures IsChain(rule, ds[1..]) && AllNumbered(rule, ds[1..])
    ensures ds[0].final < ds[1].first && Base(rule, ds[1]) == ds[0].final
  {
    ChainSuffix(rule, ds, 1);
    assert ds[0] in ds && ds[1] in ds && !Lost(rule, ds[0].final, ds[1]);
  }

  lemma {:induction false} FinalsGrow(rule: Rule, ds: seq<Diff>, i: nat)
    requires i < |ds| && IsChain(rule, ds) && AllNumbered(rule, ds)
    ensures ds[0].final <= ds[i].final
  {
    if i == 0 {
    } else {
      FinalsGrow(rule, ds, i - 1);
      assert ds[i] in ds && !Lost(rule, ds[i - 1].final, ds[i]);
    }
  }

  lemma FallsBetweenTail(rule: Rule, ds: seq<Diff>, snapId: nat)
    requires |ds| > 1 && IsChain(rule, ds) && AllNumbered(rule, ds) && !Straddles(ds[0], snapId)
    ensures FallsBetween(ds, snapId) <==> FallsBetween(ds[1..], snapId)
  {
    var tail := ds[1..];
    ChainTail(rule, ds);
    assert ds[0] in ds;
    if i :| 0 < i < |ds| && EndsBefore(ds[i - 1], snapId) && StartsBeyond(ds[i], snapId) {
      assert i > 1 ==> EndsBefore(tail[i - 2], snapId) && StartsBeyond(tail[i - 1], snapId);
    }
    if i :| 0 < i < |tail| && EndsBefore(tail[i - 1], snapId) && StartsBeyond(tail[i], snapId) {
      assert EndsBefore(ds[i], snapId) && StartsBeyond(ds[i + 1], snapId);
    }
    if snapId + 1 < tail[0].first && !(snapId + 1 < ds[0].first) {
      assert EndsBefore(ds[0], snapId) && StartsBeyond(ds[1], snapId);
    }
  }

  /** A trim of a gapless buffer overshoots exactly if the snapshot falls between. */
  lemma {:induction false} TrimOvershootsExactlyIf(rule: Rule, ds: seq<Diff>, snapId: nat, last: nat)
    requires ds != [] && IsChain(rule, ds) && AllNumbered(rule, ds)
    ensures var t := Trim(ds, snapId, last);
            t.diffs == [] && t.last > snapId <==> FallsBetween(ds, snapId)
  {
    assert ds[0] in ds;
    if Straddles(ds[0], snapId) {
      forall i | 0 <= i < |ds|
        ensures !EndsBefore(ds[i], snapId)
      {
        FinalsGrow(rule, ds, i);
      }
    } else if |ds| == 1 {
      assert Trim(ds[1..], snapId, ds[0].final) == Trimmed([], ds[0].final);
    } else {
      ChainTail(rule, ds);
      FallsBetweenTail(rule, ds, snapId);
      TrimOvershootsExactlyIf(rule, ds[1..], snapId, ds[0].final);
    }
  }

  predicate NoneStraddles(ds: seq<Diff>, snapId: nat) {
    forall d :: d in ds ==> !Straddles(d, snapId)
  }

  /** The trim of any buffer, with gaps or without, overshoots exactly if no diff straddles the snapshot and
      the last one ends beyond it. */
  lemma {:induction false} AnyTrimOvershootsExactlyIf(ds: seq<Diff>, snapId: nat, last: nat)
    requires ds != []
    ensures var t := Trim(ds, snapId, last);
            t.diffs == [] && t.last > snapId <==> NoneStraddles(ds, snapId) && ds[|ds| - 1].final > snapId
  {
    assert ds == [ds[0]] + ds[1..];
    if Straddles(ds[0], snapId) {
      assert ds[0] in ds;
    } else if |ds| == 1 {
      assert Trim(ds[1..], snapId, ds[0].final) == Trimmed([], ds[0].final);
    } else {
      AnyTrimOvershootsExactlyIf(ds[1..], snapId, ds[0].final);
      assert NoneStraddles(ds, snapId) <==> NoneStraddles(ds[1..], snapId);
    }
  }

  /** On spot a chain names every id, so only a snapshot older than the buffer falls between. */
  lemma SpotFallsBetween(ds: seq<Diff>, snapId: nat)
    requires ds != [] && IsChain(Spot, ds)
    ensures FallsBetween(ds, snapId) <==> snapId + 1 < ds[0].first
  {
    forall i | 0 < i < |ds| && StartsBeyond(ds[i], snapId)
      ensures !EndsBefore(ds[i - 1], snapId)
    {
      assert !Lost(Spot, ds[i - 1].final, ds[i]);
    }
  }

  // ----- Exactly when a round of recovery is right -----

  /** The end of a round that collected diffs until the buffer held `all`, received the snapshot, and then
      the next diff. */
  function Round(rule: Rule, s: State, buffered: seq<Diff>, snap: Snapshot, d: Diff): State {
    OnDiff(rule, OnSnapshot(FeedAll(rule, s, buffered), snap), d)
  }

  lemma ChainPrefix(rule: Rule, ds: seq<Diff>, d: Diff)
    requires IsChain(rule, ds + [d])
    ensures IsChain(rule, ds)
  {
    forall i | 0 < i < |ds|
      ensures !Lost(rule, ds[i - 1].final, ds[i])
    {
      assert !Lost(rule, (ds + [d])[i - 1].final, (ds + [d])[i]);
    }
  }

  /** Where a round stands before its last diff. */
  lemma RoundReady(rule: Rule, s: State, buffered: seq<Diff>, snap: Snapshot)
    requires Inv(rule, s) && Idle(s) && buffered != [] && snap.pairKnown
    requires IsChain(rule, s.diffs + buffered) && AllNumbered(rule, s.diffs + buffered)
    ensures var ready := OnSnapshot(FeedAll(rule, s, buffered), snap);
            && Inv(rule, ready) && SnapshotReady(ready) && ready.snapshot == Some(snap)
            && Trimmed(ready.diffs, ready.last) == Trim(s.diffs + buffered, snap.id, s.last)
            && (Overshoots(ready) <==> FallsBetween(s.diffs + buffered, snap.id))
  {
    BufferingKeeps(rule, s, buffered);
    InvSnapshot(rule, FeedAll(rule, s, buffered), snap);
    TrimOvershootsExactlyIf(rule, s.diffs + buffered, snap.id, s.last);
  }

  /** A round that ends synced replayed from at or before its snapshot exactly if the snapshot did not fall
      between. */
  lemma AnchoredExactlyIf(rule: Rule, s: State, d: Diff)
    requires Inv(rule, s) && SnapshotReady(s) && AllNumbered(rule, s.diffs + [d])
    requires Synced(OnDiff(rule, s, d))
    ensures var v := ViewOf(rule, OnDiff(rule, s, d).log);
            && v.Fed? && v.snapshot == s.snapshot.value && v.diffs == s.diffs + [d]
            && (Base(rule, v.diffs[0]) <= s.snapId <==> !Overshoots(s))
  {
    ReadyDiff(rule, s, d);
    var buffer := s.diffs + [d];
    assert buffer[..|buffer|] == buffer;
    assert buffer[0] in buffer;
    if !Overshoots(s) {
      AnchoredReady(rule, s, d);
    } else {
      assert buffer[0] == d && !Lost(rule, s.last, d);
    }
  }

  lemma RestIsTrue(rule: Rule, h: History, all: seq<Diff>, d: Diff, rest: seq<Diff>)
    requires AllTrue(rule, h, all + [d]) && |rest| <= |all| && rest == all[|all| - |rest|..]
    ensures AllTrue(rule, h, rest + [d]) && AllNumbered(rule, rest + [d])
  {
    forall e | e in rest + [d]
      ensures e in all + [d]
    {
      if e in rest {
        assert e in all;
      } else {
        assert (all + [d])[|all|] == e;
      }
    }
  }

  /** What a round that ends synced has told the book. */
  lemma RoundView(rule: Rule, h: History, s: State, buffered: seq<Diff>, snap: Snapshot, d: Diff)
    requires Inv(rule, s) && Idle(s) && buffered != [] && snap.pairKnown
    requires IsChain(rule, s.diffs + buffered + [d])
    requires AllTrue(rule, h, s.diffs + buffered + [d]) && TrueSnapshot(h, snap)
    requires Synced(Round(rule, s, buffered, snap, d))
    ensures var v := ViewOf(rule, Round(rule, s, buffered, snap, d).log);
            && v.Fed? && v.snapshot == snap && v.diffs != [] && v.diffs[|v.diffs| - 1] == d
            && TrueView(rule, h, snap, v.diffs)
            && (Base(rule, v.diffs[0]) <= snap.id <==> !FallsBetween(s.diffs + buffered, snap.id))
  {
    var all := s.diffs + buffered;
    ChainPrefix(rule, all, d);
    assert forall e :: e in all ==> e in all + [d];
    RoundReady(rule, s, buffered, snap);
    TrimKeepsSuffix(all, snap.id, s.last);
    hide OnDiff, OnSnapshot, Trim, FallsBetween, TrueDiff;
    var ready := OnSnapshot(FeedAll(rule, s, buffered), snap);
    RestIsTrue(rule, h, all, d, ready.diffs);
    AnchoredExactlyIf(rule, ready, d);
  }

  /** Recovery is right exactly if the snapshot does not fall between.  Take a round over a gapless stretch
      that ends synced, and suppose what it tells the book is true of some history.  Then the round's book
      is the exchange's for every history of which that is true if and only if the snapshot is not older
      than the buffer and does not end between two of its diffs. */
  lemma RecoveryIsRightExactlyIf(rule: Rule, h: History, s: State, buffered: seq<Diff>, snap: Snapshot, d: Diff)
    requires Inv(rule, s) && Idle(s) && buffered != [] && snap.pairKnown
    requires IsChain(rule, s.diffs + buffered + [d])
    requires AllTrue(rule, h, s.diffs + buffered + [d]) && TrueSnapshot(h, snap)
    requires Synced(Round(rule, s, buffered, snap, d)) && snap.id <= d.final
    ensures var v := ViewOf(rule, Round(rule, s, buffered, snap, d).log);
            && v.Fed? && v.snapshot == snap && v.diffs != [] && FinalOf(0, v.diffs) == d.final
            && BookOf(Round(rule, s, buffered, snap, d).log) == Replayed(snap, v.diffs)
            && (RightForAll(rule, snap, v.diffs) <==> !FallsBetween(s.diffs + buffered, snap.id))
  {
    hide Round, FallsBetween, TrueDiff;
    RoundView(rule, h, s, buffered, snap, d);
    var v := ViewOf(rule, Round(rule, s, buffered, snap, d).log);
    ViewDeterminesBook(rule, Round(rule, s, buffered, snap, d).log);
    ViewIsExact(rule, h, snap, v.diffs);
  }

  /** A round over a gapless stretch of true diffs whose trim drops a diff and whose snapshot does not fall
      between ends with the exchange's book at the stretch's end, on both rules. */
  lemma RecoveryConverges(rule: Rule, h: History, s: State, buffered: seq<Diff>, snap: Snapshot, d: Diff)
    requires Inv(rule, s) && Idle(s) && buffered != [] && snap.pairKnown
    requires IsChain(rule, s.diffs + buffered + [d])
    requires AllTrue(rule, h, s.diffs + buffered + [d]) && TrueSnapshot(h, snap) && snap.id <= d.final
    requires !FallsBetween(s.diffs + buffered, snap.id)
    requires !Straddles((s.diffs + buffered)[0], snap.id) || !Lost(rule, s.last, (s.diffs + buffered)[0])
    ensures var s' := Round(rule, s, buffered, snap, d);
            Synced(s') && s'.last == d.final && BookOf(s'.log) == ExchangeBook(h, d.final)
  {
    RecoveryIsExact(rule, s, buffered, snap, d);
    hide OnDiff, OnSnapshot, FallsBetween, TrueDiff;
    RecoveryIsRightExactlyIf(rule, h, s, buffered, snap, d);
    RoundView(rule, h, s, buffered, snap, d);
  }

  // ----- Every synced run -----

  /** A run that is ready or synced tells by its replay whether its last trim fitted. */
  ghost predicate TrimShows(rule: Rule, s: State, fits: bool) {
    && (SnapshotReady(s) ==> (fits <==> !Overshoots(s)))
    && (Synced(s) ==>
          var v := ViewOf(rule, s.log);
          v.Fed? && v.diffs != [] && (fits <==> Base(rule, v.diffs[0]) <= s.snapId))
  }

  lemma DiffShows(rule: Rule, h: History, s: State, d: Diff, fits: bool)
    requires Inv(rule, s) && TrueState(rule, h, s) && TrueDiff(rule, h, d) && TrimShows(rule, s, fits)
    ensures TrimShows(rule, OnDiff(rule, s, d), fits)
  {
    if Idle(s) {
      IdleDiff(rule, s, d);
    } else if SnapshotReady(s) {
      ReadyDiff(rule, s, d);
      if Synced(OnDiff(rule, s, d)) {
        AllTrueExtends(rule, h, s.diffs, d, 0);
        AnchoredExactlyIf(rule, s, d);
      }
    } else if Synced(s) {
      SyncedDiff(rule, s, d);
    }
  }

  lemma {:induction false} RunShows(rule: Rule, h: History, es: seq<Event>)
    requires Admissible(rule, es) && TrueFeed(rule, h, es)
    ensures TrimShows(rule, Run(rule, es), LastTrimFits(rule, es))
  {
    if es == [] {
    } else {
      var before := es[..|es| - 1];
      assert es[|es| - 1] in es && TrueEvent(rule, h, es[|es| - 1]);
      RunInv(rule, before);
      RunTrue(rule, h, before);
      RunShows(rule, h, before);
      match es[|es| - 1]
      case SnapshotEvent(snap) => InvSnapshot(rule, Run(rule, before), snap);
      case DiffEvent(d) => DiffShows(rule, h, Run(rule, before), d, LastTrimFits(rule, before));
    }
  }

  /** Every true run that is synced at or past its snapshot, with gaps in its buffers or without: its book is
      what it was told, and that is right for every history of which it is true if and only if the trim of the
      last snapshot did not overshoot. */
  lemma SyncedRunIsRightExactlyIf(rule: Rule, h: History, es: seq<Event>)
    requires Admissible(rule, es) && TrueFeed(rule, h, es)
    requires Synced(Run(rule, es)) && Run(rule, es).last >= Run(rule, es).snapId
    ensures var s := Run(rule, es);
            var v := ViewOf(rule, s.log);
            && v.Fed? && v.diffs != [] && v.snapshot.id == s.snapId && FinalOf(0, v.diffs) == s.last
            && BookOf(s.log) == Replayed(v.snapshot, v.diffs)
            && (RightForAll(rule, v.snapshot, v.diffs) <==> LastTrimFits(rule, es))
  {
    RunInv(rule, es);
    RunTrue(rule, h, es);
    RunShows(rule, h, es);
    ConvergenceIsExact(rule, es, h);
  }

  // ----- A round is a run -----

  function DiffEvents(ds: seq<Diff>): (es: seq<Event>)
    ensures |es| == |ds|
  {
    seq(|ds|, i requires 0 <= i < |ds| => DiffEvent(ds[i]))
  }

  function RoundEvents(buffered: seq<Diff>, snap: Snapshot, d: Diff): seq<Event> {
    DiffEvents(buffered) + [SnapshotEvent(snap)] + [DiffEvent(d)]
  }

  lemma DiffEventsSnoc(ds: seq<Diff>, d: Diff)
    ensures DiffEvents(ds + [d]) == DiffEvents(ds) + [DiffEvent(d)]
  {
  }

  lemma FeedSnoc(rule: Rule, s: State, ds: seq<Diff>, d: Diff)
    ensures FeedAll(rule, s, ds + [d]) == OnDiff(rule, FeedAll(rule, s, ds), d)
  {
    assert (ds + [d])[..|ds|] == ds;
  }

  /** Feeding the diffs one by one is a run. */
  predicate FedByRun(rule: Rule, es: seq<Event>, ds: seq<Diff>) {
    && Admissible(rule, es + DiffEvents(ds))
    && Run(rule, es + DiffEvents(ds)) == FeedAll(rule, Run(rule, es), ds)
  }

  lemma FeedOneMore(rule: Rule, es: seq<Event>, ds: seq<Diff>, d: Diff)
    requires FedByRun(rule, es, ds)
    ensures FedByRun(rule, es, ds + [d])
  {
    hide OnDiff;
    DiffEventsSnoc(ds, d);
    Reassociate(es, DiffEvents(ds), [DiffEvent(d)]);
    RunSnoc(rule, es + DiffEvents(ds), DiffEvent(d));
    FeedSnoc(rule, Run(rule, es), ds, d);
  }

  lemma {:induction false} FeedingIsARun(rule: Rule, es: seq<Event>, ds: seq<Diff>)
    requires Admissible(rule, es)
    ensures FedByRun(rule, es, ds)
  {
    if ds == [] {
      assert es + DiffEvents(ds) == es;
    } else {
      hide FedByRun;
      FeedingIsARun(rule, es, ds[..|ds| - 1]);
      FeedOneMore(rule, es, ds[..|ds| - 1], ds[|ds| - 1]);
      assert ds == ds[..|ds| - 1] + [ds[|ds| - 1]];
    }
  }

  lemma RoundIsARun(rule: Rule, es: seq<Event>, buffered: seq<Diff>, snap: Snapshot, d: Diff)
    requires Admissible(rule, es) && Idle(Run(rule, es)) && buffered != []
    ensures Admissible(rule, es + RoundEvents(buffered, snap, d))
    ensures Run(rule, es + RoundEvents(buffered, snap, d)) == Round(rule, Run(rule, es), buffered, snap, d)
  {
    hide OnDiff, OnSnapshot;
    RunInv(rule, es);
    FeedingIsARun(rule, es, buffered);
    BufferingKeeps(rule, Run(rule, es), buffered);
    var fed := es + DiffEvents(buffered);
    RunSnoc(rule, fed, SnapshotEvent(snap));
    RunSnoc(rule, fed + [SnapshotEvent(snap)], DiffEvent(d));
    assert fed + [SnapshotEvent(snap)] + [DiffEvent(d)] == es + RoundEvents(buffered, snap, d);
  }

  lemma TrueFeedConcat(rule: Rule, h: History, es: seq<Event>, fs: seq<Event>)
    requires TrueFeed(rule, h, es) && TrueFeed(rule, h, fs)
    ensures TrueFeed(rule, h, es + fs)
  {
    forall e | e in es + fs
      ensures TrueEvent(rule, h, e)
    {
      assert e in es || e in fs;
    }
  }

  lemma RoundIsTrue(rule: Rule, h: History, buffered: seq<Diff>, snap: Snapshot, d: Diff)
    requires AllTrue(rule, h, buffered) && TrueSnapshot(h, snap) && TrueDiff(rule, h, d)
    ensures TrueFeed(rule, h, RoundEvents(buffered, snap, d))
  {
    forall e | e in DiffEvents(buffered)
      ensures TrueEvent(rule, h, e)
    {
      var i :| 0 <= i < |buffered| && DiffEvents(buffered)[i] == e;
      assert buffered[i] in buffered;
    }
    TrueFeedConcat(rule, h, DiffEvents(buffered), [SnapshotEvent(snap)]);
    TrueFeedConcat(rule, h, DiffEvents(buffered) + [SnapshotEvent(snap)], [DiffEvent(d)]);
  }

  // ----- Futures: a snapshot between two diffs -----

  const BEFORE: Diff := Diff(5, 6, 4, NOTHING)
  const BEYOND: Diff := Diff(10, 11, 6, ONE_BID)
  const BETWEEN: Snapshot := Snapshot(7, true, NOTHING)
  const AFTER: Diff := Diff(12, 12, 11, NOTHING)

  lemma BeyondIsTrue()
    ensures TrueDiff(Futures, OneBid(10), BEYOND)
  {
    BidIsWritten(10, 6, 11);
    assert BEYOND.depth.bids == BidWrites(OneBid(10), 6, 11) && BEYOND.depth.asks == AskWrites(OneBid(10), 6, 11);
  }

  lemma StretchIsTrue()
    ensures AllTrue(Futures, OneBid(10), [BEFORE, BEYOND]) && TrueDiff(Futures, OneBid(10), AFTER)
    ensures TrueSnapshot(OneBid(10), BETWEEN)
  {
    NothingReported(Futures, 10, BEFORE);
    NothingReported(Futures, 10, AFTER);
    BeyondIsTrue();
    EmptySnapshotIsTrue(10, BETWEEN);
    forall d | d in [BEFORE, BEYOND]
      ensures TrueDiff(Futures, OneBid(10), d)
    {
      assert d == BEFORE || d == BEYOND;
    }
  }

  /** Futures ids may jump within a gapless stretch.  Here the buffer reaches back behind the snapshot of id
      7, which ends between the diffs (5, 6) and (10, 11): the trim drops both, the next diff chains to the
      second, and the bid that the second carried is missing from a synced book.  Every delivery was true. */
  lemma SnapshotBetweenDiffsMissesAnUpdate() returns (es: seq<Event>)
    ensures Admissible(Futures, es) && TrueFeed(Futures, OneBid(10), es)
    ensures BEFORE.first <= BETWEEN.id + 1 && es == RoundEvents([BEFORE, BEYOND], BETWEEN, AFTER)
    ensures var s := Run(Futures, es);
            Synced(s) && s.last >= s.snapId && BookOf(s.log) != ExchangeBook(OneBid(10), s.last)
  {
    hide OnDiff, OnSnapshot;
    var buffered, d := [BEFORE, BEYOND], AFTER;
    es := RoundEvents(buffered, BETWEEN, d);
    assert [] + es == es;
    RoundIsARun(Futures, [], buffered, BETWEEN, d);
    assert INIT.diffs + buffered == buffered && buffered + [d] == [BEFORE, BEYOND, AFTER];
    RunInv(Futures, []);
    RecoveryIsExact(Futures, INIT, buffered, BETWEEN, d);
    BetweenBook();
    BidIsInTheBook(10, 12);
    StretchIsTrue();
    RoundIsTrue(Futures, OneBid(10), buffered, BETWEEN, d);
  }

  lemma BetweenBook()
    ensures BookOf(Round(Futures, INIT, [BEFORE, BEYOND], BETWEEN, AFTER).log) == EMPTY
  {
    var buffered, d := [BEFORE, BEYOND], AFTER;
    assert INIT.diffs + buffered == buffered && buffered + [d] == [BEFORE, BEYOND, AFTER];
    RunInv(Futures, []);
    RecoveryIsExact(Futures, INIT, buffered, BETWEEN, d);
    RoundReady(Futures, INIT, buffered, BETWEEN);
    assert EndsBefore(buffered[0], 7) && StartsBeyond(buffered[1], 7);
    var ready := OnSnapshot(FeedAll(Futures, INIT, buffered), BETWEEN);
    AnchoredExactlyIf(Futures, ready, d);
    assert [] + [d] == [d];
    ViewDeterminesBook(Futures, OnDiff(Futures, ready, d).log);
    EmptyReplay(BETWEEN, d);
  }

  // ----- A stream on which the machine never syncs -----

  function Straddling(k: nat): Diff {
    Diff(5 + 3 * k, 6 + 3 * k, 4 + 3 * k, NOTHING)
  }

  function Straddled(k: nat): Snapshot {
    Snapshot(5 + 3 * k, true, NOTHING)
  }

  function Following(k: nat): Diff {
    Diff(7 + 3 * k, 7 + 3 * k, 6 + 3 * k, NOTHING)
  }

  /** n rounds of a gapless stream: in each, the snapshot falls into the first diff collected. */
  function StuckEvents(n: nat): seq<Event> {
    if n == 0 then []
    else StuckEvents(n - 1) + RoundEvents([Straddling(n - 1)], Straddled(n - 1), Following(n - 1))
  }

  predicate NeverSynced(rule: Rule, es: seq<Event>) {
    !Synced(Run(rule, es)) && (es == [] || NeverSynced(rule, es[..|es| - 1]))
  }

  lemma NeverSyncedSnoc(rule: Rule, es: seq<Event>, e: Event)
    requires NeverSynced(rule, es) && !Synced(Step(rule, Run(rule, es), e))
    ensures NeverSynced(rule, es + [e]) && Run(rule, es + [e]) == Step(rule, Run(rule, es), e)
  {
    assert (es + [e])[..|es|] == es;
  }

  /** A round over one diff goes through waiting and snapshot-ready. */
  lemma RoundNeverSynced(rule: Rule, es: seq<Event>, a: Diff, snap: Snapshot, d: Diff)
    requires Admissible(rule, es) && NeverSynced(rule, es) && Idle(Run(rule, es)) && snap.pairKnown
    requires !Synced(Round(rule, Run(rule, es), [a], snap, d))
    ensures NeverSynced(rule, es + RoundEvents([a], snap, d))
  {
    var s := Run(rule, es);
    RunInv(rule, es);
    OneIsFed(rule, s, a);
    InvSnapshot(rule, OnDiff(rule, s, a), snap);
    hide OnDiff, OnSnapshot;
    NeverSyncedSnoc(rule, es, DiffEvent(a));
    var fed := es + [DiffEvent(a)];
    NeverSyncedSnoc(rule, fed, SnapshotEvent(snap));
    NeverSyncedSnoc(rule, fed + [SnapshotEvent(snap)], DiffEvent(d));
    OneRound(es, a, snap, d);
  }

  lemma OneIsFed(rule: Rule, s: State, a: Diff)
    requires Inv(rule, s) && Idle(s)
    ensures FeedAll(rule, s, [a]) == OnDiff(rule, s, a)
    ensures Inv(rule, OnDiff(rule, s, a)) && Waiting(OnDiff(rule, s, a))
  {
    assert [a][..0] == [] && [a][0] == a;
    BufferingKeeps(rule, s, [a]);
  }

  lemma OneRound(es: seq<Event>, a: Diff, snap: Snapshot, d: Diff)
    ensures es + RoundEvents([a], snap, d) == es + [DiffEvent(a)] + [SnapshotEvent(snap)] + [DiffEvent(d)]
  {
  }

  lemma StuckRoundIsTrue(rule: Rule, k: nat)
    ensures TrueFeed(rule, OneBid(0), RoundEvents([Straddling(k)], Straddled(k), Following(k)))
  {
    NothingReported(rule, 0, Straddling(k));
    NothingReported(rule, 0, Following(k));
    EmptySnapshotIsTrue(0, Straddled(k));
    RoundIsTrue(rule, OneBid(0), [Straddling(k)], Straddled(k), Following(k));
  }

  lemma StuckRound(rule: Rule, s: State, k: nat)
    requires Inv(rule, s) && Idle(s) && s.diffs == [] && s.last == 0
    ensures var s' := Round(rule, s, [Straddling(k)], Straddled(k), Following(k));
            Idle(s') && !Synced(s') && s'.diffs == [] && s'.last == 0
  {
    hide OnDiff, OnSnapshot;
    assert s.diffs + [Straddling(k)] == [Straddling(k)];
    RecoveryIsExact(rule, s, [Straddling(k)], Straddled(k), Following(k));
  }

  /** Never synced so far, and no further than at the start. */
  predicate Stuck(rule: Rule, es: seq<Event>) {
    && Admissible(rule, es) && NeverSynced(rule, es)
    && Idle(Run(rule, es)) && Run(rule, es).diffs == [] && Run(rule, es).last == 0
  }

  lemma StaysStuck(rule: Rule, es: seq<Event>, k: nat)
    requires Stuck(rule, es)
    ensures Stuck(rule, es + RoundEvents([Straddling(k)], Straddled(k), Following(k)))
  {
    RunInv(rule, es);
    hide Round, RoundEvents, Straddling, Straddled, Following;
    StuckRound(rule, Run(rule, es), k);
    KnownPair(k);
    RoundIsARun(rule, es, [Straddling(k)], Straddled(k), Following(k));
    RoundNeverSynced(rule, es, Straddling(k), Straddled(k), Following(k));
  }

  lemma KnownPair(k: nat)
    ensures Straddled(k).pairKnown
  {
  }

  /** A feed on which the machine never syncs, however long it runs: the stream has no gap, every delivery
      is true, and every response to a request falls into the first diff collected. */
  lemma {:induction false} NeverSyncs(rule: Rule, n: nat)
    ensures Stuck(rule, StuckEvents(n))
  {
    if n == 0 {
    } else {
      hide Stuck;
      NeverSyncs(rule, n - 1);
      StaysStuck(rule, StuckEvents(n - 1), n - 1);
    }
  }

  /** And every delivery of it is true, and its diffs chain. */
  lemma {:induction false} StuckStreamIsTrue(rule: Rule, n: nat)
    ensures TrueFeed(rule, OneBid(0), StuckEvents(n))
    ensures !Lost(rule, Straddling(n).final, Following(n)) && !Lost(rule, Following(n).final, Straddling(n + 1))
  {
    if n == 0 {
    } else {
      StuckStreamIsTrue(rule, n - 1);
      StuckRoundIsTrue(rule, n - 1);
      TrueFeedConcat(rule, OneBid(0), StuckEvents(n - 1),
                     RoundEvents([Straddling(n - 1)], Straddled(n - 1), Following(n - 1)));
    }
  }
}
