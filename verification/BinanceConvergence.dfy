/** The end-to-end theorem of the feed synchronisation: when, and exactly when, the local book of a
    synced machine is the exchange's book at the last applied update id. */
module BinanceConvergence {
  import opened Basics
  import opened BookTheory
  import opened BinanceProtocol
  import opened BinancePhases

  /** The update id after which a diff starts to report. */
  function Base(rule: Rule, d: Diff): nat {
    match rule
    case Spot => if d.first == 0 then 0 else d.first - 1
    case Futures => d.prev
  }

  /** How the exchange numbers its diffs. */
  predicate Numbered(rule: Rule, d: Diff) {
    1 <= d.first <= d.final && Base(rule, d) < d.first
  }

  /** A numbered diff counts as lost exactly if it does not start right after the last update id. */
  lemma LostExactlyIf(rule: Rule, last: nat, d: Diff)
    requires Numbered(rule, d)
    ensures Lost(rule, last, d) <==> Base(rule, d) != last
  {
    assert rule.Spot? ==> d.first >= 1;
  }

  /** The first diff starts right after `last`, and every other one right after the end of the one before it. */
  predicate Gapless(rule: Rule, last: nat, ds: seq<Diff>) {
    && (ds != [] ==> Base(rule, ds[0]) == last)
    && (forall i :: 0 < i < |ds| ==> Base(rule, ds[i]) == ds[i - 1].final)
  }

  predicate AllNumbered(rule: Rule, ds: seq<Diff>) {
    forall d :: d in ds ==> Numbered(rule, d)
  }

  /** The replay loop goes through numbered diffs exactly if they are gapless. */
  lemma {:induction false} ChainedExactlyIfGapless(rule: Rule, last: nat, ds: seq<Diff>)
    requires AllNumbered(rule, ds)
    ensures Chained(rule, last, ds) == |ds| <==> Gapless(rule, last, ds)
    decreases |ds|
  {
    if ds == [] {
    } else {
      assert ds[0] in ds;
      LostExactlyIf(rule, last, ds[0]);
      ChainedExactlyIfGapless(rule, ds[0].final, ds[1..]);
      GaplessTail(rule, last, ds);
    }
  }

  lemma GaplessTail(rule: Rule, last: nat, ds: seq<Diff>)
    requires ds != []
    ensures Gapless(rule, last, ds) <==> Base(rule, ds[0]) == last && Gapless(rule, ds[0].final, ds[1..])
  {
    var tail := ds[1..];
    if Gapless(rule, last, ds) {
      assert tail != [] ==> Base(rule, ds[1]) == ds[0].final;
    }
    if Base(rule, ds[0]) == last && Gapless(rule, ds[0].final, tail) {
      forall i | 0 < i < |ds|
        ensures Base(rule, ds[i]) == ds[i - 1].final
      {
        assert ds[i] == tail[i - 1];
        assert i > 1 ==> ds[i - 1] == tail[i - 2];
      }
    }
  }

  /** A diff reports the exchange's updates since the one it names as its predecessor. */
  ghost predicate TrueDiff(rule: Rule, h: History, d: Diff) {
    Numbered(rule, d) && Reports(h, d.depth, Base(rule, d), d.final)
  }

  /** A full-depth snapshot of the exchange's book. */
  ghost predicate TrueSnapshot(h: History, snap: Snapshot) {
    Apply(EMPTY, snap.depth) == ExchangeBook(h, snap.id)
  }

  ghost predicate TrueEvent(rule: Rule, h: History, e: Event) {
    match e
    case SnapshotEvent(snap) => TrueSnapshot(h, snap)
    case DiffEvent(d) => TrueDiff(rule, h, d)
  }

  /** Everything delivered is true.  Nothing is said about order, loss or duplication. */
  ghost predicate TrueFeed(rule: Rule, h: History, es: seq<Event>) {
    forall e :: e in es ==> TrueEvent(rule, h, e)
  }

  ghost predicate AllTrue(rule: Rule, h: History, ds: seq<Diff>) {
    forall d :: d in ds ==> TrueDiff(rule, h, d)
  }

  /** What a synced book was told since it was last cleared. */
  ghost predicate TrueView(rule: Rule, h: History, snap: Snapshot, ds: seq<Diff>) {
    TrueSnapshot(h, snap) && AllTrue(rule, h, ds)
  }

  predicate IsChain(rule: Rule, ds: seq<Diff>) {
    forall i :: 0 < i < |ds| ==> !Lost(rule, ds[i - 1].final, ds[i])
  }

  /** The book after a snapshot and some diffs. */
  function Replayed(snap: Snapshot, ds: seq<Diff>): Book {
    if ds == [] then Apply(EMPTY, snap.depth)
    else Apply(Replayed(snap, ds[..|ds| - 1]), ds[|ds| - 1].depth)
  }

  /** The observer's view determines the book. */
  lemma {:induction false} ViewDeterminesBook(rule: Rule, log: seq<Output>)
    requires ViewOf(rule, log).Fed?
    ensures var v := ViewOf(rule, log); BookOf(log) == Replayed(v.snapshot, v.diffs) && IsChain(rule, v.diffs)
  {
    var before := log[..|log| - 1];
    var v := ViewOf(rule, log);
    match log[|log| - 1]
    case Request => ViewDeterminesBook(rule, before);
    case FeedSnapshot(snap) => FreshMeansEmpty(rule, before);
    case FeedDiff(d) =>
      ViewDeterminesBook(rule, before);
      assert v.diffs[..|v.diffs| - 1] == ViewOf(rule, before).diffs;
    case Clear =>
      assert false;
  }

  lemma {:induction false} ChainGrows(rule: Rule, ds: seq<Diff>, i: nat)
    requires IsChain(rule, ds) && (forall d :: d in ds ==> Numbered(rule, d)) && i < |ds|
    ensures Base(rule, ds[0]) <= Base(rule, ds[i]) < ds[i].final
  {
    assert ds[i] in ds;
    if i == 0 {
    } else {
      ChainGrows(rule, ds, i - 1);
      assert !Lost(rule, ds[i - 1].final, ds[i]);
    }
  }

  /** One diff more extends the range. */
  lemma RangeExtends(rule: Rule, h: History, start: Book, k: nat, last: nat, d: Diff)
    requires k <= last && TrueDiff(rule, h, d) && !Lost(rule, last, d)
    ensures Apply(ApplyRange(start, h, k, last), d.depth) == ApplyRange(start, h, k, d.final) && last < d.final
  {
    ReportApplies(ApplyRange(start, h, k, last), h, d.depth, last, d.final);
    ApplyRangeSplit(start, h, k, last, d.final);
  }

  /** A chain of true diffs is one range of updates. */
  lemma {:induction false} ReplayIsARange(rule: Rule, h: History, snap: Snapshot, ds: seq<Diff>)
    requires ds != [] && IsChain(rule, ds) && AllTrue(rule, h, ds)
    ensures Base(rule, ds[0]) < FinalOf(0, ds)
    ensures Replayed(snap, ds) ==
            ApplyRange(Apply(EMPTY, snap.depth), h, Base(rule, ds[0]), FinalOf(0, ds))
  {
    var start := Apply(EMPTY, snap.depth);
    var init, d := ds[..|ds| - 1], ds[|ds| - 1];
    assert d in ds;
    if init == [] {
      ReportApplies(start, h, d.depth, Base(rule, d), d.final);
    } else {
      ReplayIsARange(rule, h, snap, init);
      assert !Lost(rule, ds[|ds| - 2].final, ds[|ds| - 1]);
      RangeExtends(rule, h, start, Base(rule, ds[0]), FinalOf(0, init), d);
    }
  }

  /** If the replay starts at or before the snapshot and has reached it, the book is the exchange's. */
  lemma ViewConverges(rule: Rule, h: History, snap: Snapshot, ds: seq<Diff>)
    requires ds != [] && IsChain(rule, ds) && TrueView(rule, h, snap, ds)
    requires Base(rule, ds[0]) <= snap.id <= FinalOf(0, ds)
    ensures Replayed(snap, ds) == ExchangeBook(h, FinalOf(0, ds))
  {
    ReplayIsARange(rule, h, snap, ds);
    OverlapIsHarmless(h, Base(rule, ds[0]), snap.id, FinalOf(0, ds));
  }

  // ----- From a run to its view -----

  ghost predicate TrueState(rule: Rule, h: History, s: State) {
    && (s.snapshot.Some? ==> TrueSnapshot(h, s.snapshot.value))
    && AllTrue(rule, h, s.diffs)
    && (ViewOf(rule, s.log).Fed? ==> TrueView(rule, h, ViewOf(rule, s.log).snapshot, ViewOf(rule, s.log).diffs))
  }

  lemma {:induction false} TrimKeepsSuffix(ds: seq<Diff>, snapId: nat, last: nat)
    ensures var t := Trim(ds, snapId, last); |t.diffs| <= |ds| && t.diffs == ds[|ds| - |t.diffs|..]
    ensures var t := Trim(ds, snapId, last);
            t.last == if |t.diffs| == |ds| then last else ds[|ds| - |t.diffs| - 1].final
  {
    if ds == [] || Straddles(ds[0], snapId) {
    } else {
      TrimKeepsSuffix(ds[1..], snapId, ds[0].final);
    }
  }

  /** The trim drops exactly the diffs in front of the first one that covers the id after the snapshot's. */
  lemma {:induction false} TrimStopsAtFirstFit(ds: seq<Diff>, snapId: nat, last: nat)
    ensures var t := Trim(ds, snapId, last);
            var k := |ds| - |t.diffs|;
            && 0 <= k && t.diffs == ds[k..] && t.last == (if k == 0 then last else ds[k - 1].final)
            && (forall i :: 0 <= i < k ==> !(ds[i].first <= snapId + 1 <= ds[i].final))
            && (k < |ds| ==> ds[k].first <= snapId + 1 <= ds[k].final)
  {
    if ds == [] || Straddles(ds[0], snapId) {
    } else {
      TrimStopsAtFirstFit(ds[1..], snapId, ds[0].final);
      TrimKeepsSuffix(ds, snapId, last);
      var k := |ds| - |Trim(ds, snapId, last).diffs|;
      assert forall i :: 1 <= i < k ==> ds[i] == ds[1..][i - 1];
    }
  }

  lemma AllTrueExtends(rule: Rule, h: History, ds: seq<Diff>, d: Diff, n: nat)
    requires AllTrue(rule, h, ds) && TrueDiff(rule, h, d) && n <= |ds| + 1
    ensures AllTrue(rule, h, ds + [d]) && AllTrue(rule, h, (ds + [d])[..n])
  {
    forall e | e in ds + [d]
      ensures TrueDiff(rule, h, e)
    {
      if e in ds {
      } else {
        assert e == d;
      }
    }
  }

  lemma TrueTrim(rule: Rule, h: History, s: State, snap: Snapshot)
    requires TrueState(rule, h, s) && TrueSnapshot(h, snap)
    ensures TrueState(rule, h, OnSnapshot(s, snap))
  {
    TrimKeepsSuffix(s.diffs, snap.id, s.last);
  }

  lemma TrueIdle(rule: Rule, h: History, s: State, d: Diff)
    requires Inv(rule, s) && Idle(s) && TrueState(rule, h, s) && TrueDiff(rule, h, d)
    ensures TrueState(rule, h, OnDiff(rule, s, d))
  {
    IdleDiff(rule, s, d);
    AllTrueExtends(rule, h, s.diffs, d, 0);
    assert Waiting(OnDiff(rule, s, d)) && ViewOf(rule, OnDiff(rule, s, d).log) == Fresh(true);
  }

  lemma TrueReady(rule: Rule, h: History, s: State, d: Diff)
    requires Inv(rule, s) && SnapshotReady(s) && TrueState(rule, h, s) && TrueDiff(rule, h, d)
    ensures TrueState(rule, h, OnDiff(rule, s, d))
  {
    ReadyDiff(rule, s, d);
    AllTrueExtends(rule, h, s.diffs, d, Chained(rule, s.last, s.diffs + [d]));
  }

  lemma TrueSynced(rule: Rule, h: History, s: State, d: Diff)
    requires Inv(rule, s) && Synced(s) && TrueState(rule, h, s) && TrueDiff(rule, h, d)
    ensures TrueState(rule, h, OnDiff(rule, s, d))
  {
    SyncedDiff(rule, s, d);
    AllTrueExtends(rule, h, ViewOf(rule, s.log).diffs, d, 0);
  }

  lemma TrueStep(rule: Rule, h: History, s: State, e: Event)
    requires Inv(rule, s) && (e.SnapshotEvent? ==> s.inFlight)
    requires TrueState(rule, h, s) && TrueEvent(rule, h, e)
    ensures TrueState(rule, h, Step(rule, s, e))
  {
    match e
    case SnapshotEvent(snap) => TrueTrim(rule, h, s, snap);
    case DiffEvent(d) =>
      if Idle(s) {
        TrueIdle(rule, h, s, d);
      } else if SnapshotReady(s) {
        TrueReady(rule, h, s, d);
      } else if Synced(s) {
        TrueSynced(rule, h, s, d);
      } else {
        AllTrueExtends(rule, h, s.diffs, d, 0);
      }
  }

  lemma {:induction false} RunTrue(rule: Rule, h: History, es: seq<Event>)
    requires Admissible(rule, es) && TrueFeed(rule, h, es)
    ensures TrueState(rule, h, Run(rule, es))
  {
    if es == [] {
    } else {
      var before := es[..|es| - 1];
      RunTrue(rule, h, before);
      RunInv(rule, before);
      TrueStep(rule, h, Run(rule, before), es[|es| - 1]);
    }
  }

  /** A trim that empties the buffer and has dropped a diff ending beyond the snapshot. */
  predicate Overshoots(s: State) {
    s.diffs == [] && s.last > s.snapId
  }

  /** The last snapshot of the run did not make its trim overshoot. */
  predicate LastTrimFits(rule: Rule, es: seq<Event>) {
    es == [] ||
    if es[|es| - 1].SnapshotEvent? then !Overshoots(Run(rule, es)) else LastTrimFits(rule, es[..|es| - 1])
  }

  /** The replay started at or before the snapshot. */
  ghost predicate Anchored(rule: Rule, s: State) {
    && (SnapshotReady(s) ==> !Overshoots(s))
    && (Synced(s) ==> var v := ViewOf(rule, s.log); v.Fed? && v.diffs != [] && Base(rule, v.diffs[0]) <= s.snapId)
  }

  /** A straddling head that passes the loss check chains to an update the snapshot contains. */
  lemma AnchoredReady(rule: Rule, s: State, d: Diff)
    requires Inv(rule, s) && SnapshotReady(s) && !Overshoots(s)
    requires forall e :: e in s.diffs + [d] ==> Numbered(rule, e)
    ensures Anchored(rule, OnDiff(rule, s, d))
  {
    ReadyDiff(rule, s, d);
    var buffer := s.diffs + [d];
    assert buffer[0] in buffer;
  }

  lemma AnchoredDiff(rule: Rule, h: History, s: State, d: Diff)
    requires Inv(rule, s) && Anchored(rule, s)
    requires TrueState(rule, h, s) && TrueDiff(rule, h, d)
    ensures Anchored(rule, OnDiff(rule, s, d))
  {
    if Idle(s) {
      IdleDiff(rule, s, d);
    } else if SnapshotReady(s) {
      AnchoredReady(rule, s, d);
    } else if Synced(s) {
      SyncedDiff(rule, s, d);
    }
  }

  lemma {:induction false} RunAnchored(rule: Rule, h: History, es: seq<Event>)
    requires Admissible(rule, es) && TrueFeed(rule, h, es) && LastTrimFits(rule, es)
    ensures Anchored(rule, Run(rule, es))
  {
    if es == [] {
    } else {
      var before := es[..|es| - 1];
      RunInv(rule, before);
      assert es[|es| - 1] in es && TrueEvent(rule, h, es[|es| - 1]);
      match es[|es| - 1]
      case SnapshotEvent(snap) => InvSnapshot(rule, Run(rule, before), snap);
      case DiffEvent(d) =>
        RunAnchored(rule, h, before);
        RunTrue(rule, h, before);
        AnchoredDiff(rule, h, Run(rule, before), d);
    }
  }

  /** Convergence.  Whatever is lost, repeated or reordered on the way, and whatever went wrong before: if
      the trim of the last snapshot did not overshoot, then a synced machine whose last diff has reached
      the snapshot holds the exchange's book at that diff. */
  lemma Convergence(rule: Rule, h: History, es: seq<Event>)
    requires Admissible(rule, es) && TrueFeed(rule, h, es) && LastTrimFits(rule, es)
    requires Synced(Run(rule, es)) && Run(rule, es).last >= Run(rule, es).snapId
    ensures BookOf(Run(rule, es).log) == ExchangeBook(h, Run(rule, es).last)
  {
    var s := Run(rule, es);
    RunInv(rule, es);
    RunTrue(rule, h, es);
    RunAnchored(rule, h, es);
    ViewDeterminesBook(rule, s.log);
    ViewConverges(rule, h, s.snapshot.value, ViewOf(rule, s.log).diffs);
  }

  /** When the trim left a straddling head, no hypothesis is needed: the very step that leaves the
      snapshot-ready phase for synced has the exchange's book, at an id beyond the snapshot. */
  lemma StraddleConverges(rule: Rule, h: History, es: seq<Event>, d: Diff)
    requires Admissible(rule, es) && TrueFeed(rule, h, es) && TrueDiff(rule, h, d)
    requires SnapshotReady(Run(rule, es)) && Run(rule, es).diffs != []
    requires Synced(OnDiff(rule, Run(rule, es), d))
    ensures var s' := OnDiff(rule, Run(rule, es), d);
            s'.last > s'.snapId && BookOf(s'.log) == ExchangeBook(h, s'.last)
  {
    var s := Run(rule, es);
    var s' := OnDiff(rule, s, d);
    RunInv(rule, es);
    RunTrue(rule, h, es);
    AnchoredReady(rule, s, d);
    ReadyDiff(rule, s, d);
    TrueStep(rule, h, s, DiffEvent(d));
    var ds := ViewOf(rule, s'.log).diffs;
    assert ds[0] == s.diffs[0];
    ViewDeterminesBook(rule, s'.log);
    ChainReaches(rule, ds);
    ViewConverges(rule, h, s.snapshot.value, ds);
  }

  lemma {:induction false} ChainReaches(rule: Rule, ds: seq<Diff>)
    requires ds != [] && IsChain(rule, ds) && forall d :: d in ds ==> Numbered(rule, d)
    ensures ds[0].final <= FinalOf(0, ds)
  {
    if |ds| == 1 {
    } else {
      var i := |ds| - 1;
      ChainReaches(rule, ds[..i]);
      assert ds[i] in ds && !Lost(rule, ds[i - 1].final, ds[i]);
    }
  }
}
