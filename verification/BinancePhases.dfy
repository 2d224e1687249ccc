/** What every run of the protocol keeps: the four phases, the balance of requests and responses, and
    the shape of what the order book sees. */
module BinancePhases {
  import opened Basics
  import opened BookTheory
  import opened BinanceProtocol

  predicate Idle(s: State) {
    s.needMake && !s.inFlight && !s.needProcess && !s.processed
  }

  predicate Waiting(s: State) {
    !s.needMake && s.inFlight && !s.needProcess && !s.processed && s.diffs != []
  }

  predicate SnapshotReady(s: State) {
    && !s.needMake && !s.inFlight && s.needProcess && !s.processed
    && s.snapshot.Some? && s.snapshot.value.id == s.snapId && s.snapshot.value.pairKnown
    && (s.diffs == [] || Straddles(s.diffs[0], s.snapId))
  }

  predicate Synced(s: State) {
    && !s.needMake && !s.inFlight && !s.needProcess && s.processed && s.diffs == []
    && s.snapshot.Some? && s.snapshot.value.id == s.snapId
  }

  /** The outputs fit the phase. */
  predicate ViewFits(rule: Rule, s: State) {
    var v := ViewOf(rule, s.log);
    && !v.Broken?
    && (Waiting(s) || SnapshotReady(s) ==> v == Fresh(true))
    && (Synced(s) ==> v.Fed? && v.snapshot == s.snapshot.value && v.diffs != [] && FinalOf(0, v.diffs) == s.last)
  }

  /** One of the phases; a packet counts as lost exactly while the machine is not synced. */
  predicate Inv(rule: Rule, s: State) {
    && (Idle(s) || Waiting(s) || SnapshotReady(s) || Synced(s))
    && (s.packetLost <==> !Synced(s))
    && ViewFits(rule, s)
  }

  lemma RunSnoc(rule: Rule, es: seq<Event>, e: Event)
    ensures Run(rule, es + [e]) == Step(rule, Run(rule, es), e)
    ensures Admissible(rule, es + [e]) <==>
            Admissible(rule, es) && (e.SnapshotEvent? ==> Run(rule, es).inFlight)
  {
    assert (es + [e])[..|es|] == es;
  }

  lemma ViewSnoc(rule: Rule, log: seq<Output>, o: Output)
    ensures ViewOf(rule, log + [o]) == Observe(rule, ViewOf(rule, log), o)
  {
    assert (log + [o])[..|log|] == log;
  }

  lemma {:induction false} TrimStraddles(ds: seq<Diff>, snapId: nat, last: nat)
    ensures var t := Trim(ds, snapId, last); t.diffs == [] || Straddles(t.diffs[0], snapId)
  {
    if ds == [] || Straddles(ds[0], snapId) {
    } else {
      TrimStraddles(ds[1..], snapId, ds[0].final);
    }
  }

  lemma FeedsCons(d: Diff, ds: seq<Diff>)
    ensures Feeds([d] + ds) == [FeedDiff(d)] + Feeds(ds)
  {
  }

  /** Feeding a chain to an observer that sits at `last` after a snapshot. */
  lemma {:induction false} ViewOfChain(rule: Rule, log: seq<Output>, last: nat, ds: seq<Diff>)
    requires Chained(rule, last, ds) == |ds|
    requires var v := ViewOf(rule, log); v.Fed? && (v.diffs == [] || FinalOf(0, v.diffs) == last)
    ensures ViewOf(rule, log + Feeds(ds)) == ViewOf(rule, log).(diffs := ViewOf(rule, log).diffs + ds)
    decreases |ds|
  {
    var v := ViewOf(rule, log);
    if ds == [] {
      assert log + Feeds(ds) == log && v.diffs + ds == v.diffs;
    } else {
      var d, rest := ds[0], ds[1..];
      ViewSnoc(rule, log, FeedDiff(d));
      ViewOfChain(rule, log + [FeedDiff(d)], d.final, rest);
      assert ds == [d] + rest;
      FeedsCons(d, rest);
      Reassociate(log, [FeedDiff(d)], Feeds(rest));
      Reassociate(v.diffs, [d], rest);
    }
  }

  lemma {:induction false} ChainedPrefix(rule: Rule, last: nat, ds: seq<Diff>)
    ensures var n := Chained(rule, last, ds); Chained(rule, last, ds[..n]) == n
    decreases |ds|
  {
    if ds == [] || Lost(rule, last, ds[0]) {
    } else {
      ChainedPrefix(rule, ds[0].final, ds[1..]);
      var n := Chained(rule, ds[0].final, ds[1..]);
      assert ds[..n + 1][1..] == ds[1..][..n];
    }
  }

  lemma InvSnapshot(rule: Rule, s: State, snap: Snapshot)
    requires Inv(rule, s) && s.inFlight
    ensures Inv(rule, OnSnapshot(s, snap))
    ensures if snap.pairKnown then SnapshotReady(OnSnapshot(s, snap)) else Idle(OnSnapshot(s, snap))
  {
    TrimStraddles(s.diffs, snap.id, s.last);
  }

  /** The step from snapshot-ready: it ends in synced if the whole buffer chains, else in idle. */
  lemma ReadyDiff(rule: Rule, s: State, d: Diff)
    requires Inv(rule, s) && SnapshotReady(s)
    ensures var s' := OnDiff(rule, s, d);
            var n := Chained(rule, s.last, s.diffs + [d]);
            && ViewOf(rule, s'.log) == Fed(s.snapshot.value, (s.diffs + [d])[..n])
            && s'.last == FinalOf(s.last, (s.diffs + [d])[..n])
            && s'.diffs == [] && s'.snapId == s.snapId && s'.snapshot == s.snapshot
            && if n == |s.diffs| + 1 then Synced(s') else Idle(s')
    ensures Inv(rule, OnDiff(rule, s, d))
  {
    var buffer := s.diffs + [d];
    var n := Chained(rule, s.last, buffer);
    var snap := s.snapshot.value;
    ViewSnoc(rule, s.log, FeedSnapshot(snap));
    ChainedPrefix(rule, s.last, buffer);
    ViewOfChain(rule, s.log + [FeedSnapshot(snap)], s.last, buffer[..n]);
    assert [] + buffer[..n] == buffer[..n];
  }

  lemma SyncedDiff(rule: Rule, s: State, d: Diff)
    requires Inv(rule, s) && Synced(s)
    ensures var s' := OnDiff(rule, s, d);
            var v := ViewOf(rule, s.log);
            if Lost(rule, s.last, d)
            then Idle(s') && s'.diffs == [] && s'.last == s.last && s'.log == s.log
            else Synced(s') && s'.last == d.final && s'.snapId == s.snapId && s'.snapshot == s.snapshot
                 && ViewOf(rule, s'.log) == v.(diffs := v.diffs + [d])
    ensures Inv(rule, OnDiff(rule, s, d))
  {
    ViewSnoc(rule, s.log, FeedDiff(d));
    assert s.diffs + [d] == [d];
    assert s.log + Feeds([]) == s.log;
  }

  lemma IdleDiff(rule: Rule, s: State, d: Diff)
    requires Inv(rule, s) && Idle(s)
    ensures var s' := OnDiff(rule, s, d);
            Waiting(s') && s'.log == s.log + [Clear, Request] && s'.diffs == s.diffs + [d] && s'.last == s.last
    ensures Inv(rule, OnDiff(rule, s, d))
  {
    ViewSnoc(rule, s.log, Clear);
    ViewSnoc(rule, s.log + [Clear], Request);
    assert s.log + [Clear] + [Request] == s.log + [Clear, Request];
  }

  lemma InvStep(rule: Rule, s: State, e: Event)
    requires Inv(rule, s) && (e.SnapshotEvent? ==> s.inFlight)
    ensures Inv(rule, Step(rule, s, e))
  {
    match e
    case SnapshotEvent(snap) => InvSnapshot(rule, s, snap);
    case DiffEvent(d) =>
      if Idle(s) {
        IdleDiff(rule, s, d);
      } else if SnapshotReady(s) {
        ReadyDiff(rule, s, d);
      } else if Synced(s) {
        SyncedDiff(rule, s, d);
      }
  }

  /** Every reachable state is in exactly one of the four phases, with the buffer that goes with it,
      and the order book has been shown a well-shaped sequence of calls. */
  lemma {:induction false} RunInv(rule: Rule, es: seq<Event>)
    requires Admissible(rule, es)
    ensures Inv(rule, Run(rule, es))
  {
    if es == [] {
    } else {
      RunInv(rule, es[..|es| - 1]);
      InvStep(rule, Run(rule, es[..|es| - 1]), es[|es| - 1]);
    }
  }

  /** An observer that is not broken at the end was never broken: the shape holds at every moment. */
  lemma {:induction false} ShapeAtEveryMoment(rule: Rule, log: seq<Output>, cut: nat)
    requires cut <= |log| && !ViewOf(rule, log).Broken?
    ensures !ViewOf(rule, log[..cut]).Broken?
  {
    if cut < |log| {
      ShapeAtEveryMoment(rule, log[..|log| - 1], cut);
      assert log[..|log| - 1][..cut] == log[..cut];
    } else {
      assert log[..cut] == log;
    }
  }

  lemma ShapeOfStep(rule: Rule, v: View, o: Output)
    requires !Observe(rule, v, o).Broken?
    ensures o.FeedSnapshot? ==> v == Fresh(true)
    ensures o.FeedDiff? ==> v.Fed? && (v.diffs == [] || !Lost(rule, FinalOf(0, v.diffs), o.diff))
  {
  }

  /** A snapshot is applied to a book that has been cleared and told nothing since, and a diff only
      after a snapshot and chained to the diff before it. */
  ghost predicate WellShaped(rule: Rule, log: seq<Output>, i: nat)
    requires i < |log|
  {
    var before := ViewOf(rule, log[..i]);
    && (log[i].FeedSnapshot? ==> before == Fresh(true) && BookOf(log[..i]) == EMPTY)
    && (log[i].FeedDiff? ==>
          before.Fed? && (before.diffs == [] || !Lost(rule, FinalOf(0, before.diffs), log[i].diff)))
  }

  lemma ShapeOfLog(rule: Rule, log: seq<Output>, i: nat)
    requires i < |log| && !ViewOf(rule, log).Broken?
    ensures WellShaped(rule, log, i)
  {
    ShapeAtEveryMoment(rule, log, i + 1);
    assert log[..i + 1] == log[..i] + [log[i]];
    ViewSnoc(rule, log[..i], log[i]);
    ShapeOfStep(rule, ViewOf(rule, log[..i]), log[i]);
    if log[i].FeedSnapshot? {
      FreshMeansEmpty(rule, log[..i]);
    }
  }

  /** Every run is well shaped at any moment. */
  lemma RunShape(rule: Rule, es: seq<Event>, i: nat)
    requires Admissible(rule, es) && i < |Run(rule, es).log|
    ensures WellShaped(rule, Run(rule, es).log, i)
  {
    RunInv(rule, es);
    ShapeOfLog(rule, Run(rule, es).log, i);
  }

  lemma {:induction false} FreshMeansEmpty(rule: Rule, log: seq<Output>)
    requires ViewOf(rule, log).Fresh?
    ensures BookOf(log) == EMPTY
  {
    if log == [] {
    } else if log[|log| - 1].Request? {
      FreshMeansEmpty(rule, log[..|log| - 1]);
    }
  }

  // ----- Requests and responses -----

  function Requests(log: seq<Output>): nat {
    if log == [] then 0
    else Requests(log[..|log| - 1]) + if log[|log| - 1].Request? then 1 else 0
  }

  function Responses(es: seq<Event>): nat {
    if es == [] then 0
    else Responses(es[..|es| - 1]) + if es[|es| - 1].SnapshotEvent? then 1 else 0
  }

  lemma {:induction false} RequestsConcat(a: seq<Output>, b: seq<Output>)
    ensures Requests(a + b) == Requests(a) + Requests(b)
  {
    if b == [] {
      assert a + b == a;
    } else {
      assert (a + b)[..|a + b| - 1] == a + b[..|b| - 1];
      RequestsConcat(a, b[..|b| - 1]);
    }
  }

  lemma {:induction false} FeedsRequestNothing(ds: seq<Diff>)
    ensures Requests(Feeds(ds)) == 0
  {
    if ds == [] {
    } else {
      FeedsRequestNothing(ds[..|ds| - 1]);
      assert Feeds(ds)[..|ds| - 1] == Feeds(ds[..|ds| - 1]);
    }
  }

  lemma ReplayRequestsNothing(rule: Rule, s: State)
    ensures Requests(ReplayBuffer(rule, s).log) == Requests(s.log)
    ensures ReplayBuffer(rule, s).inFlight == s.inFlight
  {
    var applied := s.diffs[..Chained(rule, s.last, s.diffs)];
    RequestsConcat(s.log, Feeds(applied));
    FeedsRequestNothing(applied);
  }

  lemma RequestsSnoc(log: seq<Output>, o: Output)
    ensures Requests(log + [o]) == Requests(log) + if o.Request? then 1 else 0
  {
    assert (log + [o])[..|log|] == log;
  }

  lemma ApplyRequestsNothing(s: State)
    ensures Requests(ApplySnapshot(s).log) == Requests(s.log) && ApplySnapshot(s).inFlight == s.inFlight
  {
    if s.needProcess && s.snapshot.Some? {
      RequestsSnoc(s.log, FeedSnapshot(s.snapshot.value));
    }
  }

  lemma DiffRequests(rule: Rule, s: State, d: Diff)
    ensures var s' := OnDiff(rule, s, d);
            Requests(s'.log) - Requests(s.log) == (if s'.inFlight then 1 else 0) - if s.inFlight then 1 else 0
  {
    if s.processed && !Lost(rule, s.last, d) {
      RequestsSnoc(s.log, FeedDiff(d));
    } else if s.needMake && !s.inFlight {
      RequestsSnoc(s.log, Clear);
      RequestsSnoc(s.log + [Clear], Request);
      assert s.log + [Clear] + [Request] == s.log + [Clear, Request];
    } else if !s.inFlight {
      var pushed := s.(diffs := s.diffs + [d]);
      ApplyRequestsNothing(pushed);
      ReplayRequestsNothing(rule, ApplySnapshot(pushed));
    }
  }

  /** Requests minus responses is one while the flag is up and zero otherwise. */
  lemma {:induction false} RequestBalance(rule: Rule, es: seq<Event>)
    requires Admissible(rule, es)
    ensures Requests(Run(rule, es).log) == Responses(es) + if Run(rule, es).inFlight then 1 else 0
  {
    if es == [] {
    } else {
      var before := Run(rule, es[..|es| - 1]);
      RequestBalance(rule, es[..|es| - 1]);
      match es[|es| - 1]
      case SnapshotEvent(_) =>
      case DiffEvent(d) => DiffRequests(rule, before, d);
    }
  }
}
