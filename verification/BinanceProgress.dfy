/** How the synchronisation gets on: what keeps it synced, what a gap leads to, and exactly when one
    round of buffering, snapshot and replay brings it back. */
module BinanceProgress {
  import opened BookTheory
  import opened BinanceProtocol
  import opened BinancePhases
  import opened BinanceConvergence

  function FeedAll(rule: Rule, s: State, ds: seq<Diff>): State {
    if ds == [] then s else OnDiff(rule, FeedAll(rule, s, ds[..|ds| - 1]), ds[|ds| - 1])
  }

  lemma {:induction false} ChainedSnoc(rule: Rule, last: nat, ds: seq<Diff>, d: Diff)
    ensures Chained(rule, last, ds + [d]) == |ds| + 1 <==>
            Chained(rule, last, ds) == |ds| && !Lost(rule, FinalOf(last, ds), d)
    decreases |ds|
  {
    if ds != [] {
      assert (ds + [d])[1..] == ds[1..] + [d];
      ChainedSnoc(rule, ds[0].final, ds[1..], d);
    } else {
      assert [] + [d] == [d];
    }
  }

  lemma {:induction false} ChainIsChained(rule: Rule, last: nat, ds: seq<Diff>)
    requires IsChain(rule, ds) && (ds == [] || !Lost(rule, last, ds[0]))
    ensures Chained(rule, last, ds) == |ds|
    decreases |ds|
  {
    if |ds| <= 1 {
    } else {
      assert !Lost(rule, ds[0].final, ds[1]);
      assert forall i :: 0 < i < |ds[1..]| ==> ds[1..][i - 1] == ds[i] && !Lost(rule, ds[i].final, ds[i + 1]);
      ChainIsChained(rule, ds[0].final, ds[1..]);
    }
  }

  /** Synced now and after every diff. */
  predicate StaysSynced(rule: Rule, s: State, ds: seq<Diff>) {
    Synced(FeedAll(rule, s, ds)) && (ds == [] || StaysSynced(rule, s, ds[..|ds| - 1]))
  }

  /** A synced machine stays synced through every diff of a stream exactly if the stream chains from its last
      diff: if the diffs are numbered, exactly if each starts right after the end of the one before.  And then it
      has reached the end of the stream. */
  lemma {:induction false} SyncedExactlyWhileGapless(rule: Rule, s: State, ds: seq<Diff>)
    requires Inv(rule, s) && Synced(s)
    ensures StaysSynced(rule, s, ds) <==> Chained(rule, s.last, ds) == |ds|
    ensures AllNumbered(rule, ds) ==> (StaysSynced(rule, s, ds) <==> Gapless(rule, s.last, ds))
    ensures StaysSynced(rule, s, ds) ==>
              FeedAll(rule, s, ds).last == FinalOf(s.last, ds) && Inv(rule, FeedAll(rule, s, ds))
  {
    if AllNumbered(rule, ds) {
      ChainedExactlyIfGapless(rule, s.last, ds);
    }
    if ds == [] {
    } else {
      hide Gapless, AllNumbered;
      var init, d := ds[..|ds| - 1], ds[|ds| - 1];
      SyncedExactlyWhileGapless(rule, s, init);
      ChainedSnoc(rule, s.last, init, d);
      assert init + [d] == ds;
      if StaysSynced(rule, s, init) {
        SyncedDiff(rule, FeedAll(rule, s, init), d);
      }
    }
  }

  function DepthsOf(ds: seq<Diff>): (depths: seq<Depth>)
    ensures |depths| == |ds|
  {
    seq(|ds|, i requires 0 <= i < |ds| => ds[i].depth)
  }

  lemma SyncedApplies(rule: Rule, s: State, d: Diff)
    requires Inv(rule, s) && Synced(s) && Synced(OnDiff(rule, s, d))
    ensures BookOf(OnDiff(rule, s, d).log) == Apply(BookOf(s.log), d.depth)
  {
    SyncedDiff(rule, s, d);
    assert (s.log + [FeedDiff(d)])[..|s.log|] == s.log;
  }

  /** And its book is then the old one with every diff of the stream applied in order. */
  lemma {:induction false} SyncedStreamIsApplied(rule: Rule, s: State, ds: seq<Diff>)
    requires Inv(rule, s) && Synced(s) && StaysSynced(rule, s, ds)
    ensures BookOf(FeedAll(rule, s, ds).log) == ApplyAll(BookOf(s.log), DepthsOf(ds))
  {
    if ds == [] {
    } else {
      hide OnDiff, BookOf, Apply, Inv, Synced;
      var init := ds[..|ds| - 1];
      SyncedStreamIsApplied(rule, s, init);
      SyncedExactlyWhileGapless(rule, s, init);
      SyncedApplies(rule, FeedAll(rule, s, init), ds[|ds| - 1]);
      assert DepthsOf(ds)[..|ds| - 1] == DepthsOf(init);
    }
  }

  /** After a gap the very next diff, whatever it is, clears the book and requests a snapshot. */
  lemma GapLeadsToRequest(rule: Rule, s: State, d: Diff, next: Diff)
    requires Inv(rule, s) && (Synced(s) || SnapshotReady(s)) && !Synced(OnDiff(rule, s, d))
    ensures var gap := OnDiff(rule, s, d);
            var s' := OnDiff(rule, gap, next);
            Waiting(s') && s'.diffs == [next] && s'.log == gap.log + [Clear, Request]
  {
    if Synced(s) {
      SyncedDiff(rule, s, d);
    } else {
      ReadyDiff(rule, s, d);
    }
    IdleDiff(rule, OnDiff(rule, s, d), next);
    assert [] + [next] == [next];
  }

  lemma {:induction false} BufferingKeeps(rule: Rule, s: State, ds: seq<Diff>)
    requires Inv(rule, s) && Idle(s) && ds != []
    ensures var w := FeedAll(rule, s, ds);
            Inv(rule, w) && Waiting(w) && w.diffs == s.diffs + ds && w.last == s.last
  {
    var init, d := ds[..|ds| - 1], ds[|ds| - 1];
    assert init + [d] == ds;
    if init == [] {
      IdleDiff(rule, s, d);
    } else {
      BufferingKeeps(rule, s, init);
      assert s.diffs + init + [d] == s.diffs + ds;
    }
  }

  lemma ChainSuffix(rule: Rule, ds: seq<Diff>, k: nat)
    requires IsChain(rule, ds) && k <= |ds|
    ensures IsChain(rule, ds[k..])
  {
    forall i | 0 < i < |ds[k..]|
      ensures !Lost(rule, ds[k..][i - 1].final, ds[k..][i])
    {
      assert !Lost(rule, ds[k + i - 1].final, ds[k + i]);
    }
  }

  /** What is left of a gapless stretch after the trim chains with the stretch's next diff, unless
      nothing was dropped and the stretch does not chain to the old last update id. */
  lemma TrimmedChains(rule: Rule, ds: seq<Diff>, d: Diff, snapId: nat, last: nat)
    requires ds != [] && IsChain(rule, ds + [d])
    ensures var t := Trim(ds, snapId, last);
            Chained(rule, t.last, t.diffs + [d]) == |t.diffs| + 1 <==>
            !Straddles(ds[0], snapId) || !Lost(rule, last, ds[0])
  {
    var t := Trim(ds, snapId, last);
    TrimKeepsSuffix(ds, snapId, last);
    TrimDrops(ds, snapId, last);
    var all, k := ds + [d], |ds| - |t.diffs|;
    assert t.diffs + [d] == all[k..];
    ChainSuffix(rule, all, k);
    if k > 0 {
      assert !Lost(rule, all[k - 1].final, all[k]);
      ChainIsChained(rule, t.last, all[k..]);
    } else if !Lost(rule, last, ds[0]) {
      ChainIsChained(rule, t.last, all[k..]);
    }
  }

  /** Recovery.  An idle machine, whose buffer need not be empty, collects diffs until it holds a gapless
      stretch, receives a snapshot, and then the next diff of the stretch.  It ends synced exactly if the
      first diff held does not straddle the snapshot or happens to chain to the stale last update id: since
      the snapshot never sets that id, at least one diff has to be dropped to set it.  If it does not end
      synced, the id is as stale as before. */
  lemma RecoveryIsExact(rule: Rule, s: State, buffered: seq<Diff>, snap: Snapshot, d: Diff)
    requires Inv(rule, s) && Idle(s)
    requires buffered != [] && IsChain(rule, s.diffs + buffered + [d]) && snap.pairKnown
    ensures var s' := OnDiff(rule, OnSnapshot(FeedAll(rule, s, buffered), snap), d);
            var first := (s.diffs + buffered)[0];
            && (Synced(s') <==> !Straddles(first, snap.id) || !Lost(rule, s.last, first))
            && (Synced(s') ==> s'.last == d.final && s'.snapId == snap.id)
            && (!Synced(s') ==> Idle(s') && s'.diffs == [] && s'.last == s.last)
            && Inv(rule, s')
  {
    BufferingKeeps(rule, s, buffered);
    var w := FeedAll(rule, s, buffered);
    InvSnapshot(rule, w, snap);
    var ready := OnSnapshot(w, snap);
    ReadyDiff(rule, ready, d);
    TrimmedChains(rule, s.diffs + buffered, d, snap.id, s.last);
    TrimDrops(s.diffs + buffered, snap.id, s.last);
    var rest := ready.diffs + [d];
    assert rest[..|rest|] == rest && rest[..0] == [];
  }

  lemma TrimDrops(ds: seq<Diff>, snapId: nat, last: nat)
    requires ds != []
    ensures |Trim(ds, snapId, last).diffs| == |ds| <==> Straddles(ds[0], snapId)
  {
    if !Straddles(ds[0], snapId) {
      TrimKeepsSuffix(ds[1..], snapId, ds[0].final);
    }
  }
}
