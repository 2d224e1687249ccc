/** The snapshot/diff protocol of the Binance OrderBookSync classes, one atomic step per event
    (aoe/binance/order_book_sync/order_book_sync.h).  Spot and futures differ only in how a diff names
    its predecessor. */
module BinanceProtocol {
  import opened Basics
  import opened BookTheory

  datatype Rule = Spot | Futures

  datatype Diff = Diff(first: nat, final: nat, prev: nat, depth: Depth)

  /** pairKnown is false when the parser left the trading pair at kCount. */
  datatype Snapshot = Snapshot(id: nat, pairKnown: bool, depth: Depth)

  datatype Event = SnapshotEvent(snapshot: Snapshot) | DiffEvent(diff: Diff)

  /** What a step does to the outside: calls on the order book, and snapshot requests. */
  datatype Output = Clear | Request | FeedSnapshot(snapshot: Snapshot) | FeedDiff(diff: Diff)

  /** The fields of OrderBookSync, and the outputs so far. */
  datatype State = State(
    last: nat,
    snapId: nat,
    needMake: bool,
    needProcess: bool,
    packetLost: bool,
    inFlight: bool,
    processed: bool,
    snapshot: Option<Snapshot>,
    diffs: seq<Diff>,
    log: seq<Output>)

  const INIT: State := State(0, 0, true, false, true, false, false, None, [], [])

  /** CheckPacketLost. */
  predicate Lost(rule: Rule, last: nat, d: Diff) {
    match rule
    case Spot => d.first != last + 1
    case Futures => d.prev != last
  }

  predicate Straddles(d: Diff, snapId: nat) {
    d.first <= snapId + 1 && d.final >= snapId + 1
  }

  datatype Trimmed = Trimmed(diffs: seq<Diff>, last: nat)

  /** The trim loop: drop diffs from the front until one straddles the snapshot. */
  function Trim(ds: seq<Diff>, snapId: nat, last: nat): Trimmed {
    if ds == [] || Straddles(ds[0], snapId) then Trimmed(ds, last)
    else Trim(ds[1..], snapId, ds[0].final)
  }

  function OnSnapshot(s: State, snap: Snapshot): State {
    var t := Trim(s.diffs, snap.id, s.last);
    s.(snapId := snap.id,
       snapshot := Some(snap),
       inFlight := false,
       diffs := t.diffs,
       last := t.last,
       needProcess := snap.pairKnown,
       needMake := if snap.pairKnown then s.needMake else true)
  }

  /** How many diffs the replay loop applies before it meets a lost packet. */
  function Chained(rule: Rule, last: nat, ds: seq<Diff>): (n: nat)
    ensures n <= |ds|
    decreases |ds|
  {
    if ds == [] || Lost(rule, last, ds[0]) then 0 else 1 + Chained(rule, ds[0].final, ds[1..])
  }

  function FinalOf(last: nat, ds: seq<Diff>): nat {
    if ds == [] then last else ds[|ds| - 1].final
  }

  function Feeds(ds: seq<Diff>): (os: seq<Output>)
    ensures |os| == |ds|
  {
    seq(|ds|, i requires 0 <= i < |ds| => FeedDiff(ds[i]))
  }

  /** Apply the saved snapshot if it is still to be applied. */
  function ApplySnapshot(s: State): State {
    if s.needProcess && s.snapshot.Some? then
      s.(needProcess := false, processed := true, log := s.log + [FeedSnapshot(s.snapshot.value)])
    else s
  }

  /** Replay the buffer; a lost packet throws the rest of it away. */
  function ReplayBuffer(rule: Rule, s: State): State {
    var n := Chained(rule, s.last, s.diffs);
    var t := s.(last := FinalOf(s.last, s.diffs[..n]), log := s.log + Feeds(s.diffs[..n]), diffs := []);
    if n < |s.diffs| then t.(needMake := true, processed := false, packetLost := true)
    else if n > 0 then t.(packetLost := false)
    else t
  }

  /** The diff just received is at the end of the buffer. */
  function OnBuffered(rule: Rule, s: State): State {
    if s.needMake && !s.inFlight then
      s.(log := s.log + [Clear, Request], inFlight := true, needMake := false)
    else if s.inFlight then s
    else ReplayBuffer(rule, ApplySnapshot(s))
  }

  function OnDiff(rule: Rule, s: State, d: Diff): State {
    if s.processed && !Lost(rule, s.last, d) then
      s.(last := d.final, log := s.log + [FeedDiff(d)])
    else OnBuffered(rule, s.(diffs := s.diffs + [d]))
  }

  function Step(rule: Rule, s: State, e: Event): State {
    match e
    case SnapshotEvent(snap) => OnSnapshot(s, snap)
    case DiffEvent(d) => OnDiff(rule, s, d)
  }

  function Run(rule: Rule, es: seq<Event>): State {
    if es == [] then INIT else Step(rule, Run(rule, es[..|es| - 1]), es[|es| - 1])
  }

  /** The environment: a snapshot response arrives only while a request is in flight. */
  predicate Admissible(rule: Rule, es: seq<Event>) {
    es == [] ||
    var before := es[..|es| - 1];
    Admissible(rule, before) && (es[|es| - 1].SnapshotEvent? ==> Run(rule, before).inFlight)
  }

  // ----- What the order book is told -----

  function Tell(b: Book, o: Output): Book {
    match o
    case Clear => EMPTY
    case Request => b
    case FeedSnapshot(snap) => Apply(b, snap.depth)
    case FeedDiff(d) => Apply(b, d.depth)
  }

  /** The book after all outputs. */
  function BookOf(log: seq<Output>): Book {
    if log == [] then EMPTY else Tell(BookOf(log[..|log| - 1]), log[|log| - 1])
  }

  /** An observer of the outputs.  It accepts, between two clears, nothing or one snapshot followed
      by diffs each chained to the one before; and a snapshot only right after a clear. */
  datatype View = Fresh(cleared: bool) | Fed(snapshot: Snapshot, diffs: seq<Diff>) | Broken

  function Observe(rule: Rule, v: View, o: Output): View {
    if v.Broken? then Broken
    else
      match o
      case Clear => Fresh(true)
      case Request => v
      case FeedSnapshot(snap) => if v == Fresh(true) then Fed(snap, []) else Broken
      case FeedDiff(d) =>
        if v.Fed? && (v.diffs == [] || !Lost(rule, v.diffs[|v.diffs| - 1].final, d))
        then Fed(v.snapshot, v.diffs + [d])
        else Broken
  }

  function ViewOf(rule: Rule, log: seq<Output>): View {
    if log == [] then Fresh(false) else Observe(rule, ViewOf(rule, log[..|log| - 1]), log[|log| - 1])
  }
}
