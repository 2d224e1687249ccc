/** Order ids, and the orders stored under them: ids come from a counter or from the queue of returned ids,
    and an event that ends an order sends its id back to that queue. */
module OrderIds {
  import opened Basics

  /** Ids are uint64_t; the counter wraps around. */
  const WORD: nat := 0x1_0000_0000_0000_0000

  type Id = x: nat | x < WORD

  datatype OrderStatus = Invalid | NewStatus | PendingNewStatus | PartiallyFilledStatus | UntriggeredStatus
  datatype PendingAction = NoAction | Place | Amend | Cancel

  datatype Request = Request(category: nat, side: nat, mode: nat, pair: nat, price: real, qty: real)

  datatype Order = Order(request: Request, status: OrderStatus, pending: PendingAction, price: real, qty: real)

  function Placed(r: Request): Order {
    Order(r, Invalid, Place, r.price, r.qty)
  }

  /** PendingNew, PendingCancel, Expired and ExpiredInMatch are Binance's; Untriggered, Triggered,
      Deactivated and PartiallyFilledCancelled are Bybit's, which also reports what is left by itself. */
  datatype Event =
    | New(id: Id)
    | PendingNew(id: Id)
    | Untriggered(id: Id)
    | PartiallyFilledOf(id: Id, price: real, orderQty: real, cumExecQty: real)
    | PartiallyFilled(id: Id, price: real, leavesQty: real)
    | Filled(id: Id)
    | Cancelled(id: Id)
    | Rejected(id: Id)
    | Expired(id: Id)
    | ExpiredInMatch(id: Id)
    | PartiallyFilledCancelled(id: Id)
    | Triggered(id: Id)
    | Deactivated(id: Id)
    | PendingCancel(id: Id)
    | OtherEvent

  /** The events whose Accept calls Remove. */
  predicate Ends(e: Event) {
    || e.Filled? || e.Cancelled? || e.Rejected? || e.Expired? || e.ExpiredInMatch?
    || e.PartiallyFilledCancelled? || e.Triggered? || e.Deactivated?
  }

  datatype Command =
    | PlaceAutoId(request: Request)
    | PlaceManualId(request: Request, uid: Id)
    | CancelOrder(id: Id)
    | AmendOrder(id: Id)
    | Response(event: Event)

  datatype State = State(counter: Id, pool: seq<Id>, orders: map<Id, Order>)

  const INIT: State := State(0, [], map[])

  function NextId(s: State): Id {
    if s.pool == [] then s.counter else s.pool[0]
  }

  function IdTaken(s: State): State {
    if s.pool == [] then s.(counter := (s.counter + 1) % WORD) else s.(pool := s.pool[1..])
  }

  /** The order with a unique id: inserting one that is already there does nothing. */
  function Added(orders: map<Id, Order>, id: Id, o: Order): map<Id, Order> {
    if id in orders then orders else orders[id := o]
  }

  function StatusUpdated(orders: map<Id, Order>, id: Id, st: OrderStatus, p: PendingAction): map<Id, Order> {
    if id in orders then orders[id := orders[id].(status := st, pending := p)] else orders
  }

  function StateUpdated(orders: map<Id, Order>, id: Id, price: real, qty: real): map<Id, Order> {
    if id in orders then orders[id := orders[id].(price := price, qty := qty)] else orders
  }

  /** Remove of the order manager: whether or not the order is stored, the id goes back to the pool. */
  function Removed(s: State, id: Id): State {
    s.(orders := s.orders - {id}, pool := s.pool + [id])
  }

  function Accepted(s: State, e: Event): State {
    match e
    case New(id) => s.(orders := StatusUpdated(s.orders, id, NewStatus, NoAction))
    case PendingNew(id) => s.(orders := StatusUpdated(s.orders, id, PendingNewStatus, NoAction))
    case Untriggered(id) => s.(orders := StatusUpdated(s.orders, id, UntriggeredStatus, NoAction))
    case PartiallyFilledOf(id, price, orderQty, cumExecQty) =>
      s.(orders := StateUpdated(StatusUpdated(s.orders, id, PartiallyFilledStatus, NoAction), id, price,
                                orderQty - cumExecQty))
    case PartiallyFilled(id, price, leavesQty) =>
      s.(orders := StateUpdated(StatusUpdated(s.orders, id, PartiallyFilledStatus, NoAction), id, price, leavesQty))
    case PendingCancel(_) => s
    case OtherEvent => s
    case _ => Removed(s, e.id)
  }

  function Step(s: State, c: Command): State {
    match c
    case PlaceAutoId(r) => IdTaken(s).(orders := Added(s.orders, NextId(s), Placed(r)))
    case PlaceManualId(r, uid) => s.(orders := Added(s.orders, uid, Placed(r)))
    case CancelOrder(id) => s.(orders := StatusUpdated(s.orders, id, Invalid, Cancel))
    case AmendOrder(id) => s.(orders := StatusUpdated(s.orders, id, Invalid, Amend))
    case Response(e) => Accepted(s, e)
  }

  function Run(cs: seq<Command>): State {
    if cs == [] then INIT else Step(Run(cs[..|cs| - 1]), cs[|cs| - 1])
  }

  /** Stored ids and pooled ids partition [0, counter). */
  ghost predicate Partition(s: State) {
    && (forall id: Id :: id < s.counter <==> id in s.orders || id in s.pool)
    && (forall id :: id in s.pool ==> id !in s.orders)
    && NoRepeats(s.pool)
  }

  /** What a caller can see before the command: an event that ends an order, or a manual id, names a
      stored order; and the counter has an id left when one is needed. */
  predicate Clean(s: State, c: Command) {
    match c
    case PlaceAutoId(_) => s.pool == [] ==> s.counter + 1 < WORD
    case PlaceManualId(_, uid) => uid in s.orders
    case Response(e) => Ends(e) ==> e.id in s.orders
    case _ => true
  }

  lemma UpdatesKeepIds(s: State, c: Command)
    requires c.CancelOrder? || c.AmendOrder? || (c.Response? && !Ends(c.event))
    ensures Step(s, c).orders.Keys == s.orders.Keys && Step(s, c).counter == s.counter && Step(s, c).pool == s.pool
  {
  }

  lemma PlaceKeepsExactlyIf(s: State, r: Request)
    requires Partition(s)
    ensures NextId(s) !in s.orders
    ensures Partition(Step(s, PlaceAutoId(r))) <==> Clean(s, PlaceAutoId(r))
  {
    var s' := Step(s, PlaceAutoId(r));
    if s.pool == [] {
      assert s'.orders.Keys == s.orders.Keys + {s.counter};
      if s.counter + 1 == WORD {
        assert s'.counter == 0 && s.counter in s'.orders;
      }
    } else {
      assert s.pool == [s.pool[0]] + s'.pool;
      forall id: Id
        ensures id in s.pool <==> id == s.pool[0] || id in s'.pool
      {
      }
      assert s'.orders.Keys == s.orders.Keys + {s.pool[0]};
    }
  }

  lemma ManualKeepsExactlyIf(s: State, r: Request, uid: Id)
    requires Partition(s)
    ensures Partition(Step(s, PlaceManualId(r, uid))) <==> uid in s.orders
  {
    var s' := Step(s, PlaceManualId(r, uid));
    if uid !in s.orders {
      assert uid in s'.orders;
      assert uid < s.counter ==> uid in s.pool;
    }
  }

  lemma EndKeepsExactlyIf(s: State, id: Id)
    requires Partition(s)
    ensures Partition(Removed(s, id)) <==> id in s.orders
  {
    var s' := Removed(s, id);
    assert s'.pool[|s.pool|] == id;
    assert forall i: Id :: i in s'.pool <==> i in s.pool || i == id;
    if id in s.pool {
      var k :| 0 <= k < |s.pool| && s.pool[k] == id;
      assert s'.pool[k] == s'.pool[|s.pool|];
    }
  }

  /** A step keeps the partition exactly if it is clean. */
  lemma StepKeepsExactlyIf(s: State, c: Command)
    requires Partition(s)
    ensures Partition(Step(s, c)) <==> Clean(s, c)
  {
    match c {
      case PlaceAutoId(r) => PlaceKeepsExactlyIf(s, r);
      case PlaceManualId(r, uid) => ManualKeepsExactlyIf(s, r, uid);
      case Response(e) =>
        if Ends(e) {
          EndKeepsExactlyIf(s, e.id);
        } else {
          UpdatesKeepIds(s, c);
        }
      case _ => UpdatesKeepIds(s, c);
    }
  }

  predicate CleanRun(cs: seq<Command>) {
    cs == [] || (CleanRun(cs[..|cs| - 1]) && Clean(Run(cs[..|cs| - 1]), cs[|cs| - 1]))
  }

  /** At every moment of the run, stored and pooled ids partition [0, counter). */
  ghost predicate AlwaysPartition(cs: seq<Command>) {
    Partition(Run(cs)) && (cs == [] || AlwaysPartition(cs[..|cs| - 1]))
  }

  lemma {:induction false} RunKeepsExactlyIf(cs: seq<Command>)
    ensures AlwaysPartition(cs) <==> CleanRun(cs)
  {
    if cs == [] {
    } else {
      var before := cs[..|cs| - 1];
      RunKeepsExactlyIf(before);
      if AlwaysPartition(before) {
        StepKeepsExactlyIf(Run(before), cs[|cs| - 1]);
      }
    }
  }

  /** No live id is reissued and Add never collides: after a clean run the next order is stored under an
      id that no stored order has, and every other stored order stays. */
  lemma NeverReissued(cs: seq<Command>, r: Request)
    requires CleanRun(cs)
    ensures var s := Run(cs);
            && NextId(s) !in s.orders
            && Run(cs + [PlaceAutoId(r)]).orders == s.orders[NextId(s) := Placed(r)]
  {
    RunKeepsExactlyIf(cs);
    assert (cs + [PlaceAutoId(r)])[..|cs|] == cs;
    PlaceKeepsExactlyIf(Run(cs), r);
  }

  /** The request that last took the id automatically. */
  function LastRequest(cs: seq<Command>, id: Id): Option<Request> {
    if cs == [] then None else
    var before, c := cs[..|cs| - 1], cs[|cs| - 1];
    if c.PlaceAutoId? && NextId(Run(before)) == id then Some(c.request) else LastRequest(before, id)
  }

  lemma RequestAfter(s: State, c: Command, id: Id)
    requires Partition(s) && Clean(s, c) && id in Step(s, c).orders
    ensures if c.PlaceAutoId? && NextId(s) == id then Step(s, c).orders[id] == Placed(c.request)
            else id in s.orders && Step(s, c).orders[id].request == s.orders[id].request
  {
  }

  /** Through every update of status, price and quantity, a stored order is the request that last took its
      id from the counter or the pool. */
  lemma {:induction false} StoredAsPlaced(cs: seq<Command>, id: Id)
    requires CleanRun(cs) && id in Run(cs).orders
    ensures LastRequest(cs, id) == Some(Run(cs).orders[id].request)
  {
    if cs == [] {
    } else {
      var before, c := cs[..|cs| - 1], cs[|cs| - 1];
      RunKeepsExactlyIf(before);
      RequestAfter(Run(before), c, id);
      if !(c.PlaceAutoId? && NextId(Run(before)) == id) {
        StoredAsPlaced(before, id);
      }
    }
  }

  // ----- What the history says of a stored order -----

  datatype Topic = Presence | Progress | Filling

  /** The command says something about the order under the id: that it comes or goes, how far it has got, or
      what is left to fill.  A placement under an id taken from the counter or the pool says all three. */
  predicate About(s: State, c: Command, id: Id, topic: Topic) {
    match c
    case PlaceAutoId(_) => NextId(s) == id
    case PlaceManualId(_, _) => false
    case CancelOrder(i) => i == id && topic == Progress
    case AmendOrder(i) => i == id && topic == Progress
    case Response(e) =>
      match e
      case New(i) => i == id && topic == Progress
      case PendingNew(i) => i == id && topic == Progress
      case Untriggered(i) => i == id && topic == Progress
      case PartiallyFilledOf(i, _, _, _) => i == id && topic != Presence
      case PartiallyFilled(i, _, _) => i == id && topic != Presence
      case Filled(i) => i == id && topic == Presence
      case Cancelled(i) => i == id && topic == Presence
      case Rejected(i) => i == id && topic == Presence
      case Expired(i) => i == id && topic == Presence
      case ExpiredInMatch(i) => i == id && topic == Presence
      case PartiallyFilledCancelled(i) => i == id && topic == Presence
      case Triggered(i) => i == id && topic == Presence
      case Deactivated(i) => i == id && topic == Presence
      case PendingCancel(_) => false
      case OtherEvent => false
  }

  function LastAbout(cs: seq<Command>, id: Id, topic: Topic): Option<Command> {
    if cs == [] then None else
    var before, c := cs[..|cs| - 1], cs[|cs| - 1];
    if About(Run(before), c, id, topic) then Some(c) else LastAbout(before, id, topic)
  }

  /** The command is the word on the order's status and pending action. */
  predicate SaysStatus(c: Command, o: Order) {
    match c
    case PlaceAutoId(_) => o.status == Invalid && o.pending == Place
    case CancelOrder(_) => o.status == Invalid && o.pending == Cancel
    case AmendOrder(_) => o.status == Invalid && o.pending == Amend
    case Response(New(_)) => o.status == NewStatus && o.pending == NoAction
    case Response(PendingNew(_)) => o.status == PendingNewStatus && o.pending == NoAction
    case Response(Untriggered(_)) => o.status == UntriggeredStatus && o.pending == NoAction
    case Response(PartiallyFilledOf(_, _, _, _)) => o.status == PartiallyFilledStatus && o.pending == NoAction
    case Response(PartiallyFilled(_, _, _)) => o.status == PartiallyFilledStatus && o.pending == NoAction
    case _ => false
  }

  /** The command is the word on the order's price and the quantity left: what was executed and what is left
      make up the order. */
  predicate SaysFilling(c: Command, o: Order) {
    match c
    case PlaceAutoId(r) => o.price == r.price && o.qty == r.qty
    case Response(PartiallyFilledOf(_, price, orderQty, cumExecQty)) =>
      o.price == price && o.qty + cumExecQty == orderQty
    case Response(PartiallyFilled(_, price, leavesQty)) => o.price == price && o.qty == leavesQty
    case _ => false
  }

  lemma PresenceAfter(s: State, c: Command, id: Id)
    requires Partition(s) && Clean(s, c)
    ensures id in Step(s, c).orders <==> if About(s, c, id, Presence) then c.PlaceAutoId? else id in s.orders
  {
  }

  lemma StatusAfter(s: State, c: Command, id: Id)
    requires Partition(s) && Clean(s, c) && id in Step(s, c).orders
    ensures var o := Step(s, c).orders[id];
            if About(s, c, id, Progress) then SaysStatus(c, o)
            else id in s.orders && o.status == s.orders[id].status && o.pending == s.orders[id].pending
  {
  }

  lemma FillingAfter(s: State, c: Command, id: Id)
    requires Partition(s) && Clean(s, c) && id in Step(s, c).orders
    ensures var o := Step(s, c).orders[id];
            if About(s, c, id, Filling) then SaysFilling(c, o)
            else id in s.orders && o.price == s.orders[id].price && o.qty == s.orders[id].qty
  {
  }

  /** After a clean run an order is stored under an id exactly if the last command that brought or ended an
      order under it was a placement; its status and pending action are those of the last command that set
      them, its price and quantity those of the last fill, or of the request before any. */
  lemma {:induction false} StoredAsLastSaid(cs: seq<Command>, id: Id)
    requires CleanRun(cs)
    ensures id in Run(cs).orders <==>
            LastAbout(cs, id, Presence).Some? && LastAbout(cs, id, Presence).value.PlaceAutoId?
    ensures id in Run(cs).orders ==>
              var o, status, filling := Run(cs).orders[id], LastAbout(cs, id, Progress), LastAbout(cs, id, Filling);
              && status.Some? && SaysStatus(status.value, o)
              && filling.Some? && SaysFilling(filling.value, o)
  {
    if cs == [] {
    } else {
      var before, c := cs[..|cs| - 1], cs[|cs| - 1];
      RunKeepsExactlyIf(before);
      StoredAsLastSaid(before, id);
      hide Step, About, SaysStatus, SaysFilling, Partition, Clean;
      PresenceAfter(Run(before), c, id);
      if id in Run(cs).orders {
        StatusAfter(Run(before), c, id);
        FillingAfter(Run(before), c, id);
      }
    }
  }

  /** The request last sent to the exchange under the id, by either kind of placement. */
  function LastSent(cs: seq<Command>, id: Id): Option<Request> {
    if cs == [] then None else
    var before, c := cs[..|cs| - 1], cs[|cs| - 1];
    if c.PlaceAutoId? && NextId(Run(before)) == id then Some(c.request)
    else if c.PlaceManualId? && c.uid == id then Some(c.request)
    else LastSent(before, id)
  }

  /** The last manual placement under the id since the id was taken. */
  function ManualSince(cs: seq<Command>, id: Id): Option<Request> {
    if cs == [] then None else
    var before, c := cs[..|cs| - 1], cs[|cs| - 1];
    if c.PlaceAutoId? && NextId(Run(before)) == id then None
    else if c.PlaceManualId? && c.uid == id then Some(c.request)
    else ManualSince(before, id)
  }

  lemma {:induction false} LastSentIsEither(cs: seq<Command>, id: Id)
    ensures LastSent(cs, id) == if ManualSince(cs, id).Some? then ManualSince(cs, id) else LastRequest(cs, id)
  {
    if cs == [] {
    } else {
      LastSentIsEither(cs[..|cs| - 1], id);
    }
  }

  /** Storage and exchange agree on what a stored id stands for exactly if nothing was placed manually under
      it since it was taken, or the last such placement repeated the stored request. */
  lemma StoredAsSentExactlyIf(cs: seq<Command>, id: Id)
    requires CleanRun(cs) && id in Run(cs).orders
    ensures LastSent(cs, id) == Some(Run(cs).orders[id].request) <==>
            ManualSince(cs, id).None? || ManualSince(cs, id) == LastRequest(cs, id)
  {
    StoredAsPlaced(cs, id);
    LastSentIsEither(cs, id);
  }

  /** One command more. */
  lemma OneMore(cs: seq<Command>, c: Command, id: Id)
    ensures Run(cs + [c]) == Step(Run(cs), c)
    ensures CleanRun(cs + [c]) <==> CleanRun(cs) && Clean(Run(cs), c)
    ensures LastSent(cs + [c], id) ==
            if c.PlaceAutoId? && NextId(Run(cs)) == id then Some(c.request)
            else if c.PlaceManualId? && c.uid == id then Some(c.request)
            else LastSent(cs, id)
    ensures LastRequest(cs + [c], id) ==
            if c.PlaceAutoId? && NextId(Run(cs)) == id then Some(c.request) else LastRequest(cs, id)
  {
    assert (cs + [c])[..|cs|] == cs;
  }

  /** A clean run in which they do not agree: the manual request is sent under the stored id, and storage
      keeps the first one. */
  lemma ManualPlacementIsNotStored(a: Request, b: Request)
    ensures var cs := [PlaceAutoId(a)] + [PlaceManualId(b, 0)];
            && CleanRun(cs) && Run(cs).orders == map[0 := Placed(a)]
            && LastSent(cs, 0) == Some(b) && LastRequest(cs, 0) == Some(a)
  {
    var one := [] + [PlaceAutoId(a)];
    OneMore([], PlaceAutoId(a), 0);
    assert Run([]) == INIT;
    assert Run(one).orders == map[0 := Placed(a)];
    OneMore(one, PlaceManualId(b, 0), 0);
    assert one == [PlaceAutoId(a)];
  }

  // ----- Counting -----

  function Max(a: nat, b: nat): nat {
    if a < b then b else a
  }

  /** The greatest number of orders stored at the same time. */
  function Peak(cs: seq<Command>): nat {
    if cs == [] then 0 else Max(Peak(cs[..|cs| - 1]), |Run(cs).orders|)
  }

  function Growth(c: Command): int {
    if c.PlaceAutoId? then 1 else if c.Response? && Ends(c.event) then -1 else 0
  }

  /** Orders placed and not yet ended. */
  function Open(cs: seq<Command>): int {
    if cs == [] then 0 else
    Open(cs[..|cs| - 1]) + Growth(cs[|cs| - 1])
  }

  function Pooled(pool: seq<Id>): set<Id> {
    set id | id in pool
  }

  lemma {:induction false} PoolSize(pool: seq<Id>)
    requires NoRepeats(pool)
    ensures |Pooled(pool)| == |pool|
  {
    if pool == [] {
    } else {
      var rest := pool[..|pool| - 1];
      PoolSize(rest);
      assert pool == rest + [pool[|pool| - 1]];
      assert Pooled(pool) == Pooled(rest) + {pool[|pool| - 1]};
    }
  }

  function Below(n: nat): (ids: set<Id>)
    requires n < WORD
    ensures |ids| == n && forall id: Id :: id in ids <==> id < n
  {
    if n == 0 then {} else Below(n - 1) + {n - 1}
  }

  lemma PartitionSizes(s: State)
    requires Partition(s)
    ensures |s.orders| + |s.pool| == s.counter
  {
    PoolSize(s.pool);
    assert Below(s.counter) == s.orders.Keys + Pooled(s.pool);
    assert s.orders.Keys !! Pooled(s.pool);
    assert |s.orders.Keys| == |s.orders|;
  }

  lemma SizeOfKeys(s: State)
    ensures |s.orders| == |s.orders.Keys|
  {
  }

  lemma PlaceGrows(s: State, r: Request)
    requires Partition(s)
    ensures |Step(s, PlaceAutoId(r)).orders| == |s.orders| + 1
  {
    PlaceKeepsExactlyIf(s, r);
    assert Step(s, PlaceAutoId(r)).orders.Keys == s.orders.Keys + {NextId(s)};
    SizeOfKeys(s);
    SizeOfKeys(Step(s, PlaceAutoId(r)));
  }

  lemma EndShrinks(s: State, id: Id)
    requires id in s.orders
    ensures |Removed(s, id).orders| == |s.orders| - 1
  {
    assert Removed(s, id).orders.Keys == s.orders.Keys - {id};
    SizeOfKeys(s);
    SizeOfKeys(Removed(s, id));
  }

  lemma UpdateSize(s: State, c: Command)
    requires c.CancelOrder? || c.AmendOrder? || (c.Response? && !Ends(c.event))
    ensures |Step(s, c).orders| == |s.orders|
  {
    UpdatesKeepIds(s, c);
    SizeOfKeys(s);
    SizeOfKeys(Step(s, c));
  }

  lemma SizeAfter(s: State, c: Command)
    requires Partition(s) && Clean(s, c)
    ensures |Step(s, c).orders| == |s.orders| + Growth(c)
  {
    match c {
      case PlaceAutoId(r) => PlaceGrows(s, r);
      case PlaceManualId(_, _) =>
      case Response(e) =>
        if Ends(e) {
          EndPools(s, e);
          EndShrinks(s, e.id);
        } else {
          UpdateSize(s, c);
        }
      case _ => UpdateSize(s, c);
    }
  }

  lemma PeakAfter(s: State, c: Command, peak: nat)
    requires Partition(s) && Clean(s, c) && s.counter == peak
    ensures Step(s, c).counter == Max(peak, |Step(s, c).orders|)
  {
    StepKeepsExactlyIf(s, c);
    PartitionSizes(s);
    PartitionSizes(Step(s, c));
    SizeAfter(s, c);
  }

  /** The counter is the greatest number of orders that were ever stored at once, and the stored orders
      are those placed and not ended. */
  lemma {:induction false} CounterIsPeak(cs: seq<Command>)
    requires CleanRun(cs)
    ensures Run(cs).counter == Peak(cs) && |Run(cs).orders| == Open(cs)
  {
    if cs == [] {
    } else {
      var before := cs[..|cs| - 1];
      CounterIsPeak(before);
      RunKeepsExactlyIf(before);
      PeakAfter(Run(before), cs[|cs| - 1], Peak(before));
      SizeAfter(Run(before), cs[|cs| - 1]);
    }
  }

  /** The ids never run out while fewer than WORD - 1 orders are live at once. */
  lemma FewOrdersFit(cs: seq<Command>, r: Request)
    requires CleanRun(cs) && Peak(cs) + 1 < WORD
    ensures CleanRun(cs + [PlaceAutoId(r)])
  {
    CounterIsPeak(cs);
    assert (cs + [PlaceAutoId(r)])[..|cs|] == cs;
  }

  // ----- Where ids go wrong -----

  lemma {:induction false} RunOne(cs: seq<Command>, c: Command)
    ensures Run(cs + [c]) == Step(Run(cs), c)
  {
    assert (cs + [c])[..|cs|] == cs;
  }

  lemma EndPools(s: State, e: Event)
    requires Ends(e)
    ensures Step(s, Response(e)) == Removed(s, e.id)
  {
  }

  /** n more orders are placed. */
  function Fill(cs: seq<Command>, r: Request, n: nat): seq<Command> {
    if n == 0 then cs else Fill(cs, r, n - 1) + [PlaceAutoId(r)]
  }

  /** The first n ids of the pool can be taken: none is in use or comes twice. */
  ghost predicate Drainable(s: State, n: nat) {
    && n <= |s.pool| && NoRepeats(s.pool[..n])
    && forall i :: 0 <= i < n ==> s.pool[i] !in s.orders
  }

  lemma PlaceTakesFirst(s: State, r: Request)
    requires s.pool != [] && s.pool[0] !in s.orders
    ensures var s' := Step(s, PlaceAutoId(r));
            s'.pool == s.pool[1..] && s'.orders == s.orders[s.pool[0] := Placed(r)]
  {
  }

  lemma {:induction false} FillDrains(cs: seq<Command>, r: Request, n: nat)
    requires Drainable(Run(cs), n)
    ensures var s, s' := Run(cs), Run(Fill(cs, r, n));
            s'.pool == s.pool[n..] && s'.orders.Keys == s.orders.Keys + Pooled(s.pool[..n])
  {
    var s := Run(cs);
    if n == 0 {
    } else {
      assert s.pool[..n][..n - 1] == s.pool[..n - 1];
      assert s.pool[..n] == s.pool[..n - 1] + [s.pool[n - 1]];
      FillDrains(cs, r, n - 1);
      var before := Run(Fill(cs, r, n - 1));
      assert before.pool[0] == s.pool[n - 1];
      assert s.pool[..n][n - 1] == s.pool[n - 1] && s.pool[n - 1] !in s.pool[..n - 1] by {
        assert forall i :: 0 <= i < n - 1 ==> s.pool[..n][i] != s.pool[..n][n - 1];
      }
      PlaceTakesFirst(before, r);
      RunOne(Fill(cs, r, n - 1), PlaceAutoId(r));
      assert before.pool[1..] == s.pool[n..];
    }
  }

  function EndedTwice(cs: seq<Command>, first: Event, second: Event): seq<Command> {
    cs + [Response(first)] + [Response(second)]
  }

  lemma EndedTwiceIsPooledTwice(cs: seq<Command>, first: Event, second: Event)
    requires CleanRun(cs) && Ends(first) && Ends(second) && first.id == second.id && first.id in Run(cs).orders
    ensures var s, s' := Run(cs), Run(EndedTwice(cs, first, second));
            && s'.pool == s.pool + [first.id, first.id] && s'.orders == s.orders - {first.id}
            && Drainable(s', |s.pool|) && first.id !in s.pool
  {
    var s := Run(cs);
    RunOne(cs, Response(first));
    RunOne(cs + [Response(first)], Response(second));
    EndPools(s, first);
    EndPools(Run(cs + [Response(first)]), second);
    RunKeepsExactlyIf(cs);
    assert (s.pool + [first.id, first.id])[..|s.pool|] == s.pool;
    assert forall i :: 0 <= i < |s.pool| ==> s.pool[i] in s.pool;
  }

  /** An order that ends twice, filled and filled again, or triggered and then filled, puts its id into the
      pool twice.  After any clean run, once the pool is drained down to the two, two orders are sent with
      the same id, and the second is not stored. */
  lemma EndedTwiceLosesAnOrder(cs: seq<Command>, first: Event, second: Event, r: Request, p: Request, q: Request)
    requires CleanRun(cs) && Ends(first) && Ends(second) && first.id == second.id && first.id in Run(cs).orders
    ensures var drained := Fill(EndedTwice(cs, first, second), r, |Run(cs).pool|);
            var one := drained + [PlaceAutoId(p)];
            var two := one + [PlaceAutoId(q)];
            && NextId(Run(drained)) == NextId(Run(one)) == first.id
            && first.id in Run(one).orders && Run(one).orders[first.id] == Placed(p)
            && Run(two).orders == Run(one).orders
  {
    var s, id := Run(cs), first.id;
    EndedTwiceIsPooledTwice(cs, first, second);
    var ended := EndedTwice(cs, first, second);
    FillDrains(ended, r, |s.pool|);
    var drained := Fill(ended, r, |s.pool|);
    assert Run(ended).pool[|s.pool|..] == [id, id] && Run(ended).pool[..|s.pool|] == s.pool;
    PlaceTakesFirst(Run(drained), p);
    RunOne(drained, PlaceAutoId(p));
    RunOne(drained + [PlaceAutoId(p)], PlaceAutoId(q));
  }
}
