/** The objects behind the order ids: generator, queue of returned ids, storage, and the order manager
    that drives them (aos/uid, aoe/binance and aoe/bybit order_manager, order_event, order_storage). */
module OrderManagement {
  import opened Basics
  import opened OrderIds

  class UIDGenerator {
    var currentId: Id

    constructor ()
      ensures currentId == 0
    {
      currentId := 0;
    }

    method GenerateUniqueID() returns (id: Id)
      modifies `currentId
      ensures id == old(currentId) && currentId == (old(currentId) + 1) % WORD
    {
      id := currentId;
      currentId := (currentId + 1) % WORD;
    }
  }

  /** Ids come out in the order they went in. */
  class NumberPool {
    var pool: seq<Id>

    constructor ()
      ensures pool == []
    {
      pool := [];
    }

    method ReturnToPool(id: Id)
      modifies `pool
      ensures pool == old(pool) + [id]
    {
      pool := pool + [id];
    }

    method GetFromPool() returns (ok: bool, id: Id)
      modifies `pool
      ensures ok <==> old(pool) != []
      ensures if ok then old(pool) == [id] + pool else id == 0 && pool == []
    {
      if pool == [] {
        return false, 0;
      }
      ok, id := true, pool[0];
      pool := pool[1..];
    }
  }

  class UIDManager {
    const idGenerator: UIDGenerator
    const numberPool: NumberPool

    constructor (generator: UIDGenerator, pool: NumberPool)
      ensures idGenerator == generator && numberPool == pool
    {
      idGenerator, numberPool := generator, pool;
    }

    method GetUniqueID() returns (id: Id)
      modifies idGenerator`currentId, numberPool`pool
      ensures var s := State(old(idGenerator.currentId), old(numberPool.pool), map[]);
              && id == NextId(s)
              && State(idGenerator.currentId, numberPool.pool, map[]) == IdTaken(s)
    {
      var ok, fromPool := numberPool.GetFromPool();
      if !ok {
        id := idGenerator.GenerateUniqueID();
      } else {
        id := fromPool;
      }
    }

    method ReturnIDToPool(id: Id)
      modifies numberPool`pool
      ensures numberPool.pool == old(numberPool.pool) + [id]
    {
      numberPool.ReturnToPool(id);
    }
  }

  class OrderStorage {
    var orders: map<Id, Order>

    constructor ()
      ensures orders == map[]
    {
      orders := map[];
    }

    method Add(id: Id, order: Order)
      modifies `orders
      ensures orders == Added(old(orders), id, order)
    {
      if id !in orders {
        orders := orders[id := order];
      }
    }

    method UpdateStatus(id: Id, status: OrderStatus, pending: PendingAction)
      modifies `orders
      ensures orders == StatusUpdated(old(orders), id, status, pending)
    {
      if id in orders {
        orders := orders[id := orders[id].(status := status, pending := pending)];
      }
    }

    method UpdateState(id: Id, price: real, qty: real)
      modifies `orders
      ensures orders == StateUpdated(old(orders), id, price, qty)
    {
      if id in orders {
        orders := orders[id := orders[id].(price := price, qty := qty)];
      }
    }

    method Remove(id: Id)
      modifies `orders
      ensures id !in orders && forall i: Id :: i != id ==> (i in orders <==> i in old(orders))
      ensures forall i :: i in orders ==> orders[i] == old(orders)[i]
    {
      if id in orders {
        orders := orders - {id};
      }
    }
  }

  /** What goes to the exchange. */
  datatype Message = PlaceMessage(request: Request, id: Id) | CancelMessage(id: Id) | AmendMessage(id: Id)

  /** What a command sends. */
  function MessagesOf(s: State, c: Command): seq<Message> {
    match c
    case PlaceAutoId(r) => [PlaceMessage(r, NextId(s))]
    case PlaceManualId(r, uid) => [PlaceMessage(r, uid)]
    case CancelOrder(id) => [CancelMessage(id)]
    case AmendOrder(id) => [AmendMessage(id)]
    case Response(_) => []
  }

  function Messages(cs: seq<Command>): seq<Message> {
    if cs == [] then []
    else Messages(cs[..|cs| - 1]) + MessagesOf(Run(cs[..|cs| - 1]), cs[|cs| - 1])
  }

  /** The request of the last message that places an order under the id. */
  function LastPlaced(ms: seq<Message>, id: Id): Option<Request> {
    if ms == [] then None
    else
      var m := ms[|ms| - 1];
      if m.PlaceMessage? && m.id == id then Some(m.request) else LastPlaced(ms[..|ms| - 1], id)
  }

  lemma LastPlacedSnoc(ms: seq<Message>, m: Message, id: Id)
    ensures LastPlaced(ms + [m], id) == if m.PlaceMessage? && m.id == id then Some(m.request) else LastPlaced(ms, id)
  {
    assert (ms + [m])[..|ms|] == ms;
  }

  /** The request last sent under an id, read off the messages. */
  lemma {:induction false} LastSentIsInTheMessages(cs: seq<Command>, id: Id)
    ensures LastPlaced(Messages(cs), id) == LastSent(cs, id)
  {
    if cs == [] {
    } else {
      var before, c := cs[..|cs| - 1], cs[|cs| - 1];
      LastSentIsInTheMessages(before, id);
      var more := MessagesOf(Run(before), c);
      if more == [] {
        assert Messages(before) + more == Messages(before);
      } else {
        LastPlacedSnoc(Messages(before), more[0], id);
        assert more == [more[0]];
      }
    }
  }

  class OrderManager {
    const storage: OrderStorage
    const uids: UIDManager
    var sent: seq<Message>

    constructor (storage: OrderStorage, uids: UIDManager)
      ensures this.storage == storage && this.uids == uids && sent == []
    {
      this.storage, this.uids, sent := storage, uids, [];
    }

    ghost function Abstract(): State
      reads storage, uids.idGenerator, uids.numberPool
    {
      State(uids.idGenerator.currentId, uids.numberPool.pool, storage.orders)
    }

    method PlaceOrderManualId(order: Request, uid: Id)
      modifies storage`orders, `sent
      ensures Abstract() == Step(old(Abstract()), PlaceManualId(order, uid))
      ensures sent == old(sent) + [PlaceMessage(order, uid)]
    {
      storage.Add(uid, Placed(order));
      sent := sent + [PlaceMessage(order, uid)];
    }

    method PlaceOrderAutoId(order: Request)
      modifies storage`orders, uids.idGenerator`currentId, uids.numberPool`pool, `sent
      ensures Abstract() == Step(old(Abstract()), PlaceAutoId(order))
      ensures sent == old(sent) + [PlaceMessage(order, NextId(old(Abstract())))]
    {
      var id := uids.GetUniqueID();
      storage.Add(id, Placed(order));
      sent := sent + [PlaceMessage(order, id)];
    }

    method CancelOrder(id: Id)
      modifies storage`orders, `sent
      ensures Abstract() == Step(old(Abstract()), Command.CancelOrder(id))
      ensures sent == old(sent) + [CancelMessage(id)]
    {
      storage.UpdateStatus(id, Invalid, Cancel);
      sent := sent + [CancelMessage(id)];
    }

    method AmendOrder(id: Id)
      modifies storage`orders, `sent
      ensures Abstract() == Step(old(Abstract()), Command.AmendOrder(id))
      ensures sent == old(sent) + [AmendMessage(id)]
    {
      storage.UpdateStatus(id, Invalid, Amend);
      sent := sent + [AmendMessage(id)];
    }

    method Remove(id: Id)
      modifies storage`orders, uids.numberPool`pool
      ensures Abstract() == Removed(old(Abstract()), id)
    {
      storage.Remove(id);
      uids.ReturnIDToPool(id);
      assert storage.orders == old(storage.orders) - {id};
    }

    method OnResponse(e: Event)
      modifies storage`orders, uids.numberPool`pool
      ensures Abstract() == Step(old(Abstract()), Response(e))
      ensures e.PartiallyFilledOf? && e.id in old(storage.orders) ==>
                && e.id in storage.orders && storage.orders[e.id].price == e.price
                && storage.orders[e.id].qty + e.cumExecQty == e.orderQty
    {
      match e {
        case New(id) => storage.UpdateStatus(id, NewStatus, NoAction);
        case PendingNew(id) => storage.UpdateStatus(id, PendingNewStatus, NoAction);
        case Untriggered(id) => storage.UpdateStatus(id, UntriggeredStatus, NoAction);
        case PartiallyFilledOf(id, price, orderQty, cumExecQty) =>
          storage.UpdateStatus(id, PartiallyFilledStatus, NoAction);
          storage.UpdateState(id, price, orderQty - cumExecQty);
        case PartiallyFilled(id, price, leavesQty) =>
          storage.UpdateStatus(id, PartiallyFilledStatus, NoAction);
          storage.UpdateState(id, price, leavesQty);
        case Filled(id) => Remove(id);
        case Cancelled(id) => Remove(id);
        case Rejected(id) => Remove(id);
        case Expired(id) => Remove(id);
        case ExpiredInMatch(id) => Remove(id);
        case PartiallyFilledCancelled(id) => Remove(id);
        case Triggered(id) => Remove(id);
        case Deactivated(id) => Remove(id);
        case PendingCancel(_) =>
        case OtherEvent =>
      }
    }
  }

  method Serve(manager: OrderManager, c: Command)
    modifies manager`sent, manager.storage`orders, manager.uids.idGenerator`currentId, manager.uids.numberPool`pool
    ensures manager.Abstract() == Step(old(manager.Abstract()), c)
    ensures manager.sent == old(manager.sent) + MessagesOf(old(manager.Abstract()), c)
  {
    match c {
      case PlaceAutoId(r) => manager.PlaceOrderAutoId(r);
      case PlaceManualId(r, uid) => manager.PlaceOrderManualId(r, uid);
      case CancelOrder(id) => manager.CancelOrder(id);
      case AmendOrder(id) => manager.AmendOrder(id);
      case Response(e) => manager.OnResponse(e);
    }
  }

  method ServeAll(manager: OrderManager, commands: seq<Command>)
    requires manager.Abstract() == INIT
    modifies manager`sent, manager.storage`orders, manager.uids.idGenerator`currentId, manager.uids.numberPool`pool
    ensures manager.Abstract() == Run(commands) && manager.sent == old(manager.sent) + Messages(commands)
  {
    for k := 0 to |commands|
      invariant manager.Abstract() == Run(commands[..k])
      invariant manager.sent == old(manager.sent) + Messages(commands[..k])
    {
      assert commands[..k + 1][..k] == commands[..k];
      Serve(manager, commands[k]);
    }
    assert commands[..|commands|] == commands;
  }

  /** After any clean run an order is stored under the id that is sent to the exchange, which no other
      stored order has, and all others stay. */
  method PlaceAfter(manager: OrderManager, ghost commands: seq<Command>, r: Request)
    requires manager.Abstract() == Run(commands) && CleanRun(commands)
    modifies manager`sent, manager.storage`orders, manager.uids.idGenerator`currentId, manager.uids.numberPool`pool
    ensures var id := NextId(Run(commands));
            && id !in old(manager.storage.orders)
            && manager.sent == old(manager.sent) + [PlaceMessage(r, id)]
            && manager.storage.orders == old(manager.storage.orders)[id := Placed(r)]
  {
    NeverReissued(commands, r);
    RunOne(commands, PlaceAutoId(r));
    manager.PlaceOrderAutoId(r);
  }
}
