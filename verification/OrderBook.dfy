/** The local order book: per side a hash index and an ordered tree over the same mutable nodes, with
    the nodes taken from and returned to a pool (aos/order_book/order_book.h). */
module OrderBook {
  import opened Basics
  import opened BookTheory

  /** A node, shared by the hash index and the tree and changed in place through the index. */
  class Level {
    var price: Price
    var qty: Qty

    constructor (price: Price, qty: Qty)
      ensures this.price == price && this.qty == qty
    {
      this.price, this.qty := price, qty;
    }
  }

  class LevelPool {
    var allocations: nat
    var deallocations: nat

    constructor ()
      ensures allocations == 0 && deallocations == 0
    {
      allocations, deallocations := 0, 0;
    }

    method Allocate(price: Price, qty: Qty) returns (node: Level)
      modifies this
      ensures fresh(node) && node.price == price && node.qty == qty
      ensures allocations == old(allocations) + 1 && deallocations == old(deallocations)
    {
      node := new Level(price, qty);
      allocations := allocations + 1;
    }

    method Deallocate(node: Level)
      modifies this
      ensures allocations == old(allocations) && deallocations == old(deallocations) + 1
    {
      deallocations := deallocations + 1;
    }
  }

  /** A price and a quantity as handed out by the exporters. */
  datatype Quote = Quote(price: Price, qty: Qty)

  /** Bids are ordered with std::greater, asks with std::less. */
  predicate Better(descending: bool, a: Price, b: Price) {
    if descending then a > b else a < b
  }

  /** The levels of m, best first. */
  ghost predicate IsRanking(descending: bool, m: Levels, ranked: seq<Quote>) {
    && (forall i, j :: 0 <= i < j < |ranked| ==> Better(descending, ranked[i].price, ranked[j].price))
    && (forall i :: 0 <= i < |ranked| ==> Get(m, ranked[i].price) == Some(ranked[i].qty))
    && (forall p :: p in m ==> exists i :: 0 <= i < |ranked| && ranked[i].price == p)
  }

  lemma SameBest(descending: bool, m: Levels, a: seq<Quote>, b: seq<Quote>)
    requires IsRanking(descending, m, a) && IsRanking(descending, m, b) && a != [] && b != []
    ensures a[0] == b[0]
  {
    assert Get(m, a[0].price) == Some(a[0].qty) && a[0].price in m;
    var i :| 0 <= i < |b| && b[i].price == a[0].price;
    assert Get(m, b[0].price) == Some(b[0].qty) && b[0].price in m;
    var j :| 0 <= j < |a| && a[j].price == b[0].price;
    assert i == 0;
  }

  lemma HeadTail<T>(s: seq<T>)
    requires s != []
    ensures s == [s[0]] + s[1..]
  {
  }

  /** "The n best levels" is well defined: a side has one ranking only. */
  lemma {:induction false} RankingIsUnique(descending: bool, m: Levels, a: seq<Quote>, b: seq<Quote>)
    requires IsRanking(descending, m, a) && IsRanking(descending, m, b)
    ensures a == b
    decreases |a|
  {
    RankingEmpty(descending, m, a);
    RankingEmpty(descending, m, b);
    if a == [] {
    } else {
      SameBest(descending, m, a, b);
      RankingTail(descending, m, a);
      RankingTail(descending, m, b);
      RankingIsUnique(descending, m - {a[0].price}, a[1..], b[1..]);
      HeadTail(a);
      HeadTail(b);
    }
  }

  lemma RankingEmpty(descending: bool, m: Levels, a: seq<Quote>)
    requires IsRanking(descending, m, a)
    ensures a == [] <==> m == map[]
  {
    if a != [] {
      assert Get(m, a[0].price) == Some(a[0].qty);
    } else {
      assert forall p :: p !in m;
    }
  }

  lemma RankingTail(descending: bool, m: Levels, a: seq<Quote>)
    requires a != [] && IsRanking(descending, m, a)
    ensures IsRanking(descending, m - {a[0].price}, a[1..])
  {
    var rest := m - {a[0].price};
    forall i | 0 <= i < |a[1..]|
      ensures Get(rest, a[1..][i].price) == Some(a[1..][i].qty)
    {
      assert Better(descending, a[0].price, a[i + 1].price);
      assert Get(m, a[i + 1].price) == Some(a[i + 1].qty);
    }
    forall p | p in rest
      ensures exists i :: 0 <= i < |a[1..]| && a[1..][i].price == p
    {
      var i :| 0 <= i < |a| && a[i].price == p;
      assert a[1..][i - 1].price == p;
    }
  }

  function Min(a: nat, b: nat): nat {
    if a < b then a else b
  }

  /** The first `depth` entries of the output have become those of the walk and no other entry has
      changed; `updated` says whether any entry changed, and the level is then the last that did. */
  ghost predicate Exported(walk: seq<Quote>, depth: nat, was: seq<Quote>, now: seq<Quote>,
                           updated: bool, lvl: nat, lvl': nat)
  {
    && depth <= |walk| && depth <= |was| == |now|
    && (forall i :: 0 <= i < depth ==> now[i] == walk[i])
    && (forall i :: depth <= i < |was| ==> now[i] == was[i])
    && (updated ==> lvl' < depth && was[lvl'] != now[lvl'] && forall i :: lvl' < i < depth ==> was[i] == now[i])
    && (!updated ==> lvl' == lvl && now == was)
  }

  /** One entry more. */
  lemma ExportedNext(walk: seq<Quote>, depth: nat, was: seq<Quote>, now: seq<Quote>, updated: bool, lvl: nat, lvl': nat)
    requires Exported(walk, depth, was, now, updated, lvl, lvl') && depth < |walk| && depth < |was|
    ensures now[depth] == walk[depth] ==> Exported(walk, depth + 1, was, now, updated, lvl, lvl')
    ensures now[depth] != walk[depth] ==>
              Exported(walk, depth + 1, was, now[depth := walk[depth]], true, lvl, depth)
  {
  }

  class BookSide {
    const descending: bool
    const pool: LevelPool
    var index: map<Price, Level>
    var tree: seq<Level>

    constructor (descending: bool)
      ensures this.descending == descending
      ensures Valid() && Contents() == map[] && fresh(Footprint())
    {
      this.descending := descending;
      this.pool := new LevelPool();
      this.index := map[];
      this.tree := [];
    }

    ghost function Nodes(): set<Level>
      reads this
    {
      set n | n in tree
    }

    ghost function Footprint(): set<object>
      reads this
    {
      {this, pool} + Nodes()
    }

    ghost predicate Sorted(nodes: seq<Level>)
      reads nodes
    {
      forall i, j :: 0 <= i < j < |nodes| ==> Better(descending, nodes[i].price, nodes[j].price)
    }

    /** The index and the tree hold the same nodes, and the tree is strictly ordered. */
    ghost predicate Indexed()
      reads this, Nodes()
    {
      && Sorted(tree)
      && (forall p :: p in index ==> index[p] in tree && index[p].price == p)
      && (forall n :: n in tree ==> n.price in index && index[n.price] == n)
    }

    /** And the pool has handed out exactly the nodes in the tree. */
    ghost predicate Valid()
      reads this, Footprint()
    {
      Indexed() && pool.allocations == pool.deallocations + |tree|
    }

    /** The abstract value: a map from price to quantity. */
    ghost function Contents(): Levels
      requires Indexed()
      reads this, Nodes()
    {
      map p | p in index :: index[p].qty
    }

    /** What an in-order walk over the tree reads. */
    ghost function Walk(): (w: seq<Quote>)
      requires Indexed()
      reads this, Nodes()
      ensures IsRanking(descending, Contents(), w)
    {
      var m := Contents();
      var w := seq(|tree|, i requires 0 <= i < |tree| reads this, Nodes() => Quote(tree[i].price, tree[i].qty));
      assert forall i :: 0 <= i < |w| ==> tree[i] in tree && Get(m, w[i].price) == Some(w[i].qty);
      assert forall p :: p in m ==> exists i :: 0 <= i < |w| && w[i].price == p by {
        forall p | p in m
          ensures exists i :: 0 <= i < |w| && w[i].price == p
        {
          var i :| 0 <= i < |tree| && tree[i] == index[p];
          assert w[i].price == p;
        }
      }
      w
    }

    method Clear()
      requires Valid()
      modifies this, pool
      ensures Valid() && Contents() == map[] && Footprint() <= old(Footprint())
    {
      index := map[];
      while tree != []
        invariant index == map[]
        invariant pool.allocations == pool.deallocations + |tree|
        decreases |tree|
      {
        var node := tree[0];
        tree := tree[1..];
        pool.Deallocate(node);
      }
    }

    /** The place of a new price in the tree. */
    method Position(price: Price) returns (k: nat)
      requires Sorted(tree) && forall n :: n in tree ==> n.price != price
      ensures k <= |tree|
      ensures forall i :: 0 <= i < k ==> Better(descending, tree[i].price, price)
      ensures forall i :: k <= i < |tree| ==> Better(descending, price, tree[i].price)
    {
      k := 0;
      while k < |tree| && Better(descending, tree[k].price, price)
        invariant k <= |tree|
        invariant forall i :: 0 <= i < k ==> Better(descending, tree[i].price, price)
      {
        k := k + 1;
      }
      if k < |tree| {
        assert tree[k] in tree;
        assert Better(descending, price, tree[k].price);
      }
    }

    /** avltree::insert: puts a node with a new price into the tree. */
    method InsertNode(node: Level)
      requires Sorted(tree) && forall n :: n in tree ==> n.price != node.price
      modifies this`tree
      ensures Sorted(tree) && |tree| == old(|tree|) + 1
      ensures forall n :: n in tree <==> n in old(tree) || n == node
    {
      var k := Position(node.price);
      ghost var before := tree;
      tree := tree[..k] + [node] + tree[k..];
      assert forall i :: 0 <= i < |before| ==> before[i] == tree[if i < k then i else i + 1];
      forall i, j | 0 <= i < j < |tree|
        ensures Better(descending, tree[i].price, tree[j].price)
      {
        assert tree[i] == if i < k then before[i] else if i == k then node else before[i - 1];
        assert tree[j] == if j < k then before[j] else if j == k then node else before[j - 1];
      }
    }

    /** A new node is entered in the index and in the tree. */
    method Enter(node: Level)
      requires Indexed() && node.price !in index
      modifies `index, `tree
      ensures Indexed() && Contents() == old(Contents())[node.price := node.qty]
      ensures |tree| == old(|tree|) + 1 && forall n :: n in tree <==> n in old(tree) || n == node
    {
      index := index[node.price := node];
      InsertNode(node);
    }

    /** The rest of AddBidLevel. */
    method InsertLevel(price: Price, qty: Qty)
      requires Valid() && price !in index
      modifies this, pool
      ensures Valid() && Contents() == old(Contents())[price := qty]
      ensures fresh(Footprint() - old(Footprint()))
    {
      var node := pool.Allocate(price, qty);
      assert Indexed() && Contents() == old(Contents());
      Enter(node);
      assert Nodes() == old(Nodes()) + {node};
    }

    /** The node is changed in place, through the index. */
    method ChangeLevel(price: Price, qty: Qty)
      requires Valid() && price in index
      modifies index[price]
      ensures Valid() && Contents() == old(Contents())[price := qty]
    {
      assert index[price] in tree;
      assert forall p :: p in index && p != price ==> index[p] != index[price];
      index[price].price := price;
      index[price].qty := qty;
    }

    /** AddBidLevel and AddAskLevel. */
    method AddLevel(price: Price, qty: Qty)
      requires Valid()
      modifies Footprint()
      ensures Valid() && Contents() == old(Contents())[price := qty]
      ensures fresh(Footprint() - old(Footprint()))
    {
      if price in index {
        assert index[price] in tree;
        ChangeLevel(price, qty);
      } else {
        InsertLevel(price, qty);
      }
    }

    /** avltree::erase: takes a node out of the tree. */
    method EraseNode(node: Level)
      requires node in tree && Sorted(tree)
      modifies this`tree
      ensures Sorted(tree) && |tree| == old(|tree|) - 1
      ensures forall n :: n in tree <==> n in old(tree) && n != node
    {
      var k := 0;
      while tree[k] != node
        invariant 0 <= k < |tree| && node in tree[k..]
        decreases |tree| - k
      {
        k := k + 1;
      }
      ghost var before := tree;
      tree := tree[..k] + tree[k + 1..];
      assert forall i :: 0 <= i < |before| && i != k ==> before[i] != node;
      assert forall i :: 0 <= i < |before| && i != k ==> before[i] == tree[if i < k then i else i - 1];
    }

    /** A node leaves the index and the tree. */
    method Leave(node: Level)
      requires Indexed() && node in tree
      modifies `index, `tree
      ensures Indexed() && Contents() == old(Contents()) - {node.price}
      ensures |tree| == old(|tree|) - 1 && forall n :: n in tree <==> n in old(tree) && n != node
    {
      index := index - {node.price};
      EraseNode(node);
    }

    /** RemoveBidLevel and RemoveAskLevel. */
    method RemoveLevel(price: Price)
      requires Valid()
      modifies this, pool
      ensures Valid() && Contents() == old(Contents()) - {price}
      ensures Footprint() <= old(Footprint())
    {
      if price !in index {
        assert Contents() == Contents() - {price};
        return;
      }
      var node := index[price];
      Leave(node);
      pool.Deallocate(node);
    }

    /** The loop of the exporters, over the tree in order. */
    method ExportFront(n: nat, out: array<Quote>, maxValidLvl: nat, ghost walk: seq<Quote>)
      returns (updated: bool, maxValidLvl': nat)
      requires n <= out.Length && |walk| == |tree|
      requires forall j :: 0 <= j < |tree| ==> walk[j] == Quote(tree[j].price, tree[j].qty)
      modifies out
      ensures Exported(walk, Min(n, |walk|), old(out[..]), out[..], updated, maxValidLvl, maxValidLvl')
    {
      updated, maxValidLvl' := false, maxValidLvl;
      ghost var was := out[..];
      var i := 0;
      while i < |tree| && i < n
        invariant i <= |tree| && i <= n
        invariant Exported(walk, i, was, out[..], updated, maxValidLvl, maxValidLvl')
      {
        ghost var now := out[..];
        ExportedNext(walk, i, was, now, updated, maxValidLvl, maxValidLvl');
        if out[i].price != tree[i].price || out[i].qty != tree[i].qty {
          out[i] := Quote(tree[i].price, tree[i].qty);
          updated := true;
          maxValidLvl' := i;
          assert out[..] == now[i := walk[i]];
        }
        i := i + 1;
      }
    }

    /** UpdateTopNBids and UpdateTopNAsks; the Top5 forms are n == 5 over an array of five. */
    method UpdateTopN(n: nat, out: array<Quote>, maxValidLvl: nat) returns (updated: bool, maxValidLvl': nat)
      requires Valid()
      modifies out
      ensures out.Length < n ==> out[..] == old(out[..]) && !updated && maxValidLvl' == maxValidLvl
      ensures n <= out.Length ==>
                Exported(old(Walk()), Min(n, |old(Walk())|), old(out[..]), out[..], updated, maxValidLvl, maxValidLvl')
    {
      if out.Length < n {
        return false, maxValidLvl;
      }
      updated, maxValidLvl' := ExportFront(n, out, maxValidLvl, Walk());
    }
  }

  /** Both sides; the two share nothing. */
  class OrderBookInner {
    const bids: BookSide
    const asks: BookSide

    constructor ()
      ensures Valid() && Contents() == EMPTY && fresh(Footprint())
    {
      bids := new BookSide(true);
      asks := new BookSide(false);
    }

    ghost function Footprint(): set<object>
      reads this, bids, asks
    {
      bids.Footprint() + asks.Footprint()
    }

    ghost predicate Valid()
      reads this, bids, asks, Footprint()
    {
      && bids.descending && !asks.descending
      && bids.Footprint() !! asks.Footprint()
      && bids.Valid() && asks.Valid()
    }

    ghost function Contents(): Book
      requires Valid()
      reads this, bids, asks, Footprint()
    {
      Book(bids.Contents(), asks.Contents())
    }

    method Clear()
      requires Valid()
      modifies Footprint()
      ensures Valid() && Contents() == EMPTY && Footprint() <= old(Footprint())
    {
      bids.Clear();
      asks.Clear();
    }

    /** The best bid and the best ask, available exactly when both sides have a level. */
    method GetBBO() returns (found: bool, bid: Quote, ask: Quote)
      requires Valid()
      ensures found <==> Contents().bids != map[] && Contents().asks != map[]
      ensures found ==> Get(Contents().bids, bid.price) == Some(bid.qty)
      ensures found ==> Get(Contents().asks, ask.price) == Some(ask.qty)
      ensures found ==> forall p :: p in Contents().bids ==> p <= bid.price
      ensures found ==> forall p :: p in Contents().asks ==> ask.price <= p
    {
      found, bid, ask := false, Quote(0.0, 0.0), Quote(0.0, 0.0);
      ghost var b, a := bids.Walk(), asks.Walk();
      if bids.tree == [] {
        assert forall p :: p !in bids.index;
        return;
      }
      assert bids.tree[0].price in bids.Contents();
      if asks.tree == [] {
        assert forall p :: p !in asks.index;
        return;
      }
      assert asks.tree[0].price in asks.Contents();
      found := true;
      bid := Quote(bids.tree[0].price, bids.tree[0].qty);
      ask := Quote(asks.tree[0].price, asks.tree[0].qty);
      assert bid == b[0] && ask == a[0];
    }

    /** OrderBook::AddBidOrder: a zero quantity removes the level. */
    method AddBidOrder(price: Price, qty: Qty)
      requires Valid()
      modifies bids.Footprint()
      ensures Valid() && Contents() == Book(Overwrite(old(Contents().bids), Entry(price, qty)), old(Contents().asks))
      ensures fresh(bids.Footprint() - old(bids.Footprint())) && asks.Footprint() == old(asks.Footprint())
    {
      if qty == 0.0 {
        bids.RemoveLevel(price);
      } else {
        bids.AddLevel(price, qty);
      }
    }

    method AddAskOrder(price: Price, qty: Qty)
      requires Valid()
      modifies asks.Footprint()
      ensures Valid() && Contents() == Book(old(Contents().bids), Overwrite(old(Contents().asks), Entry(price, qty)))
      ensures fresh(asks.Footprint() - old(asks.Footprint())) && bids.Footprint() == old(bids.Footprint())
    {
      if qty == 0.0 {
        asks.RemoveLevel(price);
      } else {
        asks.AddLevel(price, qty);
      }
    }

    method ProcessBids(es: seq<Entry>)
      requires Valid()
      modifies bids.Footprint()
      ensures Valid() && Contents() == Book(OverwriteAll(old(Contents().bids), es), old(Contents().asks))
      ensures fresh(bids.Footprint() - old(bids.Footprint())) && asks.Footprint() == old(asks.Footprint())
    {
      var i := 0;
      while i < |es|
        invariant 0 <= i <= |es|
        invariant Valid()
        invariant Contents() == Book(OverwriteAll(old(Contents().bids), es[..i]), old(Contents().asks))
        invariant fresh(bids.Footprint() - old(bids.Footprint())) && asks.Footprint() == old(asks.Footprint())
      {
        AddBidOrder(es[i].price, es[i].qty);
        assert es[..i + 1][..i] == es[..i];
        i := i + 1;
      }
      assert es[..i] == es;
    }

    method ProcessAsks(es: seq<Entry>)
      requires Valid()
      modifies asks.Footprint()
      ensures Valid() && Contents() == Book(old(Contents().bids), OverwriteAll(old(Contents().asks), es))
      ensures fresh(asks.Footprint() - old(asks.Footprint())) && bids.Footprint() == old(bids.Footprint())
    {
      var i := 0;
      while i < |es|
        invariant 0 <= i <= |es|
        invariant Valid()
        invariant Contents() == Book(old(Contents().bids), OverwriteAll(old(Contents().asks), es[..i]))
        invariant fresh(asks.Footprint() - old(asks.Footprint())) && bids.Footprint() == old(bids.Footprint())
      {
        AddAskOrder(es[i].price, es[i].qty);
        assert es[..i + 1][..i] == es[..i];
        i := i + 1;
      }
      assert es[..i] == es;
    }

    /** OrderBookEventListener::ProcessEvent: all bids, then all asks. */
    method ProcessEvent(d: Depth)
      requires Valid()
      modifies Footprint()
      ensures Valid() && Contents() == Apply(old(Contents()), d)
      ensures fresh(Footprint() - old(Footprint()))
    {
      ProcessBids(d.bids);
      ProcessAsks(d.asks);
    }
  }
}
