/** Price levels, the overwrites an exchange sends for them, and the exchange's own history of the
    book.  A quantity of zero deletes the level (aos/order_book/order_book.h:258-272). */
module BookTheory {
  import opened Basics

  type Price = real
  type Qty = real

  /** One overwrite of one price level. */
  datatype Entry = Entry(price: Price, qty: Qty)

  /** What one event carries: overwrites of the bid side, then of the ask side. */
  datatype Depth = Depth(bids: seq<Entry>, asks: seq<Entry>)

  type Levels = map<Price, Qty>

  datatype Book = Book(bids: Levels, asks: Levels)

  const EMPTY: Book := Book(map[], map[])

  function Overwrite(m: Levels, e: Entry): Levels {
    if e.qty == 0.0 then m - {e.price} else m[e.price := e.qty]
  }

  function OverwriteAll(m: Levels, es: seq<Entry>): Levels {
    if es == [] then m else Overwrite(OverwriteAll(m, es[..|es| - 1]), es[|es| - 1])
  }

  function Apply(b: Book, d: Depth): Book {
    Book(OverwriteAll(b.bids, d.bids), OverwriteAll(b.asks, d.asks))
  }

  /** The contents of several events, one after the other. */
  function ApplyAll(b: Book, depths: seq<Depth>): Book {
    if depths == [] then b else Apply(ApplyAll(b, depths[..|depths| - 1]), depths[|depths| - 1])
  }

  // ----- What a list of overwrites does, price by price -----

  function Get(m: Levels, p: Price): Option<Qty> {
    if p in m then Some(m[p]) else None
  }

  /** The last quantity that the overwrites give to a price, if they touch it at all. */
  function LastWrite(es: seq<Entry>, p: Price): Option<Qty> {
    if es == [] then None
    else if es[|es| - 1].price == p then Some(es[|es| - 1].qty)
    else LastWrite(es[..|es| - 1], p)
  }

  /** Reading a price after the overwrites: the last write decides, zero meaning "no level". */
  lemma {:induction false} OverwriteAllReads(m: Levels, es: seq<Entry>, p: Price)
    ensures Get(OverwriteAll(m, es), p) ==
            match LastWrite(es, p)
            case None => Get(m, p)
            case Some(q) => if q == 0.0 then None else Some(q)
  {
    if es == [] {
    } else {
      OverwriteAllReads(m, es[..|es| - 1], p);
    }
  }

  lemma SameReadsSameLevels(a: Levels, b: Levels)
    requires forall p: Price :: Get(a, p) == Get(b, p)
    ensures a == b
  {
    forall p: Price
      ensures p in a <==> p in b
      ensures p in a ==> a[p] == b[p]
    {
      assert Get(a, p) == Get(b, p);
    }
  }

  lemma {:induction false} LastWriteConcat(xs: seq<Entry>, ys: seq<Entry>, p: Price)
    ensures LastWrite(xs + ys, p) == if LastWrite(ys, p).Some? then LastWrite(ys, p) else LastWrite(xs, p)
  {
    if ys == [] {
      assert xs + ys == xs;
    } else {
      assert (xs + ys)[..|xs + ys| - 1] == xs + ys[..|ys| - 1];
      LastWriteConcat(xs, ys[..|ys| - 1], p);
    }
  }

  lemma {:induction false} OverwriteAllConcat(m: Levels, xs: seq<Entry>, ys: seq<Entry>)
    ensures OverwriteAll(m, xs + ys) == OverwriteAll(OverwriteAll(m, xs), ys)
  {
    if ys == [] {
      assert xs + ys == xs;
    } else {
      assert (xs + ys)[..|xs + ys| - 1] == xs + ys[..|ys| - 1];
      OverwriteAllConcat(m, xs, ys[..|ys| - 1]);
    }
  }

  /** Two lists of overwrites that touch the same prices and leave the same last quantities. */
  ghost predicate SameEffect(xs: seq<Entry>, ys: seq<Entry>) {
    forall p: Price :: LastWrite(xs, p) == LastWrite(ys, p)
  }

  lemma SameEffectSameLevels(m: Levels, xs: seq<Entry>, ys: seq<Entry>)
    requires SameEffect(xs, ys)
    ensures OverwriteAll(m, xs) == OverwriteAll(m, ys)
  {
    forall p: Price
      ensures Get(OverwriteAll(m, xs), p) == Get(OverwriteAll(m, ys), p)
    {
      OverwriteAllReads(m, xs, p);
      OverwriteAllReads(m, ys, p);
    }
    SameReadsSameLevels(OverwriteAll(m, xs), OverwriteAll(m, ys));
  }

  /** Writing the same overwrites twice is writing them once. */
  lemma OverwriteAllIdempotent(m: Levels, es: seq<Entry>)
    ensures OverwriteAll(OverwriteAll(m, es), es) == OverwriteAll(m, es)
  {
    var once := OverwriteAll(m, es);
    forall p: Price
      ensures Get(OverwriteAll(once, es), p) == Get(once, p)
    {
      OverwriteAllReads(m, es, p);
      OverwriteAllReads(once, es, p);
    }
    SameReadsSameLevels(OverwriteAll(once, es), once);
  }

  lemma {:induction false} PriceAbove(es: seq<Entry>) returns (p: Price)
    ensures forall e :: e in es ==> e.price < p
  {
    if es == [] {
      p := 0.0;
    } else {
      p := PriceAbove(es[..|es| - 1]);
      var top := es[|es| - 1].price;
      p := if p > top then p else top + 1.0;
    }
  }

  lemma {:induction false} UntouchedPrice(es: seq<Entry>, p: Price)
    requires forall e :: e in es ==> e.price != p
    ensures LastWrite(es, p) == None
  {
    if es == [] {
    } else {
      UntouchedPrice(es[..|es| - 1], p);
      assert es[|es| - 1] in es;
    }
  }

  // ----- The exchange -----

  /** The exchange's history: update id n carries the overwrites h(n). */
  type History = nat -> Depth

  /** The bid overwrites of the update ids a+1, ..., n. */
  function BidWrites(h: History, a: nat, n: nat): seq<Entry> {
    if n <= a then [] else BidWrites(h, a, n - 1) + h(n).bids
  }

  function AskWrites(h: History, a: nat, n: nat): seq<Entry> {
    if n <= a then [] else AskWrites(h, a, n - 1) + h(n).asks
  }

  /** A book after the exchange's updates a+1, ..., n. */
  function ApplyRange(b: Book, h: History, a: nat, n: nat): Book {
    Book(OverwriteAll(b.bids, BidWrites(h, a, n)), OverwriteAll(b.asks, AskWrites(h, a, n)))
  }

  /** The exchange's book right after update id n. */
  function ExchangeBook(h: History, n: nat): Book {
    ApplyRange(EMPTY, h, 0, n)
  }

  /** The event content d reports the updates a+1, ..., n: it names exactly the touched prices, each
      with the quantity it has after update n.  The intermediate quantities may be missing. */
  ghost predicate Reports(h: History, d: Depth, a: nat, n: nat) {
    SameEffect(d.bids, BidWrites(h, a, n)) && SameEffect(d.asks, AskWrites(h, a, n))
  }

  lemma ReportApplies(b: Book, h: History, d: Depth, a: nat, n: nat)
    requires Reports(h, d, a, n)
    ensures Apply(b, d) == ApplyRange(b, h, a, n)
  {
    SameEffectSameLevels(b.bids, d.bids, BidWrites(h, a, n));
    SameEffectSameLevels(b.asks, d.asks, AskWrites(h, a, n));
  }

  lemma Reassociate<T>(x: seq<T>, y: seq<T>, z: seq<T>)
    ensures (x + y) + z == x + (y + z)
  {
  }

  lemma {:induction false} WritesSplit(h: History, a: nat, m: nat, n: nat)
    requires a <= m <= n
    ensures BidWrites(h, a, n) == BidWrites(h, a, m) + BidWrites(h, m, n)
    ensures AskWrites(h, a, n) == AskWrites(h, a, m) + AskWrites(h, m, n)
    decreases n
  {
    if n <= m {
    } else {
      WritesSplit(h, a, m, n - 1);
      Reassociate(BidWrites(h, a, m), BidWrites(h, m, n - 1), h(n).bids);
      Reassociate(AskWrites(h, a, m), AskWrites(h, m, n - 1), h(n).asks);
    }
  }

  lemma ApplyRangeSplit(b: Book, h: History, a: nat, m: nat, n: nat)
    requires a <= m <= n
    ensures ApplyRange(ApplyRange(b, h, a, m), h, m, n) == ApplyRange(b, h, a, n)
  {
    WritesSplit(h, a, m, n);
    OverwriteAllConcat(b.bids, BidWrites(h, a, m), BidWrites(h, m, n));
    OverwriteAllConcat(b.asks, AskWrites(h, a, m), AskWrites(h, m, n));
  }

  /** Replaying updates that a snapshot already contains is harmless: for k <= s <= n, the updates
      k+1, ..., n on top of the book at s give the book at n, wherever s falls in between. */
  lemma OverlapIsHarmless(h: History, k: nat, s: nat, n: nat)
    requires k <= s <= n
    ensures ApplyRange(ExchangeBook(h, s), h, k, n) == ExchangeBook(h, n)
  {
    var atK := ExchangeBook(h, k);
    ApplyRangeSplit(EMPTY, h, 0, k, s);
    OverwriteAllIdempotent(atK.bids, BidWrites(h, k, s));
    OverwriteAllIdempotent(atK.asks, AskWrites(h, k, s));
    assert ApplyRange(ExchangeBook(h, s), h, k, s) == ExchangeBook(h, s);
    ApplyRangeSplit(ExchangeBook(h, s), h, k, s, n);
    ApplyRangeSplit(EMPTY, h, 0, s, n);
  }
}
