/** OrderBookEventListener (aos/order_book/order_book.h:309-400): events and clears are posted to a
    strand, which runs them later, one at a time, in the order of posting. */
module BookStrand {
  import opened BookTheory
  import opened OrderBook

  datatype Job = ProcessEvent(depth: Depth) | ProcessClear

  function RunJob(b: Book, j: Job): Book {
    match j
    case ProcessEvent(d) => Apply(b, d)
    case ProcessClear => EMPTY
  }

  function RunJobs(b: Book, js: seq<Job>): Book {
    if js == [] then b else RunJob(RunJobs(b, js[..|js| - 1]), js[|js| - 1])
  }

  lemma RunJobsSnoc(b: Book, js: seq<Job>, j: Job)
    ensures RunJobs(b, js + [j]) == RunJob(RunJobs(b, js), j)
  {
    assert (js + [j])[..|js|] == js;
  }

  /** Callers post, which leaves the jobs that ran alone; the strand's own thread takes the oldest job and
      runs it. */
  class Strand {
    var posted: seq<Job>
    /** The jobs taken so far. */
    ghost var ran: seq<Job>

    constructor ()
      ensures posted == [] && ran == []
    {
      posted, ran := [], [];
    }

    /** Every job ever posted. */
    ghost function Sent(): seq<Job>
      reads this
    {
      ran + posted
    }

    method OnEvent(d: Depth)
      modifies `posted
      ensures Sent() == old(Sent()) + [ProcessEvent(d)]
    {
      posted := posted + [ProcessEvent(d)];
    }

    method Clear()
      modifies `posted
      ensures Sent() == old(Sent()) + [ProcessClear]
    {
      posted := posted + [ProcessClear];
    }

    method Take() returns (job: Job)
      requires posted != []
      modifies this
      ensures job == old(posted)[0] && posted == old(posted)[1..] && ran == old(ran) + [job]
      ensures Sent() == old(Sent())
    {
      job := posted[0];
      posted, ran := posted[1..], ran + [job];
    }
  }

  method RunOn(inner: OrderBookInner, job: Job)
    requires inner.Valid()
    modifies inner.Footprint()
    ensures inner.Valid() && inner.Contents() == RunJob(old(inner.Contents()), job)
    ensures fresh(inner.Footprint() - old(inner.Footprint()))
  {
    match job
    case ProcessEvent(d) => inner.ProcessEvent(d);
    case ProcessClear => inner.Clear();
  }

  /** The running side: the strand's jobs on the mutable nodes. */
  class OrderBookEventListener {
    const strand: Strand
    const inner: OrderBookInner

    constructor ()
      ensures Valid() && strand.Sent() == [] && fresh(strand) && fresh(inner.Footprint())
    {
      strand := new Strand();
      inner := new OrderBookInner();
    }

    ghost predicate Valid()
      reads this, strand, inner, inner.bids, inner.asks, inner.Footprint()
    {
      inner.Valid() && inner.Contents() == RunJobs(EMPTY, strand.ran)
    }

    /** The strand runs its oldest job. */
    method RunOne()
      requires Valid() && strand.posted != []
      modifies strand, inner.Footprint()
      ensures Valid() && strand.posted == old(strand.posted)[1..] && strand.Sent() == old(strand.Sent())
      ensures inner.Contents() == RunJob(old(inner.Contents()), old(strand.posted)[0])
      ensures fresh(inner.Footprint() - old(inner.Footprint()))
    {
      RunJobsSnoc(EMPTY, strand.ran, strand.posted[0]);
      RunOn(inner, strand.posted[0]);
      var _ := strand.Take();
    }

    /** The strand runs until it has nothing left: the nodes then hold everything ever posted. */
    method RunAll()
      requires Valid()
      modifies strand, inner.Footprint()
      ensures Valid() && strand.posted == [] && strand.Sent() == old(strand.Sent())
      ensures inner.Contents() == RunJobs(EMPTY, strand.Sent())
      ensures fresh(inner.Footprint() - old(inner.Footprint()))
    {
      while strand.posted != []
        invariant Valid() && strand.Sent() == old(strand.Sent())
        invariant fresh(inner.Footprint() - old(inner.Footprint()))
        decreases |strand.posted|
      {
        RunOne();
      }
      assert strand.ran + [] == strand.ran;
    }
  }

  // ----- Turns -----

  /** A feed's strand and the book's strand work side by side, and either may have the next turn: an event is
      delivered to the feed, or the book's strand runs a job if it has one. */
  datatype Turn<E> = Deliver(event: E) | BookTurn

  function Delivered<E>(turns: seq<Turn<E>>): seq<E> {
    if turns == [] then []
    else
      var last := turns[|turns| - 1];
      Delivered(turns[..|turns| - 1]) + if last.Deliver? then [last.event] else []
  }
}
