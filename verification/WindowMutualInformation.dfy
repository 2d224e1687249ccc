/** The overload that takes two assets of a sliding window: the window's guards protect the histograms
    (aos/mutual_information/c_mutual_information_calculator.h:76-105). */
module WindowMutualInformation {
  import opened Trackers
  import opened SlidingWindow
  import opened Histograms
  import opened MutualInformation

  function Low(w: seq<real>): real
    requires w != []
  {
    if |w| == 1 then w[0]
    else
      var rest := Low(w[..|w| - 1]);
      if w[|w| - 1] < rest then w[|w| - 1] else rest
  }

  function High(w: seq<real>): real
    requires w != []
  {
    if |w| == 1 then w[0]
    else
      var rest := High(w[..|w| - 1]);
      if w[|w| - 1] > rest then w[|w| - 1] else rest
  }

  lemma {:induction false} LowIsLeast(w: seq<real>)
    requires w != []
    ensures Low(w) in w && forall v :: v in w ==> Low(w) <= v
  {
    if |w| == 1 {
    } else {
      LowIsLeast(w[..|w| - 1]);
      assert w == w[..|w| - 1] + [w[|w| - 1]];
    }
  }

  lemma {:induction false} HighIsGreatest(w: seq<real>)
    requires w != []
    ensures High(w) in w && forall v :: v in w ==> v <= High(w)
  {
    if |w| == 1 {
    } else {
      HighIsGreatest(w[..|w| - 1]);
      assert w == w[..|w| - 1] + [w[|w| - 1]];
    }
  }

  /** The values are not all the same. */
  predicate Spread(w: seq<real>) {
    w != [] && Low(w) < High(w)
  }

  ghost function WindowBins(w: seq<real>, bins: int): (bs: seq<int>)
    requires w != []
    ensures |bs| == |w|
  {
    BinsOf(w, Low(w), Width(Low(w), High(w), bins))
  }

  /** The mutual information of two windows, each binned over its own range. */
  ghost function WindowMI(log2: Log, x: seq<real>, y: seq<real>, bins: int): real
    requires x != [] && |x| == |y|
  {
    BinsMI(log2, WindowBins(x, bins), WindowBins(y, bins))
  }

  /** All bins of a window lie in 0, ..., bins. */
  lemma WindowBinsInRange(w: seq<real>, bins: int)
    requires bins >= 1 && Spread(w)
    ensures forall b :: b in WindowBins(w, bins) ==> 0 <= b <= bins
  {
    LowIsLeast(w);
    HighIsGreatest(w);
    forall i | 0 <= i < |w|
      ensures 0 <= WindowBins(w, bins)[i] <= bins
    {
      assert w[i] in w;
      BinInRange(w[i], Low(w), High(w), bins);
    }
  }

  /** A value of a spread window goes into the bin that it lies in, between the window's own extremes. */
  lemma WindowBinExactlyIf(w: seq<real>, bins: int, i: nat, b: int)
    requires bins >= 1 && Spread(w) && i < |w|
    ensures WindowBins(w, bins)[i] == b <==> InBin(w[i], Low(w), (High(w) - Low(w)) / bins as real, b)
  {
    WidthIs(Low(w), High(w), bins);
    BinOfExactlyIf(w[i], Low(w), (High(w) - Low(w)) / bins as real, b);
  }

  predicate Constant(xs: seq<int>, b: int) {
    forall i :: 0 <= i < |xs| ==> xs[i] == b
  }

  /** A flat window falls into one bin, whatever its division by zero is converted to. */
  lemma FlatBins(w: seq<real>, bins: int)
    requires w != [] && !Spread(w)
    ensures Constant(WindowBins(w, bins), WindowBins(w, bins)[0])
  {
    LowIsLeast(w);
    HighIsGreatest(w);
    forall i | 0 <= i < |w|
      ensures WindowBins(w, bins)[i] == WindowBins(w, bins)[0]
    {
      assert w[i] in w && w[0] in w;
    }
  }

  lemma {:induction false} PairsOfOne(xs: seq<int>, ys: seq<int>, b: int, y: int)
    requires |xs| == |ys| && Constant(xs, b)
    ensures multiset(Zip(xs, ys))[(b, y)] == multiset(ys)[y]
    decreases |xs|
  {
    if xs == [] {
      assert Zip(xs, ys) == [] && ys == [];
    } else {
      var n := |xs| - 1;
      PairsOfOne(xs[..n], ys[..n], b, y);
      assert ys == ys[..n] + [ys[n]];
      assert Zip(xs, ys) == Zip(xs[..n], ys[..n]) + [(xs[n], ys[n])];
    }
  }

  lemma {:induction false} CountOfOne(xs: seq<int>, b: int)
    requires Constant(xs, b)
    ensures multiset(xs)[b] == |xs|
  {
    if xs == [] {
    } else {
      var n := |xs| - 1;
      CountOfOne(xs[..n], b);
      assert xs == xs[..n] + [xs[n]];
    }
  }

  lemma FlatTerm(log2: Log, p: real)
    requires log2(1.0) == 0.0
    ensures Term(log2, p, 1.0, p) == 0.0
  {
    if p > 0.0 {
      assert 1.0 * p == p && p / p == 1.0;
    }
  }

  lemma FlatCell(log2: Log, xs: seq<int>, ys: seq<int>, b: int, y: int)
    requires log2(1.0) == 0.0 && |xs| == |ys| && xs != [] && Constant(xs, b)
    ensures CellTerms(log2, HistogramOf(Zip(xs, ys)), HistogramOf(xs), HistogramOf(ys))((b, y)) == 0.0
  {
    PairsOfOne(xs, ys, b, y);
    CountOfOne(xs, b);
    ShareOfCount(HistogramOf(Zip(xs, ys)), Zip(xs, ys), (b, y));
    ShareOfCount(HistogramOf(xs), xs, b);
    ShareOfCount(HistogramOf(ys), ys, y);
    WholeShare(|xs|);
    FlatTerm(log2, At(HistogramOf(ys), y));
  }

  lemma FlatCellOfSecond(log2: Log, xs: seq<int>, ys: seq<int>, x: int, b: int)
    requires log2(1.0) == 0.0 && |xs| == |ys| && xs != [] && Constant(ys, b)
    ensures CellTerms(log2, HistogramOf(Zip(xs, ys)), HistogramOf(xs), HistogramOf(ys))((x, b)) == 0.0
  {
    PairsOfOne(ys, xs, b, x);
    ZipCount(xs, ys, x, b);
    CountOfOne(ys, b);
    ShareOfCount(HistogramOf(Zip(xs, ys)), Zip(xs, ys), (x, b));
    ShareOfCount(HistogramOf(xs), xs, x);
    ShareOfCount(HistogramOf(ys), ys, b);
    WholeShare(|xs|);
    FlatTerm(log2, At(HistogramOf(xs), x));
  }

  lemma NoCellNoInformation(log2: Log, xs: seq<int>, ys: seq<int>)
    requires |xs| == |ys|
    requires forall c :: c in Zip(xs, ys) ==>
               CellTerms(log2, HistogramOf(Zip(xs, ys)), HistogramOf(xs), HistogramOf(ys))(c) == 0.0
    ensures BinsMI(log2, xs, ys) == 0.0
  {
    AllZero(HistogramOf(Zip(xs, ys)).Keys, CellTerms(log2, HistogramOf(Zip(xs, ys)), HistogramOf(xs), HistogramOf(ys)));
  }

  /** Two windows of which one is flat have no information about each other, so neither is signalled for the
      other above a threshold that is not negative. */
  lemma FlatWindowsShareNothing(log2: Log, x: seq<real>, y: seq<real>, bins: int)
    requires x != [] && |x| == |y| && (!Spread(x) || !Spread(y)) && log2(1.0) == 0.0
    ensures WindowMI(log2, x, y, bins) == 0.0
  {
    var xs, ys := WindowBins(x, bins), WindowBins(y, bins);
    forall c | c in Zip(xs, ys)
      ensures CellTerms(log2, HistogramOf(Zip(xs, ys)), HistogramOf(xs), HistogramOf(ys))(c) == 0.0
    {
      var i :| 0 <= i < |xs| && Zip(xs, ys)[i] == c;
      if !Spread(x) {
        FlatBins(x, bins);
        FlatCell(log2, xs, ys, xs[0], c.1);
        assert c.0 == xs[0];
      } else {
        FlatBins(y, bins);
        FlatCellOfSecond(log2, xs, ys, c.0, ys[0]);
        assert c.1 == ys[0];
      }
    }
    NoCellNoInformation(log2, xs, ys);
  }

  /** For any windows and any number of bins. */
  method ComputeMutualInformation(log2: Log, storage: SlidingWindowStorage, asset: HashT, paired: HashT, bins: int)
    returns (status: bool, mi: real)
    requires storage.Valid()
    ensures status <==> storage.windowSize >= 1 &&
                        |storage.Window(asset)| == storage.windowSize && |storage.Window(paired)| == storage.windowSize
    ensures status ==> mi == WindowMI(log2, storage.Window(asset), storage.Window(paired), bins)
    ensures status ==> forall k :: AboveInverse(log2, k) ==> mi >= 0.0
    ensures status && IsLog(log2) ==>
              var xs, ys := WindowBins(storage.Window(asset), bins), WindowBins(storage.Window(paired), bins);
              mi == Entropy(log2, xs) + Entropy(log2, ys) - Entropy(log2, Zip(xs, ys))
  {
    mi := 0.0;
    var enoughX := storage.HasEnoughData(asset);
    var enoughY := storage.HasEnoughData(paired);
    if !enoughX || !enoughY {
      return false, 0.0;
    }
    var x, y := storage.data[asset], storage.data[paired];
    var minStatusX, minX := storage.GetMin(asset);
    var maxStatusX, maxX := storage.GetMax(asset);
    var minStatusY, minY := storage.GetMin(paired);
    var maxStatusY, maxY := storage.GetMax(paired);
    if !minStatusX || !maxStatusX || !minStatusY || !maxStatusY {
      return false, 0.0;
    }
    ExtremaAreLowHigh(x, minX, maxX);
    ExtremaAreLowHigh(y, minY, maxY);
    status := true;
    mi := MutualInformation.ComputeMutualInformation(log2, x, minX, maxX, y, minY, maxY, bins);
  }

  lemma ExtremaAreLowHigh(w: seq<real>, low: real, high: real)
    requires w != [] && low in w && high in w
    requires forall v :: v in w ==> low <= v <= high
    ensures low == Low(w) && high == High(w)
  {
    LowIsLeast(w);
    HighIsGreatest(w);
  }
}
