/** Mutual information of two series from their histograms and joint histogram
    (aos/mutual_information/c_mutual_information_calculator.h and mutual_information_calculator.h).
    The logarithm is a parameter. */
module MutualInformation {
  import opened FiniteSums
  import opened Histograms

  type Log = real -> real

  function Term(log2: Log, pxy: real, px: real, py: real): real {
    if pxy > 0.0 && px > 0.0 && py > 0.0 then pxy * log2(pxy / (px * py)) else 0.0
  }

  function CellTerms<A(==, !new), B(==, !new)>(log2: Log, joint: map<(A, B), real>, hx: map<A, real>, hy: map<B, real>)
    : ((A, B)) -> real
  {
    (c: (A, B)) => Term(log2, At(joint, c), At(hx, c.0), At(hy, c.1))
  }

  /** The sum over the cells of the joint histogram; it does not depend on an order of the cells. */
  ghost function MI<A(!new), B(!new)>(log2: Log, joint: map<(A, B), real>, hx: map<A, real>, hy: map<B, real>): real {
    Sum(joint.Keys, CellTerms(log2, joint, hx, hy))
  }

  method SumInAnyOrder<K(==, !new)>(s: set<K>, f: K -> real) returns (total: real)
    ensures total == Sum(s, f)
  {
    total := 0.0;
    var todo := s;
    while todo != {}
      invariant todo <= s && total + Sum(todo, f) == Sum(s, f)
      decreases todo
    {
      var k :| k in todo;
      SumRemove(todo, f, k);
      total := total + f(k);
      todo := todo - {k};
    }
  }

  /** The loop over the joint histogram, in whatever order the hash map has. */
  method Accumulate(log2: Log, joint: map<(int, int), real>, hx: map<int, real>, hy: map<int, real>) returns (mi: real)
    ensures mi == MI(log2, joint, hx, hy)
  {
    mi := SumInAnyOrder(joint.Keys, CellTerms(log2, joint, hx, hy));
  }

  /** What the calculators take from the logarithm: K(1 - 1/t) is below it, as it is for log2 with
      K = 1/ln 2. */
  ghost predicate AboveInverse(log2: Log, k: real) {
    k > 0.0 && forall t: real :: t > 0.0 ==> log2(t) >= k * (1.0 - 1.0 / t)
  }

  lemma InverseShare(pxy: real, q: real)
    requires pxy > 0.0 && q > 0.0
    ensures pxy / q > 0.0 && pxy * (1.0 - 1.0 / (pxy / q)) == pxy - q
  {
    var t := pxy / q;
    assert t * q == pxy;
    assert t > 0.0;
    assert 1.0 / t == q / pxy by {
      assert (q / pxy) * t == 1.0;
    }
  }

  lemma ScaleBound(a: real, k: real, x: real, y: real, d: real)
    requires a > 0.0 && y >= k * x && a * x == d
    ensures a * y >= k * d
  {
    assert a * y >= a * (k * x);
    assert a * (k * x) == k * (a * x);
  }

  function LowerTerm(k: real, pxy: real, px: real, py: real): real {
    k * (pxy - px * py)
  }

  lemma TermBound(log2: Log, k: real, pxy: real, px: real, py: real)
    requires AboveInverse(log2, k) && pxy > 0.0 && px > 0.0 && py > 0.0
    ensures Term(log2, pxy, px, py) >= LowerTerm(k, pxy, px, py)
  {
    var q := px * py;
    InverseShare(pxy, q);
    var t := pxy / q;
    ScaleBound(pxy, k, 1.0 - 1.0 / t, log2(t), pxy - q);
  }

  lemma NonNegativeProduct(a: real, b: real)
    requires a >= 0.0 && b >= 0.0
    ensures a * b >= 0.0
  {
  }

  lemma GapIsNonNegative<K(!new)>(s: set<K>, c: real, f: K -> real, g: K -> real)
    requires c >= 0.0 && Sum(s, f) == 1.0 && Sum(s, g) <= 1.0
    ensures Sum(s, Difference(c, f, g)) >= 0.0
  {
    SumDifference(s, c, f, g);
    NonNegativeProduct(c, Sum(s, f) - Sum(s, g));
  }

  /** Every cell of the joint histogram passes the test for positive probabilities. */
  lemma EveryCellCounts<A(!new), B(!new)>(joint: map<(A, B), real>, hx: map<A, real>, hy: map<B, real>,
                                          xs: seq<A>, ys: seq<B>, c: (A, B))
    requires |xs| <= |ys| && c in joint
    requires IsHistogram(joint, Zip(xs, ys)) && IsHistogram(hx, xs) && IsHistogram(hy, ys)
    ensures c.0 in hx && c.1 in hy && joint[c] > 0.0 && hx[c.0] > 0.0 && hy[c.1] > 0.0
  {
    var i :| 0 <= i < |xs| && Zip(xs, ys)[i] == c;
    assert xs[i] == c.0 && ys[i] == c.1;
    EntriesArePositive(joint, Zip(xs, ys));
    EntriesArePositive(hx, xs);
    EntriesArePositive(hy, ys);
  }

  ghost function LowerTerms<A(!new), B(!new)>(k: real, joint: map<(A, B), real>, hx: map<A, real>, hy: map<B, real>)
    : ((A, B)) -> real
  {
    Difference(k, Reads(joint), Products(Reads(hx), Reads(hy)))
  }

  lemma LowerTermsAt<A(!new), B(!new)>(k: real, joint: map<(A, B), real>, hx: map<A, real>, hy: map<B, real>, c: (A, B))
    ensures LowerTerms(k, joint, hx, hy)(c) == LowerTerm(k, At(joint, c), At(hx, c.0), At(hy, c.1))
  {
  }

  lemma CellTermsAt<A(!new), B(!new)>(log2: Log, joint: map<(A, B), real>, hx: map<A, real>, hy: map<B, real>,
                                      c: (A, B))
    ensures CellTerms(log2, joint, hx, hy)(c) == Term(log2, At(joint, c), At(hx, c.0), At(hy, c.1))
  {
  }

  lemma CellBound<A(!new), B(!new)>(log2: Log, k: real, joint: map<(A, B), real>, hx: map<A, real>, hy: map<B, real>,
                                    xs: seq<A>, ys: seq<B>, c: (A, B))
    requires AboveInverse(log2, k) && |xs| <= |ys| && c in joint
    requires IsHistogram(joint, Zip(xs, ys)) && IsHistogram(hx, xs) && IsHistogram(hy, ys)
    ensures LowerTerms(k, joint, hx, hy)(c) <= CellTerms(log2, joint, hx, hy)(c)
  {
    EveryCellCounts(joint, hx, hy, xs, ys, c);
    hide Term, LowerTerm, LowerTerms, CellTerms, IsHistogram, AboveInverse;
    TermBound(log2, k, At(joint, c), At(hx, c.0), At(hy, c.1));
    LowerTermsAt(k, joint, hx, hy, c);
    CellTermsAt(log2, joint, hx, hy, c);
  }

  lemma LowerTotal<A(!new), B(!new)>(k: real, joint: map<(A, B), real>, hx: map<A, real>, hy: map<B, real>,
                                     xs: seq<A>, ys: seq<B>)
    requires k > 0.0 && |xs| <= |ys| && xs != []
    requires IsHistogram(joint, Zip(xs, ys)) && IsHistogram(hx, xs) && IsHistogram(hy, ys)
    ensures Sum(joint.Keys, LowerTerms(k, joint, hx, hy)) >= 0.0
  {
    forall c | c in joint.Keys
      ensures c.0 in hx && c.1 in hy
    {
      EveryCellCounts(joint, hx, hy, xs, ys, c);
    }
    HistogramSumsToOne(joint, Zip(xs, ys));
    HistogramSumsToOne(hx, xs);
    HistogramSumsToOne(hy, ys);
    EntriesArePositive(hx, xs);
    EntriesArePositive(hy, ys);
    ProductBound(joint.Keys, hx.Keys, hy.Keys, Reads(hx), Reads(hy));
    GapIsNonNegative(joint.Keys, k, Reads(joint), Products(Reads(hx), Reads(hy)));
  }

  /** Mutual information is never negative: for every pair of series of bins, the second of which may be
      longer than the first. */
  lemma NonNegative<A(!new), B(!new)>(log2: Log, k: real, joint: map<(A, B), real>, hx: map<A, real>, hy: map<B, real>,
                                      xs: seq<A>, ys: seq<B>)
    requires AboveInverse(log2, k) && |xs| <= |ys|
    requires IsHistogram(joint, Zip(xs, ys)) && IsHistogram(hx, xs) && IsHistogram(hy, ys)
    ensures MI(log2, joint, hx, hy) >= 0.0
  {
    if xs == [] {
      assert joint.Keys == {};
    } else {
      forall c | c in joint.Keys
        ensures LowerTerms(k, joint, hx, hy)(c) <= CellTerms(log2, joint, hx, hy)(c)
      {
        CellBound(log2, k, joint, hx, hy, xs, ys, c);
      }
      SumMonotone(joint.Keys, LowerTerms(k, joint, hx, hy), CellTerms(log2, joint, hx, hy));
      LowerTotal(k, joint, hx, hy, xs, ys);
    }
  }

  /** The mutual information of two series of bins. */
  ghost function BinsMI(log2: Log, xs: seq<int>, ys: seq<int>): real
    requires |xs| <= |ys|
  {
    MI(log2, HistogramOf(Zip(xs, ys)), HistogramOf(xs), HistogramOf(ys))
  }

  // ----- What the sum means -----

  /** A logarithm turns products into sums. */
  ghost predicate IsLog(log2: Log) {
    forall a: real, b: real :: a > 0.0 && b > 0.0 ==> ProductToSum(log2, a, b)
  }

  ghost predicate ProductToSum(log2: Log, a: real, b: real) {
    log2(a * b) == log2(a) + log2(b)
  }

  /** The share of a value in the series. */
  ghost function Share<K(!new)>(ks: seq<K>, k: K): real {
    At(HistogramOf(ks), k)
  }

  /** How unlikely a value of the series is. */
  ghost function Surprise<K(!new)>(log2: Log, ks: seq<K>): K -> real {
    k => -log2(Share(ks, k))
  }

  /** The surprises of some values of the series, added up. */
  ghost function Surprises<K(!new)>(log2: Log, ks: seq<K>, some: seq<K>): real {
    SeqSum(some, Surprise(log2, ks))
  }

  ghost function EntropyTerms<K(!new)>(log2: Log, ks: seq<K>): K -> real {
    k => -(Share(ks, k) * log2(Share(ks, k)))
  }

  /** The entropy of a series: the sum of -p log2(p) over its histogram. */
  ghost function Entropy<K(!new)>(log2: Log, ks: seq<K>): real {
    Sum(HistogramOf(ks).Keys, EntropyTerms(log2, ks))
  }

  function Average(total: real, n: nat): real
    requires n > 0
  {
    total / n as real
  }

  lemma ShareTimes(c: real, n: nat, v: real)
    requires n > 0
    ensures Times(Average(c, n), v) == Average(Times(c, v), n)
  {
    var q := Average(c, n);
    assert q * n as real == c;
    assert (q * v) * n as real == c * v;
  }

  lemma ShareIsAverage<K(!new)>(ks: seq<K>, k: K)
    requires ks != []
    ensures Share(ks, k) == Average(multiset(ks)[k] as real, |ks|)
  {
    ShareOfCount(HistogramOf(ks), ks, k);
  }

  lemma ShareWeighs<K(!new)>(ks: seq<K>, f: K -> real, k: K)
    requires ks != []
    ensures Times(Share(ks, k), f(k)) == Average(Weighted(ks, f)(k), |ks|)
  {
    assert Weighted(ks, f)(k) == Times(multiset(ks)[k] as real, f(k));
    hide Share, Average, Weighted, Times;
    ShareIsAverage(ks, k);
    ShareTimes(multiset(ks)[k] as real, |ks|, f(k));
  }

  ghost predicate WeightedByShares<K(!new)>(ks: seq<K>, f: K -> real, g: K -> real) {
    forall k :: k in ks ==> g(k) == Times(Share(ks, k), f(k))
  }

  /** A sum of values weighted by their shares is their average over the series. */
  lemma AverageOverSeries<K(!new)>(ks: seq<K>, f: K -> real, g: K -> real)
    requires ks != [] && WeightedByShares(ks, f, g)
    ensures Sum(HistogramOf(ks).Keys, g) == Average(SeqSum(ks, f), |ks|)
  {
    hide Share, Weighted, SeqSum, Sum, IsHistogram, At;
    var keys := HistogramOf(ks).Keys;
    forall k | k in keys
      ensures g(k) == Weighted(ks, f)(k) / |ks| as real
    {
      ShareWeighs(ks, f, k);
    }
    SharesTotal(keys, g, Weighted(ks, f), |ks|);
    WeightedTotal(keys, ks, f);
  }

  lemma EntropyIsAverage<K(!new)>(log2: Log, ks: seq<K>)
    requires ks != []
    ensures Entropy(log2, ks) == Average(Surprises(log2, ks, ks), |ks|)
  {
    hide Share, SeqSum, Sum, IsHistogram;
    AverageOverSeries(ks, Surprise(log2, ks), EntropyTerms(log2, ks));
  }

  lemma LogOfProduct(log2: Log, a: real, b: real, product: real)
    requires IsLog(log2) && a > 0.0 && b > 0.0 && product == a * b
    ensures log2(product) == log2(a) + log2(b)
  {
    assert ProductToSum(log2, a, b);
  }

  lemma LogOfShare(log2: Log, pxy: real, px: real, py: real)
    requires IsLog(log2) && pxy > 0.0 && px > 0.0 && py > 0.0
    ensures px * py > 0.0 && log2(pxy / (px * py)) == log2(pxy) - log2(px) - log2(py)
  {
    var q := px * py;
    InverseShare(pxy, q);
    var t := pxy / q;
    LogOfProduct(log2, px, py, q);
    LogOfProduct(log2, t, q, pxy);
  }

  lemma TermIsWeighted(log2: Log, pxy: real, px: real, py: real, told: real)
    requires IsLog(log2) && pxy > 0.0 && px > 0.0 && py > 0.0
    requires told == log2(pxy) - log2(px) - log2(py)
    ensures Term(log2, pxy, px, py) == Times(pxy, told)
  {
    LogOfShare(log2, pxy, px, py);
    assert log2(pxy / (px * py)) == told;
  }

  /** What a pair of values tells: how much more likely it is than if the two were independent. */
  ghost function Told<A(!new), B(!new)>(log2: Log, xs: seq<A>, ys: seq<B>): ((A, B)) -> real
    requires |xs| <= |ys|
  {
    (c: (A, B)) => Surprise(log2, xs)(c.0) + Surprise(log2, ys)(c.1) - Surprise(log2, Zip(xs, ys))(c)
  }

  lemma ToldAt<A(!new), B(!new)>(log2: Log, xs: seq<A>, ys: seq<B>, c: (A, B))
    requires |xs| <= |ys|
    ensures Told(log2, xs, ys)(c) == log2(Share(Zip(xs, ys), c)) - log2(Share(xs, c.0)) - log2(Share(ys, c.1))
  {
    hide IsHistogram;
    assert Surprise(log2, xs)(c.0) == -log2(Share(xs, c.0)) && Surprise(log2, ys)(c.1) == -log2(Share(ys, c.1));
    assert Surprise(log2, Zip(xs, ys))(c) == -log2(Share(Zip(xs, ys), c));
  }

  lemma SharesArePositive<A(!new), B(!new)>(xs: seq<A>, ys: seq<B>, c: (A, B))
    requires |xs| <= |ys| && c in Zip(xs, ys)
    ensures Share(Zip(xs, ys), c) > 0.0 && Share(xs, c.0) > 0.0 && Share(ys, c.1) > 0.0
  {
    EveryCellCounts(HistogramOf(Zip(xs, ys)), HistogramOf(xs), HistogramOf(ys), xs, ys, c);
  }

  lemma CellTermOfShares<A(!new), B(!new)>(log2: Log, xs: seq<A>, ys: seq<B>, c: (A, B))
    requires |xs| <= |ys|
    ensures CellTerms(log2, HistogramOf(Zip(xs, ys)), HistogramOf(xs), HistogramOf(ys))(c) ==
            Term(log2, Share(Zip(xs, ys), c), Share(xs, c.0), Share(ys, c.1))
  {
    hide IsHistogram, CellTerms, Term;
    CellTermsAt(log2, HistogramOf(Zip(xs, ys)), HistogramOf(xs), HistogramOf(ys), c);
  }

  lemma TermIsTold<A(!new), B(!new)>(log2: Log, xs: seq<A>, ys: seq<B>, c: (A, B))
    requires IsLog(log2) && |xs| <= |ys| && c in Zip(xs, ys)
    ensures CellTerms(log2, HistogramOf(Zip(xs, ys)), HistogramOf(xs), HistogramOf(ys))(c) ==
            Times(Share(Zip(xs, ys), c), Told(log2, xs, ys)(c))
  {
    hide CellTerms, Term, Told, Share, IsHistogram, IsLog;
    SharesArePositive(xs, ys, c);
    CellTermOfShares(log2, xs, ys, c);
    ToldAt(log2, xs, ys, c);
    TermIsWeighted(log2, Share(Zip(xs, ys), c), Share(xs, c.0), Share(ys, c.1), Told(log2, xs, ys)(c));
  }

  lemma {:induction false} ToldTotal<A(!new), B(!new)>(xs: seq<A>, ys: seq<B>, w: ((A, B)) -> real, f: A -> real,
                                                       g: B -> real, h: ((A, B)) -> real)
    requires |xs| <= |ys| && forall c :: w(c) == f(c.0) + g(c.1) - h(c)
    ensures SeqSum(Zip(xs, ys), w) == SeqSum(xs, f) + SeqSum(ys[..|xs|], g) - SeqSum(Zip(xs, ys), h)
    decreases |xs|
  {
    if xs == [] {
    } else {
      var n := |xs| - 1;
      ToldTotal(xs[..n], ys, w, f, g, h);
      assert Zip(xs, ys)[..n] == Zip(xs[..n], ys);
      assert ys[..n + 1][..n] == ys[..n];
    }
  }

  lemma ToldSplits<A(!new), B(!new)>(log2: Log, xs: seq<A>, ys: seq<B>)
    requires |xs| <= |ys|
    ensures forall c :: Told(log2, xs, ys)(c) ==
                        Surprise(log2, xs)(c.0) + Surprise(log2, ys)(c.1) - Surprise(log2, Zip(xs, ys))(c)
  {
    hide Surprise;
  }

  ghost function BinTerms(log2: Log, xs: seq<int>, ys: seq<int>): ((int, int)) -> real
    requires |xs| <= |ys|
  {
    CellTerms(log2, HistogramOf(Zip(xs, ys)), HistogramOf(xs), HistogramOf(ys))
  }

  /** What all pairs tell together. */
  ghost function ToldByAll(log2: Log, xs: seq<int>, ys: seq<int>): real
    requires |xs| <= |ys|
  {
    SeqSum(Zip(xs, ys), Told(log2, xs, ys))
  }

  lemma TermsAreTold(log2: Log, xs: seq<int>, ys: seq<int>)
    requires IsLog(log2) && |xs| <= |ys|
    ensures WeightedByShares(Zip(xs, ys), Told(log2, xs, ys), BinTerms(log2, xs, ys))
  {
    forall c | c in Zip(xs, ys)
      ensures BinTerms(log2, xs, ys)(c) == Times(Share(Zip(xs, ys), c), Told(log2, xs, ys)(c))
    {
      TermIsTold(log2, xs, ys, c);
    }
  }

  lemma MIIsSum(log2: Log, xs: seq<int>, ys: seq<int>)
    requires |xs| <= |ys|
    ensures BinsMI(log2, xs, ys) == Sum(HistogramOf(Zip(xs, ys)).Keys, BinTerms(log2, xs, ys))
  {
    hide Sum, CellTerms, IsHistogram;
  }

  lemma ToldByAllIsSum(log2: Log, xs: seq<int>, ys: seq<int>)
    requires |xs| <= |ys|
    ensures ToldByAll(log2, xs, ys) == SeqSum(Zip(xs, ys), Told(log2, xs, ys))
  {
    hide SeqSum, Told;
  }

  lemma AverageOfTerms(log2: Log, xs: seq<int>, ys: seq<int>)
    requires IsLog(log2) && xs != [] && |xs| <= |ys|
    ensures BinsMI(log2, xs, ys) == Average(ToldByAll(log2, xs, ys), |xs|)
  {
    hide *;
    MIIsSum(log2, xs, ys);
    TermsAreTold(log2, xs, ys);
    AverageOverSeries(Zip(xs, ys), Told(log2, xs, ys), BinTerms(log2, xs, ys));
    ToldByAllIsSum(log2, xs, ys);
  }

  lemma ToldByAllSplits(log2: Log, xs: seq<int>, ys: seq<int>)
    requires |xs| <= |ys|
    ensures ToldByAll(log2, xs, ys) ==
            Surprises(log2, xs, xs) + Surprises(log2, ys, ys[..|xs|]) - Surprises(log2, Zip(xs, ys), Zip(xs, ys))
  {
    ToldSplits(log2, xs, ys);
    hide Told, Surprise, SeqSum;
    ToldTotal(xs, ys, Told(log2, xs, ys), Surprise(log2, xs), Surprise(log2, ys), Surprise(log2, Zip(xs, ys)));
  }

  /** The mutual information is the average, over the data, of what a pair tells. */
  lemma AverageTold(log2: Log, xs: seq<int>, ys: seq<int>)
    requires IsLog(log2) && xs != [] && |xs| <= |ys|
    ensures BinsMI(log2, xs, ys) ==
            Average(Surprises(log2, xs, xs) + Surprises(log2, ys, ys[..|xs|])
                 - Surprises(log2, Zip(xs, ys), Zip(xs, ys)), |xs|)
  {
    hide *;
    AverageOfTerms(log2, xs, ys);
    ToldByAllSplits(log2, xs, ys);
  }

  lemma AverageOfThree(a: real, b: real, c: real, n: nat)
    requires n > 0
    ensures Average(a + b - c, n) == Average(a, n) + Average(b, n) - Average(c, n)
  {
    AddShares(a, b, n);
    AddShares(a + b - c, c, n);
  }

  lemma NoEntropy<K(!new)>(log2: Log, ks: seq<K>)
    requires ks == []
    ensures Entropy(log2, ks) == 0.0
  {
  }

  lemma NoInformation(log2: Log, xs: seq<int>, ys: seq<int>)
    requires xs == [] && |xs| <= |ys|
    ensures BinsMI(log2, xs, ys) == 0.0
  {
    assert Zip(xs, ys) == [];
  }

  /** Mutual information is H(X) + H(Y) - H(X, Y). */
  lemma IsEntropyGap(log2: Log, xs: seq<int>, ys: seq<int>)
    requires IsLog(log2) && |xs| == |ys|
    ensures BinsMI(log2, xs, ys) == Entropy(log2, xs) + Entropy(log2, ys) - Entropy(log2, Zip(xs, ys))
  {
    hide *;
    if xs == [] {
      NoInformation(log2, xs, ys);
      NoEntropy(log2, xs);
      NoEntropy(log2, ys);
      NoEntropy(log2, Zip(xs, ys));
    } else {
      AverageTold(log2, xs, ys);
      assert ys[..|xs|] == ys;
      EntropyIsAverage(log2, xs);
      EntropyIsAverage(log2, ys);
      EntropyIsAverage(log2, Zip(xs, ys));
      AverageOfThree(Surprises(log2, xs, xs), Surprises(log2, ys, ys), Surprises(log2, Zip(xs, ys), Zip(xs, ys)),
                     |xs|);
    }
  }

  /** ComputeMutualInformation over given ranges. */
  method ComputeMutualInformation(log2: Log, x: seq<real>, xMin: real, xMax: real, y: seq<real>, yMin: real, yMax: real,
                                  bins: int) returns (mi: real)
    requires |x| <= |y|
    ensures mi == BinsMI(log2, BinsOf(x, xMin, Width(xMin, xMax, bins)), BinsOf(y, yMin, Width(yMin, yMax, bins)))
    ensures forall k :: AboveInverse(log2, k) ==> mi >= 0.0
    ensures IsLog(log2) && |x| == |y| ==>
              var xs, ys := BinsOf(x, xMin, Width(xMin, xMax, bins)), BinsOf(y, yMin, Width(yMin, yMax, bins));
              mi == Entropy(log2, xs) + Entropy(log2, ys) - Entropy(log2, Zip(xs, ys))
  {
    var histX := ComputeHistogram(x, xMin, xMax, bins);
    var histY := ComputeHistogram(y, yMin, yMax, bins);
    var jointHist := ComputeJointHistogram(x, xMin, xMax, y, yMin, yMax, bins);
    mi := Accumulate(log2, jointHist, histX, histY);
    HistogramsGiveMI(log2, jointHist, histX, histY, BinsOf(x, xMin, Width(xMin, xMax, bins)),
                     BinsOf(y, yMin, Width(yMin, yMax, bins)));
    if IsLog(log2) && |x| == |y| {
      IsEntropyGap(log2, BinsOf(x, xMin, Width(xMin, xMax, bins)), BinsOf(y, yMin, Width(yMin, yMax, bins)));
    }
  }

  lemma HistogramsGiveMI(log2: Log, joint: map<(int, int), real>, hx: map<int, real>, hy: map<int, real>,
                         xs: seq<int>, ys: seq<int>)
    requires |xs| <= |ys|
    requires IsHistogram(joint, Zip(xs, ys)) && IsHistogram(hx, xs) && IsHistogram(hy, ys)
    ensures MI(log2, joint, hx, hy) == BinsMI(log2, xs, ys)
    ensures forall k :: AboveInverse(log2, k) ==> BinsMI(log2, xs, ys) >= 0.0
  {
    HistogramIsUnique(hx, xs);
    HistogramIsUnique(hy, ys);
    HistogramIsUnique(joint, Zip(xs, ys));
    forall k | AboveInverse(log2, k)
      ensures BinsMI(log2, xs, ys) >= 0.0
    {
      NonNegative(log2, k, joint, hx, hy, xs, ys);
    }
  }
}
