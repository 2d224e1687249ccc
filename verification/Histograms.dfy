/** Normalised histograms and joint histograms of two data series over given ranges
    (aos/histogram/histogram_calculator.h, aos/joint_histogram/joint_histogram_calculator.h). */
module Histograms {
  import opened FiniteSums

  /** Conversion of a double to int: towards zero. */
  function Trunc(r: real): int {
    if r >= 0.0 then r.Floor else -((-r).Floor)
  }

  /** The outcomes of a division of doubles. */
  datatype Double = Finite(value: real) | Infinite(positive: bool) | NotANumber

  function Divide(x: real, y: real): Double {
    if y != 0.0 then Finite(x / y)
    else if x == 0.0 then NotANumber
    else Infinite(x > 0.0)
  }

  // What a platform makes of a conversion to int that the language leaves open.  Nothing is known about
  // these, so whatever follows holds for all of them.
  const NAN_TO_INT: int
  const INFINITY_TO_INT: int
  const MINUS_INFINITY_TO_INT: int

  function ToInt(d: Double): int {
    match d
    case Finite(r) => Trunc(r)
    case Infinite(positive) => if positive then INFINITY_TO_INT else MINUS_INFINITY_TO_INT
    case NotANumber => NAN_TO_INT
  }

  /** Not finite for zero bins, and zero for a range without extent. */
  function Width(min: real, max: real, bins: int): Double {
    Divide(max - min, bins as real)
  }

  function BinOf(v: real, min: real, width: Double): int {
    match width
    case Finite(w) => ToInt(Divide(v - min, w))
    case Infinite(_) => 0
    case NotANumber => ToInt(NotANumber)
  }

  function BinsOf(data: seq<real>, min: real, width: Double): (bs: seq<int>)
    ensures |bs| == |data|
  {
    seq(|data|, i requires 0 <= i < |data| => BinOf(data[i], min, width))
  }

  function Zip<A, B>(xs: seq<A>, ys: seq<B>): (zs: seq<(A, B)>)
    requires |xs| <= |ys|
    ensures |zs| == |xs|
  {
    seq(|xs|, i requires 0 <= i < |xs| => (xs[i], ys[i]))
  }

  /** The map's operator[]: zero where there is no entry. */
  function At<K>(h: map<K, real>, k: K): real {
    if k in h then h[k] else 0.0
  }

  ghost predicate IsCount<K(!new)>(h: map<K, real>, ks: seq<K>) {
    && (forall k :: k in h <==> k in ks)
    && (forall k :: k in h ==> h[k] == multiset(ks)[k] as real)
  }

  /** Exactly the bins that occur, each with its share of the data. */
  ghost predicate IsHistogram<K(!new)>(h: map<K, real>, ks: seq<K>) {
    && (forall k :: k in h <==> k in ks)
    && (ks != [] ==> forall k :: k in h ==> h[k] == multiset(ks)[k] as real / |ks| as real)
  }

  ghost function HistogramOf<K(!new)>(ks: seq<K>): (h: map<K, real>)
    ensures IsHistogram(h, ks)
  {
    map k | k in ks :: multiset(ks)[k] as real / |ks| as real
  }

  lemma HistogramIsUnique<K(!new)>(h: map<K, real>, ks: seq<K>)
    requires IsHistogram(h, ks)
    ensures h == HistogramOf(ks)
  {
  }

  lemma CountOne<K(!new)>(h: map<K, real>, ks: seq<K>, i: nat)
    requires i < |ks| && IsCount(h, ks[..i])
    ensures IsCount(h[ks[i] := At(h, ks[i]) + 1.0], ks[..i + 1])
  {
    assert ks[..i + 1] == ks[..i] + [ks[i]];
    if ks[i] !in h {
      assert multiset(ks[..i])[ks[i]] == 0;
    }
  }

  /** The second loop: divide every entry, in any order, by the number of data points. */
  method Normalise<K(==, !new)>(counts: map<K, real>, n: nat) returns (h: map<K, real>)
    requires counts != map[] ==> n != 0
    ensures h.Keys == counts.Keys
    ensures n != 0 ==> forall k :: k in h ==> h[k] == counts[k] / n as real
  {
    h := counts;
    var todo := counts.Keys;
    while todo != {}
      invariant h.Keys == counts.Keys && todo <= counts.Keys
      invariant forall k :: k in todo ==> h[k] == counts[k]
      invariant n != 0 ==> forall k :: k in h && k !in todo ==> h[k] == counts[k] / n as real
      decreases todo
    {
      var k :| k in todo;
      h := h[k := h[k] / n as real];
      todo := todo - {k};
    }
  }

  // ----- Where the bins lie -----

  /** A value lies in bin b of width w from min on: at or above the bin's lower end and below its upper end.
      Truncation is towards zero, so below min it is the other way round and bin 0 reaches to both sides. */
  predicate InBin(v: real, min: real, w: real, b: int) {
    && (b > 0 ==> b as real * w <= v - min < (b + 1) as real * w)
    && (b == 0 ==> -w < v - min < w)
    && (b < 0 ==> (b - 1) as real * w < v - min <= b as real * w)
  }

  lemma TruncExactlyIf(r: real, b: int)
    ensures Trunc(r) == b <==>
            && (b > 0 ==> b as real <= r < (b + 1) as real)
            && (b == 0 ==> -1.0 < r < 1.0)
            && (b < 0 ==> (b - 1) as real < r <= b as real)
  {
  }

  lemma ProductGrows(x: real, y: real, w: real)
    requires x < y && w > 0.0
    ensures x * w < y * w
  {
    assert (y - x) * w > 0.0;
  }

  /** Dividing by the width or multiplying with it. */
  lemma QuotientOrder(d: real, w: real, x: real)
    requires w > 0.0
    ensures x <= d / w <==> x * w <= d
    ensures d / w <= x <==> d <= x * w
  {
    var q := d / w;
    assert q * w == d;
    if x < q {
      ProductGrows(x, q, w);
    } else if q < x {
      ProductGrows(q, x, w);
    }
  }

  /** The bin of a value is the interval it lies in. */
  lemma BinOfExactlyIf(v: real, min: real, w: real, b: int)
    requires w > 0.0
    ensures BinOf(v, min, Finite(w)) == b <==> InBin(v, min, w, b)
  {
    var d := v - min;
    TruncExactlyIf(d / w, b);
    hide Trunc;
    QuotientOrder(d, w, b as real);
    QuotientOrder(d, w, (b + 1) as real);
    QuotientOrder(d, w, (b - 1) as real);
  }

  /** At or above min, bin b is everything from b widths to b + 1 widths above it. */
  lemma BinFromMin(v: real, min: real, w: real, b: nat)
    requires w > 0.0 && v >= min
    ensures BinOf(v, min, Finite(w)) == b <==> b as real * w <= v - min < (b + 1) as real * w
  {
    BinOfExactlyIf(v, min, w, b);
    hide BinOf;
    if b == 0 {
      assert b as real * w == 0.0 && (b + 1) as real * w == w;
    }
  }

  lemma ShareInRange(d: real, width: real, n: nat)
    requires 0.0 <= d <= width * n as real && width > 0.0
    ensures 0.0 <= d / width <= n as real
    ensures d / width == n as real <==> d == width * n as real
  {
  }

  /** Values inside the range fall into the bins 0, ..., bins; the extra last bin holds exactly the
      values equal to the maximum. */
  lemma BinInRange(v: real, min: real, max: real, bins: int)
    requires bins >= 1 && min < max && min <= v <= max
    ensures 0 <= BinOf(v, min, Width(min, max, bins)) <= bins
    ensures BinOf(v, min, Width(min, max, bins)) == bins <==> v == max
  {
    var width := Width(min, max, bins).value;
    assert width * bins as real == max - min;
    ShareInRange(v - min, width, bins);
  }

  lemma WidthIs(min: real, max: real, bins: int)
    requires bins >= 1 && min < max
    ensures Width(min, max, bins) == Finite((max - min) / bins as real) && (max - min) / bins as real > 0.0
  {
    QuotientOrder(max - min, bins as real, 0.0);
  }

  // ----- Shares of intervals -----

  lemma ShareOfCount<K(!new)>(h: map<K, real>, ks: seq<K>, k: K)
    requires ks != [] && IsHistogram(h, ks)
    ensures At(h, k) == multiset(ks)[k] as real / |ks| as real
  {
    if k !in h {
      assert multiset(ks)[k] == 0;
    }
  }

  /** The places at which a key occurs. */
  function Places<K(==)>(ks: seq<K>, k: K): set<nat> {
    set i: nat | i < |ks| && ks[i] == k
  }

  lemma {:induction false} CountOfPlaces<K(!new)>(ks: seq<K>, k: K)
    ensures multiset(ks)[k] == |Places(ks, k)|
  {
    if ks == [] {
    } else {
      var n := |ks| - 1;
      assert ks == ks[..n] + [ks[n]];
      CountOfPlaces(ks[..n], k);
      assert Places(ks, k) == Places(ks[..n], k) + if ks[n] == k then {n} else {};
    }
  }

  /** The share of the data that lies in a bin of the range. */
  ghost function ShareIn(data: seq<real>, min: real, max: real, bins: int, b: int): real
    requires bins >= 1 && data != []
  {
    var w := (max - min) / bins as real;
    |set i: nat | i < |data| && InBin(data[i], min, w, b)| as real / |data| as real
  }

  /** The share of the pairs that lie in a cell of two ranges. */
  ghost function JointShareIn(x: seq<real>, xMin: real, xMax: real, y: seq<real>, yMin: real, yMax: real, bins: int,
                              a: int, b: int): real
    requires bins >= 1 && x != [] && |x| <= |y|
  {
    var wx, wy := (xMax - xMin) / bins as real, (yMax - yMin) / bins as real;
    |set i: nat | i < |x| && InBin(x[i], xMin, wx, a) && InBin(y[i], yMin, wy, b)| as real / |x| as real
  }

  /** An entry of the histogram is the share of the data in the bin's interval. */
  lemma EntryIsShare(h: map<int, real>, data: seq<real>, min: real, max: real, bins: int, b: int)
    requires bins >= 1 && min < max && data != []
    requires IsHistogram(h, BinsOf(data, min, Width(min, max, bins)))
    ensures At(h, b) == ShareIn(data, min, max, bins, b)
  {
    var w, ks := (max - min) / bins as real, BinsOf(data, min, Width(min, max, bins));
    WidthIs(min, max, bins);
    forall i: nat | i < |data|
      ensures ks[i] == b <==> InBin(data[i], min, w, b)
    {
      BinOfExactlyIf(data[i], min, w, b);
    }
    ShareOfCount(h, ks, b);
    CountOfPlaces(ks, b);
    hide InBin, BinOf;
    assert Places(ks, b) == set i: nat | i < |data| && InBin(data[i], min, w, b);
  }

  lemma CellOfPair(x: real, xMin: real, wx: real, y: real, yMin: real, wy: real, a: int, b: int)
    requires wx > 0.0 && wy > 0.0
    ensures (BinOf(x, xMin, Finite(wx)), BinOf(y, yMin, Finite(wy))) == (a, b) <==>
            InBin(x, xMin, wx, a) && InBin(y, yMin, wy, b)
  {
    BinOfExactlyIf(x, xMin, wx, a);
    BinOfExactlyIf(y, yMin, wy, b);
  }

  /** And of the joint histogram: the share of the pairs in the cell. */
  lemma JointEntryIsShare(h: map<(int, int), real>, x: seq<real>, xMin: real, xMax: real,
                          y: seq<real>, yMin: real, yMax: real, bins: int, a: int, b: int)
    requires bins >= 1 && xMin < xMax && yMin < yMax && x != [] && |x| <= |y|
    requires IsHistogram(h, Zip(BinsOf(x, xMin, Width(xMin, xMax, bins)), BinsOf(y, yMin, Width(yMin, yMax, bins))))
    ensures At(h, (a, b)) == JointShareIn(x, xMin, xMax, y, yMin, yMax, bins, a, b)
  {
    var wx, wy := (xMax - xMin) / bins as real, (yMax - yMin) / bins as real;
    var ks := Zip(BinsOf(x, xMin, Width(xMin, xMax, bins)), BinsOf(y, yMin, Width(yMin, yMax, bins)));
    WidthIs(xMin, xMax, bins);
    WidthIs(yMin, yMax, bins);
    forall i: nat | i < |x|
      ensures ks[i] == (a, b) <==> InBin(x[i], xMin, wx, a) && InBin(y[i], yMin, wy, b)
    {
      CellOfPair(x[i], xMin, wx, y[i], yMin, wy, a, b);
    }
    ShareOfCount(h, ks, (a, b));
    CountOfPlaces(ks, (a, b));
    hide InBin, BinOf;
    assert Places(ks, (a, b)) == set i: nat | i < |x| && InBin(x[i], xMin, wx, a) && InBin(y[i], yMin, wy, b);
  }

  lemma EntriesAreShares(h: map<int, real>, data: seq<real>, min: real, max: real, bins: int)
    requires IsHistogram(h, BinsOf(data, min, Width(min, max, bins)))
    ensures bins >= 1 && min < max && data != [] ==> forall b :: At(h, b) == ShareIn(data, min, max, bins, b)
  {
    hide BinsOf, ShareIn, At, IsHistogram;
    if bins >= 1 && min < max && data != [] {
      forall b
        ensures At(h, b) == ShareIn(data, min, max, bins, b)
      {
        EntryIsShare(h, data, min, max, bins, b);
      }
    }
  }

  lemma JointEntriesAreShares(h: map<(int, int), real>, x: seq<real>, xMin: real, xMax: real,
                              y: seq<real>, yMin: real, yMax: real, bins: int)
    requires |x| <= |y|
    requires IsHistogram(h, Zip(BinsOf(x, xMin, Width(xMin, xMax, bins)), BinsOf(y, yMin, Width(yMin, yMax, bins))))
    ensures bins >= 1 && xMin < xMax && yMin < yMax && x != [] ==>
              forall a, b :: At(h, (a, b)) == JointShareIn(x, xMin, xMax, y, yMin, yMax, bins, a, b)
  {
    hide BinsOf, JointShareIn, At, Zip, IsHistogram;
    if bins >= 1 && xMin < xMax && yMin < yMax && x != [] {
      forall a, b
        ensures At(h, (a, b)) == JointShareIn(x, xMin, xMax, y, yMin, yMax, bins, a, b)
      {
        JointEntryIsShare(h, x, xMin, xMax, y, yMin, yMax, bins, a, b);
      }
    }
  }

  lemma NormalisedCount<K(!new)>(counts: map<K, real>, h: map<K, real>, ks: seq<K>)
    requires IsCount(counts, ks) && h.Keys == counts.Keys
    requires ks != [] ==> forall k :: k in h ==> h[k] == counts[k] / |ks| as real
    ensures IsHistogram(h, ks)
  {
  }

  lemma CountedNothing<K(!new)>(counts: map<K, real>, ks: seq<K>)
    requires IsCount(counts, ks)
    ensures counts != map[] ==> ks != []
  {
    if k :| k in counts {
      assert k in ks;
    }
  }

  // ----- The calculators -----

  method ComputeHistogram(data: seq<real>, min: real, max: real, bins: int) returns (h: map<int, real>)
    ensures IsHistogram(h, BinsOf(data, min, Width(min, max, bins)))
    ensures bins >= 1 && min < max && data != [] ==> forall b :: At(h, b) == ShareIn(data, min, max, bins, b)
  {
    var width := Width(min, max, bins);
    ghost var ks := BinsOf(data, min, width);
    h := map[];
    for i := 0 to |data|
      invariant IsCount(h, ks[..i])
    {
      var b := BinOf(data[i], min, width);
      CountOne(h, ks, i);
      h := h[b := At(h, b) + 1.0];
    }
    assert ks[..|data|] == ks;
    hide IsCount, IsHistogram, ShareIn;
    ghost var counts := h;
    CountedNothing(counts, ks);
    h := Normalise(h, |data|);
    NormalisedCount(counts, h, ks);
    EntriesAreShares(h, data, min, max, bins);
  }

  method ComputeJointHistogram(x: seq<real>, xMin: real, xMax: real, y: seq<real>, yMin: real, yMax: real, bins: int)
    returns (h: map<(int, int), real>)
    requires |x| <= |y|
    ensures IsHistogram(h, Zip(BinsOf(x, xMin, Width(xMin, xMax, bins)), BinsOf(y, yMin, Width(yMin, yMax, bins))))
    ensures bins >= 1 && xMin < xMax && yMin < yMax && x != [] ==>
              forall a, b :: At(h, (a, b)) == JointShareIn(x, xMin, xMax, y, yMin, yMax, bins, a, b)
  {
    var widthX, widthY := Width(xMin, xMax, bins), Width(yMin, yMax, bins);
    ghost var ks := Zip(BinsOf(x, xMin, widthX), BinsOf(y, yMin, widthY));
    h := map[];
    for i := 0 to |x|
      invariant IsCount(h, ks[..i])
    {
      var b := (BinOf(x[i], xMin, widthX), BinOf(y[i], yMin, widthY));
      CountOne(h, ks, i);
      h := h[b := At(h, b) + 1.0];
    }
    assert ks[..|x|] == ks;
    hide IsCount, IsHistogram, JointShareIn;
    ghost var counts := h;
    CountedNothing(counts, ks);
    h := Normalise(h, |x|);
    NormalisedCount(counts, h, ks);
    JointEntriesAreShares(h, x, xMin, xMax, y, yMin, yMax, bins);
  }

  // ----- Totals and marginals -----

  ghost function Counts<K(!new)>(ks: seq<K>): K -> real {
    k => multiset(ks)[k] as real
  }

  ghost function Reads<K(!new)>(h: map<K, real>): K -> real {
    k => At(h, k)
  }

  lemma {:induction false} CountsTotal<K(!new)>(ks: seq<K>, s: set<K>)
    requires forall k :: k in ks ==> k in s
    ensures Sum(s, Counts(ks)) == |ks| as real
  {
    if ks == [] {
      AllZero(s, Counts(ks));
    } else {
      var init, k := ks[..|ks| - 1], ks[|ks| - 1];
      assert ks == init + [k];
      CountsTotal(init, s);
      SumRaise(s, Counts(init), Counts(ks), k, 1.0);
    }
  }

  lemma {:induction false} AllZero<K(!new)>(s: set<K>, f: K -> real)
    requires forall k :: k in s ==> f(k) == 0.0
    ensures Sum(s, f) == 0.0
    decreases s
  {
    if s == {} {
    } else {
      var k :| k in s;
      SumRemove(s, f, k);
      AllZero(s - {k}, f);
    }
  }

  /** Shares add up to the share of the total. */
  lemma {:induction false} SharesTotal<K(!new)>(s: set<K>, f: K -> real, g: K -> real, n: nat)
    requires n > 0 && forall k :: k in s ==> f(k) == g(k) / n as real
    ensures Sum(s, f) == Sum(s, g) / n as real
    decreases s
  {
    if s == {} {
    } else {
      var k :| k in s;
      SumRemove(s, f, k);
      SumRemove(s, g, k);
      SharesTotal(s - {k}, f, g, n);
      AddShares(g(k), Sum(s - {k}, g), n);
    }
  }

  lemma AddShares(a: real, b: real, n: nat)
    requires n > 0
    ensures a / n as real + b / n as real == (a + b) / n as real
  {
  }

  lemma WholeShare(n: nat)
    requires n > 0
    ensures n as real / n as real == 1.0
  {
  }

  /** A histogram is a probability distribution. */
  lemma HistogramSumsToOne<K(!new)>(h: map<K, real>, ks: seq<K>)
    requires ks != [] && IsHistogram(h, ks)
    ensures Sum(h.Keys, Reads(h)) == 1.0
  {
    CountsTotal(ks, h.Keys);
    SharesTotal(h.Keys, Reads(h), Counts(ks), |ks|);
    WholeShare(|ks|);
  }

  lemma EntriesArePositive<K(!new)>(h: map<K, real>, ks: seq<K>)
    requires IsHistogram(h, ks)
    ensures forall k :: k in h ==> 0.0 < h[k]
  {
    forall k | k in h
      ensures 0.0 < h[k]
    {
      assert multiset(ks)[k] > 0;
    }
  }

  /** The counts of one row of a joint series. */
  ghost function RowCounts<A(!new), B(!new)>(zs: seq<(A, B)>, x: A): B -> real {
    y => multiset(zs)[(x, y)] as real
  }

  ghost function RowReads<A(!new), B(!new)>(h: map<(A, B), real>, x: A): B -> real {
    y => At(h, (x, y))
  }

  ghost function ColumnReads<A(!new), B(!new)>(h: map<(A, B), real>, y: B): A -> real {
    x => At(h, (x, y))
  }

  lemma {:induction false} RowCountsTotal<A(!new), B(!new)>(xs: seq<A>, ys: seq<B>, x: A, s: set<B>)
    requires |xs| == |ys| && forall y :: y in ys ==> y in s
    ensures Sum(s, RowCounts(Zip(xs, ys), x)) == multiset(xs)[x] as real
    decreases |xs|
  {
    if xs == [] {
      AllZero(s, RowCounts(Zip(xs, ys), x));
    } else {
      var n := |xs| - 1;
      assert xs == xs[..n] + [xs[n]] && ys == ys[..n] + [ys[n]];
      assert Zip(xs, ys) == Zip(xs[..n], ys[..n]) + [(xs[n], ys[n])];
      RowCountsTotal(xs[..n], ys[..n], x, s);
      var before, after := RowCounts(Zip(xs[..n], ys[..n]), x), RowCounts(Zip(xs, ys), x);
      if xs[n] == x {
        SumRaise(s, before, after, ys[n], 1.0);
      } else {
        SumCongruence(s, before, after);
      }
    }
  }

  lemma {:induction false} ZipCount<A(!new), B(!new)>(xs: seq<A>, ys: seq<B>, x: A, y: B)
    requires |xs| == |ys|
    ensures multiset(Zip(xs, ys))[(x, y)] == multiset(Zip(ys, xs))[(y, x)]
    decreases |xs|
  {
    if xs == [] {
    } else {
      var n := |xs| - 1;
      ZipCount(xs[..n], ys[..n], x, y);
      assert Zip(xs, ys) == Zip(xs[..n], ys[..n]) + [(xs[n], ys[n])];
      assert Zip(ys, xs) == Zip(ys[..n], xs[..n]) + [(ys[n], xs[n])];
    }
  }

  /** The rows of the joint histogram add up to the marginal histogram of x. */
  lemma RowsAreTheMarginal<A(!new), B(!new)>(joint: map<(A, B), real>, hx: map<A, real>, hy: map<B, real>,
                                             xs: seq<A>, ys: seq<B>, x: A)
    requires xs != [] && |xs| == |ys|
    requires IsHistogram(joint, Zip(xs, ys)) && IsHistogram(hx, xs) && IsHistogram(hy, ys)
    ensures Sum(hy.Keys, RowReads(joint, x)) == At(hx, x)
  {
    forall y
      ensures RowReads(joint, x)(y) == RowCounts(Zip(xs, ys), x)(y) / |xs| as real
    {
      ShareOfCount(joint, Zip(xs, ys), (x, y));
    }
    RowCountsTotal(xs, ys, x, hy.Keys);
    SharesTotal(hy.Keys, RowReads(joint, x), RowCounts(Zip(xs, ys), x), |xs|);
    ShareOfCount(hx, xs, x);
  }

  /** And its columns add up to the marginal histogram of y. */
  lemma ColumnsAreTheMarginal<A(!new), B(!new)>(joint: map<(A, B), real>, hx: map<A, real>, hy: map<B, real>,
                                                xs: seq<A>, ys: seq<B>, y: B)
    requires xs != [] && |xs| == |ys|
    requires IsHistogram(joint, Zip(xs, ys)) && IsHistogram(hx, xs) && IsHistogram(hy, ys)
    ensures Sum(hx.Keys, ColumnReads(joint, y)) == At(hy, y)
  {
    forall x
      ensures ColumnReads(joint, y)(x) == RowCounts(Zip(ys, xs), y)(x) / |xs| as real
    {
      ShareOfCount(joint, Zip(xs, ys), (x, y));
      ZipCount(xs, ys, x, y);
    }
    RowCountsTotal(ys, xs, y, hx.Keys);
    SharesTotal(hx.Keys, ColumnReads(joint, y), RowCounts(Zip(ys, xs), y), |xs|);
    ShareOfCount(hy, ys, y);
  }
}
