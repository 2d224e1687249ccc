/** The sliding window per asset, kept in step with its trackers
    (aos/sliding_window_storage/sliding_window_storage.h). */
module SlidingWindow {
  import opened Trackers

  function Last<T>(s: seq<T>, n: nat): seq<T> {
    if |s| <= n then s else s[|s| - n..]
  }

  /** Counted from the end, the last values are those of the whole, as many as fit. */
  lemma LastCountsFromTheEnd<T>(s: seq<T>, n: nat, k: nat)
    ensures |Last(s, n)| == n || (|Last(s, n)| == |s| && |s| < n)
    ensures 1 <= k <= |Last(s, n)| ==> k <= |s| && Last(s, n)[|Last(s, n)| - k] == s[|s| - k]
  {
  }

  function In(m: map<HashT, seq<real>>, a: HashT): seq<real> {
    if a in m then m[a] else []
  }

  function SumIn(sums: map<HashT, real>, a: HashT): real {
    if a in sums then sums[a] else 0.0
  }

  function CountIn(counts: map<HashT, nat>, a: HashT): nat {
    if a in counts then counts[a] else 0
  }

  /** The windows are the last values added. */
  ghost predicate Windows(size: nat, added: map<HashT, seq<real>>, data: map<HashT, seq<real>>) {
    forall a :: WindowIsLast(size, added, data, a)
  }

  ghost predicate WindowIsLast(size: nat, added: map<HashT, seq<real>>, data: map<HashT, seq<real>>, a: HashT) {
    (a in data <==> a in added) && In(data, a) == Last(In(added, a), size)
  }

  /** What the trackers hold. */
  datatype Tracked = Tracked(mins: map<HashT, multiset<real>>, maxs: map<HashT, multiset<real>>,
                             sums: map<HashT, real>, counts: map<HashT, nat>)

  /** For one asset, every tracker is in step with the window. */
  ghost predicate InStep(w: seq<real>, t: Tracked, a: HashT) {
    && BagIn(t.mins, a) == BagIn(t.maxs, a) == multiset(w)
    && SumIn(t.sums, a) == Total(w)
    && CountIn(t.counts, a) == |w|
    && (a in t.counts ==> a in t.sums)
  }

  ghost predicate AllInStep(data: map<HashT, seq<real>>, t: Tracked) {
    forall a :: InStep(In(data, a), t, a)
  }

  function Retracked(t: Tracked, a: HashT, bag: multiset<real>, total: real, count: nat): Tracked {
    Tracked(t.mins[a := bag], t.maxs[a := bag], t.sums[a := total], t.counts[a := count])
  }

  lemma PopFront(w: seq<real>)
    requires w != []
    ensures multiset(w[1..]) == multiset(w) - multiset{w[0]} && w[0] in multiset(w)
    ensures Total(w[1..]) == Total(w) - w[0]
  {
    assert w == [w[0]] + w[1..];
    TotalTail(w);
  }

  lemma PushBack(w: seq<real>, v: real)
    ensures multiset(w + [v]) == multiset(w) + multiset{v}
    ensures Total(w + [v]) == Total(w) + v
  {
    assert (w + [v])[..|w|] == w;
  }

  /** Replacing the window and the trackers of one asset. */
  lemma Replaced(asset: HashT, w: seq<real>, bag: multiset<real>, total: real, count: nat,
                 data: map<HashT, seq<real>>, t: Tracked)
    requires AllInStep(data, t)
    requires bag == multiset(w) && total == Total(w) && count == |w|
    ensures AllInStep(data[asset := w], Retracked(t, asset, bag, total, count))
  {
    var data', t' := data[asset := w], Retracked(t, asset, bag, total, count);
    forall a
      ensures InStep(In(data', a), t', a)
    {
      assert InStep(In(data, a), t, a);
    }
  }

  /** Adding a value at the back, seen by the trackers. */
  lemma AddedInStep(asset: HashT, v: real, data: map<HashT, seq<real>>, t: Tracked)
    requires AllInStep(data, t)
    ensures CountIn(t.counts, asset) == |In(data, asset)|
    ensures AllInStep(data[asset := In(data, asset) + [v]],
                      Retracked(t, asset, BagIn(t.mins, asset) + multiset{v}, SumIn(t.sums, asset) + v,
                                CountIn(t.counts, asset) + 1))
    ensures BagIn(t.maxs, asset) == BagIn(t.mins, asset)
  {
    var w := In(data, asset);
    assert InStep(w, t, asset);
    PushBack(w, v);
    Replaced(asset, w + [v], BagIn(t.mins, asset) + multiset{v}, SumIn(t.sums, asset) + v,
             CountIn(t.counts, asset) + 1, data, t);
  }

  /** Dropping the front value, seen by the trackers. */
  lemma DroppedInStep(asset: HashT, data: map<HashT, seq<real>>, t: Tracked)
    requires AllInStep(data, t) && In(data, asset) != []
    ensures CountIn(t.counts, asset) == |In(data, asset)| && In(data, asset)[0] in BagIn(t.mins, asset)
    ensures AllInStep(data[asset := In(data, asset)[1..]],
                      Retracked(t, asset, BagIn(t.mins, asset) - multiset{In(data, asset)[0]},
                                SumIn(t.sums, asset) - In(data, asset)[0], CountIn(t.counts, asset) - 1))
    ensures BagIn(t.maxs, asset) == BagIn(t.mins, asset)
  {
    var w := In(data, asset);
    assert InStep(w, t, asset);
    PopFront(w);
    Replaced(asset, w[1..], BagIn(t.mins, asset) - multiset{w[0]}, SumIn(t.sums, asset) - w[0],
             CountIn(t.counts, asset) - 1, data, t);
  }

  lemma UpdatedTwice<V>(m: map<HashT, V>, a: HashT, v: V, v': V)
    ensures m[a := v][a := v'] == m[a := v']
  {
  }

  lemma CountsHaveSums(data: map<HashT, seq<real>>, t: Tracked)
    requires AllInStep(data, t)
    ensures forall a :: a in t.counts ==> a in t.sums
  {
    forall a
      ensures a in t.counts ==> a in t.sums
    {
      assert InStep(In(data, a), t, a);
    }
  }

  lemma WindowsSlide(size: nat, added: map<HashT, seq<real>>, data: map<HashT, seq<real>>, asset: HashT, v: real)
    requires Windows(size, added, data)
    ensures Windows(size, added[asset := In(added, asset) + [v]], data[asset := Slid(In(data, asset), v, size)])
    ensures |In(data, asset)| <= size
  {
    var added', data' := added[asset := In(added, asset) + [v]], data[asset := Slid(In(data, asset), v, size)];
    assert WindowIsLast(size, added, data, asset);
    forall a
      ensures WindowIsLast(size, added', data', a)
    {
      assert WindowIsLast(size, added, data, a);
      LastSlides(In(added, a), v, size);
    }
  }

  function Slid(w: seq<real>, v: real, size: nat): seq<real> {
    if |w| + 1 > size then (w + [v])[1..] else w + [v]
  }

  lemma LastSlides(s: seq<real>, v: real, n: nat)
    ensures Last(s + [v], n) == Slid(Last(s, n), v, n)
  {
  }

  class SlidingWindowStorage {
    const windowSize: nat
    const avgTracker: AvgTracker
    const minTracker: ExtremumTracker
    const maxTracker: ExtremumTracker
    var data: map<HashT, seq<real>>
    /** Everything ever added, per asset. */
    ghost var added: map<HashT, seq<real>>

    constructor (windowSize: nat)
      requires windowSize < SIZE_MAX
      ensures Valid() && added == map[] && this.windowSize == windowSize
      ensures fresh(avgTracker) && fresh(minTracker) && fresh(maxTracker)
    {
      this.windowSize := windowSize;
      avgTracker := new AvgTracker();
      minTracker := new ExtremumTracker(true);
      maxTracker := new ExtremumTracker(false);
      data, added := map[], map[];
    }

    ghost function Trackers(): Tracked
      reads avgTracker, minTracker, maxTracker
    {
      Tracked(minTracker.bags, maxTracker.bags, avgTracker.sums, avgTracker.counts)
    }

    ghost predicate TrackersFollow(windows: map<HashT, seq<real>>)
      reads this, avgTracker, minTracker, maxTracker
    {
      && minTracker != maxTracker && minTracker.least && !maxTracker.least
      && minTracker.Valid() && maxTracker.Valid()
      && AllInStep(windows, Trackers())
    }

    ghost predicate Valid()
      reads this, avgTracker, minTracker, maxTracker
    {
      windowSize < SIZE_MAX && Windows(windowSize, added, data) && TrackersFollow(data)
    }

    /** The window of an asset, as a function of what was added. */
    ghost function Window(a: HashT): seq<real>
      reads this
    {
      Last(In(added, a), windowSize)
    }

    method AddData(asset: HashT, value: real)
      requires Valid()
      modifies this, avgTracker, minTracker, maxTracker
      ensures Valid() && added == old(added)[asset := In(old(added), asset) + [value]]
    {
      WindowsSlide(windowSize, added, data, asset, value);
      hide Windows, AllInStep, AllAgree;
      PushData(asset, value);
      if |data[asset]| > windowSize {
        UpdatedTwice(old(data), asset, data[asset], data[asset][1..]);
        PopData(asset);
      }
      added := added[asset := In(added, asset) + [value]];
    }

    /** A value enters a window at the back. */
    method PushData(asset: HashT, value: real)
      requires TrackersFollow(data) && |In(data, asset)| < SIZE_MAX
      modifies `data, avgTracker, minTracker, maxTracker
      ensures TrackersFollow(data) && data == old(data)[asset := In(old(data), asset) + [value]]
    {
      hide AllInStep, AllAgree;
      UpdateTrackersOnAdd(asset, value, data);
      data := data[asset := (if asset in data then data[asset] else []) + [value]];
    }

    /** And leaves it at the front. */
    method PopData(asset: HashT)
      requires TrackersFollow(data) && asset in data && data[asset] != []
      modifies `data, avgTracker, minTracker, maxTracker
      ensures TrackersFollow(data) && data == old(data)[asset := old(data)[asset][1..]]
    {
      hide AllInStep, AllAgree;
      var frontValue := data[asset][0];
      UpdateTrackersOnRemove(asset, frontValue, data);
      data := data[asset := data[asset][1..]];
    }

    method UpdateTrackersOnAdd(asset: HashT, value: real, ghost windows: map<HashT, seq<real>>)
      requires TrackersFollow(windows) && |In(windows, asset)| < SIZE_MAX
      modifies avgTracker, minTracker, maxTracker
      ensures TrackersFollow(windows[asset := In(windows, asset) + [value]])
    {
      AddedInStep(asset, value, windows, Trackers());
      hide AllInStep, AllAgree;
      ghost var bag, total, count :=
        minTracker.Bag(asset) + multiset{value}, avgTracker.Sum(asset) + value, avgTracker.Count(asset) + 1;
      avgTracker.OnAdd(asset, value);
      minTracker.OnAdd(asset, value);
      maxTracker.OnAdd(asset, value);
      assert Trackers() == Retracked(old(Trackers()), asset, bag, total, count);
    }

    method UpdateTrackersOnRemove(asset: HashT, value: real, ghost windows: map<HashT, seq<real>>)
      requires TrackersFollow(windows) && In(windows, asset) != [] && value == In(windows, asset)[0]
      modifies avgTracker, minTracker, maxTracker
      ensures TrackersFollow(windows[asset := In(windows, asset)[1..]])
    {
      DroppedInStep(asset, windows, Trackers());
      hide AllInStep, AllAgree;
      ghost var bag, total, count :=
        minTracker.Bag(asset) - multiset{value}, avgTracker.Sum(asset) - value, avgTracker.Count(asset) - 1;
      avgTracker.OnRemove(asset, value);
      minTracker.OnRemove(asset, value);
      maxTracker.OnRemove(asset, value);
      assert Trackers() == Retracked(old(Trackers()), asset, bag, total, count);
    }

    lemma AtAsset(a: HashT)
      requires Valid()
      ensures InStep(In(data, a), Trackers(), a)
      ensures (a in data <==> a in added) && In(data, a) == Window(a)
    {
      assert WindowIsLast(windowSize, added, data, a);
    }

    method HasEnoughData(a: HashT) returns (enough: bool)
      requires Valid()
      ensures enough <==> a in added && |In(added, a)| >= windowSize
      ensures enough ==> a in data && |data[a]| == windowSize && data[a] == Window(a)
    {
      AtAsset(a);
      enough := a in data && |data[a]| >= windowSize;
    }

    /** The true minimum of the last values, absent exactly if the window is empty. */
    method GetMin(a: HashT) returns (found: bool, v: real)
      requires Valid()
      ensures found <==> Window(a) != []
      ensures found ==> v in Window(a) && forall w :: w in Window(a) ==> v <= w
    {
      AtAsset(a);
      found, v := minTracker.Get(a);
      BagOfWindow(Window(a));
    }

    method GetMax(a: HashT) returns (found: bool, v: real)
      requires Valid()
      ensures found <==> Window(a) != []
      ensures found ==> v in Window(a) && forall w :: w in Window(a) ==> w <= v
    {
      AtAsset(a);
      found, v := maxTracker.Get(a);
      BagOfWindow(Window(a));
    }

    /** The exact mean of the last values. */
    method GetAvg(a: HashT) returns (found: bool, avg: real)
      requires Valid()
      ensures found <==> Window(a) != []
      ensures found ==> avg * |Window(a)| as real == Total(Window(a))
    {
      AtAsset(a);
      CountsHaveSums(data, Trackers());
      found, avg := avgTracker.GetAvg(a);
    }

    /** DeviationTrackerDefault::GetDeviationRatio over the window's average
        (aos/deviation_tracker/deviation_tracker.h). */
    method GetDeviationRatio(a: HashT, value: real) returns (found: bool, ratio: real)
      requires Valid()
      ensures found <==> Window(a) != [] && Total(Window(a)) != 0.0
      ensures ratio == DeviationRatio(Window(a), value)
      ensures found ==> ratio * Total(Window(a)) == value * |Window(a)| as real - Total(Window(a))
      ensures !found ==> ratio == 0.0
    {
      var status, avg := GetAvg(a);
      if !status || avg == 0.0 {
        return false, 0.0;
      }
      RatioOfTotals(value, avg, |Window(a)|, Total(Window(a)));
      return true, (value - avg) / avg;
    }
  }

  /** How far a value lies from the mean of a window, relative to the mean; zero if there is none. */
  function DeviationRatio(w: seq<real>, value: real): real {
    if w == [] || Total(w) == 0.0 then 0.0
    else (value * |w| as real - Total(w)) / Total(w)
  }

  lemma RatioOfTotals(value: real, avg: real, n: nat, total: real)
    requires n > 0 && avg != 0.0 && avg * n as real == total
    ensures total != 0.0 && (value - avg) / avg == (value * n as real - total) / total
    ensures (value - avg) / avg * total == value * n as real - total
  {
    var r := (value - avg) / avg;
    assert r * avg == value - avg;
    assert r * total == (r * avg) * n as real == (value - avg) * n as real;
    assert (value - avg) * n as real == value * n as real - total;
  }

  function Mean(w: seq<real>): real
    requires w != []
  {
    Total(w) / |w| as real
  }

  lemma RatioOfMean(w: seq<real>, value: real)
    requires w != [] && Total(w) != 0.0
    ensures Mean(w) != 0.0 && DeviationRatio(w, value) * Mean(w) == value - Mean(w)
    ensures Mean(w) > 0.0 <==> Total(w) > 0.0
  {
    var n, mean, ratio := |w| as real, Mean(w), DeviationRatio(w, value);
    assert mean * n == Total(w);
    assert ratio * Total(w) == value * n - Total(w);
    assert (ratio * mean) * n == (value - mean) * n;
    assert mean > 0.0 <==> mean * n > 0.0;
  }

  lemma ScaledOrder(x: real, y: real, c: real)
    requires x < y
    ensures c > 0.0 ==> x * c < y * c
    ensures c < 0.0 ==> x * c > y * c
  {
    assert c > 0.0 ==> (y - x) * c > 0.0;
    assert c < 0.0 ==> (y - x) * c < 0.0;
  }

  /** The value lies above the mean by more than the threshold, as a share of the mean; a negative mean turns
      this round, and without a mean the ratio is zero. */
  ghost predicate StandsOut(w: seq<real>, value: real, threshold: real) {
    if w == [] || Total(w) == 0.0 then threshold < 0.0
    else if Mean(w) > 0.0 then value > (1.0 + threshold) * Mean(w)
    else value < (1.0 + threshold) * Mean(w)
  }

  lemma ExceedsExactlyIf(w: seq<real>, value: real, threshold: real)
    ensures DeviationRatio(w, value) > threshold <==> StandsOut(w, value, threshold)
  {
    if w == [] || Total(w) == 0.0 {
    } else {
      var mean, ratio := Mean(w), DeviationRatio(w, value);
      RatioOfMean(w, value);
      assert (1.0 + threshold) * mean == mean + threshold * mean;
      if ratio < threshold {
        ScaledOrder(ratio, threshold, mean);
      } else if threshold < ratio {
        ScaledOrder(threshold, ratio, mean);
      }
    }
  }

  lemma BagOfWindow(w: seq<real>)
    ensures multiset(w) == multiset{} <==> w == []
    ensures forall v :: v in w <==> v in multiset(w)
  {
    if w != [] {
      assert w[0] in multiset(w);
    }
  }
}
