/** The four stages of the deviation and mutual information strategy
    (aos/strategies/deviation_and_mutual_info/c_strategy.h). */
module DeviationStrategy {
  import opened Trackers
  import opened SlidingWindow
  import opened Histograms
  import opened MutualInformation
  import opened WindowMutualInformation
  import opened Strategy

  datatype Config = Config(
    windowSize: nat,
    numberBins: nat,
    allowedAsset: HashT,
    deviationRatioThreshold: real,
    miThreshold: real)

  /** What the stages read while one value is analysed: the windows, the pairs of each asset in the
      order of iteration, and the logarithm. */
  datatype Market = Market(windows: HashT -> seq<real>, pairs: HashT -> seq<HashT>, log2: Log)

  ghost predicate Deviates(c: Config, m: Market, asset: HashT, value: real) {
    DeviationRatio(m.windows(asset), value) > c.deviationRatioThreshold
  }

  /** Both windows are full and their mutual information exceeds the threshold. */
  ghost predicate Dependent(c: Config, m: Market, asset: HashT, paired: HashT) {
    var x, y := m.windows(asset), m.windows(paired);
    && c.windowSize >= 1 && |x| == c.windowSize && |y| == c.windowSize
    && WindowMI(m.log2, x, y, c.numberBins) > c.miThreshold
  }

  ghost function DependentPairs(c: Config, m: Market, asset: HashT, pairs: seq<HashT>): seq<HashT> {
    if pairs == [] then []
    else
      var last := pairs[|pairs| - 1];
      DependentPairs(c, m, asset, pairs[..|pairs| - 1]) + if Dependent(c, m, asset, last) then [last] else []
  }

  /** Only the allowed asset goes on. */
  function AllowedStage(c: Config): Action {
    (asset: HashT, value: real) => if asset == c.allowedAsset then [asset] else []
  }

  /** Only an asset whose value deviates goes on. */
  ghost function DeviationStage(c: Config, m: Market): Action {
    (asset: HashT, value: real) => if Deviates(c, m, asset, value) then [asset] else []
  }

  /** The dependent paired assets go on. */
  ghost function PairStage(c: Config, m: Market): Action {
    (asset: HashT, value: real) => DependentPairs(c, m, asset, m.pairs(asset))
  }

  /** The last callback only reports the asset it is called with. */
  function SignalStage(): Action {
    (asset: HashT, value: real) => []
  }

  ghost function Stages(c: Config, m: Market): (stages: seq<Action>)
    ensures |stages| == 4
  {
    [AllowedStage(c), DeviationStage(c, m), PairStage(c, m), SignalStage()]
  }

  lemma StagePushes(c: Config, m: Market, asset: HashT, value: real)
    ensures Stages(c, m)[0](asset, value) == if asset == c.allowedAsset then [asset] else []
    ensures Stages(c, m)[1](asset, value) == if Deviates(c, m, asset, value) then [asset] else []
    ensures Stages(c, m)[2](asset, value) == DependentPairs(c, m, asset, m.pairs(asset))
  {
  }

  lemma DependentPairsNext(c: Config, m: Market, asset: HashT, pairs: seq<HashT>, i: nat)
    requires i < |pairs|
    ensures DependentPairs(c, m, asset, pairs[..i + 1]) ==
            DependentPairs(c, m, asset, pairs[..i]) + if Dependent(c, m, asset, pairs[i]) then [pairs[i]] else []
  {
    assert pairs[..i + 1][..i] == pairs[..i];
  }

  /** What reaches the last stage. */
  ghost function Signals(c: Config, m: Market, asset: HashT, value: real): seq<HashT> {
    Level(Stages(c, m), value, asset, 3)
  }

  lemma LevelStep(stages: seq<Action>, value: real, asset: HashT, k: nat, xs: seq<HashT>)
    requires k < |stages| && |xs| <= 1 && Level(stages, value, asset, k) == xs
    ensures Level(stages, value, asset, k + 1) == if xs == [] then [] else stages[k](xs[0], value)
  {
    if xs != [] {
      assert xs == [xs[0]];
      FlatMapOne(stages[k], value, xs[0]);
    }
  }

  /** Two filters, a producer and a sink. */
  lemma FilterFilterProduce(f: Action, g: Action, h: Action, sink: Action, value: real, asset: HashT)
    requires f(asset, value) == [] || f(asset, value) == [asset]
    requires g(asset, value) == [] || g(asset, value) == [asset]
    requires forall x, v :: sink(x, v) == []
    ensures var stages := [f, g, h, sink];
            && Level(stages, value, asset, 3) ==
               (if f(asset, value) == [asset] && g(asset, value) == [asset] then h(asset, value) else [])
            && Level(stages, value, asset, 4) == []
  {
    var stages := [f, g, h, sink];
    var one := f(asset, value);
    var two := if one == [] then [] else g(asset, value);
    var three := if two == [] then [] else h(asset, value);
    LevelStep(stages, value, asset, 0, [asset]);
    LevelStep(stages, value, asset, 1, one);
    LevelStep(stages, value, asset, 2, two);
    assert Level(stages, value, asset, 3) == three;
    NothingPushed(sink, value, three);
    assert Level(stages, value, asset, 4) == FlatMap(sink, value, three);
  }

  /** The signals of an analysis are the dependent pairs of the allowed asset if it deviates, in order,
      and nothing otherwise; and no callback is reached after them. */
  lemma SignalsAreTheDependentPairs(c: Config, m: Market, asset: HashT, value: real)
    ensures Signals(c, m, asset, value) ==
            if asset == c.allowedAsset && Deviates(c, m, asset, value)
            then DependentPairs(c, m, asset, m.pairs(asset)) else []
    ensures Level(Stages(c, m), value, asset, 4) == []
  {
    FilterFilterProduce(AllowedStage(c), DeviationStage(c, m), PairStage(c, m), SignalStage(), value, asset);
  }

  lemma {:induction false} NothingPushed(f: Action, value: real, xs: seq<HashT>)
    requires forall x, v :: f(x, v) == []
    ensures FlatMap(f, value, xs) == []
  {
    if xs == [] {
    } else {
      NothingPushed(f, value, xs[..|xs| - 1]);
    }
  }

  lemma {:induction false} DependentPairsMembers(c: Config, m: Market, asset: HashT, pairs: seq<HashT>, p: HashT)
    ensures p in DependentPairs(c, m, asset, pairs) <==> p in pairs && Dependent(c, m, asset, p)
  {
    if pairs == [] {
    } else {
      DependentPairsMembers(c, m, asset, pairs[..|pairs| - 1], p);
      assert pairs == pairs[..|pairs| - 1] + [pairs[|pairs| - 1]];
    }
  }

  /** The dependent pairs come in the order of the pairs, as often as there. */
  lemma {:induction false} DependentPairsConcat(c: Config, m: Market, asset: HashT, ps: seq<HashT>, qs: seq<HashT>)
    ensures DependentPairs(c, m, asset, ps + qs) ==
            DependentPairs(c, m, asset, ps) + DependentPairs(c, m, asset, qs)
    ensures |ps| == 1 ==> DependentPairs(c, m, asset, ps) == if Dependent(c, m, asset, ps[0]) then ps else []
  {
    hide Dependent;
    if |ps| == 1 {
      assert ps[..0] == [] && ps == [ps[0]];
    }
    if qs == [] {
      assert ps + qs == ps;
    } else {
      assert (ps + qs)[..|ps + qs| - 1] == ps + qs[..|qs| - 1];
      DependentPairsConcat(c, m, asset, ps, qs[..|qs| - 1]);
    }
  }

  /** An asset is signalled exactly if it is paired with the allowed asset, the analysed value deviates
      from that asset's window, and the two windows are full and dependent. */
  lemma SignalledExactlyIf(c: Config, m: Market, asset: HashT, value: real, p: HashT)
    ensures p in Signals(c, m, asset, value) <==>
            && asset == c.allowedAsset
            && Deviates(c, m, asset, value)
            && p in m.pairs(asset)
            && Dependent(c, m, asset, p)
  {
    SignalsAreTheDependentPairs(c, m, asset, value);
    DependentPairsMembers(c, m, asset, m.pairs(asset), p);
  }

  /** The bins of both windows have more entropy apart than together, by more than the threshold. */
  ghost predicate Related(log2: Log, x: seq<real>, y: seq<real>, bins: int, threshold: real)
    requires x != [] && y != [] && |x| == |y|
  {
    var xs, ys := WindowBins(x, bins), WindowBins(y, bins);
    Entropy(log2, xs) + Entropy(log2, ys) - Entropy(log2, Zip(xs, ys)) > threshold
  }

  /** The same in terms of means and entropies, for a logarithm that turns products into sums. */
  lemma SignalledInTermsOfData(c: Config, m: Market, asset: HashT, value: real, p: HashT)
    requires IsLog(m.log2)
    ensures var x, y := m.windows(asset), m.windows(p);
            p in Signals(c, m, asset, value) <==>
            && asset == c.allowedAsset && p in m.pairs(asset)
            && StandsOut(x, value, c.deviationRatioThreshold)
            && c.windowSize >= 1 && |x| == c.windowSize == |y|
            && Related(m.log2, x, y, c.numberBins, c.miThreshold)
  {
    var x, y := m.windows(asset), m.windows(p);
    SignalledExactlyIf(c, m, asset, value, p);
    ExceedsExactlyIf(x, value, c.deviationRatioThreshold);
    if x != [] && |x| == |y| {
      IsEntropyGap(m.log2, WindowBins(x, c.numberBins), WindowBins(y, c.numberBins));
    }
  }

  // ----- The object whose lambdas the stages are -----

  class PairStrategy {
    const config: Config
    const log2: Log
    const pairs: HashT -> seq<HashT>
    const slidingWindow: SlidingWindowStorage
    var bidPrice: map<HashT, real>
    var askPrice: map<HashT, real>
    /** What the last lambdas have reported. */
    var toBuy: seq<HashT>
    var toSell: seq<HashT>

    constructor (config: Config, log2: Log, pairs: HashT -> seq<HashT>)
      requires config.windowSize < SIZE_MAX
      ensures Valid() && this.config == config && this.log2 == log2 && this.pairs == pairs
      ensures bidPrice == askPrice == map[] && toBuy == toSell == [] && slidingWindow.added == map[]
      ensures fresh(slidingWindow) && fresh(slidingWindow.avgTracker)
      ensures fresh(slidingWindow.minTracker) && fresh(slidingWindow.maxTracker)
    {
      this.config, this.log2, this.pairs := config, log2, pairs;
      slidingWindow := new SlidingWindowStorage(config.windowSize);
      bidPrice, askPrice, toBuy, toSell := map[], map[], [], [];
    }

    ghost predicate Valid()
      reads slidingWindow, slidingWindow.avgTracker, slidingWindow.minTracker, slidingWindow.maxTracker
    {
      slidingWindow.Valid() && slidingWindow.windowSize == config.windowSize
    }

    /** What the stages read, as a function of everything ever added. */
    ghost function Now(): Market
      reads slidingWindow
    {
      var added, size := slidingWindow.added, slidingWindow.windowSize;
      Market((a: HashT) => Last(In(added, a), size), pairs, log2)
    }

    method AddData(asset: HashT, value: real)
      requires Valid()
      modifies slidingWindow, slidingWindow.avgTracker, slidingWindow.minTracker, slidingWindow.maxTracker
      ensures Valid()
      ensures slidingWindow.added == old(slidingWindow.added)[asset := In(old(slidingWindow.added), asset) + [value]]
    {
      slidingWindow.AddData(asset, value);
    }

    method SetBidPrice(asset: HashT, value: real)
      modifies `bidPrice
      ensures bidPrice == old(bidPrice)[asset := value]
    {
      bidPrice := bidPrice[asset := value];
    }

    method SetAskPrice(asset: HashT, value: real)
      modifies `askPrice
      ensures askPrice == old(askPrice)[asset := value]
    {
      askPrice := askPrice[asset := value];
    }

    method PushAllowed(asset: HashT, value: real) returns (pushed: seq<HashT>)
      ensures pushed == Stages(config, Now())[0](asset, value)
    {
      pushed := [];
      if asset == config.allowedAsset {
        pushed := pushed + [asset];
      }
    }

    method PushDeviating(asset: HashT, value: real) returns (pushed: seq<HashT>)
      requires Valid()
      ensures pushed == Stages(config, Now())[1](asset, value)
    {
      pushed := [];
      var _, ratio := slidingWindow.GetDeviationRatio(asset, value);
      if ratio > config.deviationRatioThreshold {
        pushed := pushed + [asset];
      }
    }

    /** The test of the third lambda, through both windows, their trackers, the histograms and the
        accumulated sum. */
    method Depends(asset: HashT, paired: HashT) returns (dependent: bool)
      requires Valid()
      ensures dependent == Dependent(config, Now(), asset, paired)
    {
      var status, mi :=
        WindowMutualInformation.ComputeMutualInformation(log2, slidingWindow, asset, paired, config.numberBins);
      assert Now().windows(asset) == slidingWindow.Window(asset);
      assert Now().windows(paired) == slidingWindow.Window(paired);
      dependent := status && mi > config.miThreshold;
    }

    /** The loop of the third lambda. */
    method PushDependent(asset: HashT, ps: seq<HashT>) returns (pushed: seq<HashT>)
      requires Valid()
      ensures pushed == DependentPairs(config, Now(), asset, ps)
    {
      hide WindowMI;
      pushed := [];
      for i := 0 to |ps|
        invariant pushed == DependentPairs(config, Now(), asset, ps[..i])
      {
        var dependent := Depends(asset, ps[i]);
        DependentPairsNext(config, Now(), asset, ps, i);
        if dependent {
          pushed := pushed + [ps[i]];
        }
      }
      assert ps[..|ps|] == ps;
    }

    /** The third lambda pushes the dependent pairs. */
    method PushPairs(asset: HashT, value: real) returns (pushed: seq<HashT>)
      requires Valid()
      ensures pushed == Stages(config, Now())[2](asset, value)
    {
      pushed := PushDependent(asset, pairs(asset));
      StagePushes(config, Now(), asset, value);
    }

    /** One call of a lambda: what it pushes, and what it reports.  Only the last one reports: the asset it
        is called with. */
    method CallStage(stage: nat, asset: HashT, value: real) returns (pushed: seq<HashT>, reported: seq<HashT>)
      requires Valid() && stage < 4
      ensures pushed == Stages(config, Now())[stage](asset, value)
      ensures reported == if stage == 3 then [asset] else []
    {
      pushed, reported := [], [];
      if stage == 0 {
        pushed := PushAllowed(asset, value);
      } else if stage == 1 {
        pushed := PushDeviating(asset, value);
      } else if stage == 2 {
        pushed := PushPairs(asset, value);
      } else {
        reported := [asset];
      }
    }

    /** The inner loop: the queue is run through one lambda, which pushes behind it. */
    method RunLevel(stage: nat, level: seq<HashT>, value: real) returns (queue: seq<HashT>, reported: seq<HashT>)
      requires Valid() && stage < 4
      ensures queue == FlatMap(Stages(config, Now())[stage], value, level)
      ensures reported == if stage == 3 then level else []
    {
      hide Stages, FlatMap;
      ghost var action := Stages(config, Now())[stage];
      queue, reported := level, [];
      FlatMapFirst(action, value, level);
      for i := 0 to |level|
        invariant queue == level[i..] + FlatMap(action, value, level[..i])
        invariant reported == if stage == 3 then level[..i] else []
      {
        var pushed, more := CallStage(stage, queue[0], value);
        FlatMapNext(action, value, level, i);
        queue := queue + pushed;
        queue := queue[1..];
        reported := reported + more;
      }
      assert level[..|level|] == level && level[|level|..] == [];
    }

    /** The queue over the four lambdas: what the last one reports are the signals. */
    method Analyze(asset: HashT, value: real) returns (reported: seq<HashT>)
      requires Valid()
      ensures reported == Signals(config, Now(), asset, value)
    {
      hide Stages, FlatMap;
      ghost var stages := Stages(config, Now());
      reported := [];
      var queue := [asset];
      var begin := 0;
      while queue != []
        invariant begin <= 4 && queue == Level(stages, value, asset, begin)
        invariant reported == if begin == 4 then Level(stages, value, asset, 3) else []
        decreases 4 - begin
      {
        if begin == 4 {
          return;
        }
        var more;
        queue, more := RunLevel(begin, queue, value);
        reported := reported + more;
        begin := begin + 1;
      }
      if begin < 4 {
        NothingAfterEmpty(stages, value, asset, begin, 3);
      }
    }

    method AnalyzeToBuy(asset: HashT, value: real)
      requires Valid()
      modifies `toBuy
      ensures toBuy == old(toBuy) + Signals(config, Now(), asset, value)
    {
      var reported := Analyze(asset, value);
      toBuy := toBuy + reported;
    }

    method AnalyzeToSell(asset: HashT, value: real)
      requires Valid()
      modifies `toSell
      ensures toSell == old(toSell) + Signals(config, Now(), asset, value)
    {
      var reported := Analyze(asset, value);
      toSell := toSell + reported;
    }
  }
}
