/** The strategy core: callbacks are applied level by level through one queue
    (aos/strategy/strategy.h). */
module Strategy {
  import opened Trackers

  /** What a callback pushes onto the queue, given the asset at the front and the analysed value. */
  type Action = (HashT, real) -> seq<HashT>

  /** One call of a callback. */
  datatype Call = Call(stage: nat, asset: HashT)

  function FlatMap(f: Action, value: real, xs: seq<HashT>): seq<HashT> {
    if xs == [] then [] else FlatMap(f, value, xs[..|xs| - 1]) + f(xs[|xs| - 1], value)
  }

  lemma FlatMapFirst(f: Action, value: real, xs: seq<HashT>)
    ensures xs[0..] + FlatMap(f, value, xs[..0]) == xs
  {
  }

  lemma FlatMapNext(f: Action, value: real, xs: seq<HashT>, i: nat)
    requires i < |xs|
    ensures FlatMap(f, value, xs[..i + 1]) == FlatMap(f, value, xs[..i]) + f(xs[i], value)
  {
    assert xs[..i + 1][..i] == xs[..i];
  }

  lemma FlatMapOne(f: Action, value: real, x: HashT)
    ensures FlatMap(f, value, [x]) == f(x, value)
  {
    assert [x][..0] == [];
  }

  lemma {:induction false} FlatMapConcat(f: Action, value: real, xs: seq<HashT>, ys: seq<HashT>)
    ensures FlatMap(f, value, xs + ys) == FlatMap(f, value, xs) + FlatMap(f, value, ys)
  {
    if ys == [] {
      assert xs + ys == xs;
    } else {
      assert (xs + ys)[..|xs + ys| - 1] == xs + ys[..|ys| - 1];
      FlatMapConcat(f, value, xs, ys[..|ys| - 1]);
    }
  }

  lemma {:induction false} FlatMapMembers(f: Action, value: real, xs: seq<HashT>, y: HashT)
    ensures y in FlatMap(f, value, xs) <==> exists x :: x in xs && y in f(x, value)
  {
    if xs == [] {
    } else {
      var init, last := xs[..|xs| - 1], xs[|xs| - 1];
      FlatMapMembers(f, value, init, y);
      assert xs == init + [last];
    }
  }

  /** The assets that stage k is called with. */
  function Level(actions: seq<Action>, value: real, asset: HashT, k: nat): seq<HashT>
    requires k <= |actions|
  {
    if k == 0 then [asset] else FlatMap(actions[k - 1], value, Level(actions, value, asset, k - 1))
  }

  function CallsAt(stage: nat, xs: seq<HashT>): (cs: seq<Call>)
    ensures |cs| == |xs|
  {
    seq(|xs|, i requires 0 <= i < |xs| => Call(stage, xs[i]))
  }

  lemma CallsNext(stage: nat, xs: seq<HashT>, i: nat)
    requires i < |xs|
    ensures CallsAt(stage, xs[..i + 1]) == CallsAt(stage, xs[..i]) + [Call(stage, xs[i])]
  {
  }

  /** The calls of the first k stages. */
  function Calls(actions: seq<Action>, value: real, asset: HashT, k: nat): seq<Call>
    requires k <= |actions|
  {
    if k == 0 then []
    else Calls(actions, value, asset, k - 1) + CallsAt(k - 1, Level(actions, value, asset, k - 1))
  }

  /** Once a level is empty nothing is called any more. */
  lemma {:induction false} NothingAfterEmpty(actions: seq<Action>, value: real, asset: HashT, k: nat, n: nat)
    requires k <= n <= |actions| && Level(actions, value, asset, k) == []
    ensures Level(actions, value, asset, n) == [] && Calls(actions, value, asset, n) == Calls(actions, value, asset, k)
    decreases n
  {
    if n <= k {
    } else {
      NothingAfterEmpty(actions, value, asset, k, n - 1);
    }
  }

  /** Each asset of the path is pushed by the callback before it, called with the asset before it. */
  ghost predicate IsPath(actions: seq<Action>, value: real, path: seq<HashT>) {
    && 1 <= |path| <= |actions| + 1
    && forall i :: 0 < i < |path| ==> path[i] in actions[i - 1](path[i - 1], value)
  }

  ghost predicate Reaches(actions: seq<Action>, value: real, asset: HashT, k: nat, a: HashT) {
    exists path :: IsPath(actions, value, path) && |path| == k + 1 && path[0] == asset && path[k] == a
  }

  lemma PathExtends(actions: seq<Action>, value: real, asset: HashT, k: nat, b: HashT, a: HashT)
    requires k < |actions| && Reaches(actions, value, asset, k, b) && a in actions[k](b, value)
    ensures Reaches(actions, value, asset, k + 1, a)
  {
    var path :| IsPath(actions, value, path) && |path| == k + 1 && path[0] == asset && path[k] == b;
    var longer := path + [a];
    forall i | 0 < i < |longer|
      ensures longer[i] in actions[i - 1](longer[i - 1], value)
    {
      assert i <= k ==> longer[i] == path[i];
    }
    assert IsPath(actions, value, longer) && longer[k + 1] == a;
  }

  lemma PathShortens(actions: seq<Action>, value: real, asset: HashT, k: nat, a: HashT) returns (b: HashT)
    requires k < |actions| && Reaches(actions, value, asset, k + 1, a)
    ensures Reaches(actions, value, asset, k, b) && a in actions[k](b, value)
  {
    var path :| IsPath(actions, value, path) && |path| == k + 2 && path[0] == asset && path[k + 1] == a;
    b := path[k];
    assert IsPath(actions, value, path[..k + 1]) && path[..k + 1][k] == b;
  }

  lemma {:induction false} LevelIsReached(actions: seq<Action>, value: real, asset: HashT, k: nat, a: HashT)
    requires k <= |actions| && a in Level(actions, value, asset, k)
    ensures Reaches(actions, value, asset, k, a)
  {
    if k == 0 {
      assert IsPath(actions, value, [asset]) && [asset][0] == asset;
    } else {
      hide Reaches, FlatMap;
      FlatMapMembers(actions[k - 1], value, Level(actions, value, asset, k - 1), a);
      var b :| b in Level(actions, value, asset, k - 1) && a in actions[k - 1](b, value);
      LevelIsReached(actions, value, asset, k - 1, b);
      PathExtends(actions, value, asset, k - 1, b, a);
    }
  }

  lemma {:induction false} ReachedIsInLevel(actions: seq<Action>, value: real, asset: HashT, k: nat, a: HashT)
    requires k <= |actions| && Reaches(actions, value, asset, k, a)
    ensures a in Level(actions, value, asset, k)
  {
    if k == 0 {
    } else {
      hide Reaches, FlatMap;
      var b := PathShortens(actions, value, asset, k - 1, a);
      ReachedIsInLevel(actions, value, asset, k - 1, b);
      FlatMapMembers(actions[k - 1], value, Level(actions, value, asset, k - 1), a);
    }
  }

  lemma LevelIsReachable(actions: seq<Action>, value: real, asset: HashT, k: nat, a: HashT)
    requires k <= |actions|
    ensures a in Level(actions, value, asset, k) <==> Reaches(actions, value, asset, k, a)
  {
    if a in Level(actions, value, asset, k) {
      LevelIsReached(actions, value, asset, k, a);
    } else if Reaches(actions, value, asset, k, a) {
      ReachedIsInLevel(actions, value, asset, k, a);
    }
  }

  lemma CallsOfLevel(stage: nat, level: seq<HashT>, c: Call)
    ensures c in CallsAt(stage, level) <==> c.stage == stage && c.asset in level
  {
    if c.stage == stage && c.asset in level {
      var i :| 0 <= i < |level| && level[i] == c.asset;
      assert CallsAt(stage, level)[i] == c;
    }
  }

  lemma CallsOfLast(actions: seq<Action>, value: real, asset: HashT, n: nat, c: Call)
    requires 0 < n <= |actions|
    ensures c in Calls(actions, value, asset, n) <==>
            c in Calls(actions, value, asset, n - 1) || c in CallsAt(n - 1, Level(actions, value, asset, n - 1))
  {
    hide Level, CallsAt, FlatMap;
  }

  /** A callback is called with an asset exactly if a path of pushes leads from the analysed asset to it. */
  lemma {:induction false} CalledExactlyIfReachable(actions: seq<Action>, value: real, asset: HashT, n: nat, c: Call)
    requires n <= |actions|
    ensures c in Calls(actions, value, asset, n) <==> c.stage < n && Reaches(actions, value, asset, c.stage, c.asset)
  {
    hide Reaches, Level, CallsAt, FlatMap;
    if n == 0 {
    } else {
      CallsOfLast(actions, value, asset, n, c);
      CalledExactlyIfReachable(actions, value, asset, n - 1, c);
      LevelIsReachable(actions, value, asset, n - 1, c.asset);
      CallsOfLevel(n - 1, Level(actions, value, asset, n - 1), c);
    }
  }

  class CoreStrategy {
    var actionsToBuy: seq<Action>
    var actionsToSell: seq<Action>

    constructor ()
      ensures actionsToBuy == [] && actionsToSell == []
    {
      actionsToBuy, actionsToSell := [], [];
    }

    method AddActionsToBuy(observer: Action)
      modifies `actionsToBuy
      ensures actionsToBuy == old(actionsToBuy) + [observer]
    {
      actionsToBuy := actionsToBuy + [observer];
    }

    method AddActionsToSell(observer: Action)
      modifies `actionsToSell
      ensures actionsToSell == old(actionsToSell) + [observer]
    {
      actionsToSell := actionsToSell + [observer];
    }

    /** The calls made are those of the iterated flat-map, level by level and in order. */
    method AnalyzeToBuy(asset: HashT, value: real) returns (calls: seq<Call>)
      ensures calls == Calls(actionsToBuy, value, asset, |actionsToBuy|)
    {
      calls := Cascade(actionsToBuy, asset, value);
    }

    method AnalyzeToSell(asset: HashT, value: real) returns (calls: seq<Call>)
      ensures calls == Calls(actionsToSell, value, asset, |actionsToSell|)
    {
      calls := Cascade(actionsToSell, asset, value);
    }

    /** The inner loop: one callback is called on every asset queued before it, and pushes behind them. */
    static method RunLevel(action: Action, stage: nat, level: seq<HashT>, value: real)
      returns (queue: seq<HashT>, calls: seq<Call>)
      ensures queue == FlatMap(action, value, level)
      ensures calls == CallsAt(stage, level)
    {
      queue, calls := level, [];
      FlatMapFirst(action, value, level);
      hide FlatMap;
      var size := |queue|;
      for i := 0 to size
        invariant queue == level[i..] + FlatMap(action, value, level[..i])
        invariant calls == CallsAt(stage, level[..i])
      {
        var front := queue[0];
        FlatMapNext(action, value, level, i);
        CallsNext(stage, level, i);
        calls := calls + [Call(stage, front)];
        queue := queue + action(front, value);
        queue := queue[1..];
      }
      assert level[..size] == level && level[size..] == [];
    }

    /** The body that AnalyzeToBuy and AnalyzeToSell share. */
    static method Cascade(actions: seq<Action>, asset: HashT, value: real) returns (calls: seq<Call>)
      ensures calls == Calls(actions, value, asset, |actions|)
    {
      hide FlatMap;
      calls := [];
      var queue := [asset];
      var begin := 0;
      while queue != []
        invariant begin <= |actions|
        invariant queue == Level(actions, value, asset, begin)
        invariant calls == Calls(actions, value, asset, begin)
        decreases |actions| - begin
      {
        if begin == |actions| {
          return;
        }
        var more;
        queue, more := RunLevel(actions[begin], begin, queue, value);
        calls := calls + more;
        begin := begin + 1;
      }
      NothingAfterEmpty(actions, value, asset, begin, |actions|);
    }
  }
}
