/** The incremental trackers behind a sliding window: minimum and maximum over a multiset of values per
    asset, and their average (aos/min_tracker, aos/max_tracker, aos/avg_tracker). */
module Trackers {
  import opened Basics

  type HashT = nat

  /** The order of the extremum: the minimum tracker keeps the least value, the maximum tracker the
      greatest. */
  predicate Beats(least: bool, a: real, b: real) {
    if least then a < b else a > b
  }

  ghost predicate IsExtremum(least: bool, bag: multiset<real>, v: real) {
    v in bag && forall w :: w in bag ==> !Beats(least, w, v)
  }

  lemma Member<T>(s: set<T>) returns (v: T)
    requires s != {}
    ensures v in s
  {
    v :| v in s;
  }

  lemma MemberOf<T>(s: multiset<T>) returns (v: T)
    requires s != multiset{}
    ensures v in s
  {
    v :| v in s;
  }

  lemma {:induction false} ExtremumExists(least: bool, s: set<real>)
    requires s != {}
    ensures exists v :: v in s && forall w :: w in s ==> !Beats(least, w, v)
    decreases s
  {
    var v := Member(s);
    if s - {v} == {} {
      assert s == {v};
    } else {
      ExtremumExists(least, s - {v});
      var u :| u in s - {v} && forall w :: w in s - {v} ==> !Beats(least, w, u);
      var best := if Beats(least, v, u) then v else u;
      assert forall w :: w in s ==> w == v || w in s - {v};
      assert best in s && forall w :: w in s ==> !Beats(least, w, best);
    }
  }

  /** A frequency map holds exactly a multiset. */
  ghost predicate Holds(freq: map<real, nat>, bag: multiset<real>) {
    forall v :: if v in freq then freq[v] > 0 && bag[v] == freq[v] else v !in bag
  }

  /** The frequency map is the multiset, and the cached element is its extremum, absent exactly if there
      is no value. */
  ghost predicate Agrees(least: bool, freq: map<real, nat>, cached: Option<real>, bag: multiset<real>) {
    && Holds(freq, bag)
    && (cached.Some? <==> bag != multiset{})
    && (cached.Some? ==> IsExtremum(least, bag, cached.value))
  }

  lemma EmptyTogether(freq: map<real, nat>, bag: multiset<real>)
    requires Holds(freq, bag)
    ensures freq == map[] <==> bag == multiset{}
    ensures forall v :: v in freq <==> v in bag
  {
    if bag != multiset{} {
      var v := MemberOf(bag);
      assert v in freq;
    } else {
      assert forall v :: v !in freq;
    }
  }

  lemma AddAgrees(least: bool, freq: map<real, nat>, cached: Option<real>, bag: multiset<real>, value: real)
    requires Agrees(least, freq, cached, bag)
    ensures var freq' := freq[value := (if value in freq then freq[value] else 0) + 1];
            var cached' := if cached.None? || Beats(least, value, cached.value) then value else cached.value;
            Agrees(least, freq', Some(cached'), bag + multiset{value})
  {
    var cached' := if cached.None? || Beats(least, value, cached.value) then value else cached.value;
    assert forall w :: w in bag + multiset{value} <==> w in bag || w == value;
  }

  /** Taking one occurrence away; the extremum is looked up again only if it was taken. */
  lemma RemoveAgrees(least: bool, freq: map<real, nat>, cached: real, bag: multiset<real>, value: real,
                     cached': Option<real>)
    requires Agrees(least, freq, Some(cached), bag) && value in freq
    requires var freq' := if freq[value] == 1 then freq - {value} else freq[value := freq[value] - 1];
             if cached != value then cached' == Some(cached)
             else if freq' == map[] then cached' == None
             else cached'.Some? && cached'.value in freq' && forall w :: w in freq' ==> !Beats(least, w, cached'.value)
    ensures var freq' := if freq[value] == 1 then freq - {value} else freq[value := freq[value] - 1];
            Agrees(least, freq', cached', bag - multiset{value})
  {
    var freq' := if freq[value] == 1 then freq - {value} else freq[value := freq[value] - 1];
    var bag' := bag - multiset{value};
    assert Holds(freq', bag');
    EmptyTogether(freq', bag');
    if cached != value {
      assert cached in bag';
    }
  }

  function BagIn(bags: map<HashT, multiset<real>>, a: HashT): multiset<real> {
    if a in bags then bags[a] else multiset{}
  }

  ghost predicate AssetAgrees(least: bool, frequency: map<HashT, map<real, nat>>, element: map<HashT, real>,
                              bags: map<HashT, multiset<real>>, a: HashT)
  {
    && Agrees(least, if a in frequency then frequency[a] else map[], if a in element then Some(element[a]) else None,
              BagIn(bags, a))
    && (a in element ==> a in frequency)
  }

  ghost predicate AllAgree(least: bool, frequency: map<HashT, map<real, nat>>, element: map<HashT, real>,
                           bags: map<HashT, multiset<real>>)
  {
    forall a :: AssetAgrees(least, frequency, element, bags, a)
  }

  ghost predicate SameElsewhere<V>(m: map<HashT, V>, m': map<HashT, V>, a: HashT) {
    forall b :: b != a ==> (b in m <==> b in m') && (b in m ==> m[b] == m'[b])
  }

  lemma OneAssetChanged(least: bool, a: HashT,
                        frequency: map<HashT, map<real, nat>>, element: map<HashT, real>,
                        bags: map<HashT, multiset<real>>,
                        frequency': map<HashT, map<real, nat>>, element': map<HashT, real>,
                        bags': map<HashT, multiset<real>>)
    requires AllAgree(least, frequency, element, bags)
    requires SameElsewhere(frequency, frequency', a) && SameElsewhere(element, element', a)
    requires SameElsewhere(bags, bags', a)
    requires AssetAgrees(least, frequency', element', bags', a)
    ensures AllAgree(least, frequency', element', bags')
  {
    forall b
      ensures AssetAgrees(least, frequency', element', bags', b)
    {
      assert AssetAgrees(least, frequency, element, bags, b);
    }
  }

  lemma AddToAsset(least: bool, frequency: map<HashT, map<real, nat>>, element: map<HashT, real>,
                   bags: map<HashT, multiset<real>>, a: HashT, value: real, counts: map<real, nat>, best: real)
    requires AllAgree(least, frequency, element, bags)
    requires a in element ==> a in frequency
    requires var tracked := if a in element then frequency[a] else map[];
             counts == tracked[value := (if value in tracked then tracked[value] else 0) + 1]
    requires best == if a in element && !Beats(least, value, element[a]) then element[a] else value
    ensures AllAgree(least, frequency[a := counts], element[a := best], bags[a := BagIn(bags, a) + multiset{value}])
  {
    assert AssetAgrees(least, frequency, element, bags, a);
    var freq := if a in frequency then frequency[a] else map[];
    AddAgrees(least, freq, if a in element then Some(element[a]) else None, BagIn(bags, a), value);
    EmptyTogether(freq, BagIn(bags, a));
    OneAssetChanged(least, a, frequency, element, bags,
                    frequency[a := counts], element[a := best], bags[a := BagIn(bags, a) + multiset{value}]);
  }

  /** MinTrackerDefault and MaxTrackerDefault, which differ only in the order. */
  class ExtremumTracker {
    const least: bool
    var frequency: map<HashT, map<real, nat>>
    var element: map<HashT, real>
    /** The values currently tracked for each asset. */
    ghost var bags: map<HashT, multiset<real>>

    constructor (least: bool)
      ensures Valid() && this.least == least && bags == map[]
    {
      this.least := least;
      frequency, element, bags := map[], map[], map[];
    }

    ghost function Bag(a: HashT): multiset<real>
      reads this
    {
      BagIn(bags, a)
    }

    ghost predicate Valid()
      reads this
    {
      AllAgree(least, frequency, element, bags)
    }

    method OnAdd(a: HashT, value: real)
      requires Valid()
      modifies this
      ensures Valid() && bags == old(bags)[a := old(Bag(a)) + multiset{value}]
    {
      assert AssetAgrees(least, frequency, element, bags, a);
      var counts := if a in element then frequency[a] else map[];
      var best := if a in element then element[a] else value;
      counts := counts[value := (if value in counts then counts[value] else 0) + 1];
      if Beats(least, value, best) {
        best := value;
      }
      AddToAsset(least, frequency, element, bags, a, value, counts, best);
      frequency, element, bags := frequency[a := counts], element[a := best], bags[a := Bag(a) + multiset{value}];
    }

    /** The first element of the ordered map. */
    method First(freq: map<real, nat>) returns (v: real)
      requires freq != map[]
      ensures v in freq && forall w :: w in freq ==> !Beats(least, w, v)
    {
      ExtremumExists(least, freq.Keys);
      v :| v in freq.Keys && forall w :: w in freq.Keys ==> !Beats(least, w, v);
    }

    method OnRemove(a: HashT, value: real)
      requires Valid()
      modifies this
      ensures Valid()
      ensures bags == if value in old(Bag(a)) then old(bags)[a := old(Bag(a)) - multiset{value}] else old(bags)
    {
      assert AssetAgrees(least, frequency, element, bags, a);
      if a !in frequency || value !in frequency[a] {
        return;
      }
      RemoveTracked(a, value);
    }

    method RemoveTracked(a: HashT, value: real)
      requires Valid() && a in frequency && value in frequency[a]
      modifies this
      ensures Valid() && value in old(Bag(a)) && bags == old(bags)[a := old(Bag(a)) - multiset{value}]
    {
      assert AssetAgrees(least, frequency, element, bags, a);
      ghost var freq, cached, bag := frequency[a], element[a], Bag(a);
      var counts := if frequency[a][value] == 1 then frequency[a] - {value}
                    else frequency[a][value := frequency[a][value] - 1];
      frequency := frequency[a := counts];
      if element[a] == value {
        if counts == map[] {
          element := element - {a};
        } else {
          var first := First(counts);
          element := element[a := first];
        }
      }
      bags := bags[a := bag - multiset{value}];
      RemoveAgrees(least, freq, cached, bag, value, if a in element then Some(element[a]) else None);
      OneAssetChanged(least, a, old(frequency), old(element), old(bags), frequency, element, bags);
    }

    /** GetMin and GetMax. */
    method Get(a: HashT) returns (found: bool, v: real)
      requires Valid()
      ensures found <==> Bag(a) != multiset{}
      ensures found ==> IsExtremum(least, Bag(a), v)
    {
      assert AssetAgrees(least, frequency, element, bags, a);
      if a !in element {
        return false, 0.0;
      }
      return true, element[a];
    }
  }

  // ----- The average -----

  function Total(w: seq<real>): real {
    if w == [] then 0.0 else Total(w[..|w| - 1]) + w[|w| - 1]
  }

  lemma {:induction false} TotalTail(w: seq<real>)
    requires w != []
    ensures Total(w) == w[0] + Total(w[1..])
  {
    if |w| == 1 {
    } else {
      assert w[1..][..|w| - 2] == w[..|w| - 1][1..];
      TotalTail(w[..|w| - 1]);
    }
  }

  const SIZE_MAX: nat := 0xFFFF_FFFF_FFFF_FFFF

  class AvgTracker {
    var sums: map<HashT, real>
    var counts: map<HashT, nat>

    constructor ()
      ensures sums == map[] && counts == map[]
    {
      sums, counts := map[], map[];
    }

    function Sum(a: HashT): real
      reads this
    {
      if a in sums then sums[a] else 0.0
    }

    function Count(a: HashT): nat
      reads this
    {
      if a in counts then counts[a] else 0
    }

    method OnAdd(a: HashT, value: real)
      requires Count(a) < SIZE_MAX
      modifies this
      ensures sums == old(sums)[a := old(Sum(a)) + value]
      ensures counts == old(counts)[a := old(Count(a)) + 1]
    {
      sums := sums[a := Sum(a) + value];
      counts := counts[a := Count(a) + 1];
    }

    /** The unsigned count wraps below zero. */
    method OnRemove(a: HashT, value: real)
      modifies this
      ensures sums == old(sums)[a := old(Sum(a)) - value]
      ensures counts == old(counts)[a := if old(Count(a)) == 0 then SIZE_MAX else old(Count(a)) - 1]
    {
      sums := sums[a := Sum(a) - value];
      counts := counts[a := if Count(a) == 0 then SIZE_MAX else Count(a) - 1];
    }

    method GetAvg(a: HashT) returns (found: bool, avg: real)
      requires forall b :: b in counts ==> b in sums
      ensures found <==> Count(a) > 0
      ensures found ==> avg * Count(a) as real == Sum(a)
    {
      if a in counts && counts[a] > 0 {
        return true, sums[a] / counts[a] as real;
      }
      return false, 0.0;
    }
  }
}
