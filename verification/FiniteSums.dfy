/** Sums of reals over finite sets, whatever the order of summation. */
module FiniteSums {

  ghost function Sum<K(!new)>(s: set<K>, f: K -> real): real {
    if s == {} then 0.0
    else
      var k :| k in s;
      f(k) + Sum(s - {k}, f)
  }

  ghost function Scaled<K(!new)>(c: real, f: K -> real): K -> real {
    k => c * f(k)
  }

  ghost function Products<A(!new), B(!new)>(f: A -> real, g: B -> real): ((A, B)) -> real {
    (p: (A, B)) => f(p.0) * g(p.1)
  }

  /** Any element may be summed first. */
  lemma {:induction false} SumRemove<K(!new)>(s: set<K>, f: K -> real, k: K)
    requires k in s
    ensures Sum(s, f) == f(k) + Sum(s - {k}, f)
    decreases s
  {
    var first :| first in s && Sum(s, f) == f(first) + Sum(s - {first}, f);
    if first == k {
    } else {
      SumRemove(s - {first}, f, k);
      SumRemove(s - {k}, f, first);
      assert s - {first} - {k} == s - {k} - {first};
    }
  }

  lemma {:induction false} SumCongruence<K(!new)>(s: set<K>, f: K -> real, g: K -> real)
    requires forall k :: k in s ==> f(k) == g(k)
    ensures Sum(s, f) == Sum(s, g)
    decreases s
  {
    if s == {} {
    } else {
      var k :| k in s;
      SumRemove(s, f, k);
      SumRemove(s, g, k);
      SumCongruence(s - {k}, f, g);
    }
  }

  lemma {:induction false} SumMonotone<K(!new)>(s: set<K>, f: K -> real, g: K -> real)
    requires forall k :: k in s ==> f(k) <= g(k)
    ensures Sum(s, f) <= Sum(s, g)
    decreases s
  {
    if s == {} {
    } else {
      var k :| k in s;
      SumRemove(s, f, k);
      SumRemove(s, g, k);
      SumMonotone(s - {k}, f, g);
    }
  }

  lemma {:induction false} SumNonNegative<K(!new)>(s: set<K>, f: K -> real)
    requires forall k :: k in s ==> f(k) >= 0.0
    ensures Sum(s, f) >= 0.0
    decreases s
  {
    if s == {} {
    } else {
      var k :| k in s;
      SumRemove(s, f, k);
      SumNonNegative(s - {k}, f);
    }
  }

  ghost function Difference<K(!new)>(c: real, f: K -> real, g: K -> real): K -> real {
    k => c * (f(k) - g(k))
  }

  lemma {:induction false} SumDifference<K(!new)>(s: set<K>, c: real, f: K -> real, g: K -> real)
    ensures Sum(s, Difference(c, f, g)) == c * (Sum(s, f) - Sum(s, g))
    decreases s
  {
    var d := Difference(c, f, g);
    if s == {} {
    } else {
      var k :| k in s;
      SumRemove(s, f, k);
      SumRemove(s, g, k);
      SumRemove(s, d, k);
      SumDifference(s - {k}, c, f, g);
    }
  }

  lemma {:induction false} SumDisjoint<K(!new)>(a: set<K>, b: set<K>, f: K -> real)
    requires a !! b
    ensures Sum(a + b, f) == Sum(a, f) + Sum(b, f)
    decreases a
  {
    if a == {} {
      assert a + b == b;
    } else {
      var k :| k in a;
      SumRemove(a, f, k);
      SumRemove(a + b, f, k);
      assert a + b - {k} == (a - {k}) + b;
      SumDisjoint(a - {k}, b, f);
    }
  }

  /** Raising one summand by c raises the sum by c. */
  lemma SumRaise<K(!new)>(s: set<K>, f: K -> real, g: K -> real, k: K, c: real)
    requires k in s && g(k) == f(k) + c
    requires forall j :: j in s && j != k ==> g(j) == f(j)
    ensures Sum(s, g) == Sum(s, f) + c
  {
    SumRemove(s, f, k);
    SumRemove(s, g, k);
    SumCongruence(s - {k}, f, g);
  }

  lemma {:induction false} SumScale<K(!new)>(s: set<K>, c: real, f: K -> real)
    ensures Sum(s, Scaled(c, f)) == c * Sum(s, f)
    decreases s
  {
    var d := Scaled(c, f);
    if s == {} {
    } else {
      var k :| k in s;
      SumRemove(s, f, k);
      SumRemove(s, d, k);
      SumScale(s - {k}, c, f);
    }
  }

  ghost function SeqSum<K(!new)>(ks: seq<K>, f: K -> real): real {
    if ks == [] then 0.0 else SeqSum(ks[..|ks| - 1], f) + f(ks[|ks| - 1])
  }

  function Times(weight: real, value: real): real {
    weight * value
  }

  /** Every value counted as often as it occurs. */
  ghost function Weighted<K(!new)>(ks: seq<K>, f: K -> real): K -> real {
    k => Times(multiset(ks)[k] as real, f(k))
  }

  /** One value more. */
  lemma WeightedNext<K(!new)>(ks: seq<K>, last: K, f: K -> real)
    ensures Weighted(ks + [last], f)(last) == Weighted(ks, f)(last) + f(last)
    ensures forall k :: k != last ==> Weighted(ks + [last], f)(k) == Weighted(ks, f)(k)
  {
    var n, v := multiset(ks)[last], f(last);
    assert multiset(ks + [last])[last] == n + 1;
    assert (n + 1) as real * v == n as real * v + v;
  }

  lemma WeightlessTotal<K(!new)>(s: set<K>, f: K -> real)
    ensures Sum(s, Weighted([], f)) == 0.0
  {
    SumScale(s, 0.0, f);
    SumCongruence(s, Weighted([], f), Scaled(0.0, f));
  }

  /** Summing over a sequence is summing over its values with their multiplicities. */
  lemma {:induction false} WeightedTotal<K(!new)>(s: set<K>, ks: seq<K>, f: K -> real)
    requires forall k :: k in ks ==> k in s
    ensures Sum(s, Weighted(ks, f)) == SeqSum(ks, f)
  {
    hide Weighted, Sum;
    if ks == [] {
      WeightlessTotal(s, f);
    } else {
      var init, last := ks[..|ks| - 1], ks[|ks| - 1];
      assert ks == init + [last];
      WeightedTotal(s, init, f);
      WeightedNext(init, last, f);
      SumRaise(s, Weighted(init, f), Weighted(ks, f), last, f(last));
    }
  }

  ghost function Row<A(!new), B(!new)>(cells: set<(A, B)>, x: A): set<(A, B)> {
    set p | p in cells && p.0 == x
  }

  ghost function OnRow<A(!new), B(!new)>(h: ((A, B)) -> real, x: A): B -> real {
    y => h((x, y))
  }

  /** Some cells of a row sum to at most the whole row. */
  lemma {:induction false} RowBound<A(!new), B(!new)>(row: set<(A, B)>, x: A, ys: set<B>, h: ((A, B)) -> real)
    requires forall p :: p in row ==> p.0 == x && p.1 in ys
    requires forall y :: y in ys ==> h((x, y)) >= 0.0
    ensures Sum(row, h) <= Sum(ys, OnRow(h, x))
    decreases row
  {
    var g := OnRow(h, x);
    if row == {} {
      SumNonNegative(ys, g);
    } else {
      var p :| p in row;
      SumRemove(row, h, p);
      SumRemove(ys, g, p.1);
      forall q | q in row - {p}
        ensures q.0 == x && q.1 in ys - {p.1}
      {
        assert q != p && p.0 == x;
      }
      RowBound(row - {p}, x, ys - {p.1}, h);
      assert p == (x, p.1);
    }
  }

  /** A bound on every row bounds the sum of all cells. */
  lemma {:induction false} RowsBound<A(!new), B(!new)>(cells: set<(A, B)>, xs: set<A>, h: ((A, B)) -> real,
                                                       bound: A -> real)
    requires forall p :: p in cells ==> p.0 in xs
    requires forall x :: x in xs ==> Sum(Row(cells, x), h) <= bound(x)
    ensures Sum(cells, h) <= Sum(xs, bound)
    decreases xs
  {
    if xs == {} {
      assert cells == {};
    } else {
      var x :| x in xs;
      var rest := cells - Row(cells, x);
      assert cells == Row(cells, x) + rest;
      SumDisjoint(Row(cells, x), rest, h);
      assert forall x' :: x' in xs - {x} ==> Row(rest, x') == Row(cells, x');
      RowsBound(rest, xs - {x}, h, bound);
      SumRemove(xs, bound, x);
    }
  }

  lemma ScaledUnit<K(!new)>(s: set<K>, c: real, f: K -> real)
    requires Sum(s, f) == 1.0
    ensures Sum(s, Scaled(c, f)) == c
  {
    SumScale(s, c, f);
  }

  /** Over some cells of a grid, the products of two probability vectors sum to at most one. */
  lemma ProductBound<A(!new), B(!new)>(cells: set<(A, B)>, xs: set<A>, ys: set<B>, f: A -> real, g: B -> real)
    requires forall p :: p in cells ==> p.0 in xs && p.1 in ys
    requires (forall x :: x in xs ==> f(x) >= 0.0) && Sum(xs, f) == 1.0
    requires (forall y :: y in ys ==> g(y) >= 0.0) && Sum(ys, g) == 1.0
    ensures Sum(cells, Products(f, g)) <= 1.0
  {
    forall x | x in xs
      ensures Sum(Row(cells, x), Products(f, g)) <= f(x)
    {
      ProductRow(Row(cells, x), x, ys, f, g);
    }
    RowsBound(cells, xs, Products(f, g), f);
  }

  lemma ProductRowSum<A(!new), B(!new)>(x: A, ys: set<B>, f: A -> real, g: B -> real)
    requires Sum(ys, g) == 1.0
    ensures Sum(ys, OnRow(Products(f, g), x)) == f(x)
  {
    forall y | y in ys
      ensures OnRow(Products(f, g), x)(y) == Scaled(f(x), g)(y)
    {
      assert Products(f, g)((x, y)) == f(x) * g(y);
    }
    SumCongruence(ys, OnRow(Products(f, g), x), Scaled(f(x), g));
    ScaledUnit(ys, f(x), g);
  }

  lemma ProductRow<A(!new), B(!new)>(row: set<(A, B)>, x: A, ys: set<B>, f: A -> real, g: B -> real)
    requires forall p :: p in row ==> p.0 == x && p.1 in ys
    requires f(x) >= 0.0 && (forall y :: y in ys ==> g(y) >= 0.0) && Sum(ys, g) == 1.0
    ensures Sum(row, Products(f, g)) <= f(x)
  {
    ProductRowSum(x, ys, f, g);
    RowBound(row, x, ys, Products(f, g));
  }
}
