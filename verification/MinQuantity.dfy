/** The smallest quantity Bybit accepts for a price (aoe/bybit/order_min_qty_calculator/calculator.h). */
module MinQuantity {
  import opened Basics

  datatype Filter = Filter(tickSize: real, basePrecision: real, minQty: real, maxQty: real, minAmount: real,
                           maxAmount: real)

  const EPS: real := 0.000000000001

  function Ceil(x: real): int {
    -(-x).Floor
  }

  /** Half away from zero. */
  function Round(x: real): int {
    if x >= 0.0 then (x + 0.5).Floor else -(0.5 - x).Floor
  }

  function Abs(x: real): real {
    if x < 0.0 then -x else x
  }

  function Larger(x: real, y: real): real {
    if x < y then y else x
  }

  function RoundUpToStep(value: real, step: real): real
    requires step != 0.0
  {
    Ceil(value / step) as real * step
  }

  predicate IsAligned(value: real, step: real)
    requires step != 0.0
  {
    Abs(value - Round(value / step) as real * step) < EPS
  }

  function Notional(q: real, price: real): real {
    q * price
  }

  function Calculate(f: Filter, price: real): Option<real>
    requires price != 0.0 && f.tickSize != 0.0 && f.basePrecision != 0.0
  {
    if !IsAligned(price, f.tickSize) then None else
    var stepped := RoundUpToStep(Larger(f.minQty, f.minAmount / price), f.basePrecision);
    if stepped > f.maxQty then None
    else if Notional(stepped, price) < f.minAmount || Notional(stepped, price) > f.maxAmount then None
    else Some(stepped)
  }

  // ----- What it is for -----

  ghost predicate MultipleOf(step: real, q: real) {
    exists k: int :: q == Times(k, step)
  }

  function Times(k: int, step: real): real {
    k as real * step
  }

  /** The quantity is enough: by itself and in money. */
  predicate Enough(f: Filter, price: real, q: real) {
    q >= f.minQty && Notional(q, price) >= f.minAmount
  }

  predicate NotTooMuch(f: Filter, price: real, q: real) {
    q <= f.maxQty && Notional(q, price) <= f.maxAmount
  }

  ghost predicate Acceptable(f: Filter, price: real, q: real) {
    MultipleOf(f.basePrecision, q) && Enough(f, price, q) && NotTooMuch(f, price, q)
  }

  ghost predicate LeastEnough(f: Filter, price: real, q: real) {
    && MultipleOf(f.basePrecision, q) && Enough(f, price, q)
    && forall other :: MultipleOf(f.basePrecision, other) && Enough(f, price, other) ==> q <= other
  }

  function Product(x: real, y: real): real {
    x * y
  }

  lemma ProductGrows(a: real, b: real, c: real)
    requires a < b && c > 0.0
    ensures Product(a, c) < Product(b, c)
  {
    assert (b - a) * c > 0.0;
    assert (b - a) * c == b * c - a * c;
  }

  lemma TimesMonotone(a: real, b: real, c: real)
    requires c > 0.0
    ensures a <= b <==> Product(a, c) <= Product(b, c)
    ensures a < b <==> Product(a, c) < Product(b, c)
  {
    if a < b {
      ProductGrows(a, b, c);
    } else if b < a {
      ProductGrows(b, a, c);
    }
  }

  lemma Divides(x: real, y: real, c: real)
    requires c > 0.0
    ensures x / c <= y <==> x <= Product(y, c)
    ensures Product(x / c, c) == x
  {
    TimesMonotone(x / c, y, c);
  }

  /** Rounding up gives the least multiple of the step that is not below the value. */
  lemma RoundUpIsLeast(value: real, step: real, q: real)
    requires step > 0.0
    ensures RoundUpToStep(value, step) >= value && MultipleOf(step, RoundUpToStep(value, step))
    ensures MultipleOf(step, q) && q >= value ==> q >= RoundUpToStep(value, step)
  {
    var c := Ceil(value / step);
    assert RoundUpToStep(value, step) == Times(c, step);
    Divides(value, c as real, step);
    if MultipleOf(step, q) && q >= value {
      var k: int :| q == Times(k, step);
      Divides(value, k as real, step);
      assert c <= k;
      TimesMonotone(c as real, k as real, step);
    }
  }

  /** Rounding gives the nearest integer. */
  lemma RoundIsNearest(x: real, k: int)
    ensures Abs(x - Round(x) as real) <= Abs(x - k as real)
  {
    var r := Round(x);
    assert -0.5 <= x - r as real <= 0.5;
    if k > r {
      assert k as real >= r as real + 1.0;
    } else if k < r {
      assert k as real <= r as real - 1.0;
    }
  }

  /** The distance to a multiple of the step, in steps. */
  function Gap(value: real, k: int, step: real): real
    requires step != 0.0
  {
    Abs(value / step - k as real)
  }

  lemma GapScaled(value: real, k: int, step: real)
    requires step > 0.0
    ensures Abs(value - Times(k, step)) == Product(Gap(value, k, step), step)
  {
    Divides(value, k as real, step);
    var d := value / step - k as real;
    assert value - Times(k, step) == Product(d, step);
    TimesMonotone(d, 0.0, step);
  }

  lemma NearestMultiple(value: real, r: int, k: int, step: real)
    requires step > 0.0 && Gap(value, r, step) <= Gap(value, k, step)
    ensures Abs(value - Times(r, step)) <= Abs(value - Times(k, step))
  {
    GapScaled(value, k, step);
    GapScaled(value, r, step);
    TimesMonotone(Gap(value, r, step), Gap(value, k, step), step);
  }

  /** A value is aligned exactly if it is within the tolerance of some multiple of the step. */
  lemma AlignedExactlyIf(value: real, step: real)
    requires step > 0.0
    ensures IsAligned(value, step) <==> exists k: int :: Abs(value - Times(k, step)) < EPS
  {
    assert IsAligned(value, step) <==> Abs(value - Times(Round(value / step), step)) < EPS;
    if k: int :| Abs(value - Times(k, step)) < EPS {
      RoundIsNearest(value / step, k);
      NearestMultiple(value, Round(value / step), k, step);
    }
  }

  /** Enough is to be not below the larger of the two bounds. */
  lemma EnoughIsRaw(f: Filter, price: real, q: real)
    requires price > 0.0
    ensures Enough(f, price, q) <==> q >= Larger(f.minQty, f.minAmount / price)
  {
    Divides(f.minAmount, q, price);
  }

  lemma SteppedIsLeastEnough(f: Filter, price: real)
    requires price > 0.0 && f.basePrecision > 0.0
    ensures LeastEnough(f, price, RoundUpToStep(Larger(f.minQty, f.minAmount / price), f.basePrecision))
  {
    var raw := Larger(f.minQty, f.minAmount / price);
    var q := RoundUpToStep(raw, f.basePrecision);
    RoundUpIsLeast(raw, f.basePrecision, q);
    EnoughIsRaw(f, price, q);
    forall other | MultipleOf(f.basePrecision, other) && Enough(f, price, other)
      ensures q <= other
    {
      EnoughIsRaw(f, price, other);
      RoundUpIsLeast(raw, f.basePrecision, other);
    }
  }

  lemma TooMuchStays(f: Filter, price: real, least: real, q: real)
    requires price > 0.0 && LeastEnough(f, price, least) && Acceptable(f, price, q)
    ensures NotTooMuch(f, price, least)
  {
    TimesMonotone(least, q, price);
    assert least <= q && Notional(least, price) <= Notional(q, price);
  }

  /** The calculation succeeds exactly if the price is aligned and some multiple of the step is
      acceptable, and returns the least multiple that is enough. */
  lemma CalculateExactly(f: Filter, price: real)
    requires price > 0.0 && f.tickSize > 0.0 && f.basePrecision > 0.0
    ensures Calculate(f, price).Some? <==> IsAligned(price, f.tickSize) && exists q :: Acceptable(f, price, q)
    ensures Calculate(f, price).Some? ==>
              var q := Calculate(f, price).value;
              Acceptable(f, price, q) && LeastEnough(f, price, q)
  {
    SteppedIsLeastEnough(f, price);
    var least := RoundUpToStep(Larger(f.minQty, f.minAmount / price), f.basePrecision);
    assert Calculate(f, price) ==
           if IsAligned(price, f.tickSize) && NotTooMuch(f, price, least) then Some(least) else None;
    if NotTooMuch(f, price, least) {
      assert Acceptable(f, price, least);
    } else if q :| Acceptable(f, price, q) {
      TooMuchStays(f, price, least, q);
    }
  }
}
