/** Rating of usage (crates/common/src/credit.rs): proportional, rounded down, capped at i64::MAX. */
module Rating {
  import opened Base

  /** The proportional price before the cap; 0 for a missing or non-positive rule. */
  function RawRate(unitSize: int, price: int, units: nat): nat {
    if unitSize <= 0 || price <= 0 then 0 else units * price / unitSize
  }

  function Rate(unitSize: int, price: int, units: nat): int {
    if unitSize <= 0 || price <= 0 || units == 0 then 0
    else
      var micro := units * price / unitSize;
      if micro < I64_MAX then micro else I64_MAX
  }

  function Min(a: int, b: int): int { if a < b then a else b }

  lemma RateIsCapped(unitSize: int, price: int, units: nat)
    ensures Rate(unitSize, price, units) == Min(RawRate(unitSize, price, units), I64_MAX)
    ensures 0 <= Rate(unitSize, price, units) <= I64_MAX
  {
  }

  /** The price is `units * price / unitSize` rounded down: the largest whole amount whose `unitSize`-fold does not
      exceed `units * price`. A missing or non-positive rule costs nothing. */
  lemma RawRateIsFloor(unitSize: int, price: int, units: nat)
    ensures unitSize <= 0 || price <= 0 ==> RawRate(unitSize, price, units) == 0
    ensures unitSize > 0 && price > 0 ==>
              var r := RawRate(unitSize, price, units); r * unitSize <= units * price < (r + 1) * unitSize
  {
    if unitSize > 0 && price > 0 {
      var x := units * price;
      assert x == unitSize * (x / unitSize) + x % unitSize;
    }
  }

  /** Whole units cost their price each, capped, and less than one unit's worth of a micro-credit costs nothing. */
  lemma RateOfWholeUnits(unitSize: int, price: int, k: nat, units: nat)
    requires unitSize > 0 && price > 0
    ensures Rate(unitSize, price, k * unitSize) == Min(k * price, I64_MAX)
    ensures units * price < unitSize <==> Rate(unitSize, price, units) == 0
  {
    RateIsCapped(unitSize, price, k * unitSize);
    assert k * unitSize * price == unitSize * (k * price) + 0;
    QuotientOf(k * unitSize * price, unitSize, k * price, 0);
    RateIsCapped(unitSize, price, units);
    RawRateIsFloor(unitSize, price, units);
    FloorIsZero(units * price, unitSize);
  }

  lemma FloorIsZero(x: nat, u: int)
    requires u > 0
    ensures x / u == 0 <==> x < u
  {
    assert x == u * (x / u) + x % u;
    if x < u { QuotientOf(x, u, 0, x); }
  }

  lemma QuotientBounds(x: int, y: int, u: int)
    requires u > 0
    ensures x / u + y / u <= (x + y) / u <= x / u + y / u + 1
  {
    var rest := x % u + y % u;
    assert x + y == u * (x / u + y / u) + rest;
    if rest < u {
      QuotientOf(x + y, u, x / u + y / u, rest);
    } else {
      assert x + y == u * (x / u + y / u + 1) + (rest - u);
      QuotientOf(x + y, u, x / u + y / u + 1, rest - u);
    }
  }

  lemma QuotientOf(x: int, u: int, q: int, r: int)
    requires u > 0 && x == u * q + r && 0 <= r < u
    ensures x / u == q
  {
    var d := x / u - q;
    assert u * d == r - x % u;
    MultipleIsFar(u, d);
  }

  lemma MultipleIsFar(u: int, d: int)
    requires u > 0
    ensures d >= 1 ==> u * d >= u
    ensures d <= -1 ==> u * d <= -u
  {
    if d >= 1 {
      assert u * d == u + u * (d - 1);
    } else if d <= -1 {
      assert u * d == -u + u * (d + 1);
    }
  }

  /** Splitting usage in two loses at most one micro-credit and never gains any. */
  lemma RawRateOfSum(unitSize: int, price: int, a: nat, b: nat)
    ensures RawRate(unitSize, price, a) + RawRate(unitSize, price, b) <= RawRate(unitSize, price, a + b)
    ensures RawRate(unitSize, price, a + b) <= RawRate(unitSize, price, a) + RawRate(unitSize, price, b) + 1
  {
    if unitSize > 0 && price > 0 {
      assert (a + b) * price == a * price + b * price;
      QuotientBounds(a * price, b * price, unitSize);
    }
  }

  lemma RawRateMonotone(unitSize: int, price: int, a: nat, b: nat)
    requires a <= b
    ensures RawRate(unitSize, price, a) <= RawRate(unitSize, price, b)
    ensures Rate(unitSize, price, a) <= Rate(unitSize, price, b)
  {
    RawRateOfSum(unitSize, price, a, b - a);
    RateIsCapped(unitSize, price, a);
    RateIsCapped(unitSize, price, b);
  }

  function Sum(slices: seq<nat>): nat {
    if slices == [] then 0 else Sum(slices[..|slices| - 1]) + slices[|slices| - 1]
  }

  function SumRaw(unitSize: int, price: int, slices: seq<nat>): nat {
    if slices == [] then 0
    else SumRaw(unitSize, price, slices[..|slices| - 1]) + RawRate(unitSize, price, slices[|slices| - 1])
  }

  function SumRate(unitSize: int, price: int, slices: seq<nat>): int {
    if slices == [] then 0
    else SumRate(unitSize, price, slices[..|slices| - 1]) + Rate(unitSize, price, slices[|slices| - 1])
  }

  lemma {:induction false} SlicedRawRate(unitSize: int, price: int, slices: seq<nat>)
    ensures SumRaw(unitSize, price, slices) <= RawRate(unitSize, price, Sum(slices))
    ensures slices != [] ==> RawRate(unitSize, price, Sum(slices)) <= SumRaw(unitSize, price, slices) + |slices| - 1
  {
    if |slices| == 1 {
      assert slices[..0] == [];
    } else if slices != [] {
      SlicedRawRate(unitSize, price, slices[..|slices| - 1]);
      RawRateOfSum(unitSize, price, Sum(slices[..|slices| - 1]), slices[|slices| - 1]);
    }
  }

  /** Capping each slice: either nothing was capped, or the sum is already at the cap. */
  lemma {:induction false} SlicedCap(unitSize: int, price: int, slices: seq<nat>)
    ensures 0 <= SumRate(unitSize, price, slices) <= SumRaw(unitSize, price, slices)
    ensures SumRate(unitSize, price, slices) < I64_MAX ==>
              SumRate(unitSize, price, slices) == SumRaw(unitSize, price, slices)
  {
    if slices != [] {
      SlicedCap(unitSize, price, slices[..|slices| - 1]);
      RateIsCapped(unitSize, price, slices[|slices| - 1]);
    }
  }

  /** Rating n slices separately costs at most n - 1 micro-credits less than rating the whole, always; it
      never costs more exactly when the sum of the slices' prices is itself within the i64 range. */
  lemma SlicedRate(unitSize: int, price: int, slices: seq<nat>)
    requires slices != []
    ensures Rate(unitSize, price, Sum(slices)) <= SumRate(unitSize, price, slices) + |slices| - 1
    ensures SumRate(unitSize, price, slices) <= Rate(unitSize, price, Sum(slices)) <==>
              SumRate(unitSize, price, slices) <= I64_MAX
  {
    SlicedRawRate(unitSize, price, slices);
    SlicedCap(unitSize, price, slices);
    RateIsCapped(unitSize, price, Sum(slices));
  }

  /** The product never overflows the 128-bit intermediate: a u64 times a positive i64. */
  lemma ProductFitsU128(units: U64, price: int)
    requires 0 <= price <= I64_MAX
    ensures 0 <= units * price < TWO_64 * TWO_64
  {
    ProductBound(units, price, TWO_64 - 1, I64_MAX);
  }

  lemma ProductBound(a: int, b: int, x: int, y: int)
    requires 0 <= a <= x && 0 <= b <= y
    ensures 0 <= a * b <= x * y
  {
    assert (x - a) * b >= 0 && x * (y - b) >= 0;
  }
}
