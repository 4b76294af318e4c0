/** Fixed-point currency conversion in units of 10^-8, every step rounded toward zero. */
module Conversion {
  import opened Decimals
  import opened Wrappers

  const UNITS_PER_ONE := 100000000.0

  function Truncate(x: real): int {
    if x >= 0.0 then x.Floor else -(-x).Floor
  }

  /** `x.quantize(Decimal("0.00000001"), rounding=ROUND_DOWN)`, counted in units. */
  function Quantize(x: real): int { Truncate(x * UNITS_PER_ONE) }

  function FromUnits(n: int): real { n as real / UNITS_PER_ONE }

  function UnitsDecimal(n: int): Decimal { Decimal(n < 0, if n < 0 then -n else n, -8) }

  /** `product` is the exact amount times the rate. */
  function GrossUnits(product: real): int { Quantize(product) }

  function FeeUnits(product: real, feeRate: real): int {
    Quantize(FromUnits(GrossUnits(product)) * feeRate)
  }

  function NetUnits(product: real, feeRate: real): int {
    Quantize(FromUnits(GrossUnits(product)) - FromUnits(FeeUnits(product, feeRate)))
  }

  /** The receiver's amount; None where the source refuses a net that is not positive. */
  function NetAmount(product: real, feeRate: real): Option<Decimal> {
    var net := NetUnits(product, feeRate);
    if net <= 0 then None else Some(UnitsDecimal(net))
  }

  /** The exact amount in the receiver's currency, before fee and rounding. */
  function Product(amount: Decimal, rate: real): real { amount.Value() * rate }

  function Convert(amount: Decimal, rate: real, feeRate: real): Option<Decimal> {
    NetAmount(Product(amount, rate), feeRate)
  }

  lemma UnitsDecimalValue(n: int)
    ensures UnitsDecimal(n).Value() == FromUnits(n)
  {
    var x := (if n < 0 then -n else n) as real;
    assert Shift10(x, -8) == Shift10(x, -7) / 10.0;
    assert Shift10(x, -7) == Shift10(x, -6) / 10.0;
    assert Shift10(x, -6) == Shift10(x, -5) / 10.0;
    assert Shift10(x, -5) == Shift10(x, -4) / 10.0;
    assert Shift10(x, -4) == Shift10(x, -3) / 10.0;
    assert Shift10(x, -3) == Shift10(x, -2) / 10.0;
    assert Shift10(x, -2) == Shift10(x, -1) / 10.0;
    assert Shift10(x, -1) == Shift10(x, 0) / 10.0;
  }

  /** Quantizing a whole number of units changes nothing. */
  lemma QuantizeUnits(n: int)
    ensures Quantize(FromUnits(n)) == n
  {
    assert FromUnits(n) * UNITS_PER_ONE == n as real;
  }

  lemma ScaleProduct(g: real, f: real)
    ensures (g / UNITS_PER_ONE) * f * UNITS_PER_ONE == g * f
  {
    var h := g / UNITS_PER_ONE;
    assert h * f * UNITS_PER_ONE == h * UNITS_PER_ONE * f;
  }

  lemma ProductBounds(x: real, f: real)
    requires x >= 0.0 && 0.0 <= f <= 1.0
    ensures 0.0 <= x * f <= x
  {
    assert x * f >= 0.0;
    assert x * (1.0 - f) >= 0.0;
    assert x * (1.0 - f) == x - x * f;
  }

  /** The fee on `g` gross units. */
  function Fee(g: int, feeRate: real): int { (g as real * feeRate).Floor }

  lemma FeeBounds(g: int, feeRate: real)
    requires g >= 0 && 0.0 <= feeRate <= 1.0
    ensures 0 <= Fee(g, feeRate) <= g
  {
    ProductBounds(g as real, feeRate);
  }

  /** What is left of `g` gross units. */
  function Net(g: int, feeRate: real): int { g - Fee(g, feeRate) }

  lemma NetOfUnits(g: int, fee: int)
    ensures Quantize(FromUnits(g) - FromUnits(fee)) == g - fee
  {
    assert FromUnits(g) - FromUnits(fee) == FromUnits(g - fee);
    QuantizeUnits(g - fee);
  }

  lemma FeeOfGross(g: int, feeRate: real)
    requires g >= 0 && 0.0 <= feeRate <= 1.0
    ensures Quantize(FromUnits(g) * feeRate) == Fee(g, feeRate)
  {
    var x := FromUnits(g) * feeRate;
    ProductBounds(FromUnits(g), feeRate);
    ScaleProduct(g as real, feeRate);
    assert x * UNITS_PER_ONE == g as real * feeRate;
  }

  /** The three quantizations on non-negative inputs: gross rounded down, a fee within it, and net = gross - fee. */
  lemma ConversionExact(product: real, feeRate: real)
    requires product >= 0.0 && 0.0 <= feeRate <= 1.0
    ensures 0 <= FeeUnits(product, feeRate) <= GrossUnits(product)
    ensures NetUnits(product, feeRate) == GrossUnits(product) - FeeUnits(product, feeRate)
    ensures GrossUnits(product) == (product * UNITS_PER_ONE).Floor
    ensures FeeUnits(product, feeRate) == Fee(GrossUnits(product), feeRate)
  {
    var g := GrossUnits(product);
    FeeOfGross(g, feeRate);
    FeeBounds(g, feeRate);
    NetOfUnits(g, Fee(g, feeRate));
  }

  lemma NetOfGross(gross: real, feeRate: real)
    requires gross >= 0.0 && 0.0 <= feeRate <= 1.0
    ensures -1.0 < Net(gross.Floor, feeRate) as real - gross * (1.0 - feeRate) < 1.0
  {
    var g := gross.Floor as real;
    var keep := 1.0 - feeRate;
    assert g * keep == g - g * feeRate;
    ProductBounds(gross - g, keep);
    assert (gross - g) * keep == gross * keep - g * keep;
  }

  lemma MulCommutesLast(x: real, u: real, k: real)
    ensures x * u * k == x * k * u
  {
  }

  lemma Rescale(n: int, p: real)
    requires -1.0 < n as real - p * UNITS_PER_ONE < 1.0
    ensures -FromUnits(1) < FromUnits(n) - p < FromUnits(1)
  {
  }

  /** The net credit lies within one unit of the exact product * (1 - fee rate). */
  lemma NetWithinOneUnit(product: real, feeRate: real)
    requires product >= 0.0 && 0.0 <= feeRate <= 1.0
    ensures -FromUnits(1) < FromUnits(NetUnits(product, feeRate)) - product * (1.0 - feeRate) < FromUnits(1)
  {
    ConversionExact(product, feeRate);
    NetOfGross(product * UNITS_PER_ONE, feeRate);
    MulCommutesLast(product, UNITS_PER_ONE, 1.0 - feeRate);
    Rescale(NetUnits(product, feeRate), product * (1.0 - feeRate));
  }

  lemma FloorSlope(x: real, y: real, n: int)
    requires 0.0 <= y - x <= n as real
    ensures 0 <= y.Floor - x.Floor <= n
  {
  }

  lemma ProductOfSum(x: real, d: real, y: real, f: real)
    requires y == x + d
    ensures y * f == x * f + d * f
  {
    assert (x + d) * f == x * f + d * f;
  }

  lemma SumWithin(p: real, q: real, r: real, d: real)
    requires q == p + r && 0.0 <= r <= d
    ensures 0.0 <= q - p <= d
  {
  }

  lemma ProductSlope(x: real, y: real, d: real, f: real)
    requires y == x + d && d >= 0.0 && 0.0 <= f <= 1.0
    ensures 0.0 <= y * f - x * f <= d
  {
    ProductOfSum(x, d, y, f);
    assert 0.0 <= d * f <= d by { ProductBounds(d, f); }
    SumWithin(x * f, y * f, d * f, d);
  }

  lemma FeeSlope(a: int, b: int, feeRate: real)
    requires 0 <= a <= b && 0.0 <= feeRate <= 1.0
    ensures Net(a, feeRate) <= Net(b, feeRate)
    ensures Fee(a, feeRate) <= Fee(b, feeRate)
  {
    ProductSlope(a as real, b as real, (b - a) as real, feeRate);
    FloorSlope(a as real * feeRate, b as real * feeRate, b - a);
  }

  lemma FeeAdditive(a: int, b: int, feeRate: real)
    requires a >= 0 && b >= 0 && 0.0 <= feeRate <= 1.0
    ensures Fee(a, feeRate) + Fee(b, feeRate) <= Fee(a + b, feeRate) <= Fee(a, feeRate) + Fee(b, feeRate) + 1
  {
    assert (a + b) as real * feeRate == a as real * feeRate + b as real * feeRate;
  }

  lemma NetOfSum(x: real, y: real, feeRate: real)
    requires x >= 0.0 && y >= 0.0 && 0.0 <= feeRate <= 1.0
    ensures -1 <= Net((x + y).Floor, feeRate) - Net(x.Floor, feeRate) - Net(y.Floor, feeRate) <= 1
  {
    var g, h, t := x.Floor, y.Floor, (x + y).Floor;
    assert t == g + h || t == g + h + 1;
    FeeAdditive(g, h, feeRate);
    FeeSlope(g + h, t, feeRate);
  }

  /** Splitting a product in two moves the total credit by at most one unit. */
  lemma NetOfSplitProduct(x: real, y: real, feeRate: real)
    requires x >= 0.0 && y >= 0.0 && 0.0 <= feeRate <= 1.0
    ensures -1 <= NetUnits(x + y, feeRate) - NetUnits(x, feeRate) - NetUnits(y, feeRate) <= 1
  {
    ConversionExact(x, feeRate);
    ConversionExact(y, feeRate);
    ConversionExact(x + y, feeRate);
    NetOfSum(x * UNITS_PER_ONE, y * UNITS_PER_ONE, feeRate);
    assert (x + y) * UNITS_PER_ONE == x * UNITS_PER_ONE + y * UNITS_PER_ONE;
  }

  lemma NetOfLargerProduct(x: real, y: real, feeRate: real)
    requires 0.0 <= x <= y && 0.0 <= feeRate <= 1.0
    ensures NetUnits(x, feeRate) <= NetUnits(y, feeRate)
  {
    ConversionExact(x, feeRate);
    ConversionExact(y, feeRate);
    FeeSlope(GrossUnits(x), GrossUnits(y), feeRate);
  }

  lemma DistributeSum(a: real, b: real, k: real)
    requires a >= 0.0 && b >= 0.0 && k > 0.0
    ensures (a + b) * k == a * k + b * k
    ensures a * k >= 0.0 && b * k >= 0.0
  {
  }

  /** A larger transfer never credits less. */
  lemma NetMonotone(a: real, b: real, rate: real, feeRate: real)
    requires 0.0 <= a <= b && rate > 0.0 && 0.0 <= feeRate <= 1.0
    ensures NetUnits(a * rate, feeRate) <= NetUnits(b * rate, feeRate)
  {
    DistributeSum(a, b - a, rate);
    assert a + (b - a) == b;
    NetOfLargerProduct(a * rate, b * rate, feeRate);
  }

  /** Splitting a transfer in two moves the total credit by at most one unit. */
  lemma NetAdditiveWithinOneUnit(a: real, b: real, rate: real, feeRate: real)
    requires a >= 0.0 && b >= 0.0 && rate > 0.0 && 0.0 <= feeRate <= 1.0
    ensures -1 <= NetUnits((a + b) * rate, feeRate) - NetUnits(a * rate, feeRate) - NetUnits(b * rate, feeRate) <= 1
  {
    DistributeSum(a, b, rate);
    NetOfSplitProduct(a * rate, b * rate, feeRate);
  }

  /** Positive and within one unit of `exact`, or refused because `exact` is below one unit. */
  predicate NearExact(net: Option<Decimal>, exact: real) {
    match net
    case Some(d) => d.Value() > 0.0 && -FromUnits(1) < d.Value() - exact < FromUnits(1)
    case None => exact < FromUnits(1)
  }

  /** What is left of a product after the fee, without any rounding. */
  function Exact(product: real, feeRate: real): real { product * (1.0 - feeRate) }

  lemma NegativeProduct(product: real, feeRate: real)
    requires product < 0.0 && 0.0 <= feeRate <= 1.0
    ensures Exact(product, feeRate) <= 0.0 && GrossUnits(product) <= 0
  {
    ProductBounds(-product, 1.0 - feeRate);
    assert product * (1.0 - feeRate) == -(-product * (1.0 - feeRate));
  }

  lemma PartOfNegative(a: real, f: real)
    requires a <= 0.0 && 0.0 <= f <= 1.0
    ensures a <= a * f <= 0.0
  {
    ProductBounds(-a, f);
    assert a * f == -(-a * f);
  }

  lemma NegativeNet(product: real, feeRate: real)
    requires GrossUnits(product) <= 0 && 0.0 <= feeRate <= 1.0
    ensures NetUnits(product, feeRate) <= 0
  {
    var g, fee := GrossUnits(product), FeeUnits(product, feeRate);
    FeeOfNegative(g, feeRate);
    NetOfUnits(g, fee);
  }

  /** The fee on a gross that is not positive is not positive, and no larger than it. */
  lemma FeeOfNegative(g: int, feeRate: real)
    requires g <= 0 && 0.0 <= feeRate <= 1.0
    ensures g <= Quantize(FromUnits(g) * feeRate) <= 0
  {
    var gross := FromUnits(g);
    PartOfNegative(gross, feeRate);
    QuantizeBounds(gross * feeRate, g);
  }

  /** Rounding toward zero stays between zero and any whole number of units beyond. */
  lemma QuantizeBounds(x: real, g: int)
    requires FromUnits(g) <= x <= 0.0
    ensures g <= Quantize(x) <= 0
  {
    var y := x * UNITS_PER_ONE;
    assert g as real <= y <= 0.0;
  }

  /** The credit is within one unit of amount * rate * (1 - fee rate), `product` being amount * rate. */
  lemma NetAmountNearExact(product: real, feeRate: real)
    requires 0.0 <= feeRate <= 1.0
    ensures NearExact(NetAmount(product, feeRate), Exact(product, feeRate))
  {
    var units := NetUnits(product, feeRate);
    if product >= 0.0 {
      NetWithinOneUnit(product, feeRate);
      UnitsDecimalValue(units);
      PositiveUnits(units);
    } else {
      NegativeProduct(product, feeRate);
      NegativeNet(product, feeRate);
    }
  }

  lemma ConvertNearExact(amount: Decimal, rate: real, feeRate: real)
    requires 0.0 <= feeRate <= 1.0
    ensures NearExact(Convert(amount, rate, feeRate), Exact(Product(amount, rate), feeRate))
  {
    var product := Product(amount, rate);
    NetAmountNearExact(product, feeRate);
  }

  lemma PositiveUnits(n: int)
    ensures n > 0 <==> FromUnits(n) > 0.0
  {
  }

  /** 100 at rate 0.92 with a 2% fee credits 90.16: the repository's own test vector. */
  lemma ConversionVector()
    ensures Convert(Decimal(false, 100, 0), 0.92, 0.02) == Some(Decimal(false, 9016000000, -8))
  {
    assert Decimal(false, 100, 0).Value() == 100.0;
    assert Product(Decimal(false, 100, 0), 0.92) == 92.0;
    ConversionExact(92.0, 0.02);
    assert GrossUnits(92.0) == 9200000000;
    assert Fee(9200000000, 0.02) == 184000000;
  }
}
