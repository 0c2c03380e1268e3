/** From the weight of an extrinsic to its fee. */
module WeightFee {
  import opened Common

  /** A coefficient split into its integer part and parts per billion. */
  datatype Coefficient = Coefficient(degree: u8, negative: bool, frac: nat, integer: nat)

  // ----- Fixed-point arithmetic of the framework -----

  /** `p / q` in parts per billion, rounded down. */
  function FromRational(p: nat, q: nat): (parts: nat)
    requires 0 < q && p <= q
  {
    p * 1_000_000_000 / q
  }

  /** `n` billionths, rounded to the nearest whole, down when halfway. */
  function NearestBillionths(n: nat): nat {
    n / 1_000_000_000 + if n % 1_000_000_000 > 500_000_000 then 1 else 0
  }

  /** Parts per billion of `w`; whole billions are split off first so that nothing overflows. */
  function Portion(parts: nat, w: nat): nat {
    w / 1_000_000_000 * parts + NearestBillionths(w % 1_000_000_000 * parts)
  }

  function Saturate(n: nat): u128 { if n < U128_LIMIT then n else U128_LIMIT - 1 }

  /** The value of a degree-one, positive coefficient at `w`. */
  function Evaluate(c: Coefficient, w: u64): u128 {
    Saturate(Saturate(Portion(c.frac, w)) + Saturate(c.integer * w))
  }

  // ----- The runtime -----

  const MILLICENTS: nat := 1_000_000_000
  const P_FACTOR: nat := 10
  const Q_FACTOR: nat := 100
  const POLY_DEGREE: u8 := 1

  /** The weight of an empty extrinsic: 125000 nanoseconds in picoseconds. */
  const BASE_WEIGHT: nat := 125_000_000

  function Split(p: nat, q: nat): Coefficient
    requires q > 0
  {
    Coefficient(POLY_DEGREE, false, FromRational(p % q, q), p / q)
  }

  function Polynomial(): Coefficient {
    Split(MILLICENTS / P_FACTOR, Q_FACTOR * BASE_WEIGHT)
  }

  // ----- Rounding -----

  /** `r` is nearest to `exact` billionths. */
  predicate IsNearest(exact: nat, r: nat) {
    exact - 500_000_000 <= 1_000_000_000 * r < exact + 500_000_000
  }

  lemma SplitProduct(parts: nat, high: nat, low: nat)
    ensures parts * (1_000_000_000 * high + low) == 1_000_000_000 * (high * parts) + low * parts
  {
    assert parts * (1_000_000_000 * high) == 1_000_000_000 * (high * parts);
  }

  lemma Nearest(n: nat)
    ensures IsNearest(n, NearestBillionths(n))
  {
  }

  /** A portion is the one whole number that is nearest to the exact value. */
  lemma PortionIsNearest(parts: nat, w: nat)
    ensures IsNearest(parts * w, Portion(parts, w))
  {
    var high, low := w / 1_000_000_000, w % 1_000_000_000;
    assert w == 1_000_000_000 * high + low;
    SplitProduct(parts, high, low);
    Nearest(low * parts);
  }

  lemma NearestMonotone(exact: nat, r: nat, more: nat, s: nat)
    requires exact <= more && IsNearest(exact, r) && IsNearest(more, s)
    ensures r <= s
  {
  }

  lemma MulMonotone(a: nat, b: nat, w: nat)
    requires a <= b
    ensures a * w <= b * w
  {
  }

  lemma PortionMonotone(parts: nat, w: nat, heavier: nat)
    requires w <= heavier
    ensures Portion(parts, w) <= Portion(parts, heavier)
  {
    PortionIsNearest(parts, w);
    PortionIsNearest(parts, heavier);
    MulMonotone(w, heavier, parts);
    NearestMonotone(parts * w, Portion(parts, w), parts * heavier, Portion(parts, heavier));
  }

  /** The fee before saturation. */
  function Fee(whole: nat, parts: nat, w: nat): nat { whole * w + Portion(parts, w) }

  lemma SplitExact(p: nat, q: nat, whole: nat, rest: nat, w: nat)
    requires p == q * whole + rest
    ensures p * w == q * (whole * w) + rest * w
  {
    assert (q * whole) * w == q * (whole * w);
  }

  lemma SplitFee(q: nat, a: nat, r: nat)
    ensures q * (a + r) == q * a + q * r
  {
  }

  lemma ScaleBounds(q: nat, exact: nat, r: nat)
    requires q > 0 && IsNearest(exact, r)
    ensures q * exact - 500_000_000 * q <= 1_000_000_000 * (q * r) < q * exact + 500_000_000 * q
  {
    var up := exact + 500_000_000 - 1_000_000_000 * r;
    var down := 1_000_000_000 * r + 500_000_000 - exact;
    assert q * up > 0 && q * down >= 0;
    assert q * up == q * exact + 500_000_000 * q - 1_000_000_000 * (q * r);
    assert q * down == 1_000_000_000 * (q * r) + 500_000_000 * q - q * exact;
  }

  /** The bounds on the parts add up; all arguments are products. */
  lemma Combine(whole: nat, rest: nat, scaled: nat, rounded: nat, q: nat, weight: nat)
    requires scaled <= 1_000_000_000 * rest <= scaled + weight
    requires scaled - 500_000_000 * q <= 1_000_000_000 * rounded < scaled + 500_000_000 * q
    ensures 2 * (whole + rounded) < 2 * (whole + rest) + q
    ensures 1_000_000_000 * (whole + rest) <= 1_000_000_000 * (whole + rounded) + 500_000_000 * q + weight
  {
  }

  lemma NearestFeeIsClose(p: nat, q: nat, whole: nat, rest: nat, parts: nat, r: nat, w: nat)
    requires q > 0 && p == q * whole + rest && IsNearest(parts * w, r)
    requires q * (parts * w) <= 1_000_000_000 * (rest * w) <= q * (parts * w) + q * w
    ensures 2 * (q * (whole * w + r)) < 2 * (p * w) + q
    ensures 1_000_000_000 * (p * w) <= 1_000_000_000 * (q * (whole * w + r)) + 500_000_000 * q + q * w
  {
    ScaleBounds(q, parts * w, r);
    SplitExact(p, q, whole, rest, w);
    SplitFee(q, whole * w, r);
    Combine(q * (whole * w), rest * w, q * (parts * w), q * r, q, q * w);
  }

  lemma DivisionBounds(n: nat, q: nat)
    requires q > 0
    ensures q * (n / q) <= n < q * (n / q) + q
  {
  }

  /** Rounding the fraction down loses less than one part per billion. */
  lemma FractionBounds(rest: nat, q: nat, parts: nat, w: nat)
    requires rest < q && parts == FromRational(rest, q)
    ensures q * (parts * w) <= 1_000_000_000 * (rest * w) <= q * (parts * w) + q * w
  {
    var n, floor := rest * 1_000_000_000, q * parts;
    DivisionBounds(n, q);
    MulMonotone(floor, n, w);
    MulMonotone(n, floor + q, w);
    SplitExact(floor + q, q, parts, q, w);
    assert floor * w == q * (parts * w);
    assert n * w == 1_000_000_000 * (rest * w);
  }

  lemma SplitFeeIsClose(p: nat, q: nat, whole: nat, rest: nat, w: nat)
    requires rest < q && p == q * whole + rest
    ensures var fee := Fee(whole, FromRational(rest, q), w);
            && 2 * (q * fee) < 2 * (p * w) + q
            && 1_000_000_000 * (p * w) <= 1_000_000_000 * (q * fee) + 500_000_000 * q + q * w
  {
    var parts := FromRational(rest, q);
    PortionIsNearest(parts, w);
    FractionBounds(rest, q, parts, w);
    NearestFeeIsClose(p, q, whole, rest, parts, Portion(parts, w), w);
  }

  /** The fee for any coefficient `p / q` is less than one half above the exact value `p * w / q`, and
      at most one half and one billionth of the weight below it. */
  lemma FeeIsClose(p: nat, q: nat, w: nat)
    requires q > 0
    ensures var fee := Fee(p / q, FromRational(p % q, q), w);
            && 2 * (q * fee) < 2 * (p * w) + q
            && 1_000_000_000 * (p * w) <= 1_000_000_000 * (q * fee) + 500_000_000 * q + q * w
  {
    SplitFeeIsClose(p, q, p / q, p % q, w);
  }

  /** A heavier extrinsic never costs less. */
  lemma FeeMonotone(whole: nat, parts: nat, w: nat, heavier: nat)
    requires w <= heavier
    ensures Fee(whole, parts, w) <= Fee(whole, parts, heavier)
  {
    PortionMonotone(parts, w, heavier);
    MulMonotone(w, heavier, whole);
  }

  lemma QuotientAtMost(n: nat, q: nat, k: nat)
    requires 0 < q && n <= k * q
    ensures n / q <= k
  {
    if n / q >= k + 1 {
      MulMonotone(k + 1, n / q, q);
      DivisionBounds(n, q);
    }
  }

  lemma FractionAtMostOne(p: nat, q: nat)
    requires 0 < q && p <= q
    ensures FromRational(p, q) <= 1_000_000_000
  {
    var n := p * 1_000_000_000;
    DivisionBounds(n, q);
    QuotientAtMost(n, q, 1_000_000_000);
  }

  lemma PortionAtMostAll(parts: nat, w: nat)
    requires parts <= 1_000_000_000
    ensures Portion(parts, w) <= w
  {
    PortionIsNearest(parts, w);
    MulMonotone(parts, 1_000_000_000, w);
    NearestMonotone(parts * w, Portion(parts, w), 1_000_000_000 * w, w);
  }

  lemma CapOnce(a: nat, b: nat)
    ensures Saturate(Saturate(a) + Saturate(b)) == Saturate(a + b)
  {
  }

  /** The value of a coefficient is its fee, capped once at the largest balance. */
  lemma EvaluateIsCappedFee(c: Coefficient, w: u64)
    ensures var fee := Fee(c.integer, c.frac, w);
            Evaluate(c, w) == if fee < U128_LIMIT then fee else U128_LIMIT - 1
  {
    MulMonotone(0, c.integer, w);
    CapOnce(Portion(c.frac, w), c.integer * w);
  }

  /** Nothing saturates while the integer part of the coefficient fits 64 bits. */
  lemma NothingSaturates(p: nat, q: nat, w: u64)
    requires q > 0 && p / q < U64_LIMIT
    ensures Evaluate(Split(p, q), w) == Fee(p / q, FromRational(p % q, q), w)
  {
    FractionAtMostOne(p % q, q);
    PortionAtMostAll(FromRational(p % q, q), w);
    MulMonotone(p / q, 0xFFFF_FFFF_FFFF_FFFF, w);
  }

  /** With the constants of the templates one unit of weight costs exactly 1/125: the fee of any
      64-bit weight is the whole number nearest to that, and the weight of an empty extrinsic costs
      exactly a millicent divided by both factors. */
  lemma TemplateFee(w: u64)
    ensures Polynomial() == Coefficient(POLY_DEGREE, false, 8_000_000, 0)
    ensures w - 62 <= 125 * Evaluate(Polynomial(), w) <= w + 62
    ensures Evaluate(Polynomial(), 125_000_000) == 1_000_000 == MILLICENTS / (P_FACTOR * Q_FACTOR)
  {
    assert MILLICENTS / P_FACTOR == 100_000_000 && Q_FACTOR * BASE_WEIGHT == 12_500_000_000;
    assert Polynomial() == Coefficient(POLY_DEGREE, false, 8_000_000, 0);
    PortionIsNearest(8_000_000, w);
  }
}
