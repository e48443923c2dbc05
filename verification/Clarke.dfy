/** The q31 Clarke transform and its inverse. */
module Clarke {
  import opened Bits
  import opened FixedPoint

  const INV_SQRT3 := 0x24F3_4E8B      // 1/sqrt(3) in 2.30 format
  const TWO_INV_SQRT3 := 0x49E6_9D16  // 2/sqrt(3) in 2.30 format
  const HALF_SQRT3 := 0x6ED9_EBA1     // sqrt(3)/2 in 1.31 format

  /** The largest magnitude of Ib whose second product fits 32 bits. */
  const IB_LIMIT := 1859775393

  function Product1(ia: int): int { ToSigned32(ia * INV_SQRT3 / 0x4000_0000) }

  function Product2(ib: int): int { ToSigned32(ib * TWO_INV_SQRT3 / 0x4000_0000) }

  /** Ialpha and Ibeta. */
  function Forward(ia: int, ib: int): (r: (int, int))
    requires Int32(ia) && Int32(ib)
  {
    (ia, QAdd(Product1(ia), Product2(ib)))
  }

  /** Ia and Ib. */
  function Inverse(alpha: int, beta: int): (r: (int, int))
    requires Int32(alpha) && Int32(beta)
  {
    var product1 := ToSigned32(alpha * 0x4000_0000 / 0x8000_0000);
    var product2 := ToSigned32(beta * HALF_SQRT3 / 0x8000_0000);
    (alpha, QSub(product2, product1))
  }

  /** The forward transform is documented as free of overflow; its second product overflows its
      cast exactly for magnitudes of Ib above the limit, and the first never does. */
  lemma ProductsFitExactly(ia: int, ib: int)
    requires Int32(ia) && Int32(ib)
    ensures Product1(ia) == ia * INV_SQRT3 / 0x4000_0000
    ensures Product2(ib) == ib * TWO_INV_SQRT3 / 0x4000_0000 <==> -IB_LIMIT <= ib <= IB_LIMIT
  {
  }

  /** The constants are the nearest below 2^30 / sqrt(3), twice that, and the nearest below
      2^31 * sqrt(3) / 2. */
  lemma Roots()
    ensures 3 * INV_SQRT3 * INV_SQRT3 <= 0x1000_0000_0000_0000 < 3 * (INV_SQRT3 + 1) * (INV_SQRT3 + 1)
    ensures TWO_INV_SQRT3 == 2 * INV_SQRT3
    ensures 4 * HALF_SQRT3 * HALF_SQRT3 <= 3 * 0x4000_0000_0000_0000 < 4 * (HALF_SQRT3 + 1) * (HALF_SQRT3 + 1)
  {
  }

  /** The transform: Ialpha is Ia, and Ibeta is (Ia + 2 * Ib) / sqrt(3) within two units below, where
      the second product and the sum fit. */
  lemma ForwardMeaning(ia: int, ib: int)
    requires Int32(ia) && -IB_LIMIT <= ib <= IB_LIMIT && Int32(Product1(ia) + Product2(ib))
    ensures Forward(ia, ib).0 == ia
    ensures -0x8000_0000 < 0x4000_0000 * Forward(ia, ib).1 - 0x24F3_4E8B * (ia + 2 * ib) <= 0
  {
    ForwardValue(ia, ib);
    ProductsFitExactly(ia, ib);
  }

  /** The inverse: Ib is -Ialpha / 2 + sqrt(3) / 2 * Ibeta within a unit, where that fits. */
  lemma InverseMeaning(alpha: int, beta: int)
    requires Int32(alpha) && Int32(beta)
    requires -0x8000_0000 <= beta * HALF_SQRT3 / 0x8000_0000 - alpha / 2 <= 0x7FFF_FFFF
    ensures Inverse(alpha, beta).0 == alpha
    ensures -0x8000_0000 < 0x8000_0000 * Inverse(alpha, beta).1 - (0x6ED9_EBA1 * beta - 0x4000_0000 * alpha) <= 0x4000_0000
  {
    InverseValue(alpha, beta);
    assert alpha * 0x4000_0000 / 0x8000_0000 == alpha / 2;
  }

  /** The forward sum leaves the 32-bit range by so little that its saturation does no harm. */
  predicate NearlyFits(ia: int, ib: int) {
    -0x8000_0000 - 4 <= Product1(ia) + Product2(ib) <= 0x7FFF_FFFF + 2
  }

  /** Ia comes back exactly and Ib within four units; the final subtraction may saturate, but
      only towards Ib. */
  lemma RoundTrip(ia: int, ib: int)
    requires Int32(ia) && -IB_LIMIT <= ib <= IB_LIMIT && NearlyFits(ia, ib)
    ensures Int32(Forward(ia, ib).1)
    ensures var back := Inverse(Forward(ia, ib).0, Forward(ia, ib).1);
      && back.0 == ia && ib - 4 <= back.1 <= ib + 4
      && (Int32(Product1(ia) + Product2(ib)) ==> back.1 <= ib + 2)
  {
    ForwardValue(ia, ib);
    InverseValue(ia, Forward(ia, ib).1);
    ProductsFitExactly(ia, ib);
    hide Product1, Product2;
    BackError(ia, ib);
    BackFromSum(Product1(ia) + Product2(ib), ia, ib);
    SumDecides(Product1(ia) + Product2(ib), ia, ib);
  }

  /** For all currents: Ib comes back within four units exactly when the second product fits and,
      where the forward sum saturates, Ib + Ia/2 does not exceed what the bound carries back. */
  lemma RoundTripExactly(ia: int, ib: int)
    requires Int32(ia) && Int32(ib)
    ensures Int32(Forward(ia, ib).1)
    ensures var back := Inverse(Forward(ia, ib).0, Forward(ia, ib).1).1;
      var sum := Product1(ia) + Product2(ib);
      ib - 4 <= back <= ib + 4 <==>
        && -IB_LIMIT <= ib <= IB_LIMIT
        && (sum > 0x7FFF_FFFF ==> ib + ia / 2 <= IB_LIMIT + 3)
        && (sum < -0x8000_0000 ==> ib + ia / 2 >= -IB_LIMIT - 4)
  {
    ForwardValue(ia, ib);
    InverseValue(ia, Forward(ia, ib).1);
    ProductsFitExactly(ia, ib);
    if -IB_LIMIT <= ib <= IB_LIMIT {
      hide Product1, Product2;
      BackError(ia, ib);
      BackFromSum(Product1(ia) + Product2(ib), ia, ib);
    } else {
      RoundTripFailsBeyondLimit(ia, ib);
    }
  }

  /** The inverse applied to a saturated forward sum `s`. */
  lemma BackFromSum(s: int, ia: int, ib: int)
    requires Int32(ia) && -IB_LIMIT <= ib <= IB_LIMIT
    requires ib - 4 <= s * HALF_SQRT3 / 0x8000_0000 - ia * 0x4000_0000 / 0x8000_0000 <= ib + 2
    ensures var back := Back(Clamp(s, -0x8000_0000, 0x7FFF_FFFF), ia);
      && (Int32(s) ==> ib - 4 <= back <= ib + 2)
      && (s > 0x7FFF_FFFF ==> (ib - 4 <= back <= ib + 4 <==> ib + ia / 2 <= IB_LIMIT + 3))
      && (s < -0x8000_0000 ==> (ib - 4 <= back <= ib + 4 <==> ib + ia / 2 >= -IB_LIMIT - 4))
  {
    assert ia * 0x4000_0000 / 0x8000_0000 == ia / 2;
  }

  /** The sum decides alone but for the two values next above and the one next below that harm some
      pairs and not others. */
  lemma SumDecides(s: int, ia: int, ib: int)
    requires Int32(ia) && -IB_LIMIT <= ib <= IB_LIMIT
    requires s == ia * INV_SQRT3 / 0x4000_0000 + ib * TWO_INV_SQRT3 / 0x4000_0000
    ensures 0x7FFF_FFFF < s <= 0x7FFF_FFFF + 2 ==> ib + ia / 2 <= IB_LIMIT + 3
    ensures -0x8000_0000 - 4 <= s < -0x8000_0000 ==> ib + ia / 2 >= -IB_LIMIT - 4
    ensures s >= 0x7FFF_FFFF + 5 ==> ib + ia / 2 > IB_LIMIT + 3
    ensures s <= -0x8000_0000 - 6 ==> ib + ia / 2 < -IB_LIMIT - 4
  {
  }

  /** Ib as the inverse computes it from exact products. */
  function Back(beta: int, alpha: int): int {
    Clamp(beta * HALF_SQRT3 / 0x8000_0000 - alpha * 0x4000_0000 / 0x8000_0000, -0x8000_0000, 0x7FFF_FFFF)
  }

  lemma BackProducts(alpha: int, beta: int)
    requires Int32(alpha) && Int32(beta)
    ensures var q1, q2 := alpha * 0x4000_0000 / 0x8000_0000, beta * HALF_SQRT3 / 0x8000_0000;
      ToSigned32(q1) == q1 && ToSigned32(q2) == q2 && Int32(q1) && Int32(q2)
  {
  }

  lemma BackError(ia: int, ib: int)
    requires Int32(ia) && Int32(ib)
    ensures var s := ia * INV_SQRT3 / 0x4000_0000 + ib * TWO_INV_SQRT3 / 0x4000_0000;
      ib - 4 <= s * HALF_SQRT3 / 0x8000_0000 - ia * 0x4000_0000 / 0x8000_0000 <= ib + 2
  {
  }

  lemma ForwardValue(ia: int, ib: int)
    requires Int32(ia) && Int32(ib)
    ensures Forward(ia, ib).0 == ia
    ensures Forward(ia, ib).1 == Clamp(ia * INV_SQRT3 / 0x4000_0000 + Product2(ib), -0x8000_0000, 0x7FFF_FFFF)
  {
    hide ClipQ63ToQ31;
    ProductsFitExactly(ia, ib);
    ClipQ63ToQ31IsClamp(Product1(ia) + Product2(ib));
  }

  lemma InverseValue(alpha: int, beta: int)
    requires Int32(alpha) && Int32(beta)
    ensures Inverse(alpha, beta).0 == alpha && Inverse(alpha, beta).1 == Back(beta, alpha)
  {
    hide ClipQ63ToQ31, ToSigned32;
    BackProducts(alpha, beta);
    ClipQ63ToQ31IsClamp(beta * HALF_SQRT3 / 0x8000_0000 - alpha * 0x4000_0000 / 0x8000_0000);
  }

  /** Beyond the limit the wrapped product always spoils the round trip, saturated or not. */
  lemma RoundTripFailsBeyondLimit(ia: int, ib: int)
    requires Int32(ia) && Int32(ib) && !(-IB_LIMIT <= ib <= IB_LIMIT)
    ensures Int32(Forward(ia, ib).1)
    ensures var back := Inverse(Forward(ia, ib).0, Forward(ia, ib).1).1; back < ib - 4 || back > ib + 4
  {
    ForwardValue(ia, ib);
    InverseValue(ia, Forward(ia, ib).1);
    WrappedProduct(ib);
    hide Forward, Inverse, Product2;
    BeyondLimit(ia, ib, Product2(ib));
  }

  lemma WrappedProduct(ib: int)
    requires Int32(ib)
    ensures ib > IB_LIMIT ==> Product2(ib) == ib * TWO_INV_SQRT3 / 0x4000_0000 - 0x1_0000_0000
    ensures ib < -IB_LIMIT ==> Product2(ib) == ib * TWO_INV_SQRT3 / 0x4000_0000 + 0x1_0000_0000
  {
  }

  lemma BeyondLimit(ia: int, ib: int, p2: int)
    requires Int32(ia) && Int32(ib) && !(-IB_LIMIT <= ib <= IB_LIMIT)
    requires p2 == ib * TWO_INV_SQRT3 / 0x4000_0000 + if ib > 0 then -0x1_0000_0000 else 0x1_0000_0000
    ensures var s := Clamp(ia * INV_SQRT3 / 0x4000_0000 + p2, -0x8000_0000, 0x7FFF_FFFF);
      Back(s, ia) < ib - 4 || Back(s, ia) > ib + 4
  {
  }

  /** Below the limit, a forward sum five or more above or six or more below the range spoils it too. */
  lemma RoundTripFailsWhenSaturated(ia: int, ib: int)
    requires Int32(ia) && -IB_LIMIT <= ib <= IB_LIMIT
    requires Product1(ia) + Product2(ib) >= 0x7FFF_FFFF + 5 || Product1(ia) + Product2(ib) <= -0x8000_0000 - 6
    ensures Int32(Forward(ia, ib).1)
    ensures var back := Inverse(Forward(ia, ib).0, Forward(ia, ib).1).1; back < ib - 4 || back > ib + 4
  {
    ForwardValue(ia, ib);
    InverseValue(ia, Forward(ia, ib).1);
    ProductsFitExactly(ia, ib);
    hide Forward, Inverse, Product1, Product2;
    BackError(ia, ib);
    BackFromSum(Product1(ia) + Product2(ib), ia, ib);
    SumDecides(Product1(ia) + Product2(ib), ia, ib);
  }
}
