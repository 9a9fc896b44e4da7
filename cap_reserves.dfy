/** The two-stage reserve capper: given the last accepted reserves and a candidate
    pair, it first clamps the candidate's LP supply into an exponential band around
    the last supply, then clamps its rate into an exponential band around the last
    rate, one pass each. */
module ReserveCapping {
  import opened RealMath
  import opened ConstantProduct

  /** Ceiling on the step count, applied before any exponentiation. */
  const MAX_CAP_EXPONENT: nat := 14000

  const ZERO_ROW: Pair := [0.0, 0.0]

  /** A two-by-two table indexed `[from][to]`; its diagonal is unused. */
  type Matrix = m: seq<Pair> | |m| == 2 witness [ZERO_ROW, ZERO_ROW]

  /** The step count after the ceiling is applied. */
  function ClampExponent(capExponent: nat): (exponent: nat)
    ensures exponent <= MAX_CAP_EXPONENT
    ensures capExponent <= MAX_CAP_EXPONENT ==> exponent == capExponent
    ensures MAX_CAP_EXPONENT <= capExponent ==> exponent == MAX_CAP_EXPONENT
  {
    if capExponent > MAX_CAP_EXPONENT then MAX_CAP_EXPONENT else capExponent
  }

  // ---------------------------------------------------------------------------
  // Magnitude cap (cap_lp_supply)
  // ---------------------------------------------------------------------------

  /** Largest LP supply allowed after `exponent` steps; positive exactly when the
      growth factor `(1 + maxLpIncrease)^exponent` is. */
  function SupplyCeiling(sqrt: real -> real, last: Pair, exponent: nat, maxLpIncrease: real): (ceiling: real)
    requires IsSqrt(sqrt) && Positive(last)
    ensures 0.0 < ceiling <==> 0.0 < Pow(1.0 + maxLpIncrease, exponent)
  {
    var kLast, factor := LpTokenSupply(sqrt, last), Pow(1.0 + maxLpIncrease, exponent);
    assert 0.0 < kLast * factor <==> 0.0 < factor by {
      if 0.0 < factor {
        assert 0.0 < kLast * factor;
      } else {
        assert kLast * factor <= kLast * 0.0;
      }
    }
    kLast * factor
  }

  /** Smallest LP supply allowed after `exponent` steps; positive exactly when the
      shrink factor `(1 - maxLpDecrease)^exponent` is. */
  function SupplyFloor(sqrt: real -> real, last: Pair, exponent: nat, maxLpDecrease: real): (floor: real)
    requires IsSqrt(sqrt) && Positive(last)
    ensures 0.0 < floor <==> 0.0 < Pow(1.0 - maxLpDecrease, exponent)
  {
    var kLast, factor := LpTokenSupply(sqrt, last), Pow(1.0 - maxLpDecrease, exponent);
    assert 0.0 < kLast * factor <==> 0.0 < factor by {
      if 0.0 < factor {
        assert 0.0 < kLast * factor;
      } else {
        assert kLast * factor <= kLast * 0.0;
      }
    }
    kLast * factor
  }

  /** With a non-negative per-step increase and a per-step decrease in `[0, 1]`, the
      band is non-negative and contains the last supply. */
  lemma BandAroundLast(sqrt: real -> real, last: Pair, exponent: nat,
                        maxLpIncrease: real, maxLpDecrease: real)
    requires IsSqrt(sqrt) && Positive(last)
    ensures 0.0 <= maxLpIncrease ==> LpTokenSupply(sqrt, last) <= SupplyCeiling(sqrt, last, exponent, maxLpIncrease)
    ensures 0.0 <= maxLpDecrease <= 1.0 ==>
              0.0 <= SupplyFloor(sqrt, last, exponent, maxLpDecrease) <= LpTokenSupply(sqrt, last)
  {
    var kLast := LpTokenSupply(sqrt, last);
    var grow, shrink := Pow(1.0 + maxLpIncrease, exponent), Pow(1.0 - maxLpDecrease, exponent);
    assert SupplyCeiling(sqrt, last, exponent, maxLpIncrease) == kLast * grow;
    assert SupplyFloor(sqrt, last, exponent, maxLpDecrease) == kLast * shrink;
    PowAtLeastOne(1.0 + maxLpIncrease, exponent);
    PowAtMostOne(1.0 - maxLpDecrease, exponent);
    assert 1.0 <= grow ==> kLast * 1.0 <= kLast * grow;
    assert 0.0 <= shrink <= 1.0 ==> 0.0 <= kLast * shrink <= kLast * 1.0;
  }

  /** Rescales `candidate` proportionally so that its LP supply lies in the band
      `[SupplyFloor, SupplyCeiling]`; a candidate inside the band is returned as it is. */
  function CapLpSupply(sqrt: real -> real, last: Pair, candidate: Pair, capExponent: nat,
                       maxLpIncrease: real, maxLpDecrease: real): (capped: Pair)
    requires IsSqrt(sqrt) && Positive(last) && Positive(candidate)
    ensures capped[0] * candidate[1] == capped[1] * candidate[0]
    ensures 0.0 < Pow(1.0 + maxLpIncrease, capExponent) ==> Positive(capped)
  {
    var kCandidate := LpTokenSupply(sqrt, candidate);
    var kMax := SupplyCeiling(sqrt, last, capExponent, maxLpIncrease);
    var kMin := SupplyFloor(sqrt, last, capExponent, maxLpDecrease);
    if kCandidate > kMax then
      UnderlyingCrossRatio(kMax, candidate, kCandidate);
      LpTokenUnderlying(kMax, candidate, kCandidate)
    else if kCandidate < kMin then
      UnderlyingCrossRatio(kMin, candidate, kCandidate);
      LpTokenUnderlying(kMin, candidate, kCandidate)
    else
      candidate
  }

  /** The candidate comes back unchanged exactly when its supply lies in the band. */
  lemma LpSupplyKeptIffInBand(sqrt: real -> real, last: Pair, candidate: Pair, capExponent: nat,
                              maxLpIncrease: real, maxLpDecrease: real)
    requires IsSqrt(sqrt) && Positive(last) && Positive(candidate)
    ensures var k := LpTokenSupply(sqrt, candidate);
            CapLpSupply(sqrt, last, candidate, capExponent, maxLpIncrease, maxLpDecrease) == candidate
            <==> SupplyFloor(sqrt, last, capExponent, maxLpDecrease) <= k <= SupplyCeiling(sqrt, last, capExponent, maxLpIncrease)
  {
    var k := LpTokenSupply(sqrt, candidate);
    var kMax := SupplyCeiling(sqrt, last, capExponent, maxLpIncrease);
    var kMin := SupplyFloor(sqrt, last, capExponent, maxLpDecrease);
    var capped := CapLpSupply(sqrt, last, candidate, capExponent, maxLpIncrease, maxLpDecrease);
    if k > kMax {
      UnderlyingIsScaled(kMax, candidate, k);
      assert kMax / k != 1.0;
      assert capped[0] != candidate[0];
    } else if k < kMin {
      UnderlyingIsScaled(kMin, candidate, k);
      assert kMin / k != 1.0;
      assert capped[0] != candidate[0];
    }
  }

  /** Above the band, the candidate is scaled down onto the band's upper edge. */
  lemma LpSupplyCappedAbove(sqrt: real -> real, last: Pair, candidate: Pair, capExponent: nat,
                            maxLpIncrease: real, maxLpDecrease: real)
    requires IsSqrt(sqrt) && Positive(last) && Positive(candidate)
    requires 0.0 < Pow(1.0 + maxLpIncrease, capExponent)
    requires LpTokenSupply(sqrt, candidate) > SupplyCeiling(sqrt, last, capExponent, maxLpIncrease)
    ensures var capped := CapLpSupply(sqrt, last, candidate, capExponent, maxLpIncrease, maxLpDecrease);
            LpTokenSupply(sqrt, capped) == SupplyCeiling(sqrt, last, capExponent, maxLpIncrease)
            && capped[0] / capped[1] == candidate[0] / candidate[1]
  {
    var kMax := SupplyCeiling(sqrt, last, capExponent, maxLpIncrease);
    assert 0.0 < kMax;
    SupplyOfUnderlying(sqrt, kMax, candidate);
    UnderlyingKeepsRatio(kMax, candidate, LpTokenSupply(sqrt, candidate));
  }

  /** Below the band, the candidate is scaled up onto the band's lower edge. */
  lemma LpSupplyCappedBelow(sqrt: real -> real, last: Pair, candidate: Pair, capExponent: nat,
                            maxLpIncrease: real, maxLpDecrease: real)
    requires IsSqrt(sqrt) && Positive(last) && Positive(candidate)
    requires LpTokenSupply(sqrt, candidate) <= SupplyCeiling(sqrt, last, capExponent, maxLpIncrease)
    requires LpTokenSupply(sqrt, candidate) < SupplyFloor(sqrt, last, capExponent, maxLpDecrease)
    ensures var capped := CapLpSupply(sqrt, last, candidate, capExponent, maxLpIncrease, maxLpDecrease);
            Positive(capped)
            && LpTokenSupply(sqrt, capped) == SupplyFloor(sqrt, last, capExponent, maxLpDecrease)
            && capped[0] / capped[1] == candidate[0] / candidate[1]
  {
    var k := LpTokenSupply(sqrt, candidate);
    var kMin := SupplyFloor(sqrt, last, capExponent, maxLpDecrease);
    assert 0.0 < k < kMin;
    UnderlyingIsScaled(kMin, candidate, k);
    assert 0.0 < kMin / k;
    SupplyOfUnderlying(sqrt, kMin, candidate);
    UnderlyingKeepsRatio(kMin, candidate, k);
  }

  /** With no elapsed steps the band collapses to the last supply, so every candidate
      leaves with exactly that supply. */
  lemma LpSupplyZeroExponent(sqrt: real -> real, last: Pair, candidate: Pair,
                             maxLpIncrease: real, maxLpDecrease: real)
    requires IsSqrt(sqrt) && Positive(last) && Positive(candidate)
    ensures var capped := CapLpSupply(sqrt, last, candidate, 0, maxLpIncrease, maxLpDecrease);
            Positive(capped) && LpTokenSupply(sqrt, capped) == LpTokenSupply(sqrt, last)
  {
    var kLast := LpTokenSupply(sqrt, last);
    var k := LpTokenSupply(sqrt, candidate);
    assert SupplyCeiling(sqrt, last, 0, maxLpIncrease) == kLast;
    assert SupplyFloor(sqrt, last, 0, maxLpDecrease) == kLast;
    if k > kLast {
      LpSupplyCappedAbove(sqrt, last, candidate, 0, maxLpIncrease, maxLpDecrease);
    } else if k < kLast {
      LpSupplyCappedBelow(sqrt, last, candidate, 0, maxLpIncrease, maxLpDecrease);
    }
  }

  /** When the band is well formed (the ceiling factor is at least one and the floor
      factor lies in `[0, 1]`), the supply that leaves the magnitude cap lies in it. */
  lemma LpSupplyWithinBand(sqrt: real -> real, last: Pair, candidate: Pair, capExponent: nat,
                           maxLpIncrease: real, maxLpDecrease: real)
    requires IsSqrt(sqrt) && Positive(last) && Positive(candidate)
    requires 0.0 <= maxLpIncrease && 0.0 <= maxLpDecrease <= 1.0
    ensures var capped := CapLpSupply(sqrt, last, candidate, capExponent, maxLpIncrease, maxLpDecrease);
            Positive(capped)
            && SupplyFloor(sqrt, last, capExponent, maxLpDecrease) <= LpTokenSupply(sqrt, capped)
            && LpTokenSupply(sqrt, capped) <= SupplyCeiling(sqrt, last, capExponent, maxLpIncrease)
  {
    var k := LpTokenSupply(sqrt, candidate);
    BandAroundLast(sqrt, last, capExponent, maxLpIncrease, maxLpDecrease);
    assert SupplyFloor(sqrt, last, capExponent, maxLpDecrease) <= SupplyCeiling(sqrt, last, capExponent, maxLpIncrease);
    if k > SupplyCeiling(sqrt, last, capExponent, maxLpIncrease) {
      LpSupplyCappedAbove(sqrt, last, candidate, capExponent, maxLpIncrease, maxLpDecrease);
    } else if k < SupplyFloor(sqrt, last, capExponent, maxLpDecrease) {
      LpSupplyCappedBelow(sqrt, last, candidate, capExponent, maxLpIncrease, maxLpDecrease);
    }
  }

  // ---------------------------------------------------------------------------
  // Rate cap (cap_ratios)
  // ---------------------------------------------------------------------------

  /** The table of largest allowed rates after `exponent` steps: `[0][1]` bounds
      `reserve0 / reserve1`, `[1][0]` bounds `reserve1 / reserve0`. */
  function RateBounds(last: Pair, exponent: nat, maxRs: Matrix): (bounds: Matrix)
    requires Positive(last)
    ensures bounds[0][1] * bounds[1][0] == Pow(1.0 + maxRs[0][1], exponent) * Pow(1.0 + maxRs[1][0], exponent)
    ensures exponent == 0 ==> bounds[0][1] == Rate(last, 0, 1) && bounds[1][0] == Rate(last, 1, 0)
    ensures RateFactorsPositive(exponent, maxRs) ==> 0.0 < bounds[0][1] && 0.0 < bounds[1][0]
  {
    var rate := Rate(last, 0, 1);
    ProductOfScaled(rate, Pow(1.0 + maxRs[0][1], exponent), 1.0 / rate, Pow(1.0 + maxRs[1][0], exponent));
    [[0.0, rate * Pow(1.0 + maxRs[0][1], exponent)], [1.0 / rate * Pow(1.0 + maxRs[1][0], exponent), 0.0]]
  }

  /** Both per-step rate factors, raised to `exponent`, are positive; then so are the
      rate bounds, which the rate cap divides by and takes square roots of. */
  predicate RateFactorsPositive(exponent: nat, maxRs: Matrix)
  {
    0.0 < Pow(1.0 + maxRs[0][1], exponent) && 0.0 < Pow(1.0 + maxRs[1][0], exponent)
  }

  /** Both rate factors are positive and multiply to at least one: exactly the case in
      which the two rate conditions never hold together. */
  predicate RateBoundsCompatible(exponent: nat, maxRs: Matrix)
  {
    RateFactorsPositive(exponent, maxRs)
    && 1.0 <= Pow(1.0 + maxRs[0][1], exponent) * Pow(1.0 + maxRs[1][0], exponent)
  }

  /** Every per-step rate change above -100% keeps both rate factors positive. */
  lemma RateFactorsPositiveAboveMinusOne(exponent: nat, maxRs: Matrix)
    requires -1.0 < maxRs[0][1] && -1.0 < maxRs[1][0]
    ensures RateFactorsPositive(exponent, maxRs)
  {
    PowPositive(1.0 + maxRs[0][1], exponent);
    PowPositive(1.0 + maxRs[1][0], exponent);
  }

  /** `capped` is a positive pair on the constant-product curve of `candidate`. */
  ghost predicate OnCurve(candidate: Pair, capped: Pair)
  {
    Positive(capped) && capped[0] * capped[1] == candidate[0] * candidate[1]
  }

  /** What the rate cap produces, stated geometrically: when the candidate's rate
      exceeds a bound, the point of the candidate's own curve whose rate is that
      bound; otherwise the candidate itself. */
  ghost predicate RatioCapped(last: Pair, candidate: Pair, capExponent: nat, maxRs: Matrix, capped: Pair)
    requires Positive(last) && Positive(candidate)
  {
    var bounds := RateBounds(last, ClampExponent(capExponent), maxRs);
    if candidate[0] / candidate[1] > bounds[0][1] then
      OnCurve(candidate, capped) && capped[0] / capped[1] == bounds[0][1]
    else if candidate[1] / candidate[0] > bounds[1][0] then
      OnCurve(candidate, capped) && capped[1] / capped[0] == bounds[1][0]
    else
      capped == candidate
  }

  /** The two swap results at `ratios` form a point of the candidate's curve at the
      requested rate. */
  lemma SwapLandsOnCurve(sqrt: real -> real, candidate: Pair, ratios: Pair, capped: Pair)
    requires IsSqrt(sqrt) && Positive(candidate) && Positive(ratios)
    requires capped[0] == ReserveAtRatioSwap(sqrt, candidate, 0, ratios)
             && capped[1] == ReserveAtRatioSwap(sqrt, candidate, 1, ratios)
    ensures OnCurve(candidate, capped)
    ensures capped[0] / capped[1] == ratios[0] / ratios[1]
    ensures capped[1] / capped[0] == ratios[1] / ratios[0]
  {
    SwapKeepsProduct(sqrt, candidate, ratios);
    SwapHitsRatio(sqrt, candidate, ratios);
    assert 0.0 < candidate[0] * candidate[1];
    assert capped[0] != 0.0;
    assert capped[1] / capped[0] == 1.0 / (capped[0] / capped[1]);
    assert ratios[1] / ratios[0] == 1.0 / (ratios[0] / ratios[1]);
  }

  /** Caps the rate of `candidate` in each direction, moving it along its own
      constant-product curve. */
  method CapRatios(sqrt: real -> real, last: Pair, candidate: Pair, capExponent: nat, maxRs: Matrix)
    returns (capped: Pair)
    requires IsSqrt(sqrt) && Positive(last) && Positive(candidate)
    requires RateFactorsPositive(ClampExponent(capExponent), maxRs)
    ensures RatioCapped(last, candidate, capExponent, maxRs, capped)
  {
    var exponent := capExponent;
    if exponent > MAX_CAP_EXPONENT {
      exponent := MAX_CAP_EXPONENT;
    }
    assert exponent == ClampExponent(capExponent);
    var bounds := RateBounds(last, exponent, maxRs);
    capped := candidate;
    if candidate[0] / candidate[1] > bounds[0][1] {
      capped := MoveToRatio(sqrt, candidate, [bounds[0][1], 1.0]);
      RatioCappedAbove(last, candidate, capExponent, maxRs, capped);
    } else if candidate[1] / candidate[0] > bounds[1][0] {
      capped := MoveToRatio(sqrt, candidate, [1.0, bounds[1][0]]);
      RatioCappedBelow(last, candidate, capExponent, maxRs, capped);
    } else {
      RatioCappedKept(last, candidate, capExponent, maxRs);
    }
  }

  /** Overwrites both reserves of a copy of `candidate` with the swap results at
      `ratios`: the point of the candidate's curve at rate `ratios[0] / ratios[1]`. */
  method MoveToRatio(sqrt: real -> real, candidate: Pair, ratios: Pair) returns (moved: Pair)
    requires IsSqrt(sqrt) && Positive(candidate) && Positive(ratios)
    ensures OnCurve(candidate, moved)
    ensures moved[0] / moved[1] == ratios[0] / ratios[1]
    ensures moved[1] / moved[0] == ratios[1] / ratios[0]
  {
    SwapDefined(candidate, ratios);
    moved := candidate;
    moved := moved[0 := ReserveAtRatioSwap(sqrt, candidate, 0, ratios)];
    moved := moved[1 := ReserveAtRatioSwap(sqrt, candidate, 1, ratios)];
    SwapLandsOnCurve(sqrt, candidate, ratios, moved);
  }

  lemma RatioCappedAbove(last: Pair, candidate: Pair, capExponent: nat, maxRs: Matrix, capped: Pair)
    requires Positive(last) && Positive(candidate)
    requires var bounds := RateBounds(last, ClampExponent(capExponent), maxRs);
             candidate[0] / candidate[1] > bounds[0][1]
             && OnCurve(candidate, capped) && capped[0] / capped[1] == bounds[0][1]
    ensures RatioCapped(last, candidate, capExponent, maxRs, capped)
  {
  }

  lemma RatioCappedBelow(last: Pair, candidate: Pair, capExponent: nat, maxRs: Matrix, capped: Pair)
    requires Positive(last) && Positive(candidate)
    requires var bounds := RateBounds(last, ClampExponent(capExponent), maxRs);
             candidate[0] / candidate[1] <= bounds[0][1] && candidate[1] / candidate[0] > bounds[1][0]
             && OnCurve(candidate, capped) && capped[1] / capped[0] == bounds[1][0]
    ensures RatioCapped(last, candidate, capExponent, maxRs, capped)
  {
  }

  lemma RatioCappedKept(last: Pair, candidate: Pair, capExponent: nat, maxRs: Matrix)
    requires Positive(last) && Positive(candidate)
    requires var bounds := RateBounds(last, ClampExponent(capExponent), maxRs);
             candidate[0] / candidate[1] <= bounds[0][1] && candidate[1] / candidate[0] <= bounds[1][0]
    ensures RatioCapped(last, candidate, capExponent, maxRs, candidate)
  {
  }

  /** Two positive points of one curve at the same rate coincide. */
  lemma CurvePointUnique(candidate: Pair, a: Pair, b: Pair)
    requires OnCurve(candidate, a) && OnCurve(candidate, b)
    requires a[0] / a[1] == b[0] / b[1]
    ensures a == b
  {
    var q := a[0] / a[1];
    assert a[0] == q * a[1] && b[0] == q * b[1];
    ProductOfScaled(q, a[1], 1.0, a[1]);
    ProductOfScaled(q, b[1], 1.0, b[1]);
    assert q * (a[1] * a[1]) == q * (b[1] * b[1]);
    assert 0.0 < q;
    assert a[1] * a[1] == b[1] * b[1];
    SquareInjective(a[1], b[1]);
    assert a[0] == b[0];
    assert a == [a[0], a[1]] && b == [b[0], b[1]];
  }

  /** `RatioCapped` determines the rate cap's output: it has at most one solution. */
  lemma RatioCappedUnique(last: Pair, candidate: Pair, capExponent: nat, maxRs: Matrix, a: Pair, b: Pair)
    requires Positive(last) && Positive(candidate)
    requires RatioCapped(last, candidate, capExponent, maxRs, a)
    requires RatioCapped(last, candidate, capExponent, maxRs, b)
    ensures a == b
  {
    var bounds := RateBounds(last, ClampExponent(capExponent), maxRs);
    if candidate[0] / candidate[1] > bounds[0][1] {
      assert OnCurve(candidate, a) && a[0] / a[1] == bounds[0][1];
      assert OnCurve(candidate, b) && b[0] / b[1] == bounds[0][1];
      CurvePointUnique(candidate, a, b);
    } else if candidate[1] / candidate[0] > bounds[1][0] {
      assert OnCurve(candidate, a) && a[1] / a[0] == bounds[1][0];
      assert OnCurve(candidate, b) && b[1] / b[0] == bounds[1][0];
      RatioReciprocal(a[1], a[0]);
      RatioReciprocal(b[1], b[0]);
      CurvePointUnique(candidate, a, b);
    } else {
      assert a == candidate && b == candidate;
    }
  }

  /** With non-negative per-step rate increases the two bounds multiply to at least one. */
  lemma BoundsProductAtLeastOne(last: Pair, exponent: nat, maxRs: Matrix)
    requires Positive(last) && 0.0 <= maxRs[0][1] && 0.0 <= maxRs[1][0]
    ensures RateBoundsCompatible(exponent, maxRs)
    ensures var bounds := RateBounds(last, exponent, maxRs);
            0.0 < bounds[0][1] && 0.0 < bounds[1][0] && 1.0 <= bounds[0][1] * bounds[1][0]
  {
    var p := Pow(1.0 + maxRs[0][1], exponent);
    var q := Pow(1.0 + maxRs[1][0], exponent);
    PowAtLeastOne(1.0 + maxRs[0][1], exponent);
    PowAtLeastOne(1.0 + maxRs[1][0], exponent);
    assert p * q >= 1.0 * q;
  }

  /** When the two rate factors are positive and multiply to at least one, at most one
      branch of the rate cap applies: a candidate above the `[0][1]` bound is never
      above the `[1][0]` bound. Non-negative per-step increases meet this condition
      (`BoundsProductAtLeastOne`), and so does a step count of zero. */
  lemma RateConditionsExclusive(last: Pair, candidate: Pair, capExponent: nat, maxRs: Matrix)
    requires Positive(last) && Positive(candidate)
    requires RateBoundsCompatible(ClampExponent(capExponent), maxRs)
    ensures var bounds := RateBounds(last, ClampExponent(capExponent), maxRs);
            candidate[0] / candidate[1] > bounds[0][1] ==> candidate[1] / candidate[0] <= bounds[1][0]
  {
    var bounds := RateBounds(last, ClampExponent(capExponent), maxRs);
    var rate, above, below := candidate[0] / candidate[1], bounds[0][1], bounds[1][0];
    assert 1.0 <= above * below && 0.0 < below;
    if rate > above {
      assert candidate[1] / candidate[0] == 1.0 / rate;
      var scaled, product := rate * below, above * below;
      assert 0.0 < rate && 1.0 <= product < scaled;
      ReciprocalBound(rate, below);
    }
  }

  /** Conversely, when the two positive rate factors multiply to less than one, some
      positive candidate meets both rate conditions at once. */
  lemma RateConditionsOverlapBelowOne(last: Pair, capExponent: nat, maxRs: Matrix)
    requires Positive(last)
    requires RateFactorsPositive(ClampExponent(capExponent), maxRs)
    requires Pow(1.0 + maxRs[0][1], ClampExponent(capExponent)) * Pow(1.0 + maxRs[1][0], ClampExponent(capExponent)) < 1.0
    ensures var bounds := RateBounds(last, ClampExponent(capExponent), maxRs);
            exists candidate: Pair :: Positive(candidate)
              && candidate[0] / candidate[1] > bounds[0][1] && candidate[1] / candidate[0] > bounds[1][0]
  {
    var bounds := RateBounds(last, ClampExponent(capExponent), maxRs);
    var above, below := bounds[0][1], bounds[1][0];
    assert 0.0 < above && 0.0 < below;
    assert above * below == Pow(1.0 + maxRs[0][1], ClampExponent(capExponent)) * Pow(1.0 + maxRs[1][0], ClampExponent(capExponent));
    assert above * below < 1.0;
    ReciprocalBound(below, above);
    var c := (above + 1.0 / below) / 2.0;
    assert above < c < 1.0 / below;
    ReciprocalBound(below, c);
    assert c * below < 1.0;
    ReciprocalBound(c, below);
    var candidate: Pair := [c, 1.0];
    assert Positive(candidate) && candidate[0] / candidate[1] > above && candidate[1] / candidate[0] > below;
  }

  /** With negative per-step bounds both rate conditions can hold at once; the first
      branch then wins. Here the last and candidate pools are both `[1, 1]`. */
  lemma RateConditionsOverlap()
    ensures var bounds := RateBounds([1.0, 1.0], 1, [[0.0, -0.5], [-0.5, 0.0]]);
            1.0 / 1.0 > bounds[0][1] && 1.0 / 1.0 > bounds[1][0]
  {
    assert Pow(0.5, 1) == 0.5 * Pow(0.5, 0);
  }

  /** When the two rate conditions exclude each other (in particular for non-negative
      per-step rate increases), the rate cap's output lies within both rate bounds. */
  lemma RatioCapWithinBounds(last: Pair, candidate: Pair, capExponent: nat, maxRs: Matrix, capped: Pair)
    requires Positive(last) && Positive(candidate)
    requires RateBoundsCompatible(ClampExponent(capExponent), maxRs)
    requires RatioCapped(last, candidate, capExponent, maxRs, capped)
    ensures Positive(capped)
    ensures var bounds := RateBounds(last, ClampExponent(capExponent), maxRs);
            capped[0] / capped[1] <= bounds[0][1] && capped[1] / capped[0] <= bounds[1][0]
  {
    var bounds := RateBounds(last, ClampExponent(capExponent), maxRs);
    RateConditionsExclusive(last, candidate, capExponent, maxRs);
    var above, below := bounds[0][1], bounds[1][0];
    if candidate[0] / candidate[1] > above {
      RatioReciprocal(capped[0], capped[1]);
      ReciprocalBound(above, below);
    } else if candidate[1] / candidate[0] > below {
      RatioReciprocal(capped[1], capped[0]);
      ReciprocalBound(below, above);
    }
  }

  /** When the two rate conditions exclude each other, capping an already capped pair
      again leaves it unchanged. */
  lemma RatioCapIdempotent(last: Pair, candidate: Pair, capExponent: nat, maxRs: Matrix, capped: Pair)
    requires Positive(last) && Positive(candidate)
    requires RateBoundsCompatible(ClampExponent(capExponent), maxRs)
    requires RatioCapped(last, candidate, capExponent, maxRs, capped)
    ensures Positive(capped) && RatioCapped(last, capped, capExponent, maxRs, capped)
  {
    RatioCapWithinBounds(last, candidate, capExponent, maxRs, capped);
  }

  /** The rate cap moves along the candidate's curve, so it keeps the LP supply. */
  lemma RatioCapKeepsSupply(sqrt: real -> real, last: Pair, candidate: Pair, capExponent: nat, maxRs: Matrix, capped: Pair)
    requires IsSqrt(sqrt) && Positive(last) && Positive(candidate)
    requires RatioCapped(last, candidate, capExponent, maxRs, capped)
    ensures 0.0 <= capped[0] * capped[1]
    ensures LpTokenSupply(sqrt, capped) == LpTokenSupply(sqrt, candidate)
  {
    var bounds := RateBounds(last, ClampExponent(capExponent), maxRs);
    if candidate[0] / candidate[1] > bounds[0][1] || candidate[1] / candidate[0] > bounds[1][0] {
      assert OnCurve(candidate, capped);
      SupplyUnique(sqrt, capped, LpTokenSupply(sqrt, candidate));
    }
  }

  // ---------------------------------------------------------------------------
  // Composition (capReserves)
  // ---------------------------------------------------------------------------

  /** What the two-stage capper produces: the rate cap applied to the magnitude cap's
      result, both at the clamped step count. */
  ghost predicate ReservesCapped(sqrt: real -> real, last: Pair, candidate: Pair, capExponent: nat,
                                 maxLpIncrease: real, maxLpDecrease: real, maxRs: Matrix, capped: Pair)
    requires IsSqrt(sqrt) && Positive(last) && Positive(candidate)
    requires 0.0 < Pow(1.0 + maxLpIncrease, ClampExponent(capExponent))
  {
    var exponent := ClampExponent(capExponent);
    RatioCapped(last, CapLpSupply(sqrt, last, candidate, exponent, maxLpIncrease, maxLpDecrease), exponent, maxRs, capped)
  }

  /** Clamps the step count, caps the candidate's LP supply, then caps its rate. */
  method CapReserves(sqrt: real -> real, last: Pair, candidate: Pair, capExponent: nat,
                     maxLpIncrease: real, maxLpDecrease: real, maxRs: Matrix)
    returns (capped: Pair)
    requires IsSqrt(sqrt) && Positive(last) && Positive(candidate)
    requires 0.0 < Pow(1.0 + maxLpIncrease, ClampExponent(capExponent))
    requires RateFactorsPositive(ClampExponent(capExponent), maxRs)
    ensures ReservesCapped(sqrt, last, candidate, capExponent, maxLpIncrease, maxLpDecrease, maxRs, capped)
  {
    var exponent := capExponent;
    if exponent > MAX_CAP_EXPONENT {
      exponent := MAX_CAP_EXPONENT;
    }
    var partial := CapLpSupply(sqrt, last, candidate, exponent, maxLpIncrease, maxLpDecrease);
    capped := CapRatios(sqrt, last, partial, exponent, maxRs);
  }

  /** Every step count above the ceiling gives the same output as the ceiling itself. */
  lemma ExponentCeiling(sqrt: real -> real, last: Pair, candidate: Pair, capExponent: nat,
                        maxLpIncrease: real, maxLpDecrease: real, maxRs: Matrix, a: Pair, b: Pair)
    requires IsSqrt(sqrt) && Positive(last) && Positive(candidate)
    requires MAX_CAP_EXPONENT <= capExponent
    requires 0.0 < Pow(1.0 + maxLpIncrease, MAX_CAP_EXPONENT)
    requires ReservesCapped(sqrt, last, candidate, capExponent, maxLpIncrease, maxLpDecrease, maxRs, a)
    requires ReservesCapped(sqrt, last, candidate, MAX_CAP_EXPONENT, maxLpIncrease, maxLpDecrease, maxRs, b)
    ensures a == b
  {
    var partial := CapLpSupply(sqrt, last, candidate, MAX_CAP_EXPONENT, maxLpIncrease, maxLpDecrease);
    RatioCappedUnique(last, partial, MAX_CAP_EXPONENT, maxRs, a, b);
  }

  /** With a well-formed supply band the output's LP supply lies in the supply band,
      whatever the rate bounds: the rate cap keeps the magnitude cap's supply. */
  lemma CapReservesWithinSupplyBand(sqrt: real -> real, last: Pair, candidate: Pair, capExponent: nat,
                                    maxLpIncrease: real, maxLpDecrease: real, maxRs: Matrix, capped: Pair)
    requires IsSqrt(sqrt) && Positive(last) && Positive(candidate)
    requires 0.0 <= maxLpIncrease && 0.0 <= maxLpDecrease <= 1.0
    requires 0.0 < Pow(1.0 + maxLpIncrease, ClampExponent(capExponent))
    requires ReservesCapped(sqrt, last, candidate, capExponent, maxLpIncrease, maxLpDecrease, maxRs, capped)
    ensures 0.0 <= capped[0] * capped[1]
    ensures var exponent := ClampExponent(capExponent);
            SupplyFloor(sqrt, last, exponent, maxLpDecrease) <= LpTokenSupply(sqrt, capped)
            && LpTokenSupply(sqrt, capped) <= SupplyCeiling(sqrt, last, exponent, maxLpIncrease)
  {
    var exponent := ClampExponent(capExponent);
    var partial := CapLpSupply(sqrt, last, candidate, exponent, maxLpIncrease, maxLpDecrease);
    LpSupplyWithinBand(sqrt, last, candidate, exponent, maxLpIncrease, maxLpDecrease);
    assert ClampExponent(exponent) == exponent;
    RatioCapKeepsSupply(sqrt, last, partial, exponent, maxRs, capped);
  }

  /** With a well-formed supply band and non-negative rate increases, the output's LP
      supply lies in the supply band and its rates lie within both rate bounds. */
  lemma CapReservesWithinBands(sqrt: real -> real, last: Pair, candidate: Pair, capExponent: nat,
                               maxLpIncrease: real, maxLpDecrease: real, maxRs: Matrix, capped: Pair)
    requires IsSqrt(sqrt) && Positive(last) && Positive(candidate)
    requires 0.0 <= maxLpIncrease && 0.0 <= maxLpDecrease <= 1.0
    requires 0.0 <= maxRs[0][1] && 0.0 <= maxRs[1][0]
    requires 0.0 < Pow(1.0 + maxLpIncrease, ClampExponent(capExponent))
    requires ReservesCapped(sqrt, last, candidate, capExponent, maxLpIncrease, maxLpDecrease, maxRs, capped)
    ensures Positive(capped)
    ensures var exponent := ClampExponent(capExponent);
            SupplyFloor(sqrt, last, exponent, maxLpDecrease) <= LpTokenSupply(sqrt, capped)
            && LpTokenSupply(sqrt, capped) <= SupplyCeiling(sqrt, last, exponent, maxLpIncrease)
    ensures var bounds := RateBounds(last, ClampExponent(capExponent), maxRs);
            capped[0] / capped[1] <= bounds[0][1] && capped[1] / capped[0] <= bounds[1][0]
  {
    var exponent := ClampExponent(capExponent);
    var partial := CapLpSupply(sqrt, last, candidate, exponent, maxLpIncrease, maxLpDecrease);
    CapReservesWithinSupplyBand(sqrt, last, candidate, capExponent, maxLpIncrease, maxLpDecrease, maxRs, capped);
    assert ClampExponent(exponent) == exponent;
    BoundsProductAtLeastOne(last, exponent, maxRs);
    RatioCapWithinBounds(last, partial, exponent, maxRs, capped);
  }

  /** A candidate already inside both bands leaves the capper unchanged. */
  lemma CapReservesKeepsAcceptable(sqrt: real -> real, last: Pair, candidate: Pair, capExponent: nat,
                                   maxLpIncrease: real, maxLpDecrease: real, maxRs: Matrix)
    requires IsSqrt(sqrt) && Positive(last) && Positive(candidate)
    requires 0.0 < Pow(1.0 + maxLpIncrease, ClampExponent(capExponent))
    requires var exponent := ClampExponent(capExponent);
             SupplyFloor(sqrt, last, exponent, maxLpDecrease) <= LpTokenSupply(sqrt, candidate)
             && LpTokenSupply(sqrt, candidate) <= SupplyCeiling(sqrt, last, exponent, maxLpIncrease)
    requires var bounds := RateBounds(last, ClampExponent(capExponent), maxRs);
             candidate[0] / candidate[1] <= bounds[0][1] && candidate[1] / candidate[0] <= bounds[1][0]
    ensures ReservesCapped(sqrt, last, candidate, capExponent, maxLpIncrease, maxLpDecrease, maxRs, candidate)
  {
    var exponent := ClampExponent(capExponent);
    LpSupplyKeptIffInBand(sqrt, last, candidate, exponent, maxLpIncrease, maxLpDecrease);
    assert ClampExponent(exponent) == exponent;
    RatioCappedKept(last, candidate, exponent, maxRs);
  }

  /** A worked instance: last reserves `[1000, 1000]`, candidate `[1000, 2000]`, one
      step and 1% bounds everywhere. The magnitude cap scales the candidate down to
      supply `1.01 * 1e9`; the rate cap then moves it to `reserve1 / reserve0 == 1.01`
      while keeping that supply. */
  lemma OneStepScenario(sqrt: real -> real, capped: Pair)
    requires IsSqrt(sqrt)
    requires ReservesCapped(sqrt, [1000.0, 1000.0], [1000.0, 2000.0], 1, 0.01, 0.01,
                            [[0.0, 0.01], [0.01, 0.0]], capped)
    ensures Positive(capped) && capped[1] / capped[0] == 1.01
    ensures LpTokenSupply(sqrt, capped) == 1010000000.0
  {
    var last: Pair := [1000.0, 1000.0];
    var partial := CapLpSupply(sqrt, last, [1000.0, 2000.0], 1, 0.01, 0.01);
    ScenarioMagnitude(sqrt);
    ScenarioRate(partial, capped);
    RatioCapKeepsSupply(sqrt, last, partial, 1, [[0.0, 0.01], [0.01, 0.0]], capped);
  }

  /** The magnitude step of `OneStepScenario`: the candidate's supply `sqrt(2) * 1e9`
      exceeds the ceiling `1.01e9`, so it is scaled down onto the ceiling. */
  lemma ScenarioMagnitude(sqrt: real -> real)
    requires IsSqrt(sqrt)
    ensures var partial := CapLpSupply(sqrt, [1000.0, 1000.0], [1000.0, 2000.0], 1, 0.01, 0.01);
            Positive(partial) && partial[1] / partial[0] == 2.0
            && LpTokenSupply(sqrt, partial) == 1010000000.0
  {
    var last: Pair := [1000.0, 1000.0];
    var candidate: Pair := [1000.0, 2000.0];
    assert Pow(1.01, 1) == 1.01 * Pow(1.01, 0);
    SupplyUnique(sqrt, last, 1000000000.0);
    assert SupplyCeiling(sqrt, last, 1, 0.01) == 1010000000.0;
    SquareMonotone(1010000000.0, LpTokenSupply(sqrt, candidate));
    LpSupplyCappedAbove(sqrt, last, candidate, 1, 0.01, 0.01);
    var partial := CapLpSupply(sqrt, last, candidate, 1, 0.01, 0.01);
    assert partial[0] / partial[1] == 0.5;
    assert partial[1] / partial[0] == 1.0 / (partial[0] / partial[1]);
  }

  /** The rate step of `OneStepScenario`: a pair at rate `reserve1 / reserve0 == 2`
      exceeds the bound `1.01` and is moved onto it. */
  lemma ScenarioRate(partial: Pair, capped: Pair)
    requires Positive(partial) && partial[1] / partial[0] == 2.0
    requires RatioCapped([1000.0, 1000.0], partial, 1, [[0.0, 0.01], [0.01, 0.0]], capped)
    ensures capped[1] / capped[0] == 1.01
  {
    var bounds := RateBounds([1000.0, 1000.0], 1, [[0.0, 0.01], [0.01, 0.0]]);
    assert Pow(1.01, 1) == 1.01 * Pow(1.01, 0);
    assert bounds[0][1] == 1.01 && bounds[1][0] == 1.01;
    assert partial[0] / partial[1] == 1.0 / (partial[1] / partial[0]);
  }
}
