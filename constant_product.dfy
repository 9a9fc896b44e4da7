/** The constant-product well function: closed-form relations between a pool's
    two reserves, its LP token supply `sqrt(reserve0 * reserve1 * 1e12)`, and
    pairwise rates. The class it models has no state, so every operation is a
    function; the square root comes in as the parameter `sqrt`. */
module ConstantProduct {
  import opened RealMath

  /** Factor applied under the square root of the LP supply formula. */
  const EXP_PRECISION: real := 1000000000000.0

  /** A reserve pair, a ratio pair or any other two-entry list indexed 0 and 1. */
  type Pair = s: seq<real> | |s| == 2 witness [0.0, 0.0]

  type Index = j: nat | j < 2

  predicate Positive(p: Pair)
  {
    0.0 < p[0] && 0.0 < p[1]
  }

  /** The index of the other token of the pair. */
  function Other(j: Index): (i: Index)
    ensures i != j
  {
    if j == 1 then 0 else 1
  }

  /** The share of `reserves` that `lpTokenAmount` out of `lpTokenSupply` LP tokens
      is worth, entry by entry. */
  function LpTokenUnderlying(lpTokenAmount: real, reserves: seq<real>, lpTokenSupply: real): (amounts: seq<real>)
    requires lpTokenSupply != 0.0
    ensures |amounts| == |reserves|
  {
    seq(|reserves|, k requires 0 <= k < |reserves| => lpTokenAmount * reserves[k] / lpTokenSupply)
  }

  /** Redeeming a non-zero amount of LP tokens returns the reserves' own ratio. */
  lemma UnderlyingKeepsRatio(lpTokenAmount: real, reserves: Pair, lpTokenSupply: real)
    requires lpTokenSupply != 0.0 && lpTokenAmount != 0.0 && reserves[1] != 0.0
    ensures var amounts := LpTokenUnderlying(lpTokenAmount, reserves, lpTokenSupply);
            amounts[1] != 0.0 && amounts[0] / amounts[1] == reserves[0] / reserves[1]
  {
    var amounts := LpTokenUnderlying(lpTokenAmount, reserves, lpTokenSupply);
    var t := lpTokenAmount / lpTokenSupply;
    assert amounts[0] == t * reserves[0] && amounts[1] == t * reserves[1];
    assert t != 0.0;
    assert (t * reserves[0]) / (t * reserves[1]) == reserves[0] / reserves[1];
  }

  /** Redeeming the whole supply returns the reserves themselves. */
  lemma UnderlyingOfWholeSupply(reserves: seq<real>, lpTokenSupply: real)
    requires lpTokenSupply != 0.0
    ensures LpTokenUnderlying(lpTokenSupply, reserves, lpTokenSupply) == reserves
  {
    var amounts := LpTokenUnderlying(lpTokenSupply, reserves, lpTokenSupply);
    forall k | 0 <= k < |reserves|
      ensures amounts[k] == reserves[k]
    {
      assert amounts[k] == lpTokenSupply * reserves[k] / lpTokenSupply;
    }
  }

  /** Redeeming LP tokens scales both reserves by the same factor. */
  lemma UnderlyingIsScaled(lpTokenAmount: real, reserves: Pair, lpTokenSupply: real)
    requires lpTokenSupply != 0.0
    ensures var t := lpTokenAmount / lpTokenSupply;
            var amounts := LpTokenUnderlying(lpTokenAmount, reserves, lpTokenSupply);
            amounts[0] == t * reserves[0] && amounts[1] == t * reserves[1]
  {
  }

  /** Redeeming keeps the reserves' ratio in cross-multiplied form, and a positive
      amount out of a positive supply redeems positive amounts. */
  lemma UnderlyingCrossRatio(lpTokenAmount: real, reserves: Pair, lpTokenSupply: real)
    requires lpTokenSupply != 0.0
    ensures var amounts := LpTokenUnderlying(lpTokenAmount, reserves, lpTokenSupply);
            amounts[0] * reserves[1] == amounts[1] * reserves[0]
            && (0.0 < lpTokenAmount && 0.0 < lpTokenSupply && Positive(reserves) ==> Positive(amounts))
  {
    var t := lpTokenAmount / lpTokenSupply;
    UnderlyingIsScaled(lpTokenAmount, reserves, lpTokenSupply);
    ProductOfScaled(t, reserves[0], 1.0, reserves[1]);
    ProductOfScaled(t, reserves[1], 1.0, reserves[0]);
    if 0.0 < lpTokenAmount && 0.0 < lpTokenSupply {
      assert 0.0 < t;
    }
  }

  /** The LP token supply of a pair of reserves. */
  function LpTokenSupply(sqrt: real -> real, reserves: Pair): (supply: real)
    requires IsSqrt(sqrt) && 0.0 <= reserves[0] * reserves[1]
    ensures 0.0 <= supply && supply * supply == reserves[0] * reserves[1] * EXP_PRECISION
    ensures Positive(reserves) ==> 0.0 < supply
  {
    sqrt(reserves[0] * reserves[1] * EXP_PRECISION)
  }

  /** The supply is the only non-negative value whose square is the scaled product. */
  lemma SupplyUnique(sqrt: real -> real, reserves: Pair, supply: real)
    requires IsSqrt(sqrt) && 0.0 <= supply
    requires supply * supply == reserves[0] * reserves[1] * EXP_PRECISION
    ensures 0.0 <= reserves[0] * reserves[1]
    ensures LpTokenSupply(sqrt, reserves) == supply
  {
    SqrtUnique(sqrt, reserves[0] * reserves[1] * EXP_PRECISION, supply);
  }

  /** Scaling both reserves by `t >= 0` scales the supply by `t`. */
  lemma SupplyScales(sqrt: real -> real, reserves: Pair, t: real, scaled: Pair)
    requires IsSqrt(sqrt) && 0.0 <= reserves[0] * reserves[1] && 0.0 <= t
    requires scaled[0] == t * reserves[0] && scaled[1] == t * reserves[1]
    ensures 0.0 <= scaled[0] * scaled[1]
    ensures LpTokenSupply(sqrt, scaled) == t * LpTokenSupply(sqrt, reserves)
  {
    var k := LpTokenSupply(sqrt, reserves);
    var p := reserves[0] * reserves[1];
    ProductOfScaled(t, reserves[0], t, reserves[1]);
    ProductOfScaled(t, k, t, k);
    ProductOfScaled(t, p, 1.0, EXP_PRECISION);
    assert 0.0 <= t * t;
    SupplyUnique(sqrt, scaled, t * k);
  }

  /** Redeeming `lpTokenAmount >= 0` out of a pool's whole supply yields reserves whose
      own supply is `lpTokenAmount`. */
  lemma SupplyOfUnderlying(sqrt: real -> real, lpTokenAmount: real, reserves: Pair)
    requires IsSqrt(sqrt) && Positive(reserves) && 0.0 <= lpTokenAmount
    ensures var amounts := LpTokenUnderlying(lpTokenAmount, reserves, LpTokenSupply(sqrt, reserves));
            0.0 <= amounts[0] * amounts[1] && LpTokenSupply(sqrt, amounts) == lpTokenAmount
  {
    var k := LpTokenSupply(sqrt, reserves);
    var t := lpTokenAmount / k;
    assert 0.0 <= t;
    UnderlyingIsScaled(lpTokenAmount, reserves, k);
    SupplyScales(sqrt, reserves, t, LpTokenUnderlying(lpTokenAmount, reserves, k));
    assert t * k == lpTokenAmount;
  }

  /** The reserve at index `j` that gives supply `lpTokenSupply` when the reserve at
      the other index is held fixed. */
  function Reserve(reserves: Pair, j: Index, lpTokenSupply: real): (reserve: real)
    requires reserves[Other(j)] != 0.0
    ensures reserve * (reserves[Other(j)] * EXP_PRECISION) == lpTokenSupply * lpTokenSupply
    ensures 0.0 < reserves[Other(j)] ==> 0.0 <= reserve
  {
    (lpTokenSupply * lpTokenSupply) / (reserves[Other(j)] * EXP_PRECISION)
  }

  /** Reserve inverts LpTokenSupply: the supply of a pair gives back either reserve. */
  lemma ReserveOfSupply(sqrt: real -> real, reserves: Pair, j: Index)
    requires IsSqrt(sqrt) && 0.0 <= reserves[0] * reserves[1] && reserves[Other(j)] != 0.0
    ensures Reserve(reserves, j, LpTokenSupply(sqrt, reserves)) == reserves[j]
  {
    var i := Other(j);
    var k := LpTokenSupply(sqrt, reserves);
    var d := reserves[i] * EXP_PRECISION;
    assert k * k == reserves[0] * reserves[1] * EXP_PRECISION;
    assert k * k == reserves[j] * d by {
      if j == 0 {
        assert i == 1;
      } else {
        assert i == 0;
      }
    }
    assert d != 0.0;
    MulCancel(Reserve(reserves, j, k), reserves[j], d);
  }

  /** LpTokenSupply inverts Reserve: putting the computed reserve at index `j` gives a
      pair whose supply is the requested one. */
  lemma SupplyOfReserve(sqrt: real -> real, reserves: Pair, j: Index, lpTokenSupply: real)
    requires IsSqrt(sqrt) && 0.0 < reserves[Other(j)] && 0.0 <= lpTokenSupply
    ensures var r := reserves[j := Reserve(reserves, j, lpTokenSupply)];
            0.0 <= r[0] * r[1] && LpTokenSupply(sqrt, r) == lpTokenSupply
  {
    var i := Other(j);
    var x := Reserve(reserves, j, lpTokenSupply);
    var r := reserves[j := x];
    var s2 := lpTokenSupply * lpTokenSupply;
    assert x * (reserves[i] * EXP_PRECISION) == s2;
    assert r[0] * r[1] == x * reserves[i] by {
      if j == 0 {
        assert r[0] == x && r[1] == reserves[1];
      } else {
        assert r[1] == x && r[0] == reserves[0];
      }
    }
    assert r[0] * r[1] * EXP_PRECISION == s2;
    SupplyUnique(sqrt, r, lpTokenSupply);
  }

  /** The reserve at index `j` after a swap that moves the pool to the rate
      `ratios[j] / ratios[i]` along its own constant-product curve. */
  function ReserveAtRatioSwap(sqrt: real -> real, reserves: Pair, j: Index, ratios: Pair): (reserve: real)
    requires IsSqrt(sqrt) && ratios[Other(j)] != 0.0
    requires 0.0 <= (reserves[Other(j)] * reserves[j]) * (ratios[j] / ratios[Other(j)])
    ensures 0.0 <= reserve
    ensures reserve * reserve == (reserves[Other(j)] * reserves[j]) * (ratios[j] / ratios[Other(j)])
  {
    var i := Other(j);
    sqrt((reserves[i] * reserves[j]) * (ratios[j] / ratios[i]))
  }

  /** The arguments of the two square roots in the swap formula: they multiply to
      the squared product, and their quotient is the squared target rate. */
  lemma SwapArguments(r0: real, r1: real, q0: real, q1: real)
    requires 0.0 < r0 && 0.0 < r1 && 0.0 < q0 && 0.0 < q1
    ensures 0.0 < (r1 * r0) * (q0 / q1) && 0.0 < (r0 * r1) * (q1 / q0)
    ensures ((r1 * r0) * (q0 / q1)) * ((r0 * r1) * (q1 / q0)) == (r0 * r1) * (r0 * r1)
    ensures (r1 * r0) * (q0 / q1) == ((q0 / q1) * (q0 / q1)) * ((r0 * r1) * (q1 / q0))
  {
    ReciprocalProduct(r0 * r1, q0, q1);
    assert (q0 / q1) * (q1 / q0) == 1.0;
    assert 0.0 < q0 / q1 && 0.0 < q1 / q0 && 0.0 < r0 * r1;
  }

  /** At a positive pool and positive ratios both swap reserves are defined. */
  lemma SwapDefined(reserves: Pair, ratios: Pair)
    requires Positive(reserves) && Positive(ratios)
    ensures 0.0 <= (reserves[1] * reserves[0]) * (ratios[0] / ratios[1])
    ensures 0.0 <= (reserves[0] * reserves[1]) * (ratios[1] / ratios[0])
  {
    SwapArguments(reserves[0], reserves[1], ratios[0], ratios[1]);
  }

  /** The two swap results multiply back to the pool's product. */
  lemma SwapKeepsProduct(sqrt: real -> real, reserves: Pair, ratios: Pair)
    requires IsSqrt(sqrt) && Positive(reserves) && Positive(ratios)
    ensures ReserveAtRatioSwap(sqrt, reserves, 0, ratios) * ReserveAtRatioSwap(sqrt, reserves, 1, ratios)
            == reserves[0] * reserves[1]
  {
    SwapArguments(reserves[0], reserves[1], ratios[0], ratios[1]);
    var x0 := ReserveAtRatioSwap(sqrt, reserves, 0, ratios);
    var x1 := ReserveAtRatioSwap(sqrt, reserves, 1, ratios);
    var p := reserves[0] * reserves[1];
    assert x0 * x0 == (reserves[1] * reserves[0]) * (ratios[0] / ratios[1]);
    assert x1 * x1 == (reserves[0] * reserves[1]) * (ratios[1] / ratios[0]);
    ProductOfScaled(x0, x0, x1, x1);
    assert 0.0 <= x0 * x1 && 0.0 < p;
    SquareInjective(x0 * x1, p);
  }

  /** The two swap results stand at the requested rate `ratios[0] / ratios[1]`. */
  lemma SwapHitsRatio(sqrt: real -> real, reserves: Pair, ratios: Pair)
    requires IsSqrt(sqrt) && Positive(reserves) && Positive(ratios)
    ensures var x0 := ReserveAtRatioSwap(sqrt, reserves, 0, ratios);
            var x1 := ReserveAtRatioSwap(sqrt, reserves, 1, ratios);
            x1 != 0.0 && x0 / x1 == ratios[0] / ratios[1]
  {
    SwapArguments(reserves[0], reserves[1], ratios[0], ratios[1]);
    var x0 := ReserveAtRatioSwap(sqrt, reserves, 0, ratios);
    var x1 := ReserveAtRatioSwap(sqrt, reserves, 1, ratios);
    var q := ratios[0] / ratios[1];
    assert x0 * x0 == (reserves[1] * reserves[0]) * q;
    assert x1 * x1 == (reserves[0] * reserves[1]) * (ratios[1] / ratios[0]);
    assert 0.0 < x1 * x1;
    ProductOfScaled(q, x1, q, x1);
    assert 0.0 < q && 0.0 <= q * x1;
    SquareInjective(x0, q * x1);
  }

  /** The reserve at index `j` after a proportional liquidity change that moves the
      pool to the rate `ratios[j] / ratios[i]` while keeping the other reserve. */
  function ReserveAtRatioLiquidity(reserves: Pair, j: Index, ratios: Pair): (reserve: real)
    requires ratios[Other(j)] != 0.0
    ensures reserves[Other(j)] != 0.0 ==> reserve / reserves[Other(j)] == ratios[j] / ratios[Other(j)]
  {
    var i := Other(j);
    reserves[i] * ratios[j] / ratios[i]
  }

  /** How many units of token `j` one unit of token `i` is worth. */
  function Rate(reserves: Pair, i: Index, j: Index): (rate: real)
    requires reserves[j] != 0.0
    ensures rate * reserves[j] == reserves[i]
    ensures i == j ==> rate == 1.0
  {
    reserves[i] / reserves[j]
  }

  /** The rates in the two directions are reciprocal. */
  lemma RateReciprocal(reserves: Pair)
    requires Positive(reserves)
    ensures Rate(reserves, 0, 1) * Rate(reserves, 1, 0) == 1.0
  {
  }
}
