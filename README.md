# Reserve capping for a constant-product well, in Dafny

This project models the reserve-capping oracle of Basin's differential tests. Two
parts make it up:

- The constant-product well function (`test/differential/ConstantProduct.py`). It
  relates a pool's two reserves to its LP token supply, `sqrt(r0 * r1 * 1e12)`. It
  also gives the share of the reserves that an LP amount redeems, a reserve
  recovered from a supply, the reserves at a target ratio (by swap or by
  liquidity), and the pairwise rate. The class has no state, so module
  `ConstantProduct` (`constant_product.dfy`) holds functions plus lemmas about them.
- The two-stage capper (`test/differential/cap_reserves.py`). `capReserves` clamps
  the step count `capExponent` to 14000, then runs two caps, one pass each.
  1. The magnitude cap `cap_lp_supply` rescales the candidate proportionally so
     that its LP supply lies in `[kLast * (1 - dec)^n, kLast * (1 + inc)^n]`.
  2. The rate cap `cap_ratios` moves the result along its own constant-product
     curve. With `rLast = last0 / last1`, it brings `x0 / x1` down to at most
     `rLast * (1 + b01)^n`, or else `x1 / x0` down to at most
     `(1 / rLast) * (1 + b10)^n`. When the per-step bounds `b01` and `b10` are
     non-negative, or more generally whenever `(1 + b01)^n * (1 + b10)^n >= 1`
     with both factors positive, the output then respects both bounds
     (`RatioCapWithinBounds`).
     When `(1 + b01)^n * (1 + b10)^n < 1`, both conditions can hold at once, and
     only the first is applied (`RateConditionsOverlapBelowOne`).

Module `ReserveCapping` (`cap_reserves.dfy`) models the capper:
- `CapLpSupply` is a function, because the source only rebinds a local.
- `CapRatios` is a method. Like the source, it clamps its exponent in a local and
  overwrites the two entries of a copy of the candidate.
- `CapReserves` is a method that clamps the exponent and composes the two caps.

`RealMath` (`real_math.dfy`) has natural powers and the square-root contract.

Numbers are exact `real`s. Python's `math.sqrt` comes in as a parameter
`sqrt: real -> real`. `IsSqrt(sqrt)` constrains it to be the exact non-negative
square root on the non-negative reals.

Each cap is specified by a relation:
- `CapLpSupply` by its band lemmas.
- `CapRatios` by the predicate `RatioCapped`: the point of the candidate's own
  curve at the violated bound, or the candidate itself. `RatioCappedUnique` shows
  that this predicate determines the output.
- `CapReserves` by `ReservesCapped`, the rate cap applied to the magnitude cap's
  result at the clamped exponent.

### Behaviour of the code worth knowing

- `cap_lp_supply` does not clamp its exponent. Only `cap_ratios`
  (`cap_reserves.py:30-31`) and `capReserves` (`cap_reserves.py:13-14`) do.
  `CapLpSupply` likewise uses the exponent it is given, and `CapReserves` passes it
  the clamped value.
- In exact arithmetic the rate cap keeps the LP supply of its input
  (`RatioCapKeepsSupply`). So, whatever the rate bounds, the final output of
  `capReserves` stays in the LP-supply band whenever the band is well formed
  (`LpSupplyWithinBand`, `CapReservesWithinSupplyBand`). Only floating-point
  rounding could move it out.
- With positive rate factors, the two rate branches exclude each other whenever
  `(1 + b01)^n * (1 + b10)^n >= 1` (`RateConditionsExclusive`). That includes
  non-negative per-step bounds (`BoundsProductAtLeastOne`) and `n = 0`. When the
  product is below one, some positive candidate meets both conditions
  (`RateConditionsOverlapBelowOne`; a concrete instance is
  `RateConditionsOverlap`). The `elif` then takes the first branch, and so does
  `RatioCapped`.

## Model

| member | source | states |
|---|---|---|
| ConstantProduct.Other | test/differential/ConstantProduct.py:38 | the other index of the pair differs from `j` |
| ConstantProduct.LpTokenUnderlying | test/differential/ConstantProduct.py:16 | one redeemed amount per reserve entry |
| ConstantProduct.UnderlyingKeepsRatio | test/differential/ConstantProduct.py:16 | redeeming a non-zero amount returns amounts at the reserves' own ratio `r0 / r1` |
| ConstantProduct.UnderlyingOfWholeSupply | test/differential/ConstantProduct.py:16 | redeeming the whole supply returns the reserves unchanged |
| ConstantProduct.UnderlyingCrossRatio | test/differential/ConstantProduct.py:16 | redeemed amounts satisfy `a0 * r1 == a1 * r0`, and are positive for a positive amount out of a positive supply |
| ConstantProduct.LpTokenSupply | test/differential/ConstantProduct.py:22 | the supply is non-negative, its square is `r0 * r1 * 1e12`, and it is positive for positive reserves |
| ConstantProduct.SupplyUnique | test/differential/ConstantProduct.py:22 | the supply is the only non-negative value whose square is `r0 * r1 * 1e12` |
| ConstantProduct.SupplyScales | test/differential/ConstantProduct.py:22 | scaling both reserves by `t >= 0` scales the supply by `t` |
| ConstantProduct.SupplyOfUnderlying | test/differential/ConstantProduct.py:16-22 | redeeming `a` LP tokens out of the pool's supply yields reserves whose own supply is `a` |
| ConstantProduct.Reserve | test/differential/ConstantProduct.py:30 | the reserve times the opposite reserve times `1e12` is the squared supply, and it is non-negative for a positive opposite reserve; `ReserveOfSupply` and `SupplyOfReserve` prove it inverts `LpTokenSupply` |
| ConstantProduct.ReserveOfSupply | test/differential/ConstantProduct.py:30 | round trip: the reserve recovered from a pair's own supply is the pair's reserve at `j` |
| ConstantProduct.SupplyOfReserve | test/differential/ConstantProduct.py:22-30 | round trip: putting the recovered reserve at `j` gives a pair with the requested supply |
| ConstantProduct.ReserveAtRatioSwap | test/differential/ConstantProduct.py:38-39 | the swap reserve is non-negative, and its square is `r_i * r_j * ratios[j] / ratios[i]` |
| ConstantProduct.SwapArguments | test/differential/ConstantProduct.py:39 | the two square-root arguments multiply to `(r0 * r1)^2`, and their quotient is the squared target rate |
| ConstantProduct.SwapDefined | test/differential/ConstantProduct.py:39 | for positive reserves and ratios both square-root arguments are non-negative |
| ConstantProduct.SwapKeepsProduct | test/differential/ConstantProduct.py:38-39 | the swap reserves for `j = 0` and `j = 1` multiply to `r0 * r1` |
| ConstantProduct.SwapHitsRatio | test/differential/ConstantProduct.py:38-39 | the swap reserves for `j = 0` and `j = 1` stand at the rate `ratios[0] / ratios[1]` |
| ConstantProduct.ReserveAtRatioLiquidity | test/differential/ConstantProduct.py:47-48 | the result divided by the kept reserve `r_i` is `ratios[j] / ratios[i]` |
| ConstantProduct.Rate | test/differential/ConstantProduct.py:56 | the rate times reserve `j` is reserve `i`, and a token's rate against itself is one; `RateReciprocal` relates the two directions |
| ConstantProduct.RateReciprocal | test/differential/ConstantProduct.py:56 | `rate(0, 1) * rate(1, 0) == 1` for positive reserves |
| ReserveCapping.ClampExponent | test/differential/cap_reserves.py:13-14 | the step count is at most 14000, unchanged up to 14000, and 14000 above it |
| ReserveCapping.SupplyCeiling | test/differential/cap_reserves.py:61 | `kMax` is positive exactly when `(1 + inc)^n` is |
| ReserveCapping.SupplyFloor | test/differential/cap_reserves.py:62 | `kMin` is positive exactly when `(1 - dec)^n` is |
| ReserveCapping.BandAroundLast | test/differential/cap_reserves.py:61-62 | for `inc >= 0` the ceiling is at least the last supply; for `0 <= dec <= 1` the floor lies between zero and the last supply |
| ReserveCapping.CapLpSupply | test/differential/cap_reserves.py:55-70 | the output keeps the candidate's ratio (`out0 * c1 == out1 * c0`), and is positive when the ceiling factor is |
| ReserveCapping.LpSupplyKeptIffInBand | test/differential/cap_reserves.py:64-70 | the candidate comes back unchanged if and only if its supply lies in `[kMin, kMax]` |
| ReserveCapping.LpSupplyCappedAbove | test/differential/cap_reserves.py:61-67 | above the band, the output's supply is exactly `kMax` and its ratio is the candidate's |
| ReserveCapping.LpSupplyCappedBelow | test/differential/cap_reserves.py:62-69 | below the band, the output is positive, its supply is exactly `kMin`, and its ratio is the candidate's |
| ReserveCapping.LpSupplyZeroExponent | test/differential/cap_reserves.py:61-69 | with exponent 0 every output has exactly the last supply |
| ReserveCapping.LpSupplyWithinBand | test/differential/cap_reserves.py:58-70 | with `inc >= 0` and `0 <= dec <= 1`, the output's supply lies in `[kMin, kMax]` |
| ReserveCapping.RateBounds | test/differential/cap_reserves.py:34-44 | the two bounds multiply to `(1 + b01)^n * (1 + b10)^n`, equal the last rates at `n = 0`, and are positive when the factors are |
| ReserveCapping.RateFactorsPositiveAboveMinusOne | test/differential/cap_reserves.py:37-41 | per-step rate changes above -1 make both rate factors positive |
| ReserveCapping.SwapLandsOnCurve | test/differential/cap_reserves.py:48-49 | the two swap reserves form a positive point of the candidate's curve at the requested rate, in both directions |
| ReserveCapping.CapRatios | test/differential/cap_reserves.py:26-53 | the output satisfies `RatioCapped`: above the `[0][1]` bound, the curve point at that rate; else above the `[1][0]` bound, the curve point at that rate; otherwise the candidate |
| ReserveCapping.MoveToRatio | test/differential/cap_reserves.py:46-52 | overwriting a copy's two entries with the swap reserves gives a positive curve point at rate `ratios[0] / ratios[1]` |
| ReserveCapping.CurvePointUnique | test/differential/cap_reserves.py:48-52 | two positive points of one curve at the same rate are equal |
| ReserveCapping.RatioCappedUnique | test/differential/cap_reserves.py:47-53 | `RatioCapped` admits at most one output |
| ReserveCapping.BoundsProductAtLeastOne | test/differential/cap_reserves.py:34-44 | with non-negative per-step increases the bounds are positive and multiply to at least 1 |
| ReserveCapping.RateConditionsExclusive | test/differential/cap_reserves.py:47-50 | when both rate factors are positive and `(1 + b01)^n * (1 + b10)^n >= 1`, a candidate above the `[0][1]` bound is not above the `[1][0]` bound |
| ReserveCapping.RateConditionsOverlapBelowOne | test/differential/cap_reserves.py:47-50 | when both rate factors are positive and their product is below one, some positive candidate is above both bounds, so exclusivity holds exactly when the product is at least one |
| ReserveCapping.RateConditionsOverlap | test/differential/cap_reserves.py:34-50 | with per-step bounds of -0.5 both branch conditions hold for the pool `[1, 1]` |
| ReserveCapping.RatioCapWithinBounds | test/differential/cap_reserves.py:34-53 | when both rate factors are positive and multiply to at least one (in particular for non-negative per-step increases), the output's rates lie within both bounds |
| ReserveCapping.RatioCapIdempotent | test/differential/cap_reserves.py:26-53 | when both rate factors are positive and multiply to at least one (in particular for non-negative per-step increases), capping the rate-capped output again returns it unchanged; below that product a capped pair can be moved again |
| ReserveCapping.RatioCapKeepsSupply | test/differential/cap_reserves.py:47-53 | the rate cap keeps the candidate's product, hence its LP supply |
| ReserveCapping.CapReserves | test/differential/cap_reserves.py:11-23 | the output is the rate cap of the magnitude cap of the candidate, both at the clamped exponent (`ReservesCapped`) |
| ReserveCapping.ExponentCeiling | test/differential/cap_reserves.py:13-14 | every step count of at least 14000 gives the same output as 14000 |
| ReserveCapping.CapReservesWithinSupplyBand | test/differential/cap_reserves.py:11-23 | with a well-formed supply band, and for any rate bounds, the output's supply lies in the supply band |
| ReserveCapping.CapReservesWithinBands | test/differential/cap_reserves.py:11-23 | with a well-formed band and non-negative rate increases, the output's supply lies in the supply band and its rates lie within the rate bounds |
| ReserveCapping.CapReservesKeepsAcceptable | test/differential/cap_reserves.py:11-23 | a candidate inside both bands comes back unchanged |
| ReserveCapping.ScenarioMagnitude | test/differential/cap_reserves.py:55-70 | in the worked instance the magnitude cap lands on supply `1.01e9` at rate `r1 / r0 == 2` |
| ReserveCapping.ScenarioRate | test/differential/cap_reserves.py:47-52 | in the worked instance the rate cap moves rate `2` onto the bound `1.01` |
| ReserveCapping.OneStepScenario | test/differential/cap_reserves.py:11-23 | last `[1000, 1000]`, candidate `[1000, 2000]`, one step and 1% bounds give rate `r1 / r0 == 1.01` and supply `1.01e9` |

## Left out

- `main`, `test`, `parse_args` and the `__main__` block of `cap_reserves.py`. They cover argument parsing, the `/ 1e18` scaling of inputs, `eth_abi` encoding, printing, and the `int(...)` truncation of the printed result. All of this is I/O around the core.
- `printIfV` and the `verbose` flag: diagnostic printing only. Python still evaluates the arguments of `printIfV` when `verbose` is off, so the powers at `cap_reserves.py:32-33` can raise (see the float overflow line).
- `test/differential/powu.py`, `test/pumps/simulate.py` and `script/dex-comparisons.js`. They are library wrappers and I/O plumbing, and are not part of this model.
- Floating-point rounding. Python computes in IEEE-754 doubles. The 40-digit `Decimal` context is never applied to these values. The model uses exact reals.
- Float overflow. Python's float `**` raises `OverflowError` once a power leaves the range of a double. This can happen at `cap_reserves.py:37`, `:41`, `:61` and `:62`, and at the `printIfV` arguments on `:32` and `:33`, which are computed even when `verbose` is off. For example, `1.06 ** 14000` is about `e^815`. A 6% per-step bound therefore overflows even at the clamped exponent, and so does a per-step rate bound `max_rs[1][0] = -0.06` through `(1 - max_rs[1][0])**capExponent` on `:33`, where `CapRatios` returns a pair. The model's exact reals never overflow, so this error path is not modelled. The ceiling of 14000 is kept (`ClampExponent`, `ExponentCeiling`), but its purpose of preventing overflow is not.
- Float underflow. With a negative per-step rate bound and a large step count, a rate factor rounds to `0.0`: `0.94 ** 14000` is about `e^-866`. The `[0][1]` bound on `:37` is then `0.0`, the branch on `:47` fires for every positive candidate, and `calcReserveAtRatioSwap` on `:49` divides by that zero bound (`ConstantProduct.py:39`) and raises `ZeroDivisionError`. The model's exact `Pow` stays positive, so `CapRatios` returns the pair at that rate instead. The model does not capture this.
- `math.sqrt` is the parameter `sqrt`, constrained by `IsSqrt`. Dafny's reals have no built-in square root.
- The commented-out magnitude/rate orderings (`cap_reserves.py:17, 22`). Only the live order is modelled: magnitude first, rate second.
- The step count is a `nat`. Python also accepts a negative integer exponent, for which a float power is the reciprocal of the positive power. Such exponents are outside the modelled domain.
- The well function `wf` that `capReserves`, `cap_ratios` and `cap_lp_supply` take as a parameter (`cap_reserves.py:11`, `:26`, `:55`) is fixed to the constant-product well. Other well functions are not modelled.
- ConstantProduct.LpTokenUnderlying: requires a non-zero supply. Python raises `ZeroDivisionError` at `ConstantProduct.py:16` otherwise. The model makes that case a precondition.
- ConstantProduct.LpTokenSupply: requires a non-negative product `r0 * r1`. Python's `math.sqrt` raises `ValueError` otherwise. The model makes that case a precondition.
- ConstantProduct.Reserve: requires a non-zero opposite reserve. Python raises `ZeroDivisionError` at `ConstantProduct.py:30` otherwise. The model makes that case a precondition.
- ConstantProduct.ReserveAtRatioSwap: requires a non-zero `ratios[i]` and a non-negative square-root argument. Otherwise Python raises `ZeroDivisionError` or `math.sqrt`'s `ValueError` at `ConstantProduct.py:39`. The model makes both cases preconditions.
- ConstantProduct.ReserveAtRatioLiquidity: requires a non-zero `ratios[i]`. Python raises `ZeroDivisionError` at `ConstantProduct.py:48` otherwise. The model makes that case a precondition.
- ConstantProduct.Rate: requires a non-zero `reserves[j]`. Python raises `ZeroDivisionError` at `ConstantProduct.py:56` otherwise. The model makes that case a precondition.
- ReserveCapping.CapLpSupply: requires positive last and candidate reserves.
  - On its own, `cap_lp_supply` divides only by the candidate's supply, and only when it rescales (`cap_reserves.py:67`, `:69`, through `ConstantProduct.py:16`). With last reserves `[0, x]` it returns `[0, 0]`.
  - Positive reserves are what `cap_ratios`, which runs next, needs for its divisions (`cap_reserves.py:28`, `:41`, `:47`, `:50`).
  - The model does not cover `cap_lp_supply` on zero or negative reserves.
- ReserveCapping.CapRatios: requires both rate factors `(1 + b)^n` to be positive (`RateFactorsPositive`). The source divides by the bounds and takes square roots of them.
  - Where the first branch fires with a non-positive `[1][0]` factor, the source would still run. This precondition excludes that corner.
  - `RateFactorsPositiveAboveMinusOne` shows that any per-step change above -1 meets the precondition.
- ReserveCapping.CapReserves: also requires a positive ceiling factor `(1 + inc)^n`, so that the magnitude cap's output stays positive before the rate cap divides by it.
