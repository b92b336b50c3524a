# Omnipair core, modelled and proved

Omnipair is a Solana program that runs a constant-product pool whose two reserves are also
lent out. This project models its accounting and fixed-point core and proves what the design
promises about it, for all inputs, all runs and all rounding.

The pieces build on each other:

- `Words`, `Nonlinear`: machine widths, checked and saturating operations, and the few facts
  about products and quotients that the rounding proofs use.
- `Kernels`, `Exponential`, `Average`: Newton square root, range-reduced Taylor exponential
  and moving average, with rational two-sided bounds and monotonicity.
- `Curve`, `VirtualReserves`, `Manipulation`, `BorrowLimit`: the swap curve, reserves at the
  pessimistic price, what moving the reserves can do to them, the borrow limit and the
  liquidation tests.
- `LimitValue`: when the borrow limit is defined, and its factors and value bracketed on both paths.
- `Splitting`, `Crowding`, `Room`: what spreading collateral over accounts can borrow, on the
  dynamic and on the fixed path, and how room to borrow moves with pool debt.
- `Logarithm`, `RateModel`, `RateBounds`, `Interest`, `RateMotion`, `HalfLife`: rate evolution, the
  interest integral, how far rates and averages move, and what their half-lives come to.
- `Ledger`, `Fairness`, `Books`, `Bystanders`: debt shares of one token side, as one call, as
  a state machine over any number of positions, and as seen by uninvolved positions.
- `PairState`, `Accruals`, `Accounts`: the pair update as a function of the old state, what it
  charges, and the two accounts as objects whose methods are proved to perform exactly those
  functions in place.
- `Liquidations`, `Market`, `Borrowing`, `System`, `Leftovers`: swaps, liquidations, liquidity and
  borrowing on the whole pool, run theorems over all of them, results that span several parts,
  and when debt runs out before its shares.
- `WriteOffs`, `Instructions`, `BorrowRuns`: exactly when a liquidation, a swap, a repayment or a
  borrow succeeds, with every amount it moves, and what a sequence of borrows does to the curve.

How the program's failures are modelled: an error code, a failed `expect`, an `unwrap` on
nothing, a division by zero and an overflow panic all revert the transaction, so every
operation returns a `Result` and a failing step leaves the state unchanged. The clock enters
as a slot parameter. Integers are unbounded with explicit subset types, so each cast,
saturation and checked operation is written out.

## Where the code and its documentation differ

The model follows the code; each point below has a lemma.

- A test states that room to borrow never grows with pool debt
  (`programs/omnipair/src/utils/gamm_math.rs:735-752`). It can, because the quote of the
  outstanding debt is rounded up to whole units of collateral: by one unit in the tested range
  (`Room.RoomCanGrow`), by 903,353 units at the asymmetric pool of the overflow regression
  (`Room.RoomCanGrowALot`). The exact size is `Room.RoomGrowsAtMostIff`; when the quote is exact
  it never grows, `Room.ExactQuoteNeverGrowsRoom`.
- The borrow limit is documented as never instantly liquidatable
  (`programs/omnipair/src/utils/gamm_math.rs:816-825`). The limits are ordered as claimed, but
  the test admits equality, so a dust position whose five-percent buffer rounds away is
  liquidatable at once: `BorrowLimit.DustBorrowIsLiquidatableAtOnce`. The exact condition is
  `BorrowLimit.FullBorrowIsSafeIff`, and every limit of twenty units or more is safe.
- Debt crowding holds for every amount of collateral on the dynamic path only. The fixed-factor
  limit ignores outstanding debt, and splitting stays within one account's capacity exactly up
  to the collateral given by `Crowding.FixedSplitWithinCapacity` and `Crowding.FixedGuardIsExact`:
  5.26 % of the virtual reserve at the highest factor.
- The overflow-split path is described as a small loss of precision. The loss is
  `VirtualReserves.EveryPathBracket`. It makes virtual reserves depend on more than k
  (`Manipulation.SplitPathSeesReserves`, exactly when in `VirtualReserves.SquaresAgreeIff`), and
  between two adjacent prices on different paths it can turn the order around
  (`VirtualReserves.CloseMixedPricesAreNotMonotone`, exactly when in
  `VirtualReserves.MixedSquaresOrderedIff`).
- The comment on debt write-offs says a solvent liquidation never lowers k
  (`programs/omnipair/src/state/user_position.rs:142-147`). It can, when the average price is
  above the spot by more than the penalty: `Liquidations.SolventLiquidationCanLowerK`. The exact
  condition, known before the call, is `Liquidations.LiquidationKeepsKIff`; within the net
  penalty of the spot it holds, `Liquidations.PenaltySuffices`.
- Rate validation admits half-lives up to thirty days, but above 693,147,180 ms the growth
  constant rounds to zero and the model divides by it outside the target band:
  `RateBounds.GrowthConstantVanishesIff`, `RateBounds.ThirtyDayModelFails`,
  `RateBounds.WindowDefinedIff`.
- The default half-life is documented to double the rate in three days
  (`programs/omnipair/src/constants.rs:65-70`). The growth constant is the floor of 2.67, so in
  three days two percent grow to 3.36 percent: `HalfLife.DefaultRateDoesNotDouble`. How far a rate
  moves at any constant is `RateMotion.CalculatedRateMoves`.
- The liquidation handler speaks of a pessimistic price but passes the symmetric average twice
  (`programs/omnipair/src/instructions/lending/liquidate.rs:207-210`), while the view uses
  both averages. `BorrowLimit.SafeInViewIsSafeInHandler` says which way the two differ.
- The handler's comment says total shares can run out first and leave debt that the reset
  clears, and that orphaned shares are prevented
  (`programs/omnipair/src/instructions/lending/liquidate.rs:251-253`). With the amounts it
  computes the reset never fires (`Books.LiquidationValue`). Orphaned shares do occur: debt can
  reach zero while shares remain (`Leftovers.DebtCanVanishBeforeShares`, exactly when in
  `Leftovers.StepDrainsIff`), and that side then refuses every borrow and repayment until a
  write-off releases it (`Leftovers.RunKeepsLock`).

## Model

| member | source | states |
|---|---|---|
| Kernels.CeilDivIsCeil | programs/omnipair/src/utils/math.rs:166-171 | away from overflow the program's ceiling division is the mathematical ceiling |
| Instructions.CeilDivIff | programs/omnipair/src/utils/math.rs:166-171 | ceiling division succeeds if and only if the divisor is positive and the rounding-up sum fits 128 bits, and then gives the least sufficient quotient |
| Kernels.Sqrt | programs/omnipair/src/utils/math.rs:74-91 | the Newton loop, every checked operation included, terminates for every u128 with a value, and that value is the unique z with z² ≤ y < (z+1)² |
| Kernels.NewtonStaysAbove | programs/omnipair/src/utils/math.rs:81-84 | one Newton step from any positive guess never lands below the root |
| Kernels.SqrtIsUnique | programs/omnipair/src/utils/math.rs:74-91 | at most one integer satisfies z² ≤ y < (z+1)² |
| Kernels.ISqrt | programs/omnipair/src/utils/math.rs:74-91 | the root by definition, one unit at a time: z² ≤ y < (z+1)² |
| Kernels.ComputeTaylorExp | programs/omnipair/src/utils/math.rs:26-66 | both loops with their overflow fallbacks compute the term, sum and tenth-power recurrences the bounds below are about, for every scale and precision |
| Kernels.BlendBounds | programs/omnipair/src/utils/math.rs:18-19 | a weighted mean rounded down stays between its two inputs |
| Exponential.TaylorExpBounds | programs/omnipair/src/utils/math.rs:26-66 | for every -t in (i64::MIN, 0]: no panic, NAD - t ≤ result ≤ NAD, and result · (NAD + 10·⌊t/10⌋) ≤ NAD² |
| Exponential.TaylorExpAntitone | programs/omnipair/src/utils/math.rs:26-66 | a larger magnitude of x never gives a larger exponential, over the whole range, inputs whose intermediate products overflow included |
| Exponential.SumBelowGeometric | programs/omnipair/src/utils/math.rs:43-50 | the truncated series stays below the geometric series scale² / (scale - r) (telescoping induction) |
| Exponential.SumAboveLinear | programs/omnipair/src/utils/math.rs:43-50 | the series is at least scale + r |
| Exponential.TermShrinks | programs/omnipair/src/utils/math.rs:44-47 | a term is at most the previous one times r / scale, also when the product overflows |
| Exponential.PowerBelowReciprocal | programs/omnipair/src/utils/math.rs:53-59 | Bernoulli upper side: j factors of at most S/(S-r) give at most S/(S-j·r) |
| Exponential.PowerAboveLinear | programs/omnipair/src/utils/math.rs:53-59 | Bernoulli lower side: j factors of at least (S+r)/S give at least (S+j·r)/S, saturation included |
| Exponential.PowerMono | programs/omnipair/src/utils/math.rs:53-59 | a larger base never gives a smaller power, saturation included |
| Exponential.PowerGrows | programs/omnipair/src/utils/math.rs:53-59 | from base ten up the j-th power is at least 10^j, saturation included, so the reciprocal rounds to zero |
| Exponential.PowersOrdered | programs/omnipair/src/utils/math.rs:37-63 | the reciprocals of the tenth powers are ordered like the reduced exponents, across the point where terms start to overflow |
| Exponential.DecayBounds | programs/omnipair/src/state/rate_model.rs:131-132 | for every exponent the i64 cast keeps, the decay factor exists and obeys both rational bounds |
| Exponential.DecayAntitone | programs/omnipair/src/state/rate_model.rs:131-132 | more elapsed exponent never means less decay |
| HalfLife.HalfAtLn2 | programs/omnipair/src/utils/math.rs:26-66 | e^(-ln 2) computes to 500,000,008 billionths: the value of the reduced series and its tenth power |
| HalfLife.QuarterAtTwiceLn2 | programs/omnipair/src/utils/math.rs:26-66 | e^(-2 ln 2) computes to 250,000,028 billionths |
| HalfLife.SeriesIs | programs/omnipair/src/utils/math.rs:43-50 | the series has exactly five terms beyond the scale, each the previous one times r over i, rounded down |
| HalfLife.TenthPowerIs | programs/omnipair/src/utils/math.rs:53-59 | and the exponential is its tenth power, rounded down at each factor |
| Average.EmaStaysInHull | programs/omnipair/src/utils/math.rs:11-24 | an average never leaves the interval between its last value and the observation, on every input for which it is defined |
| Average.EmaIsDefined | programs/omnipair/src/utils/math.rs:11-24 | whenever the exponent survives the cast to i64 the average is defined |
| Average.EmaApproachesObservation | programs/omnipair/src/utils/math.rs:11-24 | the same observation seen later leaves the average at least as close to it, from either side |
| Average.EmaMoves | programs/omnipair/src/utils/math.rs:11-24 | two-sided bounds on how far an average moves towards the observation, in its exponent dt · ln 2 / half-life: at most first order and a unit, at least the rational decay |
| HalfLife.EmaHalves | programs/omnipair/src/utils/math.rs:11-24 | after exactly one half-life an average is half the way, after two three quarters, to the stated digits; without time or half-life it stays |
| Average.EmaCanTurnBack | programs/omnipair/src/utils/math.rs:11-24 | witness beyond the cast: at a half-life of one minute an average two fifths of the way to the observation after a minute is back within half a percent of its start once the exponent wraps |
| PairState.DirectionalTracksDrops | programs/omnipair/src/state/pair.rs:334-373 | after an update the directional average lies in [min(old, spot), spot] for the spot read at entry: a drop shows at once, and the clamp after blending changes nothing |
| PairState.AveragesStayInHull | programs/omnipair/src/state/pair.rs:334-373 | over every run of updates both averages stay within the hull of their seeds and the spots read |
| PairState.DirectionalBelowLastSpot | programs/omnipair/src/state/pair.rs:334-373 | after every non-empty run the directional average is at most the last spot read |
| PairState.PricesAfterUpdate | programs/omnipair/src/state/pair.rs:186-240 | prices read in the slot of the update are the stored averages, and the directional one is at most the spot that update read |
| HalfLife.UpdateHalves | programs/omnipair/src/state/pair.rs:334-373 | the pair's own averages: the symmetric one comes half the way in the pair's half-life, the directional one three quarters in fifteen slots of 400 ms |
| HalfLife.UpdateMoves | programs/omnipair/src/state/pair.rs:334-373 | over every window each average moves by its own half-life, the directional one from the lower of its old value and the spot |
| HalfLife.PricesPreviewUpdate | programs/omnipair/src/state/pair.rs:186-240 | reading a price before an update previews what the update stores; the directional one where the price has not fallen |
| HalfLife.NoPriceWithoutReserve | programs/omnipair/src/state/pair.rs:165-240 | a token without a reserve has no price of any kind |
| Curve.AmountOutValue | programs/omnipair/src/utils/gamm_math.rs:30-42 | selling fails on no input except an empty reserve with nothing sold, and otherwise pays ⌊a·y/(x+a)⌋ |
| Curve.AmountInValue | programs/omnipair/src/utils/gamm_math.rs:49-61 | quoting fails exactly when the reserve cannot pay or the answer exceeds 64 bits, and otherwise is ⌈d·x/(y-d)⌉ |
| Curve.AmountInIsLowerAdjoint | programs/omnipair/src/utils/gamm_math.rs:30-61 | amount_out(a) ≥ d if and only if d = 0 or the quote for d succeeds with at most a: the quote is the least sufficient input, and when it fails no 64-bit input suffices |
| Curve.Adjunction | programs/omnipair/src/utils/gamm_math.rs:30-61 | the same equivalence over unbounded integers, the source of every monotonicity below |
| Curve.QuoteIsIdempotent | programs/omnipair/src/utils/gamm_math.rs:30-61 | quote, sell, quote again: the second quote equals the first |
| Curve.SaleIsIdempotent | programs/omnipair/src/utils/gamm_math.rs:30-61 | sell, quote, sell the quote: the same proceeds from no more input |
| Curve.OutFloorBelowReserve | programs/omnipair/src/utils/gamm_math.rs:752-763 | a sale never empties the other reserve |
| Curve.ProductKeptIff | programs/omnipair/src/utils/gamm_math.rs:30-61 | adding a and paying d keeps x·y from falling if and only if a covers the quote for d |
| VirtualReserves.RootFits | programs/omnipair/src/utils/gamm_math.rs:103-108 | the root of a 128-bit number fits 64 bits, so neither narrowing of a virtual reserve can fail |
| VirtualReserves.FailsExactlyOnFallbackOverflow | programs/omnipair/src/utils/gamm_math.rs:67-133 | construction fails if and only if one of the two overflow-split products itself overflows |
| VirtualReserves.ReservesAreRoots | programs/omnipair/src/utils/gamm_math.rs:78-132 | virtual reserves are exactly the integer roots of k·NAD/P and k·P/NAD, each through the scaled reserve when the direct product does not fit |
| VirtualReserves.ConstructEdges | programs/omnipair/src/utils/gamm_math.rs:67-77 | below a thousand units of either token there are none, without a price they are the real ones, and the lower of the two averages is the price |
| VirtualReserves.VirtualProductNeverExceedsK | programs/omnipair/src/utils/gamm_math.rs:67-133 | X·Y ≤ k on every successful path: direct, overflow-split, shortcut |
| VirtualReserves.DirectBracket | programs/omnipair/src/utils/gamm_math.rs:78-132 | on the direct path k < (X+1)(Y+1), Y·NAD < (X+1)·P and X·P < (Y+1)·NAD |
| VirtualReserves.ReservesMonotoneInPrice | programs/omnipair/src/utils/gamm_math.rs:78-132 | on every path a lower price makes the virtual collateral side deeper and the debt side shallower, for comparable prices: same path, or a small enough remainder on the split one |
| VirtualReserves.MixedSquaresOrderedIff | programs/omnipair/src/utils/gamm_math.rs:110-124 | with the lower price on the direct and the higher on the split path, the debt squares are ordered if and only if rc·((rd·high mod NAD) - rd·(high - low)) < NAD |
| VirtualReserves.FarPricesComparable | programs/omnipair/src/utils/gamm_math.rs:110-124 | in particular prices at least NAD / rd apart are always comparable |
| VirtualReserves.PessimismNeverValuesMore | programs/omnipair/src/utils/gamm_math.rs:64-133 | at the same reserves, collateral valued at the lower of the two averages is never worth more than at the symmetric one, under the same condition |
| VirtualReserves.CloseMixedPricesAreNotMonotone | programs/omnipair/src/utils/gamm_math.rs:110-124 | witness where the condition fails: two adjacent prices on different paths, the lower of which values the same collateral higher |
| VirtualReserves.EveryPathBracket | programs/omnipair/src/utils/gamm_math.rs:87-124 | on every path the two roots bracket k·NAD/P and k·P/NAD, with the loss of the split path written out |
| VirtualReserves.SquaresAtEqualK | programs/omnipair/src/utils/gamm_math.rs:87-124 | at equal k the squares of two pools are ordered, on every path, exactly opposite to the remainders their reserves leave |
| VirtualReserves.SquaresAgreeIff | programs/omnipair/src/utils/gamm_math.rs:87-124 | so both squares agree if and only if both remainders do |
| VirtualReserves.EqualKReserves | programs/omnipair/src/utils/gamm_math.rs:67-133 | pools of equal k that round alike have the same virtual reserves, failures included |
| Manipulation.SplitPathSeesReserves | programs/omnipair/src/utils/gamm_math.rs:87-102 | witness where they do not: on the split path two pools of equal k value the same collateral differently at the same price |
| Manipulation.OnlyKMatters | programs/omnipair/src/utils/gamm_math.rs:78-132 | on the direct path every pool of equal k rounds alike, so only k and the price matter |
| Manipulation.ManipulationIsBounded | programs/omnipair/src/utils/gamm_math.rs:78-132 | on every path, moving the spot along the curve, whatever directional price results, never values any collateral above its value at the symmetric average, as long as the new reserves do not round better for the borrower |
| Manipulation.DirectManipulationIsBounded | programs/omnipair/src/utils/gamm_math.rs:765-804 | on the direct path that needs no condition on rounding |
| Manipulation.ValueBelowPrice | programs/omnipair/src/utils/gamm_math.rs:78-132 | whatever the reserves, so after any swaps that change k: while k·NAD fits 128 bits no collateral is valued above the pessimistic price |
| Manipulation.SplitValueNearPrice | programs/omnipair/src/utils/gamm_math.rs:87-102 | and otherwise above it by at most the root of (q + 1)/q, q being the inner quotient of the split |
| BorrowLimit.BorrowLimitWithinLiquidationLimit | programs/omnipair/src/utils/gamm_math.rs:285-300 | on both the fixed and the dynamic path the borrow limit is at most the liquidation limit at the same prices |
| BorrowLimit.FullBorrowIsSafeIff | programs/omnipair/src/instructions/emit_value.rs:362-386 | a position owing its whole limit fails the view's liquidation test if and only if (V·max_cf mod 10000) + V·(cf - max_cf) ≥ 10000; in particular whenever V·(cf - max_cf) ≥ 10000 |
| BorrowLimit.FullBorrowOfTwentyIsSafe | programs/omnipair/src/utils/gamm_math.rs:285-300 | any borrow limit of at least twenty units is safe in the view, whatever the factors |
| BorrowLimit.DustBorrowIsLiquidatableAtOnce | programs/omnipair/src/utils/gamm_math.rs:816-825 | witness for the failing half: ten units of collateral against a million-unit pool borrow 7 and are liquidatable at once |
| BorrowLimit.SafeInViewIsSafeInHandler | programs/omnipair/src/instructions/lending/liquidate.rs:207-221 | the handler values at the symmetric average only, so what is safe in the view is not liquidated by the handler, on every path at comparable prices |
| BorrowLimit.InflatingSpotGainsNothing | programs/omnipair/src/utils/gamm_math.rs:765-804 | at equal k, for reserves that round alike, with the directional average at or above the symmetric one, the entire borrow limit, factors and failures included, equals the undisturbed one |
| BorrowLimit.LimitBelowPrice | programs/omnipair/src/utils/gamm_math.rs:192-301 | whatever the reserves, while k·NAD fits 128 bits no borrow limit exceeds the collateral at the lower of its two averages |
| LimitValue.LimitDefinedIff | programs/omnipair/src/utils/gamm_math.rs:192-301 | with collateral and prices the limit is defined if and only if the virtual reserves are and, on the dynamic path, the debt can be quoted with room for the collateral |
| LimitValue.FixedFactorShrinks | programs/omnipair/src/utils/gamm_math.rs:273-278 | the returned fixed factor: unchanged at or above the symmetric average, otherwise the proportion of the averages rounded down, from both sides, and never below one percent |
| LimitValue.FixedLimitBracket | programs/omnipair/src/utils/gamm_math.rs:221-300 | a fixed-path call brackets all three returned values, factor, usable factor and limit, by the value of the collateral, the averages and the configured factor alone |
| LimitValue.FixedLimitAtMost | programs/omnipair/src/utils/gamm_math.rs:273-300 | below the symmetric average the limit is at most 95 % of value · factor · directional / symmetric, or of one percent of the value |
| LimitValue.RoomBelowTwiceValue | programs/omnipair/src/utils/gamm_math.rs:243-272 | room for one more account never exceeds twice the value of its collateral by more than a unit, so the cast of its share to 64 bits loses nothing |
| LimitValue.DynamicLimitBracket | programs/omnipair/src/utils/gamm_math.rs:243-300 | a dynamic-path call brackets all three returned values: the factor is the room's share of the value, rounded down, at most 85 % |
| LimitValue.ViewTestIff | programs/omnipair/src/instructions/emit_value.rs:362-411 | the view's test, exactly, the fallback to the real reserves included |
| LimitValue.HandlerTestIff | programs/omnipair/src/instructions/lending/liquidate.rs:207-221 | the handler's test, exactly, and when it fails |
| Splitting.SplitUtilization | programs/omnipair/src/utils/gamm_math.rs:338-366 | for any sequence of accounts under a sound limit rule, the collateral that covers their total debt is at most what was utilised plus all they posted (induction over accounts) |
| Splitting.DynamicLimitIsSound | programs/omnipair/src/utils/gamm_math.rs:192-301 | the dynamic-factor limit is such a rule at every debt and collateral |
| Splitting.SplitDebt | programs/omnipair/src/utils/gamm_math.rs:192-301 | total debt after any sequence of borrowers is at most amount_out(amount_in(D0) + Σ collateral) |
| Splitting.SplittingNeverBeatsOneAccount | programs/omnipair/src/utils/gamm_math.rs:338-366 | no split borrows past the raw capacity of one account holding all the collateral |
| Splitting.LimitWithinCapacity | programs/omnipair/src/utils/gamm_math.rs:243-300 | a non-zero dynamic limit leaves total debt strictly below capacity, through the division to a factor, the u64 cast, the cap and the buffer |
| Crowding.FixedLimitIgnoresDebt | programs/omnipair/src/utils/gamm_math.rs:225-228 | on the fixed path the limit and both factors are the same at every outstanding debt |
| Crowding.FixedLimitIsPart | programs/omnipair/src/utils/gamm_math.rs:221-298 | that limit is exactly m/10000 of the impact value, both rounded down and cut to 64 bits, m being the usable factor that `LimitValue.FixedLimitBracket` pins |
| Crowding.FixedBorrowIsMarginal | programs/omnipair/src/utils/gamm_math.rs:225-300 | any accounts borrowing in turn take at most m/10000 of their collateral's value at no price impact (induction over accounts) |
| Crowding.FixedSplitWithinCapacity | programs/omnipair/src/utils/gamm_math.rs:225-300 | if m·(X + total collateral) ≤ 10000·X, with m the usable factor, no split draws more than one account with all the collateral could from the curve |
| Crowding.NineteenthIsSafe | programs/omnipair/src/utils/gamm_math.rs:209-213 | for every admissible factor that covers collateral up to a nineteenth, 5.26 %, of the virtual reserve |
| Crowding.FineSplitBeatsOne | programs/omnipair/src/utils/gamm_math.rs:225-300 | n equal accounts do beat one as soon as the guard is missed by more than their own impact and rounding |
| Crowding.FineSplitBorrowsMore | programs/omnipair/src/utils/gamm_math.rs:192-301 | the same through the program: those accounts are admissible under its fixed rule and together draw more than one account could |
| Crowding.FixedGuardIsExact | programs/omnipair/src/utils/gamm_math.rs:225-300 | the guard holds if and only if at no scale of pool and collateral any equal split beats one account |
| Crowding.FixedFactorDoesNotCrowd | programs/omnipair/src/utils/gamm_math.rs:225-228 | witness: two half accounts borrow 506,666 where one account has a capacity of 500,000 |
| Room.CapacityIsRoom | programs/omnipair/src/utils/gamm_math.rs:138-175 | the room of the results below is the capacity the program computes less the outstanding debt |
| Room.UnroundedRoomNeverGrows | programs/omnipair/src/utils/gamm_math.rs:735-752 | were the quote of the larger debt not rounded up, room would never grow |
| Room.ExactQuoteNeverGrowsRoom | programs/omnipair/src/utils/gamm_math.rs:735-752 | room does not grow when the larger debt is quoted exactly, that is when (y - D) divides D·x |
| Room.RoomGrowsAtMost | programs/omnipair/src/utils/gamm_math.rs:735-752 | it grows by at most what the last unit of the quote buys on top of the collateral |
| Room.RoomGrowsAtMostIff | programs/omnipair/src/utils/gamm_math.rs:735-752 | for every g, room grows by at most g if and only if an inequality between reserves, collateral and the quotes of the two debts holds; g = 0 is the stated monotonicity |
| Room.FirstUnitIff | programs/omnipair/src/utils/gamm_math.rs:735-752 | for the first unit of debt, the same in reserves and collateral alone |
| Room.RoomCanGrow | programs/omnipair/src/utils/gamm_math.rs:735-752 | witness in the stated test range: capacity 9,900 at debt 0 and 9,902 at debt 1, so room grows by one |
| Room.RoomCanGrowALot | programs/omnipair/src/utils/gamm_math.rs:661-691 | witness at the pool of the overflow regression: the first unit of debt adds 903,353 units of room |
| Logarithm.ComputeLn | programs/omnipair/src/state/rate_model.rs:251-284 | both range-reduction loops terminate with z in [NAD/2, 2·NAD) and the method equals the recursive definition |
| Logarithm.ScaleUp | programs/omnipair/src/state/rate_model.rs:257-260 | the doubling loop ends at or above NAD/2, and below NAD if it ran |
| Logarithm.ScaleDown | programs/omnipair/src/state/rate_model.rs:261-264 | the halving loop ends in [NAD/2, 2·NAD) |
| Logarithm.Reduce | programs/omnipair/src/state/rate_model.rs:256-264 | both loops together land in [NAD/2, 2·NAD) for every positive input |
| Logarithm.LnNonNegative | programs/omnipair/src/state/rate_model.rs:251-284 | ln(x) ≥ 0 for x ≥ NAD |
| Logarithm.LnMono | programs/omnipair/src/state/rate_model.rs:251-284 | ln is monotone from NAD up, across every halving |
| Logarithm.LnBelowLinear | programs/omnipair/src/state/rate_model.rs:251-284 | ln(x) ≤ x - NAD for x ≥ NAD |
| Logarithm.LnAboveConcave | programs/omnipair/src/state/rate_model.rs:251-284 | (x - NAD)·NAD ≤ (ln(x) + 2)·x for x ≥ NAD: within two units of 1 - 1/x |
| Logarithm.DoublingAddsLn2 | programs/omnipair/src/state/rate_model.rs:251-284 | doubling adds exactly 693,147,180, above one and below one half |
| Logarithm.LnTable | programs/omnipair/src/state/rate_model.rs:251-284 | five logarithms to the unit, on either side of one, and at one half 1136 units short |
| RateBounds.RateMovesTheRightWay | programs/omnipair/src/state/rate_model.rs:123-218 | one window keeps floor and cap, never lowers the rate above the band, never raises it below, and leaves it alone inside; how far it moves is `RateMotion.CalculatedRateMoves` |
| RateMotion.CalculatedRateMoves | programs/omnipair/src/state/rate_model.rs:123-218 | how far every window moves the rate it returns: exactly to the cap or floor it hits, not at all inside the band, and otherwise within two-sided bounds of growth or decay by the exponent |
| RateMotion.ChargedIsYearShare | programs/omnipair/src/state/rate_model.rs:205-218 | every window charges exactly its integral over 31,536,000,000 ms, rounded up, cut to 64 bits; the fallback that rounds down is never taken |
| RateMotion.NoTimeNoCharge | programs/omnipair/src/state/rate_model.rs:123-128 | without elapsed time neither rate nor charge changes |
| RateMotion.DoublingTime | programs/omnipair/src/state/rate_model.rs:220-284 | the time to double or halve is 693,147,180 over the growth constant |
| RateMotion.ModelValues | programs/omnipair/src/state/rate_model.rs:45-118 | the constants of a validated model: basis points times 100,000, and the floor of ln 2 over the half-life |
| HalfLife.DefaultRateDoesNotDouble | programs/omnipair/src/constants.rs:65-70 | witness: at the default half-life of three days two percent grow to 3.36 % in three days, not to four |
| RateBounds.RunStaysInBounds | programs/omnipair/src/state/rate_model.rs:123-218 | over every run of windows the rate stays between floor and cap |
| RateBounds.WindowDefinedIff | programs/omnipair/src/state/rate_model.rs:123-218 | a representable window fails exactly when the growth constant is zero, utilisation is outside the band, and the rate is not already above the cap in the rising case |
| RateBounds.GrowthConstantVanishesIff | programs/omnipair/src/state/rate_model.rs:45-58 | for validated parameters the growth constant is zero if and only if the half-life exceeds 693,147,180 ms |
| RateBounds.ThirtyDayModelFails | programs/omnipair/src/state/rate_model.rs:76-118 | witness: a thirty-day half-life passes validation and its first window above the band panics |
| RateBounds.ValidatedModelIsOrdered | programs/omnipair/src/state/rate_model.rs:60-118 | validated parameters give the ordered bounds the run theorem needs |
| RateBounds.WindowDecay | programs/omnipair/src/state/rate_model.rs:129-132 | a representable window has a decay factor in [NAD - e·dt, NAD] that also obeys the reciprocal bound |
| Interest.RisingSandwich | programs/omnipair/src/state/rate_model.rs:143-179 | unsaturated growth: the end rate exceeds the start by at most end · x and at least start · x - 9·start - NAD (in units of NAD, x the exponent, while the factor is positive); I ≤ end·dt, and start·dt - (9·start + NAD)/e - 1 ≤ I if and only if the decay factor is positive or the window does not outlast the growth |
| Interest.FallingSandwich | programs/omnipair/src/state/rate_model.rs:181-191 | unsaturated decay: the rate falls by at most start · x and a unit, and at least by end · x - 9·end; end·dt - 9·end/e - 1 ≤ I ≤ start·dt + NAD/e |
| Interest.SplitSandwich | programs/omnipair/src/state/rate_model.rs:159-169 | a window that reaches cap or floor charges at least the lower rate throughout, and at most the higher rate plus the stated rounding, also where the ratio of the rates is cut to 64 bits |
| Interest.CappedSandwich | programs/omnipair/src/state/rate_model.rs:150-170 | growth into the cap: the cap is reached exactly and the split bounds hold, already being at the cap included |
| Interest.FlooredSandwich | programs/omnipair/src/state/rate_model.rs:193-211 | decay into the floor: the floor is reached exactly and the split bounds hold |
| Interest.WindowSandwich | programs/omnipair/src/state/rate_model.rs:123-218 | every representable window: interest is at most flat accrual at the higher end rate, and at least at the lower one exactly unless an uncapped rise with a decay factor of zero outlasts its growth; a saturated window pays the lower rate in full |
| Interest.ShortWindowPaysBetween | programs/omnipair/src/state/rate_model.rs:123-218 | every window with an exponent of at most NAD·(NAD-1) + 9 lies between the two |
| Interest.EndlessRiseUndercharges | programs/omnipair/src/state/rate_model.rs:143-179 | the exception is real: an uncapped rise from a rate of at least one over an exponent of 2·NAD² charges less than the start rate throughout |
| Interest.StoppedGrowthPaysIff | programs/omnipair/src/state/rate_model.rs:146-177 | with a decay factor of zero growth stops, and exactly how long that still pays the start rate |
| Interest.SaturatedWindowCharges | programs/omnipair/src/state/rate_model.rs:150-211 | what a saturated window charges after the division by a year is at least the lower rate's share of a year, rounded up, clamped to 64 bits |
| Ledger.DebtOfIsCeil | programs/omnipair/src/state/user_position.rs:202-230 | every successful reading of a debt is ⌈shares · total debt / total shares⌉ |
| Ledger.DebtOfValue | programs/omnipair/src/state/user_position.rs:202-230 | a holder of at most all shares reads at most the total debt, without failing for lack of 64 bits |
| Ledger.IncreaseValue | programs/omnipair/src/state/user_position.rs:80-130 | borrowing succeeds if and only if the amount is positive and within cash, debt stands behind existing shares, and the share product fits 128 bits; then the whole new state |
| Fairness.BorrowNeverFavoursBorrower | programs/omnipair/src/state/user_position.rs:80-130 | borrowing a raises the borrower's reading by at least a and nobody else's at all |
| Fairness.BorrowCostsAtMostOneUnit | programs/omnipair/src/state/user_position.rs:78-130 | with at least as many shares as debt units, by at most a + 1 |
| Fairness.RepaymentNeverFavoursPayer | programs/omnipair/src/state/user_position.rs:152-200 | repaying a lowers the payer's reading by at most a and raises nobody else's |
| Fairness.RepaymentNeverOrphans | programs/omnipair/src/state/user_position.rs:152-176 | a repayment of at most the total never fires the orphan-debt reset: shares reach zero only with the whole debt repaid |
| Fairness.FullRepaymentBurnsEverything | programs/omnipair/src/state/user_position.rs:152-215 | repaying exactly the reading burns exactly all of the position's shares |
| Fairness.OthersNotCharged | programs/omnipair/src/state/user_position.rs:202-215 | if debt per share does not rise, no holder's rounded-up reading rises |
| Fairness.ActorBearsChange | programs/omnipair/src/state/user_position.rs:202-215 | then the holder whose shares changed bears at least the whole change of the total |
| Fairness.DebtOfIsOwed | programs/omnipair/src/state/user_position.rs:202-230 | every successful reading equals the debt over unbounded integers the fairness results speak about |
| Bystanders.LiquidationChargesAtMostOneUnit | programs/omnipair/src/instructions/lending/liquidate.rs:235-262 | a liquidation raises any other position's reading by at most one unit |
| Bystanders.LiquidationChargesIff | programs/omnipair/src/instructions/lending/liquidate.rs:235-262 | it does charge it if and only if the rounding slack of the bystander's reading is smaller than its part of the remainder that flooring the written-off debt leaves; both known before the call |
| Bystanders.WholeWriteOffChargesNobody | programs/omnipair/src/instructions/lending/liquidate.rs:251-262 | in particular nobody is charged when total shares divide written-off shares times total debt |
| Leftovers.LiquidationCanChargeBystanders | programs/omnipair/src/instructions/lending/liquidate.rs:143-359 | witness through the handler at a million-unit pool: a bystander's reading rises from one unit to two |
| Bystanders.WrittenOffIsFloor | programs/omnipair/src/instructions/lending/liquidate.rs:251-262 | the written-off debt is exactly the whole part of what the written-off shares carry; the clamp to the position's own debt never bites |
| Bystanders.StepElsewhere | programs/omnipair/src/state/user_position.rs:80-200 | one instruction of anybody else leaves a position's shares alone and raises its reading by at most one unit, and only if it is a liquidation |
| Bystanders.RunElsewhere | programs/omnipair/src/state/user_position.rs:80-200 | over every run of other positions' instructions between accruals a position's shares stay put and its reading rises by at most one unit per liquidation |
| Books.StepKeepsSound | programs/omnipair/src/state/user_position.rs:136-200 | every step keeps: position shares add up to the total, no debt without shares, cash + debt ≤ reserve; the gap reserve - cash - debt never shrinks, and it grows if and only if a write-down of given shares orphans debt |
| Books.RunKeepsSound | programs/omnipair/src/state/user_position.rs:136-200 | the same over every run, write-downs of any amount up to the debt included |
| Books.RunKeepsBalance | README.md:11 | over every run in which no write-down of given shares orphans debt, reserve = cash + debt holds exactly; liquidations need no such premise |
| Books.LiquidationValue | programs/omnipair/src/instructions/lending/liquidate.rs:229-262 | with the handler's amounts the reserve fallback of one is never taken and the orphan reset never fires: shares reach zero only when the whole debt is written off |
| Books.WriteOffValue | programs/omnipair/src/state/user_position.rs:165-175 | for a write-off of any shares the reserve falls by exactly the amount, and the debt by the amount plus what the reset drops |
| Instructions.WriteOffAlways | programs/omnipair/src/state/user_position.rs:152-200 | a write-off never fails and burns exactly the given shares as far as they are held; reserve, debt and both fallbacks exactly |
| Books.AccrueValue | programs/omnipair/src/state/pair.rs:407-460 | interest and protocol fee move reserve, cash and debt so that their gap is unchanged unless the reserve saturates; the amounts are `Accruals.AccrueIff` |
| Accruals.AccrueIff | programs/omnipair/src/state/pair.rs:407-460 | with i = ⌈debt · integral / NAD⌉, f = ⌊i · bps / 10000⌋ and c = min(f, cash): accrual succeeds if and only if debt + i + f fits; debt grows by i + f, cash falls by c, the reserve grows by i + f - c |
| Books.RepaySideValue | programs/omnipair/src/instructions/lending/repay.rs:11-93 | a repayment the handler admits leaves reserve and gap unchanged |
| Instructions.RepayIff | programs/omnipair/src/instructions/lending/repay.rs:11-93 | a repayment succeeds if and only if something is owed, a positive amount of at most that is repaid and the share product fits; every amount it moves, the shares burned included |
| Books.ReadingsCoverDebt | programs/omnipair/src/state/user_position.rs:202-230 | total debt ≤ Σ readings < total debt + number of positions |
| Books.OwedBracket | programs/omnipair/src/state/user_position.rs:202-230 | Σ readings times total shares lies between Σ shares times total debt and that plus (total shares - 1) per position |
| Books.RunReadingsCoverDebt | programs/omnipair/src/state/user_position.rs:202-230 | and so at the end of every run, while shares remain |
| Leftovers.RepayAllDrainsIff | programs/omnipair/src/state/user_position.rs:152-176 | repaying everything leaves shares without debt if and only if others hold shares that together carry less than one unit |
| Leftovers.RepayDrainsIff | programs/omnipair/src/state/user_position.rs:152-176 | repaying a given amount does if and only if it is the whole debt and others hold shares |
| Leftovers.StepDrainsIff | programs/omnipair/src/state/user_position.rs:80-200 | no other step of the program does: exact condition over all steps |
| Leftovers.DebtCanVanishBeforeShares | programs/omnipair/src/instructions/lending/liquidate.rs:143-359 | witness run of the handlers at a million-unit pool: borrow, borrow, partial liquidation, repay-all leave zero debt and 500,000 shares |
| Books.NoBorrowWithoutDebt | programs/omnipair/src/state/user_position.rs:92-102 | from such a state every borrow on that side fails |
| Leftovers.LockedSideRefuses | programs/omnipair/src/state/user_position.rs:80-200 | and so does every repayment |
| Leftovers.RunKeepsLock | programs/omnipair/src/state/user_position.rs:80-200 | over every run that writes nothing off the lock holds: same shares, no debt |
| Leftovers.LockedLiquidationIsWorthless | programs/omnipair/src/instructions/lending/liquidate.rs:181-262 | the handler liquidates such a side only where the collateral supports no debt, and writes off none |
| PairState.UtilizationAtMostOne | programs/omnipair/src/state/pair.rs:376-389 | debt within the reserve keeps utilisation at most NAD |
| PairState.ChargeValue | programs/omnipair/src/state/pair.rs:376-460 | one side of the accrual never lowers reserve or debt, never raises cash, and keeps the gap unless the reserve saturates; the amounts are `Accruals.ChargeIff` |
| Accruals.ChargeIff | programs/omnipair/src/state/pair.rs:376-460 | one side of an update: the rate of its window, and interest, fee and cash taken exactly as for a single accrual |
| Accruals.UtilizationIsShare | programs/omnipair/src/state/pair.rs:376-389 | utilisation is debt · NAD / reserve rounded down, nothing on an empty reserve |
| Accruals.UpdateCharges | programs/omnipair/src/state/pair.rs:376-460 | an update charges each side its own window, at its own rate and utilisation at entry and 400 ms a slot, and sets slot and rates |
| Accruals.UpdateIff | programs/omnipair/src/state/pair.rs:326-460 | on representable windows an update succeeds if and only if both debts still fit 64 bits with interest and fee |
| Accruals.SameSlotUpdate | programs/omnipair/src/state/pair.rs:326-373 | within one slot an update only lets the directional averages drop to the spot |
| PairState.UpdateKeepsBalance | programs/omnipair/src/state/pair.rs:326-460 | an update never lowers k, a reserve or a debt, never touches shares, and keeps the gap of each side unless a reserve saturates |
| Accounts.Pair.constructor | programs/omnipair/src/state/pair.rs:83-144 | every field of a new pair: empty sides, minimum liquidity as total supply, no collateral, and the given parameters |
| Accounts.Pair.Update | programs/omnipair/src/state/pair.rs:326-460 | in place: exactly the specified successor state, or the specified error with nothing changed |
| Accounts.Pair.AccrueWindow | programs/omnipair/src/state/pair.rs:376-460 | in place: rates, debts, reserves and cash of the window, all or nothing |
| Accounts.Pair.Observe | programs/omnipair/src/state/pair.rs:334-373 | the averages of one price, branch by branch |
| Accounts.UserPosition.constructor | programs/omnipair/src/state/user_position.rs:37-49 | a new position is zeroed and owned |
| Accounts.UserPosition.SetLiquidationCfForDebtToken | programs/omnipair/src/state/user_position.rs:55-63 | locks the factor read back for this debt token and leaves the other token's factor alone |
| Accounts.UserPosition.IncreaseDebt | programs/omnipair/src/state/user_position.rs:80-130 | in place on both objects: the ledger's borrow on the side of the debt token, the other side and shares untouched, a failure changing nothing |
| Accounts.UserPosition.DecreaseDebt | programs/omnipair/src/state/user_position.rs:152-200 | in place on both objects: the ledger's repayment or write-off, with the same frame |
| Accounts.UserPosition.DecreaseDebt0 | programs/omnipair/src/state/user_position.rs:153-176 | the arm for token0, in place |
| Accounts.UserPosition.DecreaseDebt1 | programs/omnipair/src/state/user_position.rs:177-198 | the arm for token1, in place |
| Market.SwapNeverBreaksInvariant | programs/omnipair/src/instructions/spot/swap.rs:158-230 | with fees of at most 100 % the final check of x·y never fires, k never falls, and the proceeds are the view's quote |
| Instructions.SwapIff | programs/omnipair/src/instructions/spot/swap.rs:158-230 | a swap succeeds if and only if something is offered, the curve is defined, what is kept fits, and the proceeds reach the minimum and are in cash; the whole fee is withheld from the sale, the futarchy's part leaves reserve and cash, the rest stays |
| Instructions.QuoteIff | programs/omnipair/src/instructions/emit_value.rs:199-218 | the view's quote: the proceeds of the amount less the rounded-up fee, and that fee; when it fails |
| Instructions.LiquidityIff | programs/omnipair/src/instructions/liquidity/remove_liquidity.rs:243-320 | liquidity comes in whenever it fits and goes out whenever reserve and cash hold it, and moves nothing else |
| Instructions.ProvideThenWithdraw | programs/omnipair/src/instructions/liquidity/add_liquidity.rs:143-160 | what is put in can be taken out again at once and leaves the pool as it was |
| Instructions.BorrowIsLocal | programs/omnipair/src/state/user_position.rs:80-130 | borrowing touches nobody else's shares, not the other token, and no virtual reserve |
| Instructions.RepayIsLocal | programs/omnipair/src/state/user_position.rs:152-200 | nor does repaying |
| Market.SplittingASwapNeverHelps | programs/omnipair/src/instructions/spot/swap.rs:158-230 | any sequence of swaps in one direction pays in total at most one fee-free swap of the joint net input |
| Market.SpreeStaysUnderCurve | programs/omnipair/src/instructions/spot/swap.rs:158-230 | the invariant behind it: proceeds so far fit under the starting curve at the net input so far |
| Liquidations.LiquidationFollowsPlan | programs/omnipair/src/instructions/lending/liquidate.rs:181-303 | debt written off, collateral seized and the caller's part are what reserves, price, shares and collateral say beforehand; when a liquidation succeeds is `WriteOffs.LiquidationIff` |
| WriteOffs.LiquidationIff | programs/omnipair/src/instructions/lending/liquidate.rs:143-359 | a liquidation succeeds if and only if the position holds shares whose debt can be read, is at or above the limit of its collateral, solvent or not, half the shares can be computed unless all go, the debt can be quoted, the factor for the rest is defined and the seizure fits the reserve |
| WriteOffs.LiquidationOutcome | programs/omnipair/src/instructions/lending/liquidate.rs:221-359 | every amount of a successful liquidation: shares and debt written off, seizure with penalty, the caller's part, both sides afterwards and the factor locked in |
| WriteOffs.BadDebtGoesWhole | programs/omnipair/src/instructions/lending/liquidate.rs:221-262 | where selling all the collateral does not pay for the debt every share of the position is written off; otherwise half of them, rounded up |
| WriteOffs.BadDebtIsWrittenOff | programs/omnipair/src/instructions/lending/liquidate.rs:143-359 | witness: collateral worth 90,909 against a debt of 150,000 is seized whole and the whole debt written off |
| WriteOffs.NoReservesNoLiquidation | programs/omnipair/src/instructions/lending/liquidate.rs:207-210 | without virtual reserves there is no liquidation |
| Liquidations.LiquidationKeepsKIff | programs/omnipair/src/instructions/lending/liquidate.rs:143-303 | a liquidation keeps k if and only if, decided before the call, its net seizure covers the quote at the spot reserves for the debt to be written off |
| Liquidations.SolventLiquidationCanLowerK | programs/omnipair/src/state/user_position.rs:142-147 | witness: a solvent position, an uncut seizure, and k falls by 3.7 %, at an average twice the spot |
| Liquidations.LiquidationNeedsLiquidity | programs/omnipair/src/instructions/lending/liquidate.rs:207-213 | no liquidation succeeds against reserves below the minimum |
| Liquidations.PessimisticReserves | programs/omnipair/src/utils/gamm_math.rs:78-132 | at a price not above spot the virtual reserves are deeper in collateral and shallower in debt than the real ones |
| Liquidations.PenaltySuffices | programs/omnipair/src/instructions/lending/liquidate.rs:264-303 | an uncut liquidation covers its debt while the virtual quote is within the net penalty, two and a half percent, of the spot quote |
| Liquidations.NotAboveSpotCovers | programs/omnipair/src/state/user_position.rs:142-147 | in particular at every price not above spot |
| Market.ActKeepsBalance | README.md:11 | each instruction on the whole pool keeps reserve = cash + debt and the share sums on both sides |
| Market.PlayKeepsBalance | README.md:11 | so does every run of swaps, accruals, borrows, repayments, liquidations, deposits and withdrawals by any positions |
| Market.ActKeepsK | programs/omnipair/src/state/user_position.rs:136-150 | no instruction lowers k, other than a withdrawal or a liquidation whose proceeds, decided beforehand, do not cover the debt it writes off |
| Market.LiquidationCoversK | programs/omnipair/src/state/user_position.rs:142-150 | for a liquidation covering is exactly what keeps k |
| Market.PlayKeepsK | programs/omnipair/src/state/user_position.rs:136-150 | over every run without withdrawals whose liquidations cover their debt, k never decreases |
| Market.NoFreeLunch | programs/omnipair/src/state/user_position.rs:136-150 | hence no such run takes any of one token without leaving strictly more of the other |
| System.UpdateIsAccrual | programs/omnipair/src/state/pair.rs:376-460 | every update that advances the clock is an accrual of the pool, so the run theorems cover it |
| System.UpdateRatesFollowUtilization | programs/omnipair/src/state/pair.rs:376-406 | each side's rate answers to that side's utilisation at entry and stays within floor and cap; how far it moves is `System.UpdateMovesRates` |
| System.UpdateMovesRates | programs/omnipair/src/state/pair.rs:376-406 | how far each rate moves in an update, from both sides, over 400 ms a slot at the utilisation of its own side at entry |
| System.SpotIsReserveRatio | programs/omnipair/src/state/pair.rs:165-183 | the spot price of a token is the other reserve per unit of its own, rounded down |
| System.LiquidationBelowSpotKeepsK | programs/omnipair/src/instructions/lending/liquidate.rs:207-303 | with the symmetric average not above spot, an uncut liquidation never lowers the pair's k |
| System.UtilizationOverRuns | programs/omnipair/src/state/pair.rs:376-389 | over every run utilisation stays at most one on both sides |
| System.WithinLimitCannotBeLiquidated | programs/omnipair/src/instructions/lending/liquidate.rs:207-221 | a position owing at most its limit cannot be liquidated at the same reserves and prices once the limit is at least twenty units or the buffer is worth one |
| Borrowing.BorrowStaysWithinLimit | programs/omnipair/src/instructions/lending/borrow.rs:97-231 | after the borrow handler the position reads as owing at least its old debt plus the loan, at most one unit over the limit, and asking for everything reaches the limit exactly before share rounding; what the limit is read from is `BorrowRuns.LimitReads` |
| BorrowRuns.LimitReads | programs/omnipair/src/state/pair.rs:288-310 | for either token as collateral the limit is that of its two prices, both reserves and the debt of the token lent, and fails without a price |
| BorrowRuns.BorrowIff | programs/omnipair/src/instructions/lending/borrow.rs:97-231 | the handler lends if and only if a positive amount within limit, cash and share arithmetic is asked for; then the whole new pair and position |
| BorrowRuns.BorrowStaysUnderCurve | programs/omnipair/src/instructions/lending/borrow.rs:160-231 | on the dynamic path, for either token as collateral, the new total debt is strictly below what the curve pays for the utilised collateral plus the collateral posted |
| BorrowRuns.BorrowWithinBracket | programs/omnipair/src/instructions/lending/borrow.rs:160-231 | on either path the handler's limit and factors are bracketed by the virtual reserves of the right orientation, the debt of the token lent and the prices |
| BorrowRuns.BorrowAllStaysCovered | programs/omnipair/src/instructions/lending/borrow.rs:97-231 | whatever a sequence of handler calls asks for, the debt it leaves is covered on the curve by what was utilised before plus all collateral behind the calls (induction over calls) |
| Borrowing.LimitLeavesTwoUnits | programs/omnipair/src/utils/gamm_math.rs:285-300 | a limit of at least forty units, or a buffer worth two, leaves the borrow limit at least two units below the handler's liquidation limit |
| Borrowing.BorrowLeavesPositionSafe | programs/omnipair/src/instructions/lending/borrow.rs:160-232 | a position that has just borrowed cannot be liquidated in the same slot at the locked-in factor, share rounding included, once its limit is at least forty units or the buffer is worth two, on every path at comparable prices |

## Left out

Contracts with a premise the program does not check, or weaker than the design promises:

- Books.RunKeepsSound: requires that minted shares and the growth of the reserve do not saturate (`Books.Unsaturated`); saturating additions do break the identities, so the premise is explicit.
- Books.RunKeepsBalance: the same two premises, as a saturated reserve loses the excess, and no orphaning write-down.
- Market.PlayKeepsBalance: the same two premises, and swap fees of at most 100 %.
- Market.PlayKeepsK: withdrawals lower k by design, and a liquidation that does not cover its debt does too; both are excluded, the second by its exact condition.
- Liquidations.NotAboveSpotCovers: needs k·NAD within 128 bits; otherwise `Liquidations.PenaltySuffices` and the exact `Liquidations.LiquidationKeepsKIff` decide.
- VirtualReserves.DirectBracket: the direct path; `VirtualReserves.EveryPathBracket` is the form for every path, with a loss of more than one unit on the split one.
- Manipulation.ManipulationIsBounded: needs equal k and reserves that do not round better; without equal k `Manipulation.ValueBelowPrice` is what holds.
- Manipulation.OnlyKMatters: the direct path; `VirtualReserves.SquaresAgreeIff` is the condition on every path.
- BorrowLimit.InflatingSpotGainsNothing: equal k and reserves that round alike; without them `BorrowLimit.LimitBelowPrice` is what holds.
- BorrowLimit.SafeInViewIsSafeInHandler: comparable prices, without which it fails (`VirtualReserves.CloseMixedPricesAreNotMonotone`, exactly when in `VirtualReserves.MixedSquaresOrderedIff`).
- Borrowing.BorrowLeavesPositionSafe: comparable prices, and a share worth at most one unit of debt; beyond that a single share rounds by more than a unit.
- Crowding.FixedGuardIsExact: speaks of pools of any size, beyond 64 bits; `Crowding.FineSplitBorrowsMore` is the form for the program's own pools.
- Average.EmaIsDefined: the exponent must stay below 2^63; larger ones wrap in the cast to i64, and the average is then bounded (`Average.EmaStaysInHull`) but can turn back (`Average.EmaCanTurnBack`).
- Interest.WindowSandwich: the exponent must stay below 2^63, where the cast to i64 wraps.
- RateMotion.CalculatedRateMoves: the exponent must stay below 2^63; `System.UpdateMovesRates` and `Accruals.UpdateIff` share the premise.
- Average.EmaMoves: the exponent must stay below 2^63, as for `HalfLife.UpdateMoves`.
- WriteOffs.LiquidationIff: a position holds at most all shares, and debt is within the reserve; both are kept by every run (`Market.PlayKeepsBalance`).
- BorrowRuns.BorrowStaysUnderCurve: the dynamic path; the fixed factor ignores other debt, and `BorrowRuns.BorrowWithinBracket` is what holds on both.
- RateBounds.RunStaysInBounds: the exponent of every window must stay below 2^63.
- Splitting.SplittingNeverBeatsOneAccount: the joint collateral must fit 64 bits and the single account's own capacity call must succeed; `Splitting.SplitDebt` needs neither.

Not modelled:

- Handlers of swap, borrow, repay, liquidate and liquidity act on values of the two token sides, not on account objects; only the pair and the position are objects.
- Error codes are kept where one is returned by name, but where several operations fail in one instruction the model may report a different one of them; either way nothing changes.
- Adding liquidity checks the cash addition, a liquidation saturates it; the model saturates in both, which is the same while cash is at most the reserve.
- LP token supply, deposit shares, the withdrawal fee and the debt-coverage check after a withdrawal: a withdrawal is any payment from both sides that cash allows.
- Posting and removing collateral, and the total collateral counters.
- `get_rates`, remaining borrow limit, debt utilisation and liquidation-price getters, decimal normalisers and view enums: small closed-form arithmetic.
- Flash loans, the same-transaction liquidity circuit breaker, reduce-only flags, futarchy authority and revenue distribution: balance checks and linear scans whose results follow from reading one body.
- Anchor account validation, addresses, token transfers, Token-2022 fees and events: foreign calls.
- The i128 width of the intermediates of the logarithm: they are unbounded integers here.
- The distance of the exponential and the logarithm from the real functions: the rational inequalities above are what the other proofs use.
