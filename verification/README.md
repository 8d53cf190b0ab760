# Accounting of Set tokens, verified

Index Protocol keeps all of its books in integers with 18 decimals: a Set token has a supply, a unit per
token for every position it holds or owes, and balances that must cover those units although every
conversion between unit and notional rounds. This project models that accounting and proves that the
rounding directions chosen by the protocol are the right ones: over every input, every run of calls and
every split of a supply, holders stay covered and nobody gains by going around in a circle.

| file | what it models |
|---|---|
| `Nonlinear.dfy` | products and floor division, as small lemmas for the solver |
| `FixedPoint.dfy` | the rounding primitives, signed and unsigned |
| `ProRata.dfy` | unit and back: the share of a notional that a quantity takes |
| `NavIssuance.dfy`, `NavRun.dfy` | issuing and redeeming at net asset value, one call and any run of calls |
| `StreamingFee.dfy` | the streaming fee, one accrual and any schedule of accruals |
| `DebtIssuance.dfy` | the debt issuance calls as pure steps on the books of a Set |
| `DebtSolvency.dfy` | what those steps keep over any run, and that every redemption is payable |
| `DebtEffects.dfy` | what a sync, lever, delever and liquidation do to every component, and when they succeed |
| `DebtDrift.dfy` | runs in which interest and liquidations move balances and debts between the calls |
| `StoredUnits.dfy` | the debt issuance calls on units that are stored through the position multiplier |
| `DebtRoundTrip.dfy` | issue then redeem, redeem everything, and the two versions of the fee formula |
| `DebtLedger.dfy` | a class that performs the same calls in place, component by component |
| `PerpPositions.dfy` | perpetual positions: transfers in and out, closing, funding, levering |
| `LiquidityShares.dfy` | shares of a liquidity pool and the quantity to engage |

## Reading the model

Integers are unbounded, as the big integers of the TypeScript formulas are. Their `div` truncates toward
zero and is written out as `TruncDiv`; their `mod` is Euclidean and only taken by positive moduli. Division
by zero throws in the source and is a `requires` here, except where the source itself answers zero.
Supplies, valuations, prices, swap quotes, account info and pool reserves, which the source reads from
contracts, are arguments.

The calls of the debt ledger follow `contracts/protocol/modules/v1/DebtIssuanceModule.sol` and the sync of
`contracts/protocol/modules/v1/AaveLeverageModule.sol`, which the equations of
`test/integration/aaveUniswapLeverageDebtIssuance.spec.ts` check. A call that reverts leaves the books as
they were. A component's `balance` is the Set's balance of that very token, so what a redeemer pays beyond
the debt lands there.

The formulas of the source that have no contract of their own:

| Dafny | source |
|---|---|
| `FixedPoint.PreciseMul` ... `FixedPoint.DivDown` | `utils/common/mathUtils.ts`, lines 5 to 62 |
| `NavIssuance.IssuePositionMultiplier`, `RedeemPositionMultiplier` | `utils/common/navIssuanceModuleUtils.ts`, lines 7 to 17 and 109 to 119 |
| `NavIssuance.IssueQuantity`, `PostFeeQuantity`, `ReserveRedeemQuantity` | same file, lines 19 to 50, 77 to 86 and 88 to 107 |
| `NavIssuance.IssuePositionUnit`, `RedeemPositionUnit` | same file, lines 52 to 75 and 121 to 145 |
| `StreamingFee.Fee`, `InflationAmount`, `PostFeeUnit` | `utils/common/feeModuleUtils.ts`, lines 8 to 45 |
| `PerpPositions.NetFundingGrowth`, `LeverNotional`, `ToUSDCDecimals` | `utils/common/perpV2Utils.ts`, lines 220 to 261, 36 to 52 and 17 to 19 |
| `LiquidityShares.TokensInReserve`, `EngageQuantities` | `utils/common/uniswapUtils.ts`, lines 118 to 133 and 30 to 55 |

Where code and expectation differ, the code is modelled and the difference is stated exactly:

- The tests compute a redemption's net quantity with `preciseMul(quantity, 1 - fee)`, which rounds the fee
  up; the contract rounds it down. They agree if and only if the fee divides evenly
  (`DebtRoundTrip.RedeemNetMatchesTestsIff`, `DebtRoundTrip.RedeemNetDiffersFromTests`). The ledger follows
  the contract.
- After a liquidation the tests expect the unit less a rounded-up cut; the contract's sync can find one more.
  `DebtSolvency.CutAgreesWithSyncIff` gives the exact condition, `DebtSolvency.CutCanBeBelowSync` an input.
- Some issuance tests take equity flows with `preciseMul` where others take `preciseMulCeil`; their values
  divide evenly. The contract rounds up, and so does the ledger.
- Issuing and redeeming back returns no more equity than was put in, except into a Set without supply that
  still holds collateral: then the holding goes to the issuer (`DebtRoundTrip.EquityRoundTripIff`). Calls
  alone lead there (`DebtRoundTrip.DustIsReachable`).
- A full redemption repays the debt exactly if and only if it divides evenly over the supply
  (`DebtRoundTrip.FullRedemptionClearsDebt`).
- A short whose unit rounds to zero is treated as a long when its profit is computed
  (`PerpPositions.PnlIsGainOverEntryIff`). It trades no base then, so this is without effect as long as
  swapping nothing is quoted nothing (`PerpPositions.PnlIsGainOverEntry`).
- Funding takes its magnitude from the premium, a cumulative growth, and its direction from the order of two
  averages. The two can disagree (`PerpPositions.FundingCanOpposePremium`);
  `PerpPositions.FundingFollowsPremiumIff` says exactly when they do not.
- A cut by more than a unit clears the unit, where the tests' subtraction would make it negative
  (`DebtSolvency.SeizureKeepsCollateral`).

## Model

| member | source | states |
|---|---|---|
| FixedPoint.DivDownIsFloor | utils/common/mathUtils.ts:54-62 | for every sign of both arguments and every q: q is at most the result exactly when q is at most the exact quotient, so the result is the mathematical floor |
| FixedPoint.DivCeilIntLeastMagnitude | utils/common/mathUtils.ts:41-52 | the result has the least magnitude not below the exact one, is odd in each argument and equals the unsigned ceiling on positives |
| FixedPoint.MulCeilIntLeastMagnitude | utils/common/mathUtils.ts:17-27 | the same for multiplication; it agrees with the unsigned ceiling if and only if the product is not negative |
| FixedPoint.MulFloorGalois | utils/common/mathUtils.ts:5-7 | the unsigned product is the largest integer not above the exact one |
| FixedPoint.MulCeilGalois | utils/common/mathUtils.ts:9-15 | the unsigned ceiling product is the smallest integer not below the exact one |
| FixedPoint.DivFloorGalois | utils/common/mathUtils.ts:29-31 | the unsigned quotient is the largest integer not above the exact one |
| FixedPoint.DivCeilGalois | utils/common/mathUtils.ts:33-39 | the unsigned ceiling quotient is the smallest integer not below the exact one |
| FixedPoint.CeilUnitRoundTrip | utils/common/mathUtils.ts:5-39 | a balance turned into a unit rounded up and back is at least the balance and at most one base unit more per further whole token of supply |
| FixedPoint.CeilUnitRoundTripExactIff | test/integration/aaveUniswapLeverageDebtIssuance.spec.ts:402 | every balance is recovered exactly from its rounded-up unit if and only if the supply is at most one whole token |
| FixedPoint.FloorUnitRoundTrip | utils/common/mathUtils.ts:5-31 | a unit rounded down never recovers more than the balance and bounds how much less |
| ProRata.ShareTracksProportion | utils/common/perpV2Utils.ts:166-167 | a share has its notional's sign or is zero, is at most proportional to its quantity and short by less than one base unit and one unit rounding |
| ProRata.SharesConserve | utils/common/perpV2Utils.ts:161-167 | for any split of at most the supply, the magnitudes of all shares sum to at most the whole and each has its sign or is zero |
| NavIssuance.PostFeeBounds | utils/common/navIssuanceModuleUtils.ts:77-86 | what fees leave is between nothing and everything, at least the exact remainder and less than two base units above it |
| NavIssuance.IssueForIsFair | utils/common/navIssuanceModuleUtils.ts:45-49 | for any deposit and credit: the stake issued is worth at most the credit, and the value per token of the others does not fall |
| NavIssuance.IssueForIsTight | utils/common/navIssuanceModuleUtils.ts:45-49 | for any deposit and credit: a stake with one token more would be worth more than the credit, up to one rounding of a product |
| NavIssuance.IssueIsFair | utils/common/navIssuanceModuleUtils.ts:19-50 | the same two sides for an issue computed from a reserve quantity and rates: the stake is worth at most the credit, nobody else's value per token falls, and one token more would exceed the credit up to one rounding |
| NavIssuance.CreditBounds | utils/common/navIssuanceModuleUtils.ts:32-40 | what fees and premium leave of the reserve never exceeds what fees leave, and is exact to less than one base unit |
| NavIssuance.NormalizedAreExact | utils/common/navIssuanceModuleUtils.ts:42-43 | deposit and credit are the largest integers not above the reserve net of fees, and of premium, scaled to 18 decimals |
| NavIssuance.NotionalSubPremiumBounds | utils/common/navIssuanceModuleUtils.ts:96-101 | the notional redeemed is quantity times valuation rounded down, and what the premium leaves of it is exact to one unit and rounded against the redeemer |
| NavIssuance.PaymentIsExactUpToRounding | utils/common/navIssuanceModuleUtils.ts:88-107 | a redeemer's payment is the value net of premium and fees, bounded on both sides by the roundings |
| NavIssuance.PaymentBounds | utils/common/navIssuanceModuleUtils.ts:88-107 | what leaves the Set is the notional net of premium in base units, rounded down; it covers the payment, and is covered by the notional value redeemed |
| NavIssuance.RemainingHoldersKeepValue | utils/common/navIssuanceModuleUtils.ts:96-106 | after a redemption the remaining supply at the same valuation is worth no less than before minus what left |
| NavIssuance.RoundTripGivesNoProfit | utils/common/navIssuanceModuleUtils.ts:29-107 | issuing with a reserve and redeeming in any number of pieces, at any rates and at valuations not above the Set's value after the issue, pays back at most the reserve net of fees and premium |
| NavIssuance.IssueUnitTracksDeposit | utils/common/navIssuanceModuleUtils.ts:52-75 | the new reserve unit is what is read back of old notional plus deposit per token; over the new supply it claims at most those, and less only by its two roundings |
| NavIssuance.RedeemConserves | utils/common/navIssuanceModuleUtils.ts:121-145 | payment plus the notional of the new unit never exceeds the notional of the old unit; the new unit is what is read back of the rest per token and loses only its two roundings |
| NavIssuance.StoredUnitBounds | utils/common/navIssuanceModuleUtils.ts:72-74 | storing a unit virtually and reading it back never raises it and costs less than one step of the multiplier |
| NavIssuance.StoredUnitIsReadBack | utils/common/navIssuanceModuleUtils.ts:72-74 | the unit read back is the virtual unit over the multiplier rounded down, and the virtual unit the real one times the multiplier rounded down |
| NavIssuance.IssueMultiplierIsSupplyRatio | utils/common/navIssuanceModuleUtils.ts:7-17 | rounding inflation up scales the multiplier by the supply ratio rounded down |
| NavIssuance.RedeemMultiplierIsSupplyRatio | utils/common/navIssuanceModuleUtils.ts:109-119 | rounding deflation down scales the multiplier by the same supply ratio rounded down |
| NavIssuance.IssueThenRedeemBackNeverRaisesMultiplier | utils/common/navIssuanceModuleUtils.ts:13-118 | issuing to a higher supply and redeeming back never raises the multiplier |
| NavRun.IssueAcceptedIff | utils/common/navIssuanceModuleUtils.ts:7-75 | an issue goes through if and only if there is value beyond its credit, supply to start from, and the multiplier does not round to zero |
| NavRun.RedeemAcceptedIff | utils/common/navIssuanceModuleUtils.ts:88-145 | a redemption goes through if and only if tokens are left, the multiplier is positive and the reserve position accounts for what leaves the Set |
| NavRun.StepIsExact | utils/common/navIssuanceModuleUtils.ts:7-145 | an issue mints its quantity and adds the reserve net of fees, a redemption burns its quantity and removes what leaves the Set; the unit follows what is held, the multiplier is scaled by the supply ratio, and a refused call changes nothing |
| NavRun.RunKeepsBacking | utils/common/navIssuanceModuleUtils.ts:7-145 | after any run of issues and redemptions the reserve covers unit times supply, and multiplier times supply never grew |
| NavRun.RunConservesReserve | utils/common/navIssuanceModuleUtils.ts:62-144 | over any run the reserve moves by exactly the deposits and what redemptions removed; payments to redeemers and the final reserve together never exceed the first reserve and the deposits |
| NavRun.MultiplierNeverRaisedAtSameSupply | utils/common/navIssuanceModuleUtils.ts:7-119 | after any run that ends with at least the first supply, the multiplier is at most the first multiplier |
| StreamingFee.FeeFloor | utils/common/feeModuleUtils.ts:8-20 | the fee is the largest integer not above rate times elapsed time over a year |
| StreamingFee.MintIsLargestFairShare | utils/common/feeModuleUtils.ts:22-30 | a mint is at most the computed one exactly when it gives the recipient at most the fee's fraction of the new supply |
| StreamingFee.InflatedSupply | utils/common/feeModuleUtils.ts:22-30 | supply plus mint is the old supply over what the fee leaves of it, rounded down |
| StreamingFee.PostFeePositionUnits | utils/common/feeModuleUtils.ts:32-45 | the loop pushes for every position, in order, what the fee leaves of its unit: an asset rounded down, the magnitude of a debt rounded up |
| StreamingFee.AssetStaysCovered | utils/common/feeModuleUtils.ts:26-39 | an asset unit times supply never grows and falls by no more than one rounding of each |
| StreamingFee.DebtIsNotUnderstated | utils/common/feeModuleUtils.ts:40-42 | a debt unit keeps its sign, its magnitude does not grow, and over the next larger supply it exceeds the old debt |
| StreamingFee.DebtIsNotOverstated | utils/common/feeModuleUtils.ts:40-42 | with one unit less of magnitude, a debt over the new supply is at most the old debt over the old supply |
| StreamingFee.InflationComposes | utils/common/feeModuleUtils.ts:18-29 | charging two fees in turn inflates the supply no more than charging their sum |
| StreamingFee.SkippingAnAccrualMintsMore | utils/common/feeModuleUtils.ts:18-29 | leaving out any accrual but the last of any schedule never lowers the final supply |
| StreamingFee.ScheduleMintsAtMostOneAccrual | utils/common/feeModuleUtils.ts:18-29 | no schedule of accruals mints more than one accrual over the whole period |
| StreamingFee.ScheduleKeepsAssetsCovered | utils/common/feeModuleUtils.ts:26-44 | over any schedule every asset unit times supply never exceeds its first value |
| StreamingFee.ScheduleKeepsDebtsStated | utils/common/feeModuleUtils.ts:18-44 | over any schedule of n accruals a debt unit keeps its sign, and over the final supply plus 2n tokens inflated by the whole period's fee it is at least the first debt |
| StreamingFee.DebtSlackBound | utils/common/feeModuleUtils.ts:18-44 | the tokens that rounding hides of a debt over n accruals are at most two each, inflated by the fee of the whole period |
| StreamingFee.ScheduleOverstatesNoDebt | utils/common/feeModuleUtils.ts:18-44 | over any schedule a debt over the final supply exceeds the first debt by at most one unit per accrual |
| StreamingFee.FeesChargedTrackPeriod | utils/common/feeModuleUtils.ts:8-20 | the fees of a schedule sum to at most the fee of the whole period, and to less than one below it per accrual |
| StreamingFee.ScheduleMintsAtLeastSimpleFee | utils/common/feeModuleUtils.ts:18-30 | any schedule mints at least the whole period's fee on the first supply, less one token and one unit of fee per accrual |
| StreamingFee.ScheduleTakesAtMostSimpleFee | utils/common/feeModuleUtils.ts:18-39 | over any schedule an asset unit loses at most the whole period's fee on it and one unit per accrual |
| DebtSolvency.SyncCollateralizes | contracts/protocol/modules/v1/AaveLeverageModule.sol:1124-1137 | a sync makes both units the best whole numbers for any balance and debt: collateral rounded down, debt rounded up |
| DebtSolvency.FlowsWithinOneUnit | contracts/protocol/modules/v1/DebtIssuanceModule.sol:471-481 | every equity and debt flow is within one base unit of the quantity's exact claim, on the side that favours the Set |
| DebtSolvency.CutAgreesWithSyncIff | test/integration/aaveUniswapLeverageDebtIssuance.spec.ts:529 | after a liquidation of a synced unit, the synced unit is the tests' unit less the rounded-up cut if and only if the seized amount divides evenly over the supply or leaves a larger remainder than the balance; otherwise it is one higher |
| DebtSolvency.CutCanBeBelowSync | test/integration/aaveUniswapLeverageDebtIssuance.spec.ts:529 | seizing one of two base units held by three is an input on which they differ |
| DebtSolvency.SeizureKeepsCollateral | test/integration/aaveUniswapLeverageDebtIssuance.spec.ts:491-529 | seizing any part of a balance keeps the component covered after the cut; seizing all of it leaves no claim |
| DebtSolvency.DeleverSucceedsIff | contracts/protocol/modules/v1/AaveLeverageModule.sol:313-359 | from a collateralized state a delever is refused only for want of supply, of collateral or of two distinct components |
| DebtSolvency.LeftoverIsBacked | contracts/protocol/modules/v1/AaveLeverageModule.sol:865-877 | what a delever trades beyond the debt raises the default unit by the tracked balance and the leftover over the supply, rounded down, and not by what was airdropped |
| DebtSolvency.StepKeepsCollateral | contracts/protocol/modules/v1/AaveLeverageModule.sol:287-470 | issue, redemption, sync, lever, delever and liquidation each keep every claim covered by balances and every debt covered by debt units |
| DebtSolvency.EveryRunIsCollateralized | test/integration/aaveUniswapLeverageDebtIssuance.spec.ts:402-1131 | so does any interleaving of them |
| DebtSolvency.PublicRunsNeverDilute | contracts/protocol/modules/v1/DebtIssuanceModule.sol:109-205 | over any run of syncs, issues and redemptions no token's claim on any component falls and none of its debts grows |
| DebtSolvency.IssueSucceedsIff | test/integration/aaveUniswapLeverageDebtIssuance.spec.ts:420-437 | however collateral and debts drifted, an issue mints quantity and fee, moves each balance and debt by its synced flow and leaves the synced units; it leaves a collateralized Set when there was supply or, as at a first issue, no debt |
| DebtSolvency.RedeemSucceedsIff | contracts/protocol/modules/v1/DebtIssuanceModule.sol:164-205 | however collateral and debts drifted, a redemption succeeds exactly when its quantity is positive and exists, leaves a collateralized Set with the synced units, and moves net assets by the two flows; the tests' two balance equations hold exactly when no more than the debt is paid |
| DebtSolvency.EveryRedemptionOrderIsPayable | contracts/protocol/modules/v1/DebtIssuanceModule.sol:164-205 | from any drifted state a list of redemptions, those of fee tokens minted by earlier ones included, succeeds if and only if each quantity is positive and at most the supply left by the net quantities before it; the supply falls by the net quantities |
| DebtSolvency.EverySplitExistsInTurn | test/integration/aaveUniswapLeverageDebtIssuance.spec.ts:1113-1130 | every split of at most the supply meets that condition in any order |
| DebtEffects.SyncIsExact | contracts/protocol/modules/v1/AaveLeverageModule.sol:437-470 | a sync moves no balance or debt and, with supply, makes every debt unit the least that covers the debt and every collateral unit the largest that the balance covers, whichever way they were off; nothing else changes |
| DebtEffects.LeverIsExact | contracts/protocol/modules/v1/AaveLeverageModule.sol:838-859 | a lever succeeds exactly with supply and two existing components; collateral rises by what the trade brought, debt by what was borrowed, both units become exact, and nothing else moves, also when both are one component |
| DebtEffects.DeleverIsExact | contracts/protocol/modules/v1/AaveLeverageModule.sol:313-359 | exactly when a delever succeeds, and what it does: collateral falls by what is sold, what the trade brings pays off the debt first and is kept beyond it, the unit then claims the tracked balance and that rest, and nothing else moves |
| DebtEffects.LiquidateIsExact | test/integration/aaveUniswapLeverageDebtIssuance.spec.ts:491-529 | exactly when a liquidation succeeds, and what it does: balance and debt fall by the seized and covered amounts, the unit by the least cut that covers the seizure, and nothing else moves |
| DebtDrift.EventKeepsDefaults | contracts/protocol/modules/v1/AaveLeverageModule.sol:428-470 | no call and no drift of collateral balances and debts touches what unsynced components must hold |
| DebtDrift.DriftReachesIff | contracts/protocol/modules/v1/AaveLeverageModule.sol:428-436 | interest and liquidations can lead to exactly the books with the same supply and units that differ in debts and collateral balances alone |
| DebtDrift.EveryDriftingRunIsRedeemable | contracts/protocol/modules/v1/AaveLeverageModule.sol:428-470 | after any interleaving of calls, interest and liquidations a sync collateralizes every Set with supply, and a redemption succeeds exactly when its tokens exist |
| StoredUnits.ReadBackBounds | contracts/protocol/SetToken.sol:556-581 | storing through any positive multiplier and reading back each round down, for either sign; together they never raise a unit and lower it by less than one step of each rounding |
| StoredUnits.CallsOnStoredUnitsKeepCollateral | contracts/protocol/SetToken.sol:556-581 | with the units read back through any positive multiplier after a sync, only the two units change and only by rounding, an issue keeps the Set collateralized, and every existing quantity can be paid and leaves it so |
| DebtRoundTrip.EquityRoundTrip | test/integration/aaveUniswapLeverageDebtIssuance.spec.ts:420-437 | whatever part of an issue is redeemed, with the syncs in between, pays out at most the equity put in |
| DebtRoundTrip.EquityRoundTripIff | contracts/protocol/modules/v1/AaveLeverageModule.sol:437-470 | that holds for every quantity if and only if there is supply, or the component is not synced, or holds nothing |
| DebtRoundTrip.FullRedemptionLeavesNoDustIff | test/integration/aaveUniswapLeverageDebtIssuance.spec.ts:1237-1248 | redeeming the whole supply pays out the whole of a synced balance if and only if it divides evenly over the supply |
| DebtRoundTrip.DustIsReachable | contracts/protocol/modules/v1/DebtIssuanceModule.sol:109-205 | a run from empty books that ends without supply and with collateral left |
| DebtRoundTrip.DebtRoundTripRepays | test/integration/aaveUniswapLeverageDebtIssuance.spec.ts:426-437 | redeeming what was issued repays at least the debt handed out, however stale the debt unit was |
| DebtRoundTrip.IssueThenRedeemGivesNoProfit | contracts/protocol/modules/v1/DebtIssuanceModule.sol:109-205 | the same for the two calls on a whole Set from any drifted state, first issue included: for any fees both succeed and no component is gained; without fees the debt is repaid |
| DebtRoundTrip.FullRedemptionClearsDebt | test/integration/aaveUniswapLeverageDebtIssuance.spec.ts:1206-1250 | redeeming the whole supply clears the debt; the excess stays in the Set, is bounded, and is zero if and only if the debt divides evenly over the supply |
| DebtRoundTrip.IssueTotalMatchesTests | contracts/protocol/modules/v1/DebtIssuanceModule.sol:356-374 | on issue the contract's total is the tests' product with one plus the fee |
| DebtRoundTrip.RedeemNetMatchesTestsIff | test/integration/aaveUniswapLeverageDebtIssuance.spec.ts:1113 | on redemption the contract's net quantity is the tests' or one more; they agree if and only if the fee divides evenly |
| DebtRoundTrip.RedeemNetDiffersFromTests | test/integration/aaveUniswapLeverageDebtIssuance.spec.ts:1113 | quantity 1 and fee 1: the contract charges nothing, the tests everything |
| DebtLedger.Ledger.constructor | test/integration/aaveUniswapLeverageDebtIssuance.spec.ts:330-342 | a new Set has its units, no supply and empty books, and is collateralized |
| DebtLedger.Ledger.Sync | contracts/protocol/modules/v1/AaveLeverageModule.sol:437-470 | in place, every debt unit and collateral unit becomes exact for its debt and balance, and nothing else changes; the Set is collateralized afterwards |
| DebtLedger.Ledger.RequiredComponentUnits | contracts/protocol/modules/v1/DebtIssuanceModule.sol:453-484 | the two arrays hold per component the equity and debt amounts with the rounding of an issue or of a redemption |
| DebtLedger.Ledger.ReceiveEquity | contracts/protocol/modules/v1/DebtIssuanceModule.sol:540-574 | the loop adds each equity amount of an issue to its balance and touches nothing else |
| DebtLedger.Ledger.BorrowDebt | contracts/protocol/modules/v1/DebtIssuanceModule.sol:581-612 | the loop adds each debt amount of an issue to its debt and touches nothing else |
| DebtLedger.Ledger.RepayDebt | contracts/protocol/modules/v1/DebtIssuanceModule.sol:581-612 | the loop repays each debt up to what is owed and leaves the excess in the balance |
| DebtLedger.Ledger.PayEquity | contracts/protocol/modules/v1/DebtIssuanceModule.sol:540-574 | the loop pays every equity amount out, and fails exactly when some balance does not suffice |
| DebtLedger.Ledger.Issue | contracts/protocol/modules/v1/DebtIssuanceModule.sol:109-152 | in place, the books become those of the pure step and the receipt shows the flows; a revert changes nothing; collateralization is kept |
| DebtLedger.Ledger.Redeem | contracts/protocol/modules/v1/DebtIssuanceModule.sol:164-205 | the same for a redemption, which settles exactly when the quantity is positive and exists |
| DebtLedger.Ledger.Lever | contracts/protocol/modules/v1/AaveLeverageModule.sol:838-859 | in place, collateral rises by what the trade brought and debt by what was borrowed, both units become exact for the new balances, and nothing else moves |
| DebtLedger.Ledger.RepayFromSale | contracts/protocol/modules/v1/AaveLeverageModule.sol:865-878 | in place, the amounts of a delever are moved and the positions of both components recomputed |
| DebtLedger.Ledger.Delever | contracts/protocol/modules/v1/AaveLeverageModule.sol:313-359 | in place, collateral falls by what is sold, the debt is repaid up to what is owed, a leftover kept as a default position, both units recomputed and nothing else moved; collateralization is kept |
| DebtLedger.Ledger.Liquidate | test/integration/aaveUniswapLeverageDebtIssuance.spec.ts:491-529 | in place, balance and debt fall by the seized and covered amounts and the unit by the least cut that covers the seizure |
| PerpPositions.ContributionIsSignedQuoteIff | utils/common/perpV2Utils.ts:110-125 | ideal quote and slippage cancel to minus the quote for a position that sells at least one base unit, and to the quote for any other, if and only if no sale has a positive ideal quote |
| PerpPositions.TransferInPreciseUnits | utils/common/perpV2Utils.ts:85-130 | the loop computes all contributions and the share of collateral, realized profit, net quote and, if included, funding; with no negative price the contributions are the signed quotes and no price matters |
| PerpPositions.TransferOutPreciseUnits | utils/common/perpV2Utils.ts:144-187 | the loop computes the magnitude of all realized profits and the share of collateral, owed profit and, if included, funding |
| PerpPositions.PnlIsGainOverEntryIff | utils/common/perpV2Utils.ts:165-184 | realized profit is what the quote beats the closed notional by, for long and short, if and only if the position is not a short whose unit rounds to zero, or nothing is quoted |
| PerpPositions.PnlIsGainOverEntry | utils/common/perpV2Utils.ts:165-184 | when swapping no base is quoted nothing, realized profit is what the quote beats the closed notional by, for every long and short |
| PerpPositions.PnlBySide | utils/common/perpV2Utils.ts:168-184 | on top of the closed notional, the quote is paid for a position whose unit is negative and received for any other |
| PerpPositions.CloseBounds | utils/common/perpV2Utils.ts:170-171 | close ratio and closed notional of a redemption are the exact proportions of trade to base and of the open notional, rounded down, with the open notional's sign |
| PerpPositions.CloseTracksProportion | utils/common/perpV2Utils.ts:165-171 | a redemption closes the open notional in proportion to its quantity: never more, and less only by one base unit and the roundings of unit, trade and ratio |
| PerpPositions.RedemptionsNeverOverClose | utils/common/perpV2Utils.ts:165-171 | for any split of the supply from one snapshot, base trades, close ratios and closed notionals sum to at most the position, the whole and the open notional, each with its sign |
| PerpPositions.SequentialRedemptionsKeepExposure | utils/common/perpV2Utils.ts:165-167 | redeeming one after the other never flips a position and base per remaining token never falls |
| PerpPositions.SequentialRedemptionsRaiseByRounding | utils/common/perpV2Utils.ts:165-167 | redeeming one after the other, base per remaining token rises by at most one base unit per redemption and per whole token redeemed, spread over what remains |
| PerpPositions.DailyPremiumIsExact | utils/common/perpV2Utils.ts:230-238 | the daily premium has the premium's sign and is the exact one rounded toward zero, although it is divided twice |
| PerpPositions.FundingIsSignedShare | utils/common/perpV2Utils.ts:232-260 | the branches collapse to the balance's share of the premium's magnitude, in the direction of the market |
| PerpPositions.FundingFollowsPremiumIff | utils/common/perpV2Utils.ts:232-260 | funding is what the balance pays on the signed premium if and only if the order of the averages has the premium's sign or nothing is due |
| PerpPositions.FundingCanOpposePremium | utils/common/perpV2Utils.ts:232-260 | a negative accumulated premium while the mark is not below the index: a long is charged what the premium owes it |
| PerpPositions.FundingIsAntisymmetric | utils/common/perpV2Utils.ts:236-260 | what a balance gains the opposite balance pays |
| PerpPositions.FundingIsZeroSum | utils/common/perpV2Utils.ts:220-261 | over any non-empty list of balances that cancel, net funding is below the number of traders in magnitude |
| PerpPositions.LeverUsesCollateral | utils/common/perpV2Utils.ts:35-52 | the traded base costs at most the levered collateral and less than one base unit short of it; the quote limit is 2% above the cost for a long and 2% below it for a short, to less than one base unit |
| PerpPositions.ToUSDCDecimalsIsExact | utils/common/perpV2Utils.ts:17-19 | converting to USDC decimals drops twelve digits of the magnitude and keeps the sign |
| PerpPositions.USDCPartsWithinWhole | utils/common/perpV2Utils.ts:17-19 | converting parts to USDC decimals loses less than one unit each against converting the whole, and never gains |
| LiquidityShares.ClaimsTrackReserves | utils/common/uniswapUtils.ts:118-133 | each claim is at most proportional to the pool tokens held and short by less than one base unit and one unit rounding |
| LiquidityShares.ClaimsConserveReserves | utils/common/uniswapUtils.ts:118-133 | for any holdings of at most the pool's supply, the claims sum to at most each reserve |
| LiquidityShares.EngageReachesPercentage | utils/common/uniswapUtils.ts:30-55 | engaging the two quantities brings both holdings to within one unit of the percentage of holding and pool share together |

## Left out

- The 256-bit limits of the contracts: the formulas modelled here run on unbounded integers, and no overflow is considered.
- Virtual units of components other than the reserve asset: only the multiplier they all share is followed.
- The rules by which interest, swaps and liquidations set amounts: their outcomes are arguments of the steps, and any drift of collateral balances and debts is an event of `DebtDrift`.
- The caller's funds and the lender's consent: an issue assumes that the issuer can pay and the lender lends, a redemption that the redeemer can repay.
- External positive positions: a component has one default position and one debt position.
- The split of fees between manager and protocol: both are minted, so only their sum moves the books.
- Balances of individual holders: the ledger knows the supply, so a burn is limited by it.
- The separate error messages of trades and liquidations: one error stands for all of a call's refusals.
- Collateral and debt amounts below which Aave refuses a trade or a liquidation.
- DebtLedger.Ledger.Sync: keeps the unit itself, where the SetToken stores it through its position multiplier and refuses a unit that would be read back as zero; StoredUnits.CallsOnStoredUnitsKeepCollateral shows that storing keeps the Set collateralized. The exact agreements and round trips are stated for the unit itself.
- DebtLedger.Ledger.Delever: takes what the trade brought net of the protocol fee, and stands for `deleverToZeroBorrowBalance` too, whose trade must bring at least the debt.
- DebtLedger.Ledger.Liquidate: cuts the unit at once, where the contract leaves it until the next sync; that order is a drift followed by a sync, covered by DebtDrift.EveryDriftingRunIsRedeemable, and DebtSolvency.CutAgreesWithSyncIff compares the units.
- `calculateLeverageRatios`, `calculateMaxIssueQuantity` and `calculateExternalPositionUnit` of `utils/common/perpV2Utils.ts`: single expressions over the same primitives.
- `sqrt`, `min` and `calculateLPTokensIssued` of `utils/common/uniswapUtils.ts`: they compare big-integer objects with operators that do not compare numbers.
- `calculateRebalanceQuantity` and `calculateRebalanceFlows` of `utils/common/uniswapUtils.ts`: one branch over primitives that are covered, and a router quote.
- Deployment helpers, fixtures, tasks and events.
