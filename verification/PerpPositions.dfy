/**
 * Perpetual positions of a SetToken: what an issuer transfers in and a redeemer is paid, and funding.
 * Account info, swap quotes, spot prices and time-weighted prices are arguments.
 */
module PerpPositions {
  import opened Nonlinear
  import opened FixedPoint
  import opened ProRata

  datatype AccountInfo = AccountInfo(collateralBalance: int, owedRealizedPnl: int, pendingFunding: int, netQuoteBalance: int)

  /** A position per token, with the quote for trading it and the spot price of its base token. */
  datatype UnitPosition = UnitPosition(baseUnit: int, deltaQuote: int, spotPrice: int)

  /** A position of the whole Set, with the quote for closing the redeemed part. */
  datatype NotionalPosition = NotionalPosition(baseBalance: int, quoteBalance: int, deltaQuote: int)

  const TEN_TO_12: int := 1_000_000_000_000
  const TWO_TO_96: int := 79_228_162_514_264_337_593_543_950_336
  const ONE_DAY_IN_SECONDS: int := 86_400

  function ToUSDCDecimals(quantity: int): int {
    TruncDiv(quantity, TEN_TO_12)
  }

  // ---------- Transfer in ----------

  function IdealQuote(p: UnitPosition, quantity: int): int {
    PreciseMul(PreciseMul(p.baseUnit, quantity), p.spotPrice)
  }

  function ExpectedSlippage(p: UnitPosition, quantity: int): int {
    if 0 <= PreciseMul(p.baseUnit, quantity) then p.deltaQuote - IdealQuote(p, quantity)
    else Abs(IdealQuote(p, quantity)) - p.deltaQuote
  }

  function Contribution(p: UnitPosition, quantity: int): int {
    IdealQuote(p, quantity) + ExpectedSlippage(p, quantity)
  }

  function Contributions(positions: seq<UnitPosition>, quantity: int): seq<int> {
    seq(|positions|, i requires 0 <= i < |positions| => Contribution(positions[i], quantity))
  }

  /** A long is bought with the quote and a short brings it in: no price is involved. */
  function SignedQuote(p: UnitPosition, quantity: int): int {
    if 0 <= PreciseMul(p.baseUnit, quantity) then p.deltaQuote else -p.deltaQuote
  }

  function SignedQuotes(positions: seq<UnitPosition>, quantity: int): seq<int> {
    seq(|positions|, i requires 0 <= i < |positions| => SignedQuote(positions[i], quantity))
  }

  ghost predicate PricesNonNegative(positions: seq<UnitPosition>) {
    forall i :: 0 <= i < |positions| ==> 0 <= positions[i].spotPrice
  }

  /**
   * Ideal quote and slippage cancel to minus the quote for a position that sells at least one base unit and to the
   * quote for any other, exactly unless a sale would at spot bring in less than nothing.
   */
  lemma ContributionIsSignedQuoteIff(p: UnitPosition, quantity: int)
    ensures var sells := p.baseUnit * quantity <= -PRECISE_UNIT;
            && SignedQuote(p, quantity) == (if sells then -p.deltaQuote else p.deltaQuote)
            && ((sells ==> PreciseMul(p.baseUnit, quantity) * p.spotPrice < PRECISE_UNIT)
                  <==> Contribution(p, quantity) == (if sells then -p.deltaQuote else p.deltaQuote))
            && (0 <= p.spotPrice ==> Contribution(p, quantity) == SignedQuote(p, quantity))
  {
    var trade := PreciseMul(p.baseUnit, quantity);
    NegativeProductIff(p.baseUnit, quantity);
    NegativeProductIff(-trade, p.spotPrice);
    PreciseMulSigns(trade, p.spotPrice);
    if 0 <= p.spotPrice && trade < 0 { MulNonNeg(-trade, p.spotPrice); }
  }

  /** A product is rounded to a negative number exactly when it is at most minus one base unit. */
  lemma NegativeProductIff(a: int, b: int)
    ensures PreciseMul(a, b) < 0 <==> a * b <= -PRECISE_UNIT
  {
    QuotientGalois(Abs(a * b), PRECISE_UNIT, 1);
  }

  lemma ContributionsAreSignedQuotes(positions: seq<UnitPosition>, quantity: int)
    requires PricesNonNegative(positions)
    ensures Contributions(positions, quantity) == SignedQuotes(positions, quantity)
  {
    forall i | 0 <= i < |positions|
      ensures Contributions(positions, quantity)[i] == SignedQuotes(positions, quantity)[i]
    {
      ContributionIsSignedQuoteIff(positions[i], quantity);
    }
  }

  lemma {:induction false} SumAppend(xs: seq<int>, x: int)
    ensures Sum(xs + [x]) == Sum(xs) + x
  {
    if xs == [] {
      assert xs + [x] == [x];
    } else {
      assert (xs + [x])[1..] == xs[1..] + [x];
      SumAppend(xs[1..], x);
    }
  }

  /** What the issuer transfers in; as prices are not negative it does not depend on the spot prices that the loop reads. */
  method TransferInPreciseUnits(account: AccountInfo, supply: int, quantity: int, positions: seq<UnitPosition>,
                                includeFunding: bool) returns (usdcAmountIn: int)
    requires supply != 0
    ensures usdcAmountIn == Sum(Contributions(positions, quantity))
                          + Share(account.collateralBalance + account.owedRealizedPnl + account.netQuoteBalance
                                    + (if includeFunding then account.pendingFunding else 0), supply, quantity)
    ensures PricesNonNegative(positions) ==>
              Sum(Contributions(positions, quantity)) == Sum(SignedQuotes(positions, quantity))
  {
    var totalCollateralValue := account.collateralBalance + account.owedRealizedPnl + account.netQuoteBalance;
    if includeFunding {
      totalCollateralValue := totalCollateralValue + account.pendingFunding;
    }
    usdcAmountIn := PreciseMul(PreciseDiv(totalCollateralValue, supply), quantity);
    ghost var share := usdcAmountIn;
    for i := 0 to |positions|
      invariant usdcAmountIn == share + Sum(Contributions(positions[..i], quantity))
    {
      var p := positions[i];
      var baseTrade := PreciseMul(p.baseUnit, quantity);
      var isLong := 0 <= baseTrade;
      var idealQuote := PreciseMul(baseTrade, p.spotPrice);
      var expectedSlippage := if isLong then p.deltaQuote - idealQuote else Abs(idealQuote) - p.deltaQuote;
      usdcAmountIn := usdcAmountIn + idealQuote + expectedSlippage;
      SumAppend(Contributions(positions[..i], quantity), idealQuote + expectedSlippage);
      assert Contributions(positions[..i + 1], quantity)
          == Contributions(positions[..i], quantity) + [Contribution(p, quantity)];
    }
    assert positions[..|positions|] == positions;
    if PricesNonNegative(positions) { ContributionsAreSignedQuotes(positions, quantity); }
  }

  // ---------- Transfer out ----------

  function BaseTrade(p: NotionalPosition, supply: int, quantity: int): int
    requires supply != 0
  {
    Share(p.baseBalance, supply, quantity)
  }

  function CloseRatio(p: NotionalPosition, supply: int, quantity: int): int
    requires supply != 0 && p.baseBalance != 0
  {
    PreciseDiv(Abs(BaseTrade(p, supply, quantity)), Abs(p.baseBalance))
  }

  function ReducedOpenNotional(p: NotionalPosition, supply: int, quantity: int): int
    requires supply != 0 && p.baseBalance != 0
  {
    PreciseMul(p.quoteBalance, CloseRatio(p, supply, quantity))
  }

  function RealizedPnl(p: NotionalPosition, supply: int, quantity: int): int
    requires supply != 0 && p.baseBalance != 0
  {
    ReducedOpenNotional(p, supply, quantity)
      + if 0 <= PreciseDiv(p.baseBalance, supply) then p.deltaQuote else -p.deltaQuote
  }

  predicate AllOpen(positions: seq<NotionalPosition>) {
    forall i :: 0 <= i < |positions| ==> positions[i].baseBalance != 0
  }

  function RealizedPnls(positions: seq<NotionalPosition>, supply: int, quantity: int): seq<int>
    requires supply != 0 && AllOpen(positions)
  {
    seq(|positions|, i requires 0 <= i < |positions| => RealizedPnl(positions[i], supply, quantity))
  }

  lemma RealizedPnlsAppend(positions: seq<NotionalPosition>, p: NotionalPosition, supply: int, quantity: int)
    requires supply != 0 && AllOpen(positions) && p.baseBalance != 0
    ensures AllOpen(positions + [p])
    ensures Sum(RealizedPnls(positions + [p], supply, quantity))
         == Sum(RealizedPnls(positions, supply, quantity)) + RealizedPnl(p, supply, quantity)
  {
    var next := RealizedPnl(p, supply, quantity);
    SumAppend(RealizedPnls(positions, supply, quantity), next);
    assert RealizedPnls(positions + [p], supply, quantity) == RealizedPnls(positions, supply, quantity) + [next];
  }

  /** What the redeemer is paid: the collateral share and the profit and loss realized on every position. */
  method TransferOutPreciseUnits(account: AccountInfo, supply: int, quantity: int, positions: seq<NotionalPosition>,
                                 includeFunding: bool) returns (usdcAmountOut: int)
    requires supply != 0 && AllOpen(positions)
    ensures usdcAmountOut == Abs(Sum(RealizedPnls(positions, supply, quantity))
                                 + Share(account.collateralBalance + account.owedRealizedPnl
                                           + (if includeFunding then account.pendingFunding else 0), supply, quantity))
  {
    var totalRealizedPnl := 0;
    var totalCollateralBalance := account.collateralBalance + account.owedRealizedPnl;
    if includeFunding {
      totalCollateralBalance := totalCollateralBalance + account.pendingFunding;
    }
    var collateralQuantityNotional := PreciseMul(PreciseDiv(totalCollateralBalance, supply), quantity);
    for i := 0 to |positions|
      invariant totalRealizedPnl == Sum(RealizedPnls(positions[..i], supply, quantity))
    {
      var p := positions[i];
      var basePositionUnit := PreciseDiv(p.baseBalance, supply);
      var baseTrade := PreciseMul(basePositionUnit, quantity);
      var isLong := 0 <= basePositionUnit;
      var closeRatio := PreciseDiv(Abs(baseTrade), Abs(p.baseBalance));
      var reducedOpenNotional := PreciseMul(p.quoteBalance, closeRatio);
      var realizedPnl := if isLong then reducedOpenNotional + p.deltaQuote else reducedOpenNotional - p.deltaQuote;
      totalRealizedPnl := totalRealizedPnl + realizedPnl;
      assert realizedPnl == RealizedPnl(p, supply, quantity);
      RealizedPnlsAppend(positions[..i], p, supply, quantity);
      assert positions[..i + 1] == positions[..i] + [p];
    }
    assert positions[..|positions|] == positions;
    usdcAmountOut := Abs(collateralQuantityNotional + totalRealizedPnl);
  }

  // ---------- Redemptions never over-close ----------

  function CloseRatios(p: NotionalPosition, supply: int, quantities: seq<int>): seq<int>
    requires supply != 0 && p.baseBalance != 0
  {
    seq(|quantities|, i requires 0 <= i < |quantities| => CloseRatio(p, supply, quantities[i]))
  }

  function ReducedOpenNotionals(p: NotionalPosition, supply: int, quantities: seq<int>): seq<int>
    requires supply != 0 && p.baseBalance != 0
  {
    seq(|quantities|, i requires 0 <= i < |quantities| => ReducedOpenNotional(p, supply, quantities[i]))
  }

  /** Amounts that are each within `unit` of the magnitude of another list are together within it. */
  lemma {:induction false} SumAbsWithin(amounts: seq<int>, bases: seq<int>, scale: int, unit: int)
    requires |amounts| == |bases|
    requires forall i :: 0 <= i < |amounts| ==> Abs(amounts[i]) * scale <= unit * Abs(bases[i])
    ensures SumAbs(amounts) * scale <= unit * SumAbs(bases)
  {
    if amounts != [] {
      SumAbsWithin(amounts[1..], bases[1..], scale, unit);
      AddWithin(Abs(amounts[0]), SumAbs(amounts[1..]), Abs(bases[0]), SumAbs(bases[1..]), scale, unit);
    }
  }

  lemma AddWithin(a: int, b: int, c: int, d: int, scale: int, unit: int)
    requires a * scale <= unit * c && b * scale <= unit * d
    ensures (a + b) * scale <= unit * (c + d)
  {}

  /**
   * However the supply is split into redemptions, all computed from one snapshot: the base traded is at
   * most the position, the close ratios at most the whole, the notional closed at most the open
   * notional, and every single one points the way its position does.
   */
  lemma RedemptionsNeverOverClose(p: NotionalPosition, supply: int, quantities: seq<int>)
    requires 0 < supply && p.baseBalance != 0
    requires NonNegative(quantities) && Sum(quantities) <= supply
    ensures SumAbs(Shares(p.baseBalance, supply, quantities)) <= Abs(p.baseBalance)
    ensures SumAbs(CloseRatios(p, supply, quantities)) <= PRECISE_UNIT
    ensures SumAbs(ReducedOpenNotionals(p, supply, quantities)) <= Abs(p.quoteBalance)
    ensures forall i :: 0 <= i < |quantities| ==>
              && SameSideOrZero(BaseTrade(p, supply, quantities[i]), p.baseBalance)
              && 0 <= CloseRatio(p, supply, quantities[i])
              && SameSideOrZero(ReducedOpenNotional(p, supply, quantities[i]), p.quoteBalance)
  {
    SharesConserve(p.baseBalance, supply, quantities);
    var trades := Shares(p.baseBalance, supply, quantities);
    var ratios := CloseRatios(p, supply, quantities);
    var reduced := ReducedOpenNotionals(p, supply, quantities);
    forall i | 0 <= i < |quantities|
      ensures SameSideOrZero(BaseTrade(p, supply, quantities[i]), p.baseBalance)
      ensures 0 <= ratios[i] && Abs(ratios[i]) * Abs(p.baseBalance) <= PRECISE_UNIT * Abs(trades[i])
      ensures SameSideOrZero(reduced[i], p.quoteBalance)
      ensures Abs(reduced[i]) * PRECISE_UNIT <= Abs(p.quoteBalance) * Abs(ratios[i])
    {
      ShareBounds(p.baseBalance, supply, quantities[i]);
      CloseBounds(p, supply, quantities[i]);
    }
    SumAbsWithin(ratios, trades, Abs(p.baseBalance), PRECISE_UNIT);
    RatioCap(SumAbs(ratios), SumAbs(trades), Abs(p.baseBalance));
    SumAbsWithin(reduced, ratios, PRECISE_UNIT, Abs(p.quoteBalance));
    MulLe(SumAbs(ratios), PRECISE_UNIT, Abs(p.quoteBalance));
  }

  /** Close ratio and closed notional are the exact proportions, rounded down. */
  lemma CloseBounds(p: NotionalPosition, supply: int, quantity: int)
    requires supply != 0 && p.baseBalance != 0
    ensures var ratio := CloseRatio(p, supply, quantity);
            var reduced := ReducedOpenNotional(p, supply, quantity);
            && 0 <= ratio
            && ratio * Abs(p.baseBalance) <= PRECISE_UNIT * Abs(BaseTrade(p, supply, quantity))
                 < (ratio + 1) * Abs(p.baseBalance)
            && SameSideOrZero(reduced, p.quoteBalance)
            && Abs(reduced) * PRECISE_UNIT <= Abs(p.quoteBalance) * ratio < (Abs(reduced) + 1) * PRECISE_UNIT
  {
    var trade := BaseTrade(p, supply, quantity);
    DivFloor(Abs(trade), Abs(p.baseBalance));
    var ratio := PreciseDiv(Abs(trade), Abs(p.baseBalance));
    PreciseMulSigns(p.quoteBalance, ratio);
    MulFloor(Abs(p.quoteBalance), ratio);
  }

  /**
   * A redemption closes the open notional in proportion to its quantity: never more, and less by at most one
   * base unit and the roundings of unit, trade and ratio.
   */
  lemma CloseTracksProportion(p: NotionalPosition, supply: int, quantity: int)
    requires 0 < supply && 0 <= quantity && p.baseBalance != 0
    ensures var closed := Abs(ReducedOpenNotional(p, supply, quantity));
            var open, base := Abs(p.quoteBalance), Abs(p.baseBalance);
            && closed * supply <= open * quantity
            && open * quantity * (PRECISE_UNIT * base)
                 < (closed + 1) * supply * (PRECISE_UNIT * base) + open * supply * (base + PRECISE_UNIT + quantity)
  {
    ShareTracksProportion(p.baseBalance, supply, quantity);
    CloseBounds(p, supply, quantity);
    var closed := Abs(ReducedOpenNotional(p, supply, quantity));
    var open, base := Abs(p.quoteBalance), Abs(p.baseBalance);
    var trade, ratio := Abs(BaseTrade(p, supply, quantity)), CloseRatio(p, supply, quantity);
    ClosedAtMost(closed, open, ratio, trade, base, supply, quantity);
    RatioAtLeast(ratio, trade, base, supply, quantity);
    ClosedAtLeast(closed + 1, open, ratio, base, supply, quantity, PRECISE_UNIT, base + PRECISE_UNIT + quantity);
  }

  lemma ClosedAtMost(closed: int, open: int, ratio: int, trade: int, base: int, supply: int, quantity: int)
    requires 0 <= open && 0 < base && 0 < supply
    requires closed * PRECISE_UNIT <= open * ratio && ratio * base <= PRECISE_UNIT * trade
    requires trade * supply <= base * quantity
    ensures closed * supply <= open * quantity
  {
    RatioAtMost(ratio, trade, base, supply, quantity);
    MulLe(closed * PRECISE_UNIT, open * ratio, supply);
    MulLe(ratio * supply, PRECISE_UNIT * quantity, open);
    assert open * ratio * supply == ratio * supply * open;
    assert closed * PRECISE_UNIT * supply == closed * supply * PRECISE_UNIT;
    assert PRECISE_UNIT * quantity * open == open * quantity * PRECISE_UNIT;
  }

  lemma RatioAtMost(ratio: int, trade: int, base: int, supply: int, quantity: int)
    requires 0 < base && 0 < supply
    requires ratio * base <= PRECISE_UNIT * trade && trade * supply <= base * quantity
    ensures ratio * supply <= PRECISE_UNIT * quantity
  {
    MulLe(ratio * base, PRECISE_UNIT * trade, supply);
    assert ratio * base * supply == ratio * supply * base;
    assert base * quantity == quantity * base;
    CancelLe(ratio * supply, PRECISE_UNIT * quantity, base);
  }

  lemma RatioAtLeast(ratio: int, trade: int, base: int, supply: int, quantity: int)
    requires 0 < supply && PRECISE_UNIT * trade < (ratio + 1) * base
    requires base * PRECISE_UNIT * quantity < (trade + 1) * PRECISE_UNIT * supply + supply * quantity
    ensures base * PRECISE_UNIT * quantity < ratio * base * supply + supply * (base + PRECISE_UNIT + quantity)
  {
    NextMultiples(ratio, base);
    MulLe(PRECISE_UNIT * trade, ratio * base + base, supply);
    Distribute(ratio * base, base, supply);
    assert (trade + 1) * PRECISE_UNIT * supply == PRECISE_UNIT * trade * supply + PRECISE_UNIT * supply;
    assert supply * (base + PRECISE_UNIT + quantity) == base * supply + PRECISE_UNIT * supply + supply * quantity;
  }

  lemma ClosedAtLeast(next: int, open: int, ratio: int, base: int, supply: int, quantity: int, unit: int, error: int)
    requires 0 <= open && 0 < base && 0 < supply
    requires open * ratio < next * unit
    requires base * unit * quantity < ratio * base * supply + supply * error
    ensures open * quantity * (unit * base) < next * supply * (unit * base) + open * supply * error
  {
    MulLt(0, base, supply);
    assert ratio * base * supply == ratio * (base * supply);
    ScaleByRatio(open, ratio, next * unit, base * unit * quantity, base * supply, supply * error);
    Rearrange(open, base, unit, quantity);
    Rearrange(next, base, unit, supply);
    assert open * (supply * error) == open * supply * error;
  }

  lemma ScaleByRatio(open: int, ratio: int, closed: int, exact: int, whole: int, error: int)
    requires 0 <= open && 0 < whole && open * ratio < closed && exact < ratio * whole + error
    ensures open * exact < closed * whole + open * error
  {
    MulLe(exact, ratio * whole + error, open);
    Distribute(ratio * whole, error, open);
    MulLt(open * ratio, closed, whole);
    assert open * (ratio * whole) == open * ratio * whole;
  }

  lemma Rearrange(a: int, b: int, c: int, d: int)
    ensures a * (b * c * d) == a * d * (c * b)
    ensures a * c * (b * d) == a * d * (c * b)
  {
    assert b * c * d == d * (c * b);
    assert c * (b * d) == d * (c * b);
    assert a * c * (b * d) == a * (c * (b * d));
    assert a * d * (c * b) == a * (d * (c * b));
  }

  /** The quote is paid for a position whose unit is negative and received for any other, on top of what is closed. */
  lemma PnlBySide(p: NotionalPosition, supply: int, quantity: int)
    requires 0 < supply && p.baseBalance != 0
    ensures RealizedPnl(p, supply, quantity) - ReducedOpenNotional(p, supply, quantity)
         == if p.baseBalance * PRECISE_UNIT <= -supply then -p.deltaQuote else p.deltaQuote
  {
    QuotientGalois(Abs(p.baseBalance * PRECISE_UNIT), supply, 1);
  }

  /**
   * With the open notional on the other side of the base, the realized profit is what the quote beats the
   * closed notional by, for a long and for a short. A short so small that its unit rounds to zero takes
   * the long branch; it is right then only if nothing is quoted.
   */
  lemma PnlIsGainOverEntryIff(p: NotionalPosition, supply: int, quantity: int)
    requires 0 < supply && 0 <= quantity && p.baseBalance != 0
    requires SameSideOrZero(p.quoteBalance, -p.baseBalance)
    ensures var entry := Abs(ReducedOpenNotional(p, supply, quantity));
            RealizedPnl(p, supply, quantity)
              == (if 0 < p.baseBalance then p.deltaQuote - entry else entry - p.deltaQuote)
            <==> (0 < p.baseBalance || supply <= -p.baseBalance * PRECISE_UNIT || p.deltaQuote == 0)
  {}

  /** As swapping no base is quoted nothing, the exception is never met and the profit is always the gain over entry. */
  lemma PnlIsGainOverEntry(p: NotionalPosition, supply: int, quantity: int)
    requires 0 < supply && 0 <= quantity && p.baseBalance != 0
    requires SameSideOrZero(p.quoteBalance, -p.baseBalance)
    requires BaseTrade(p, supply, quantity) == 0 ==> p.deltaQuote == 0
    ensures var entry := Abs(ReducedOpenNotional(p, supply, quantity));
            RealizedPnl(p, supply, quantity)
              == if 0 < p.baseBalance then p.deltaQuote - entry else entry - p.deltaQuote
  {
    PnlIsGainOverEntryIff(p, supply, quantity);
    if p.baseBalance < 0 && -p.baseBalance * PRECISE_UNIT < supply {
      PreciseDivSigns(p.baseBalance, supply);
      DivFloorGalois(Abs(p.baseBalance), supply, 1);
      assert BaseTrade(p, supply, quantity) == 0 by { MulFloor(0, quantity); }
    }
  }

  /** The base left after redeeming one quantity after the other, each from the position and supply left before it. */
  function BaseAfter(baseBalance: int, supply: int, quantities: seq<int>): int
    requires NonNegative(quantities) && Sum(quantities) < supply
    decreases quantities
  {
    if quantities == [] then baseBalance
    else
      SumSuffix(quantities);
      BaseAfter(baseBalance - Share(baseBalance, supply, quantities[0]), supply - quantities[0], quantities[1..])
  }

  lemma {:induction false} SumSuffix(quantities: seq<int>)
    requires NonNegative(quantities)
    ensures 0 <= Sum(quantities)
  {
    if quantities != [] { SumSuffix(quantities[1..]); }
  }

  /** Redeeming in sequence never flips a position, and the base per remaining token never falls. */
  lemma {:induction false} SequentialRedemptionsKeepExposure(baseBalance: int, supply: int, quantities: seq<int>)
    requires NonNegative(quantities) && Sum(quantities) < supply
    ensures SameSideOrZero(BaseAfter(baseBalance, supply, quantities), baseBalance)
    ensures Abs(baseBalance) * (supply - Sum(quantities)) <= Abs(BaseAfter(baseBalance, supply, quantities)) * supply
    decreases quantities
  {
    SumSuffix(quantities);
    if quantities != [] {
      SumSuffix(quantities[1..]);
      var q := quantities[0];
      var left := baseBalance - Share(baseBalance, supply, q);
      OneRedemptionKeepsExposure(baseBalance, supply, q);
      SequentialRedemptionsKeepExposure(left, supply - q, quantities[1..]);
      ChainRatios(Abs(baseBalance), supply, Abs(left), supply - q,
                  Abs(BaseAfter(left, supply - q, quantities[1..])), supply - Sum(quantities));
    }
  }

  /** It rises by no more than one base unit per redemption and per whole token redeemed, spread over what remains. */
  lemma {:induction false} SequentialRedemptionsRaiseByRounding(baseBalance: int, supply: int, quantities: seq<int>)
    requires NonNegative(quantities) && Sum(quantities) < supply
    ensures Abs(BaseAfter(baseBalance, supply, quantities)) * PRECISE_UNIT * supply
         <= Abs(baseBalance) * PRECISE_UNIT * (supply - Sum(quantities))
            + (|quantities| * PRECISE_UNIT + Sum(quantities)) * supply
    decreases quantities
  {
    SumSuffix(quantities);
    if quantities != [] {
      SumSuffix(quantities[1..]);
      var q := quantities[0];
      var left := baseBalance - Share(baseBalance, supply, q);
      OneRedemptionKeepsExposure(baseBalance, supply, q);
      SequentialRedemptionsRaiseByRounding(left, supply - q, quantities[1..]);
      ChainRoundings(Abs(baseBalance) * PRECISE_UNIT, supply, Abs(left) * PRECISE_UNIT, supply - q,
                     Abs(BaseAfter(left, supply - q, quantities[1..])) * PRECISE_UNIT, supply - Sum(quantities),
                     PRECISE_UNIT + q, (|quantities| - 1) * PRECISE_UNIT + Sum(quantities[1..]));
    }
  }

  lemma OneRedemptionKeepsExposure(baseBalance: int, supply: int, quantity: int)
    requires 0 <= quantity < supply
    ensures var left := baseBalance - Share(baseBalance, supply, quantity);
            && SameSideOrZero(left, baseBalance) && (left == 0 ==> baseBalance == 0)
            && Abs(baseBalance) * (supply - quantity) <= Abs(left) * supply
            && Abs(left) * PRECISE_UNIT * supply
                 <= Abs(baseBalance) * PRECISE_UNIT * (supply - quantity) + (PRECISE_UNIT + quantity) * supply
  {
    var share := Share(baseBalance, supply, quantity);
    ShareBounds(baseBalance, supply, quantity);
    ShareTracksProportion(baseBalance, supply, quantity);
    MulLe(quantity, supply, Abs(baseBalance));
    CancelLe(Abs(share), Abs(baseBalance), supply);
    Remainder(Abs(baseBalance), Abs(share), supply, quantity);
    RemainderAtMost(Abs(baseBalance), Abs(share), supply, quantity);
  }

  lemma Remainder(base: int, share: int, supply: int, quantity: int)
    requires 0 <= base && 0 <= quantity < supply && share * supply <= base * quantity
    ensures base * (supply - quantity) <= (base - share) * supply
    ensures base == share ==> base == 0
  {
    assert base * (supply - quantity) == base * supply - base * quantity;
    assert (base - share) * supply == base * supply - share * supply;
    if base == share && 0 < base { MulLe(1, base, supply - quantity); }
  }

  lemma RemainderAtMost(base: int, share: int, supply: int, quantity: int)
    requires base * PRECISE_UNIT * quantity < (share + 1) * PRECISE_UNIT * supply + supply * quantity
    ensures (base - share) * PRECISE_UNIT * supply
         <= base * PRECISE_UNIT * (supply - quantity) + (PRECISE_UNIT + quantity) * supply
  {
    Distribute(base * PRECISE_UNIT - share * PRECISE_UNIT, share * PRECISE_UNIT, supply);
    Distribute(supply - quantity, quantity, base * PRECISE_UNIT);
    Distribute(share * PRECISE_UNIT, PRECISE_UNIT, supply);
    Distribute(PRECISE_UNIT, quantity, supply);
  }

  /** `b` over `t` is at most `a` over `s` and a rounding `e` over `t`; likewise `c` over `u`. They add up over `u`. */
  lemma ChainRoundings(a: int, s: int, b: int, t: int, c: int, u: int, e: int, f: int)
    requires 0 < s && 0 < u <= t && 0 <= e
    requires b * s <= a * t + e * s && c * t <= b * u + f * t
    ensures c * s <= a * u + (e + f) * s
  {
    ScaleStep(a, s, b, t, u, e);
    MulLe(c * t, b * u + f * t, s);
    Distribute(b * u, f * t, s);
    Distribute(e, f, s);
    assert b * u * s == b * s * u && c * t * s == c * s * t && f * t * s == f * s * t;
    Distribute(a * u, e * s + f * s, t);
    Distribute(e * s, f * s, t);
    CancelLe(c * s, a * u + (e * s + f * s), t);
  }

  lemma ScaleStep(a: int, s: int, b: int, t: int, u: int, e: int)
    requires 0 < s && 0 < u <= t && 0 <= e && b * s <= a * t + e * s
    ensures b * s * u <= a * u * t + e * s * t
  {
    MulLe(b * s, a * t + e * s, u);
    Distribute(a * t, e * s, u);
    MulNonNeg(e, s);
    MulLe(u, t, e * s);
    assert a * t * u == a * u * t;
  }

  lemma ChainRatios(a: int, s: int, b: int, t: int, c: int, u: int)
    requires 0 < s && 0 < t && 0 <= u
    requires a * t <= b * s && b * u <= c * t
    ensures a * u <= c * s
  {
    MulLe(a * t, b * s, u);
    MulLe(b * u, c * t, s);
    assert b * s * u == b * u * s;
    assert c * t * s == c * s * t;
    assert a * t * u == a * u * t;
    CancelLe(a * u, c * s, t);
  }

  lemma RatioCap(ratio: int, trade: int, base: int)
    requires 0 < base && ratio * base <= PRECISE_UNIT * trade && trade <= base
    ensures ratio <= PRECISE_UNIT
  {
    CancelLe(ratio, PRECISE_UNIT, base);
  }

  // ---------- Funding ----------

  function DailyPremium(twPremiumX96: int): int {
    TruncDiv(TruncDiv(twPremiumX96 * PRECISE_UNIT, TWO_TO_96), ONE_DAY_IN_SECONDS)
  }

  function NetFundingGrowth(twPremiumX96: int, markTwap: int, indexTwap: int, baseBalance: int): int {
    var fundingGrowth := Abs(PreciseMul(baseBalance, DailyPremium(twPremiumX96)));
    var isLong := 0 < baseBalance;
    if markTwap < indexTwap then
      if isLong then fundingGrowth else -1 * fundingGrowth
    else
      if isLong then -1 * fundingGrowth else fundingGrowth
  }

  function NetFundings(twPremiumX96: int, markTwap: int, indexTwap: int, balances: seq<int>): seq<int> {
    seq(|balances|, i requires 0 <= i < |balances| => NetFundingGrowth(twPremiumX96, markTwap, indexTwap, balances[i]))
  }

  /** The daily premium is the exact one rounded toward zero: dividing twice rounds no further than dividing once. */
  lemma DailyPremiumIsExact(twPremiumX96: int)
    ensures SameSideOrZero(DailyPremium(twPremiumX96), twPremiumX96)
    ensures var daily := Abs(DailyPremium(twPremiumX96));
            daily * (ONE_DAY_IN_SECONDS * TWO_TO_96) <= Abs(twPremiumX96) * PRECISE_UNIT
                                                     < (daily + 1) * (ONE_DAY_IN_SECONDS * TWO_TO_96)
  {
    var scaled := Abs(twPremiumX96 * PRECISE_UNIT);
    QuotientBounds(scaled, TWO_TO_96);
    QuotientBounds(Quotient(scaled, TWO_TO_96), ONE_DAY_IN_SECONDS);
  }

  /** Rounding toward zero is off by less than one, on either side. */
  lemma MulWithinOne(a: int, b: int)
    requires 0 <= b
    ensures -PRECISE_UNIT < PreciseMul(a, b) * PRECISE_UNIT - a * b < PRECISE_UNIT
  {
    PreciseMulSigns(a, b);
    MulFloor(Abs(a), b);
    AbsMul(a, b);
  }

  /** The branches on side and market collapse: funding is the balance's share of the premium, in one direction. */
  lemma FundingIsSignedShare(twPremiumX96: int, markTwap: int, indexTwap: int, baseBalance: int)
    ensures NetFundingGrowth(twPremiumX96, markTwap, indexTwap, baseBalance)
         == (if markTwap < indexTwap then 1 else -1) * PreciseMul(baseBalance, Abs(DailyPremium(twPremiumX96)))
  {}

  /**
   * Funding is what the balance pays on the signed premium exactly when the order of the two averages has the
   * premium's sign, or nothing is due. The premium is a cumulative growth, so the two can disagree.
   */
  lemma FundingFollowsPremiumIff(twPremiumX96: int, markTwap: int, indexTwap: int, baseBalance: int)
    ensures NetFundingGrowth(twPremiumX96, markTwap, indexTwap, baseBalance)
              == -PreciseMul(baseBalance, DailyPremium(twPremiumX96))
       <==> || PreciseMul(baseBalance, DailyPremium(twPremiumX96)) == 0
            || (markTwap < indexTwap <==> DailyPremium(twPremiumX96) < 0)
  {
    FundingIsSignedShare(twPremiumX96, markTwap, indexTwap, baseBalance);
    PreciseMulSigns(baseBalance, DailyPremium(twPremiumX96));
  }

  /**
   * An input on which they disagree: a premium accumulated below the index, while the mark is now at or above
   * it. A long is then charged the funding that it is due.
   */
  lemma FundingCanOpposePremium(growth: nat, markTwap: int, indexTwap: int, baseBalance: nat)
    requires 0 < growth && indexTwap <= markTwap && 0 < baseBalance
    ensures var twPremiumX96 := -(growth * ONE_DAY_IN_SECONDS * TWO_TO_96);
            && DailyPremium(twPremiumX96) == -(growth * PRECISE_UNIT)
            && NetFundingGrowth(twPremiumX96, markTwap, indexTwap, baseBalance) == -(growth * baseBalance)
            && -PreciseMul(baseBalance, DailyPremium(twPremiumX96)) == growth * baseBalance > 0
  {
    DailyPremiumOf(growth);
    WholePremiumShare(growth, baseBalance);
  }

  lemma DailyPremiumOf(growth: nat)
    ensures DailyPremium(-(growth * ONE_DAY_IN_SECONDS * TWO_TO_96)) == -(growth * PRECISE_UNIT)
  {
    var daily := growth * PRECISE_UNIT;
    QuotientUnique(daily * ONE_DAY_IN_SECONDS * TWO_TO_96, TWO_TO_96, daily * ONE_DAY_IN_SECONDS);
    QuotientUnique(daily * ONE_DAY_IN_SECONDS, ONE_DAY_IN_SECONDS, daily);
  }

  lemma WholePremiumShare(growth: nat, baseBalance: nat)
    ensures PreciseMul(baseBalance, -(growth * PRECISE_UNIT)) == -(growth * baseBalance)
    ensures 0 < growth && 0 < baseBalance ==> 0 < growth * baseBalance
  {
    PreciseMulSigns(baseBalance, growth * PRECISE_UNIT);
    assert baseBalance * (growth * PRECISE_UNIT) == growth * baseBalance * PRECISE_UNIT;
    QuotientUnique(growth * baseBalance * PRECISE_UNIT, PRECISE_UNIT, growth * baseBalance);
  }

  /** What a long gains, the mirrored short pays. */
  lemma FundingIsAntisymmetric(twPremiumX96: int, markTwap: int, indexTwap: int, baseBalance: int)
    ensures NetFundingGrowth(twPremiumX96, markTwap, indexTwap, -baseBalance)
         == -NetFundingGrowth(twPremiumX96, markTwap, indexTwap, baseBalance)
  {}

  lemma {:induction false} SharesTrackBalances(balances: seq<int>, premium: int)
    requires balances != [] && 0 <= premium
    ensures -|balances| * PRECISE_UNIT
          < Sum(MulEach(balances, premium)) * PRECISE_UNIT - premium * Sum(balances)
          < |balances| * PRECISE_UNIT
  {
    var rest := balances[1..];
    assert MulEach(balances, premium)[1..] == MulEach(rest, premium);
    MulWithinOne(balances[0], premium);
    Distribute(balances[0], Sum(rest), premium);
    if rest != [] {
      SharesTrackBalances(rest, premium);
    }
  }

  function MulEach(balances: seq<int>, premium: int): seq<int> {
    seq(|balances|, i requires 0 <= i < |balances| => PreciseMul(balances[i], premium))
  }

  lemma {:induction false} SumNegates(xs: seq<int>, ys: seq<int>)
    requires |xs| == |ys| && forall i :: 0 <= i < |xs| ==> xs[i] == -ys[i]
    ensures Sum(xs) == -Sum(ys)
  {
    if xs != [] { SumNegates(xs[1..], ys[1..]); }
  }

  /** Among traders whose balances cancel, funding nets to less than one unit each, whichever way it is paid. */
  lemma FundingIsZeroSum(twPremiumX96: int, markTwap: int, indexTwap: int, balances: seq<int>)
    requires balances != [] && Sum(balances) == 0
    ensures Abs(Sum(NetFundings(twPremiumX96, markTwap, indexTwap, balances))) < |balances|
  {
    var premium := Abs(DailyPremium(twPremiumX96));
    var fundings := NetFundings(twPremiumX96, markTwap, indexTwap, balances);
    var shares := MulEach(balances, premium);
    forall i | 0 <= i < |balances|
      ensures fundings[i] == (if markTwap < indexTwap then 1 else -1) * shares[i]
    {
      FundingIsSignedShare(twPremiumX96, markTwap, indexTwap, balances[i]);
    }
    if markTwap < indexTwap {
      assert fundings == shares;
    } else {
      SumNegates(fundings, shares);
    }
    SharesTrackBalances(balances, premium);
  }

  // ---------- Levering up ----------

  function LeverNotional(collateralBalance: int, leverageRatio: int, spotPrice: int): int
    requires spotPrice != 0
  {
    PreciseDiv(collateralBalance * leverageRatio, spotPrice)
  }

  function LeverBaseUnit(notional: int, supply: int, isLong: bool): int
    requires supply != 0
  {
    if isLong then PreciseDiv(notional, supply) else PreciseDiv(notional, supply) * -1
  }

  const TWO_PERCENT: int := 20_000_000_000_000_000

  function LeverQuoteLimit(notional: int, spotPrice: int, isLong: bool): int {
    var estimated := Abs(PreciseMul(notional, spotPrice));
    var slippage := PreciseMul(estimated, TWO_PERCENT);
    if isLong then estimated + slippage else estimated - slippage
  }

  function LeverQuoteUnit(notional: int, spotPrice: int, supply: int, isLong: bool): int
    requires supply != 0
  {
    PreciseDiv(LeverQuoteLimit(notional, spotPrice, isLong), supply)
  }

  /**
   * The traded base never costs more than the levered collateral at spot and falls short of it by less than
   * one base unit; the quote limit is 2% above its cost for a long and 2% below it for a short, to less than one
   * base unit, rounded in the Set's favour.
   */
  lemma LeverUsesCollateral(collateralBalance: int, leverageRatio: int, spotPrice: int, supply: int, isLong: bool)
    requires 0 <= collateralBalance && 0 <= leverageRatio && 0 < spotPrice && 0 < supply
    ensures var notional := LeverNotional(collateralBalance, leverageRatio, spotPrice);
            var budget := collateralBalance * leverageRatio;
            var unit := LeverBaseUnit(notional, supply, isLong);
            var limit := LeverQuoteLimit(notional, spotPrice, isLong);
            && 0 <= notional && notional * spotPrice <= budget * PRECISE_UNIT < notional * spotPrice + spotPrice
            && (if isLong then 0 <= unit else unit <= 0)
            && Abs(unit) * supply <= notional * PRECISE_UNIT < (Abs(unit) + 1) * supply
            && LeverQuoteUnit(notional, spotPrice, supply, isLong) * supply <= limit * PRECISE_UNIT
                 < (LeverQuoteUnit(notional, spotPrice, supply, isLong) + 1) * supply
            && var cost := PreciseMul(notional, spotPrice);
            && cost <= budget && budget * PRECISE_UNIT < (cost + 1) * PRECISE_UNIT + spotPrice
            && (isLong ==> 100 * limit <= 102 * cost < 100 * limit + 100)
            && (!isLong ==> 98 * cost <= 100 * limit < 98 * cost + 100)
  {
    var budget := collateralBalance * leverageRatio;
    MulNonNeg(collateralBalance, leverageRatio);
    DivFloor(budget, spotPrice);
    var notional := LeverNotional(collateralBalance, leverageRatio, spotPrice);
    DivFloor(notional, supply);
    MulFloor(notional, spotPrice);
    MulFloor(PreciseMul(notional, spotPrice), TWO_PERCENT);
    DivFloor(LeverQuoteLimit(notional, spotPrice, isLong), supply);
  }

  // ---------- USDC decimals ----------

  /** Converting to USDC decimals drops twelve digits and keeps the sign. */
  lemma ToUSDCDecimalsIsExact(quantity: int)
    ensures SameSideOrZero(ToUSDCDecimals(quantity), quantity)
    ensures Abs(ToUSDCDecimals(quantity)) * TEN_TO_12 <= Abs(quantity) < (Abs(ToUSDCDecimals(quantity)) + 1) * TEN_TO_12
  {
    QuotientBounds(Abs(quantity), TEN_TO_12);
  }

  /** Converting parts to USDC decimals loses less than one base unit each against converting the whole. */
  lemma {:induction false} USDCPartsWithinWhole(parts: seq<int>)
    requires NonNegative(parts) && parts != []
    ensures 0 <= Sum(USDCEach(parts)) <= ToUSDCDecimals(Sum(parts)) < Sum(USDCEach(parts)) + |parts|
    ensures 0 <= Sum(parts)
  {
    var rest := parts[1..];
    assert USDCEach(parts)[1..] == USDCEach(rest);
    QuotientBounds(parts[0], TEN_TO_12);
    if rest != [] {
      USDCPartsWithinWhole(rest);
      QuotientBounds(Sum(rest), TEN_TO_12);
    }
    QuotientBounds(Sum(parts), TEN_TO_12);
  }

  function USDCEach(parts: seq<int>): seq<int> {
    seq(|parts|, i requires 0 <= i < |parts| => ToUSDCDecimals(parts[i]))
  }
}
