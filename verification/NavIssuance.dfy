/**
 * Issuing and redeeming a SetToken against its net asset value, paid in one reserve asset.
 * Supply and valuation, which the source reads from contracts, are arguments.
 */
module NavIssuance {
  import opened Nonlinear
  import opened FixedPoint

  /** Fractions of `PRECISE_UNIT` that are charged on one issue or redemption. */
  datatype Rates = Rates(manager: int, protocolDirect: int, premium: int) {
    predicate Valid() {
      && 0 <= manager && 0 <= protocolDirect && manager + protocolDirect <= PRECISE_UNIT
      && 0 <= premium <= PRECISE_UNIT
    }
  }

  function PostFeeQuantity(quantity: int, rates: Rates): int {
    quantity - PreciseMul(quantity, rates.manager) - PreciseMul(quantity, rates.protocolDirect)
  }

  // ---------- Issue ----------

  function IssuePositionMultiplier(multiplier: int, previousSupply: int, currentSupply: int): int {
    var inflation := PreciseDivCeil(currentSupply - previousSupply, currentSupply);
    PreciseMul(multiplier, PRECISE_UNIT - inflation)
  }

  function PostFeeAndPremiumQuantity(reserve: int, rates: Rates): int {
    var subFees := PostFeeQuantity(reserve, rates);
    subFees - PreciseMul(subFees, rates.premium)
  }

  /** Reserve quantity net of fees, in 18 decimals: what the issuer adds to the Set. */
  function NormalizedDeposit(reserve: int, baseUnits: int, rates: Rates): int
    requires baseUnits != 0
  {
    PreciseDiv(PostFeeQuantity(reserve, rates), baseUnits)
  }

  /** Reserve quantity net of fees and premium, in 18 decimals: what the issuer is credited for. */
  function NormalizedCredit(reserve: int, baseUnits: int, rates: Rates): int
    requires baseUnits != 0
  {
    PreciseDiv(PostFeeAndPremiumQuantity(reserve, rates), baseUnits)
  }

  function IssueDenominator(supply: int, valuation: int, deposit: int, credit: int): int {
    PreciseMul(supply, valuation) + deposit - credit
  }

  function IssueQuantityFor(supply: int, valuation: int, deposit: int, credit: int): int
    requires IssueDenominator(supply, valuation, deposit, credit) != 0
  {
    PreciseDiv(PreciseMul(credit, supply), IssueDenominator(supply, valuation, deposit, credit))
  }

  function IssueQuantity(supply: int, valuation: int, baseUnits: int, reserve: int, rates: Rates): int
    requires baseUnits != 0
    requires IssueDenominator(supply, valuation, NormalizedDeposit(reserve, baseUnits, rates),
                              NormalizedCredit(reserve, baseUnits, rates)) != 0
  {
    IssueQuantityFor(supply, valuation, NormalizedDeposit(reserve, baseUnits, rates),
                     NormalizedCredit(reserve, baseUnits, rates))
  }

  /** A real unit stored as a virtual unit and read back. */
  function StoredUnit(unit: int, multiplier: int): int
    requires multiplier != 0
  {
    PreciseDiv(PreciseMul(unit, multiplier), multiplier)
  }

  function IssuePositionUnit(previousUnit: int, reserve: int, previousSupply: int, currentSupply: int,
                             multiplier: int, rates: Rates): int
    requires currentSupply != 0 && multiplier != 0
  {
    var numerator := PreciseMul(previousSupply, previousUnit) + PostFeeQuantity(reserve, rates);
    StoredUnit(PreciseDiv(numerator, currentSupply), multiplier)
  }

  // ---------- Redeem ----------

  function RedeemNotional(quantity: int, valuation: int): int {
    PreciseMul(valuation, quantity)
  }

  function RedeemNotionalSubPremium(quantity: int, valuation: int, rates: Rates): int {
    var notional := RedeemNotional(quantity, valuation);
    notional - PreciseMulCeil(notional, rates.premium)
  }

  /** What the redeemer receives. */
  function ReserveRedeemQuantity(quantity: int, valuation: int, baseUnits: int, rates: Rates): int {
    PreciseMul(PostFeeQuantity(RedeemNotionalSubPremium(quantity, valuation, rates), rates), baseUnits)
  }

  /** What leaves the Set: the redeemer's payment and the fees. */
  function ReserveRemoved(quantity: int, valuation: int, baseUnits: int, rates: Rates): int {
    PreciseMul(RedeemNotionalSubPremium(quantity, valuation, rates), baseUnits)
  }

  function RedeemPositionMultiplier(multiplier: int, previousSupply: int, currentSupply: int): int
    requires currentSupply != 0
  {
    var deflation := PreciseDiv(previousSupply - currentSupply, currentSupply);
    PreciseMul(multiplier, PRECISE_UNIT + deflation)
  }

  function RedeemNumerator(previousUnit: int, previousSupply: int, removed: int): int {
    PreciseMul(previousSupply, previousUnit) - removed
  }

  function RedeemPositionUnit(previousUnit: int, quantity: int, valuation: int, baseUnits: int,
                              previousSupply: int, currentSupply: int, multiplier: int, rates: Rates): int
    requires currentSupply != 0 && multiplier != 0
  {
    var removed := ReserveRemoved(quantity, valuation, baseUnits, rates);
    StoredUnit(PreciseDiv(RedeemNumerator(previousUnit, previousSupply, removed), currentSupply), multiplier)
  }

  // ---------- Fees ----------

  /** Fees are rounded down, so at most two base units more than the exact remainder is kept. */
  lemma PostFeeBounds(quantity: int, rates: Rates)
    requires 0 <= quantity && rates.Valid()
    ensures 0 <= PostFeeQuantity(quantity, rates) <= quantity
    ensures var kept := PRECISE_UNIT - rates.manager - rates.protocolDirect;
            quantity * kept <= PostFeeQuantity(quantity, rates) * PRECISE_UNIT < quantity * kept + 2 * PRECISE_UNIT
  {
    MulFloor(quantity, rates.manager);
    MulFloor(quantity, rates.protocolDirect);
    assert quantity * (PRECISE_UNIT - rates.manager - rates.protocolDirect)
        == quantity * PRECISE_UNIT - quantity * rates.manager - quantity * rates.protocolDirect;
    MulNonNeg(quantity, PRECISE_UNIT - rates.manager - rates.protocolDirect);
  }

  lemma PremiumBounds(quantity: int, premium: int)
    requires 0 <= quantity && 0 <= premium <= PRECISE_UNIT
    ensures 0 <= PreciseMul(quantity, premium) <= quantity
    ensures 0 <= PreciseMulCeil(quantity, premium) <= quantity
  {
    MulFloor(quantity, premium);
    MulCeil(quantity, premium);
    MulLe(premium, PRECISE_UNIT, quantity);
    MulFloorGalois(quantity, premium, quantity + 1);
    MulCeilGalois(quantity, premium, quantity);
  }

  /** The premium is rounded down on an issue, so the credit is kept to less than one base unit. */
  lemma CreditBounds(reserve: int, rates: Rates)
    requires 0 <= reserve && rates.Valid()
    ensures 0 <= PostFeeAndPremiumQuantity(reserve, rates) <= PostFeeQuantity(reserve, rates) <= reserve
    ensures var exact := PostFeeQuantity(reserve, rates) * (PRECISE_UNIT - rates.premium);
            exact <= PostFeeAndPremiumQuantity(reserve, rates) * PRECISE_UNIT < exact + PRECISE_UNIT
  {
    PostFeeBounds(reserve, rates);
    var subFees := PostFeeQuantity(reserve, rates);
    PremiumBounds(subFees, rates.premium);
    MulFloor(subFees, rates.premium);
    Distribute(PRECISE_UNIT - rates.premium, rates.premium, subFees);
  }

  lemma DepositCoversCredit(reserve: int, baseUnits: int, rates: Rates)
    requires 0 <= reserve && 0 < baseUnits && rates.Valid()
    ensures 0 <= NormalizedCredit(reserve, baseUnits, rates) <= NormalizedDeposit(reserve, baseUnits, rates)
    ensures 0 <= PostFeeAndPremiumQuantity(reserve, rates) <= PostFeeQuantity(reserve, rates) <= reserve
  {
    CreditBounds(reserve, rates);
    DivFloor(PostFeeAndPremiumQuantity(reserve, rates), baseUnits);
    DivFloorGalois(PostFeeQuantity(reserve, rates), baseUnits, NormalizedCredit(reserve, baseUnits, rates));
  }

  /** Deposit and credit are the reserve quantities scaled to 18 decimals, rounded down. */
  lemma NormalizedAreExact(reserve: int, baseUnits: int, rates: Rates, q: int)
    requires 0 <= reserve && 0 < baseUnits && rates.Valid()
    ensures q <= NormalizedDeposit(reserve, baseUnits, rates)
       <==> q * baseUnits <= PostFeeQuantity(reserve, rates) * PRECISE_UNIT
    ensures q <= NormalizedCredit(reserve, baseUnits, rates)
       <==> q * baseUnits <= PostFeeAndPremiumQuantity(reserve, rates) * PRECISE_UNIT
  {
    CreditBounds(reserve, rates);
    DivFloorGalois(PostFeeQuantity(reserve, rates), baseUnits, q);
    DivFloorGalois(PostFeeAndPremiumQuantity(reserve, rates), baseUnits, q);
  }

  // ---------- Fairness of an issue ----------

  /** The issued stake is worth at most the credit, and nobody else's share of the value falls. */
  lemma IssueForIsFair(supply: int, valuation: int, deposit: int, credit: int)
    requires 0 <= supply && 0 <= valuation && 0 <= credit <= deposit
    requires credit < PreciseMul(supply, valuation) + deposit
    ensures var issued := IssueQuantityFor(supply, valuation, deposit, credit);
            var nav := PreciseMul(supply, valuation);
            && 0 <= issued
            && issued * (nav + deposit) <= credit * (supply + issued)
            && issued * nav <= deposit * supply
  {
    var nav := PreciseMul(supply, valuation);
    var denominator := IssueDenominator(supply, valuation, deposit, credit);
    var issued := IssueQuantityFor(supply, valuation, deposit, credit);
    MulFloor(credit, supply);
    DivFloor(PreciseMul(credit, supply), denominator);
    assert issued * denominator <= credit * supply;
    assert issued * denominator == issued * (nav + deposit) - issued * credit;
    assert credit * (supply + issued) == credit * supply + issued * credit;
    assert issued * denominator == issued * nav + issued * (deposit - credit);
    MulNonNeg(issued, deposit - credit);
    MulLe(credit, deposit, supply);
  }

  /** The issuer is not short-changed: one token more would be worth more than the credit, up to one rounding. */
  lemma IssueForIsTight(supply: int, valuation: int, deposit: int, credit: int)
    requires 0 <= supply && 0 <= valuation && 0 <= credit <= deposit
    requires credit < PreciseMul(supply, valuation) + deposit
    ensures var next := IssueQuantityFor(supply, valuation, deposit, credit) + 1;
            credit * (supply + next) < next * (PreciseMul(supply, valuation) + deposit) + PRECISE_UNIT
  {
    var next := IssueQuantityFor(supply, valuation, deposit, credit) + 1;
    var value := PreciseMul(supply, valuation) + deposit;
    MulFloor(credit, supply);
    DivFloor(PreciseMul(credit, supply), value - credit);
    NextMultiples(next - 1, value - credit);
    assert next * (value - credit) == next * value - credit * next;
    Distribute(supply, next, credit);
  }

  lemma IssueIsFair(supply: int, valuation: int, baseUnits: int, reserve: int, rates: Rates)
    requires 0 <= supply && 0 <= valuation && 0 < baseUnits && 0 <= reserve && rates.Valid()
    requires NormalizedCredit(reserve, baseUnits, rates)
               < PreciseMul(supply, valuation) + NormalizedDeposit(reserve, baseUnits, rates)
    ensures var issued := IssueQuantity(supply, valuation, baseUnits, reserve, rates);
            var deposit := NormalizedDeposit(reserve, baseUnits, rates);
            var credit := NormalizedCredit(reserve, baseUnits, rates);
            var nav := PreciseMul(supply, valuation);
            && 0 <= issued
            && issued * (nav + deposit) <= credit * (supply + issued)
            && issued * nav <= deposit * supply
            && credit * (supply + (issued + 1)) < (issued + 1) * (nav + deposit) + PRECISE_UNIT
  {
    DepositCoversCredit(reserve, baseUnits, rates);
    var deposit := NormalizedDeposit(reserve, baseUnits, rates);
    var credit := NormalizedCredit(reserve, baseUnits, rates);
    IssueForIsFair(supply, valuation, deposit, credit);
    IssueForIsTight(supply, valuation, deposit, credit);
  }

  // ---------- Redemption ----------

  lemma NotionalSubPremiumBounds(quantity: int, valuation: int, rates: Rates)
    requires 0 <= quantity && 0 <= valuation && rates.Valid()
    ensures 0 <= RedeemNotionalSubPremium(quantity, valuation, rates) <= RedeemNotional(quantity, valuation)
    ensures RedeemNotional(quantity, valuation) * PRECISE_UNIT <= valuation * quantity
                                                               < (RedeemNotional(quantity, valuation) + 1) * PRECISE_UNIT
    ensures var notional := RedeemNotional(quantity, valuation);
            var net := RedeemNotionalSubPremium(quantity, valuation, rates);
            var kept := notional * (PRECISE_UNIT - rates.premium);
            kept - PRECISE_UNIT < net * PRECISE_UNIT <= kept
  {
    MulFloor(valuation, quantity);
    var notional := RedeemNotional(quantity, valuation);
    PremiumBounds(notional, rates.premium);
    MulCeil(notional, rates.premium);
    assert notional * (PRECISE_UNIT - rates.premium) == notional * PRECISE_UNIT - notional * rates.premium;
  }

  /**
   * What leaves the Set is the notional net of premium in base units, rounded down. It covers the payment and is
   * covered by the notional value redeemed.
   */
  lemma PaymentBounds(quantity: int, valuation: int, baseUnits: int, rates: Rates)
    requires 0 <= quantity && 0 <= valuation && 0 <= baseUnits && rates.Valid()
    ensures 0 <= ReserveRedeemQuantity(quantity, valuation, baseUnits, rates)
              <= ReserveRemoved(quantity, valuation, baseUnits, rates)
    ensures var removed := ReserveRemoved(quantity, valuation, baseUnits, rates);
            var net := RedeemNotionalSubPremium(quantity, valuation, rates);
            && removed * PRECISE_UNIT <= net * baseUnits < (removed + 1) * PRECISE_UNIT
            && net * baseUnits <= RedeemNotional(quantity, valuation) * baseUnits
  {
    NotionalSubPremiumBounds(quantity, valuation, rates);
    var net := RedeemNotionalSubPremium(quantity, valuation, rates);
    PostFeeBounds(net, rates);
    var paid := PostFeeQuantity(net, rates);
    MulFloor(paid, baseUnits);
    MulFloor(net, baseUnits);
    MulLe(paid, net, baseUnits);
    MulFloorGalois(net, baseUnits, ReserveRedeemQuantity(quantity, valuation, baseUnits, rates));
    MulLe(net, RedeemNotional(quantity, valuation), baseUnits);
  }

  /**
   * The payment is the notional value less premium and fees, up to the roundings: with `kept` the
   * fraction left by fees, it is exact to one reserve base unit, one notional unit of premium and two of fees.
   */
  lemma PaymentIsExactUpToRounding(quantity: int, valuation: int, baseUnits: int, rates: Rates)
    requires 0 <= quantity && 0 <= valuation && 0 <= baseUnits && rates.Valid()
    ensures var kept := PRECISE_UNIT - rates.manager - rates.protocolDirect;
            var net := RedeemNotionalSubPremium(quantity, valuation, rates);
            var paid := ReserveRedeemQuantity(quantity, valuation, baseUnits, rates);
            && net * kept * baseUnits < (paid + 1) * PRECISE_UNIT * PRECISE_UNIT
            && paid * PRECISE_UNIT * PRECISE_UNIT <= net * kept * baseUnits + 2 * PRECISE_UNIT * baseUnits
  {
    var kept := PRECISE_UNIT - rates.manager - rates.protocolDirect;
    NotionalSubPremiumBounds(quantity, valuation, rates);
    var net := RedeemNotionalSubPremium(quantity, valuation, rates);
    PostFeeBounds(net, rates);
    var post := PostFeeQuantity(net, rates);
    MulFloor(post, baseUnits);
    ScaleToBaseUnits(net * kept, post, baseUnits, ReserveRedeemQuantity(quantity, valuation, baseUnits, rates));
  }

  lemma ScaleToBaseUnits(exact: int, post: int, baseUnits: int, paid: int)
    requires 0 <= baseUnits && exact <= post * PRECISE_UNIT < exact + 2 * PRECISE_UNIT
    requires paid * PRECISE_UNIT <= post * baseUnits < paid * PRECISE_UNIT + PRECISE_UNIT
    ensures exact * baseUnits < (paid + 1) * PRECISE_UNIT * PRECISE_UNIT
    ensures paid * PRECISE_UNIT * PRECISE_UNIT <= exact * baseUnits + 2 * PRECISE_UNIT * baseUnits
  {
    MulLe(exact, post * PRECISE_UNIT, baseUnits);
    MulLe(post * PRECISE_UNIT, exact + 2 * PRECISE_UNIT, baseUnits);
  }

  /** What remaining holders keep is worth at least what it was: only the notional less premium leaves. */
  lemma RemainingHoldersKeepValue(supply: int, quantity: int, valuation: int, rates: Rates)
    requires 0 <= quantity && 0 <= valuation && rates.Valid()
    ensures (supply - quantity) * valuation
         <= supply * valuation - RedeemNotionalSubPremium(quantity, valuation, rates) * PRECISE_UNIT
  {
    NotionalSubPremiumBounds(quantity, valuation, rates);
    assert (supply - quantity) * valuation == supply * valuation - valuation * quantity;
  }

  // ---------- Units and multipliers ----------

  /** Of a unit, `stored` is what is read back: times the multiplier, rounded down, and over it, rounded down. */
  predicate IsReadBack(unit: int, stored: int, multiplier: int) {
    var virtual := PreciseMul(unit, multiplier);
    stored * multiplier <= virtual * PRECISE_UNIT < (stored + 1) * multiplier
  }

  lemma StoredUnitIsReadBack(unit: int, multiplier: int)
    requires 0 <= unit && 0 < multiplier
    ensures IsReadBack(unit, StoredUnit(unit, multiplier), multiplier)
  {
    MulFloor(unit, multiplier);
    DivFloor(PreciseMul(unit, multiplier), multiplier);
    NextMultiples(StoredUnit(unit, multiplier), multiplier);
  }

  /** Storing a unit virtually never raises it, and costs less than one step of the multiplier. */
  lemma StoredUnitBounds(unit: int, multiplier: int)
    requires 0 <= unit && 0 < multiplier
    ensures 0 <= StoredUnit(unit, multiplier) <= unit
    ensures unit * multiplier < (StoredUnit(unit, multiplier) + 1) * multiplier + PRECISE_UNIT
  {
    MulFloor(unit, multiplier);
    var virtual := PreciseMul(unit, multiplier);
    DivFloor(virtual, multiplier);
    CancelLe(StoredUnit(unit, multiplier), unit, multiplier);
    assert (StoredUnit(unit, multiplier) + 1) * multiplier == StoredUnit(unit, multiplier) * multiplier + multiplier;
  }

  /** A unit computed from a notional amount never claims more than that amount over the new supply. */
  lemma UnitIsBacked(notional: int, supply: int, multiplier: int)
    requires 0 <= notional && 0 < supply && 0 < multiplier
    ensures 0 <= StoredUnit(PreciseDiv(notional, supply), multiplier)
    ensures StoredUnit(PreciseDiv(notional, supply), multiplier) * supply <= notional * PRECISE_UNIT
    ensures PreciseMul(supply, StoredUnit(PreciseDiv(notional, supply), multiplier)) <= notional
  {
    DivFloor(notional, supply);
    var unit := PreciseDiv(notional, supply);
    StoredUnitBounds(unit, multiplier);
    var stored := StoredUnit(unit, multiplier);
    MulLe(stored, unit, supply);
    MulFloor(supply, stored);
  }

  /** Nor does it lose more than the two unit roundings: the multiplier decides what the second one costs. */
  lemma UnitLosesOnlyRounding(notional: int, supply: int, multiplier: int)
    requires 0 <= notional && 0 < supply && 0 < multiplier
    ensures notional * PRECISE_UNIT * multiplier
          < ((StoredUnit(PreciseDiv(notional, supply), multiplier) + 2) * multiplier + PRECISE_UNIT) * supply
  {
    DivFloor(notional, supply);
    var unit := PreciseDiv(notional, supply);
    StoredUnitBounds(unit, multiplier);
    var stored := StoredUnit(unit, multiplier);
    MulLt(notional * PRECISE_UNIT, unit * supply + supply, multiplier);
    MulLe((unit + 1) * multiplier, (stored + 2) * multiplier + PRECISE_UNIT, supply);
    assert (unit * supply + supply) * multiplier == (unit + 1) * multiplier * supply;
  }

  /** After an issue the unit claims the old notional plus the deposit, never more, and less only by rounding. */
  lemma IssueUnitTracksDeposit(previousUnit: int, reserve: int, previousSupply: int, currentSupply: int,
                               multiplier: int, rates: Rates)
    requires 0 <= previousUnit && 0 <= reserve && 0 <= previousSupply && rates.Valid()
    requires 0 < currentSupply && 0 < multiplier
    ensures var unit := IssuePositionUnit(previousUnit, reserve, previousSupply, currentSupply, multiplier, rates);
            var held := PreciseMul(previousSupply, previousUnit) + PostFeeQuantity(reserve, rates);
            && IsReadBack(PreciseDiv(held, currentSupply), unit, multiplier)
            && unit * currentSupply <= held * PRECISE_UNIT
            && held * PRECISE_UNIT * multiplier < ((unit + 2) * multiplier + PRECISE_UNIT) * currentSupply
  {
    MulFloor(previousSupply, previousUnit);
    PostFeeBounds(reserve, rates);
    var held := PreciseMul(previousSupply, previousUnit) + PostFeeQuantity(reserve, rates);
    DivFloor(held, currentSupply);
    StoredUnitIsReadBack(PreciseDiv(held, currentSupply), multiplier);
    UnitIsBacked(held, currentSupply, multiplier);
    UnitLosesOnlyRounding(held, currentSupply, multiplier);
  }

  /** Paying a redeemer and revaluing the unit together never spend more than the old unit accounted for. */
  lemma RedeemConserves(previousUnit: int, quantity: int, valuation: int, baseUnits: int,
                        previousSupply: int, currentSupply: int, multiplier: int, rates: Rates)
    requires 0 <= quantity && 0 <= valuation && 0 <= baseUnits && rates.Valid()
    requires 0 < currentSupply && 0 < multiplier
    requires 0 <= RedeemNumerator(previousUnit, previousSupply,
                                  ReserveRemoved(quantity, valuation, baseUnits, rates))
    ensures var unit := RedeemPositionUnit(previousUnit, quantity, valuation, baseUnits,
                                           previousSupply, currentSupply, multiplier, rates);
            ReserveRedeemQuantity(quantity, valuation, baseUnits, rates) + PreciseMul(currentSupply, unit)
              <= PreciseMul(previousSupply, previousUnit)
    ensures var unit := RedeemPositionUnit(previousUnit, quantity, valuation, baseUnits,
                                           previousSupply, currentSupply, multiplier, rates);
            var held := PreciseMul(previousSupply, previousUnit) - ReserveRemoved(quantity, valuation, baseUnits, rates);
            && IsReadBack(PreciseDiv(held, currentSupply), unit, multiplier)
            && unit * currentSupply <= held * PRECISE_UNIT
            && held * PRECISE_UNIT * multiplier < ((unit + 2) * multiplier + PRECISE_UNIT) * currentSupply
  {
    PaymentBounds(quantity, valuation, baseUnits, rates);
    var removed := ReserveRemoved(quantity, valuation, baseUnits, rates);
    var held := RedeemNumerator(previousUnit, previousSupply, removed);
    DivFloor(held, currentSupply);
    StoredUnitIsReadBack(PreciseDiv(held, currentSupply), multiplier);
    UnitIsBacked(held, currentSupply, multiplier);
    UnitLosesOnlyRounding(held, currentSupply, multiplier);
  }

  /** Rounding inflation up and rounding the old supply's share down are the same number. */
  lemma IssueMultiplierIsSupplyRatio(multiplier: int, previousSupply: int, currentSupply: int)
    requires 0 <= previousSupply <= currentSupply && 0 < currentSupply
    ensures IssuePositionMultiplier(multiplier, previousSupply, currentSupply)
         == PreciseMul(multiplier, PreciseDiv(previousSupply, currentSupply))
  {
    var minted := currentSupply - previousSupply;
    var ratio := PRECISE_UNIT - PreciseDivCeil(minted, currentSupply);
    DivCeil(minted, currentSupply);
    assert ratio * currentSupply == PRECISE_UNIT * currentSupply - PreciseDivCeil(minted, currentSupply) * currentSupply;
    QuotientUnique(previousSupply * PRECISE_UNIT, currentSupply, ratio);
  }

  lemma RedeemMultiplierIsSupplyRatio(multiplier: int, previousSupply: int, currentSupply: int)
    requires 0 < currentSupply <= previousSupply
    ensures RedeemPositionMultiplier(multiplier, previousSupply, currentSupply)
         == PreciseMul(multiplier, PreciseDiv(previousSupply, currentSupply))
  {
    var burnt := previousSupply - currentSupply;
    var ratio := PRECISE_UNIT + PreciseDiv(burnt, currentSupply);
    DivFloor(burnt, currentSupply);
    assert ratio * currentSupply == PRECISE_UNIT * currentSupply + PreciseDiv(burnt, currentSupply) * currentSupply;
    QuotientUnique(previousSupply * PRECISE_UNIT, currentSupply, ratio);
  }

  /** Multiplier times supply never grows when the multiplier is scaled by the supply ratio. */
  lemma RatioKeepsProduct(multiplier: int, previousSupply: int, currentSupply: int)
    requires 0 <= multiplier && 0 <= previousSupply && 0 < currentSupply
    ensures var scaled := PreciseMul(multiplier, PreciseDiv(previousSupply, currentSupply));
            0 <= scaled && scaled * currentSupply <= multiplier * previousSupply
  {
    DivFloor(previousSupply, currentSupply);
    var ratio := PreciseDiv(previousSupply, currentSupply);
    MulFloor(multiplier, ratio);
    ScaledProduct(multiplier, ratio, PreciseMul(multiplier, ratio), previousSupply, currentSupply);
  }

  lemma ScaledProduct(multiplier: int, ratio: int, scaled: int, previousSupply: int, currentSupply: int)
    requires 0 <= multiplier && 0 < currentSupply
    requires scaled * PRECISE_UNIT <= multiplier * ratio && ratio * currentSupply <= previousSupply * PRECISE_UNIT
    ensures scaled * currentSupply <= multiplier * previousSupply
  {
    MulLe(scaled * PRECISE_UNIT, multiplier * ratio, currentSupply);
    MulLe(ratio * currentSupply, previousSupply * PRECISE_UNIT, multiplier);
    assert multiplier * ratio * currentSupply == ratio * currentSupply * multiplier;
    assert scaled * PRECISE_UNIT * currentSupply == scaled * currentSupply * PRECISE_UNIT;
  }

  lemma IssueThenRedeemBackNeverRaisesMultiplier(multiplier: int, supply: int, peak: int)
    requires 0 <= multiplier && 0 < supply <= peak
    ensures RedeemPositionMultiplier(IssuePositionMultiplier(multiplier, supply, peak), peak, supply) <= multiplier
  {
    IssueMultiplierIsSupplyRatio(multiplier, supply, peak);
    var issued := IssuePositionMultiplier(multiplier, supply, peak);
    RatioKeepsProduct(multiplier, supply, peak);
    RedeemMultiplierIsSupplyRatio(issued, peak, supply);
    RatioKeepsProduct(issued, peak, supply);
    CancelLe(RedeemPositionMultiplier(issued, peak, supply), multiplier, supply);
  }

  // ---------- Round trip ----------

  datatype Redemption = Redemption(quantity: int, valuation: int, rates: Rates)

  function Redeemed(redemptions: seq<Redemption>): int {
    if redemptions == [] then 0 else redemptions[0].quantity + Redeemed(redemptions[1..])
  }

  function Paid(redemptions: seq<Redemption>, baseUnits: int): int {
    if redemptions == [] then 0 else
      var r := redemptions[0];
      ReserveRedeemQuantity(r.quantity, r.valuation, baseUnits, r.rates) + Paid(redemptions[1..], baseUnits)
  }

  /** At these valuations the whole supply is worth at most `value`. */
  ghost predicate ValuedWithin(redemptions: seq<Redemption>, supply: int, value: int) {
    forall r :: r in redemptions ==>
      && 0 <= r.quantity && 0 <= r.valuation && r.rates.Valid()
      && r.valuation * supply <= value * PRECISE_UNIT
  }

  lemma PaymentWithinShare(r: Redemption, baseUnits: int, supply: int, value: int)
    requires 0 <= baseUnits && 0 < supply && ValuedWithin([r], supply, value)
    ensures ReserveRedeemQuantity(r.quantity, r.valuation, baseUnits, r.rates) * (PRECISE_UNIT * supply)
         <= r.quantity * (value * baseUnits)
  {
    assert r in [r];
    PaymentBounds(r.quantity, r.valuation, baseUnits, r.rates);
    NotionalSubPremiumBounds(r.quantity, r.valuation, r.rates);
    var paid := ReserveRedeemQuantity(r.quantity, r.valuation, baseUnits, r.rates);
    NotionalWithinShare(RedeemNotional(r.quantity, r.valuation), r.quantity, r.valuation, supply, value);
    PaidWithinNotional(paid, RedeemNotional(r.quantity, r.valuation), r.quantity, baseUnits, supply, value);
  }

  lemma NotionalWithinShare(notional: int, quantity: int, valuation: int, supply: int, value: int)
    requires 0 <= quantity && 0 < supply && notional * PRECISE_UNIT <= valuation * quantity
    requires valuation * supply <= value * PRECISE_UNIT
    ensures notional * supply <= quantity * value
  {
    MulLe(notional * PRECISE_UNIT, valuation * quantity, supply);
    MulLe(valuation * supply, value * PRECISE_UNIT, quantity);
    assert valuation * quantity * supply == valuation * supply * quantity;
  }

  lemma PaidWithinNotional(paid: int, notional: int, quantity: int, baseUnits: int, supply: int, value: int)
    requires 0 <= baseUnits && 0 < supply && paid * PRECISE_UNIT <= notional * baseUnits
    requires notional * supply <= quantity * value
    ensures paid * (PRECISE_UNIT * supply) <= quantity * (value * baseUnits)
  {
    MulLe(paid * PRECISE_UNIT, notional * baseUnits, supply);
    MulLe(notional * supply, quantity * value, baseUnits);
    assert notional * baseUnits * supply == notional * supply * baseUnits;
    assert quantity * (value * baseUnits) == quantity * value * baseUnits;
    assert paid * (PRECISE_UNIT * supply) == paid * PRECISE_UNIT * supply;
  }

  lemma {:induction false} PaymentsWithinShare(redemptions: seq<Redemption>, baseUnits: int, supply: int, value: int)
    requires 0 <= baseUnits && 0 < supply && ValuedWithin(redemptions, supply, value)
    ensures Paid(redemptions, baseUnits) * (PRECISE_UNIT * supply) <= Redeemed(redemptions) * (value * baseUnits)
  {
    if redemptions != [] {
      var r := redemptions[0];
      PaymentWithinShare(r, baseUnits, supply, value);
      PaymentsWithinShare(redemptions[1..], baseUnits, supply, value);
      var paid := ReserveRedeemQuantity(r.quantity, r.valuation, baseUnits, r.rates);
      Distribute(paid, Paid(redemptions[1..], baseUnits), PRECISE_UNIT * supply);
      Distribute(r.quantity, Redeemed(redemptions[1..]), value * baseUnits);
    }
  }

  /**
   * Issue with a reserve, then redeem what was received in any number of pieces, each at its own
   * valuation and rates: as long as no valuation puts the whole Set above its value right after the
   * issue, the redeemer never gets back more than was credited.
   */
  lemma RoundTripGivesNoProfit(supply: int, valuation: int, baseUnits: int, reserve: int, rates: Rates,
                               redemptions: seq<Redemption>)
    requires 0 <= supply && 0 <= valuation && 0 < baseUnits && 0 <= reserve && rates.Valid()
    requires NormalizedCredit(reserve, baseUnits, rates)
               < PreciseMul(supply, valuation) + NormalizedDeposit(reserve, baseUnits, rates)
    requires var issued := IssueQuantity(supply, valuation, baseUnits, reserve, rates);
             && 0 < supply + issued
             && Redeemed(redemptions) <= issued
             && ValuedWithin(redemptions, supply + issued,
                             PreciseMul(supply, valuation) + NormalizedDeposit(reserve, baseUnits, rates))
    ensures Paid(redemptions, baseUnits) <= PostFeeAndPremiumQuantity(reserve, rates) <= reserve
  {
    var issued := IssueQuantity(supply, valuation, baseUnits, reserve, rates);
    var credit := NormalizedCredit(reserve, baseUnits, rates);
    var value := PreciseMul(supply, valuation) + NormalizedDeposit(reserve, baseUnits, rates);
    DepositCoversCredit(reserve, baseUnits, rates);
    IssueIsFair(supply, valuation, baseUnits, reserve, rates);
    PaymentsWithinShare(redemptions, baseUnits, supply + issued, value);
    MulFloor(supply, valuation);
    DivFloor(PostFeeAndPremiumQuantity(reserve, rates), baseUnits);
    CreditCoversPayments(Paid(redemptions, baseUnits), Redeemed(redemptions), issued, value, baseUnits,
                         supply + issued, credit);
    CancelLe(Paid(redemptions, baseUnits), PostFeeAndPremiumQuantity(reserve, rates), PRECISE_UNIT);
  }

  lemma CreditCoversPayments(paid: int, redeemed: int, issued: int, value: int, baseUnits: int,
                             supply: int, credit: int)
    requires 0 <= value && 0 <= baseUnits && 0 < supply && redeemed <= issued
    requires paid * (PRECISE_UNIT * supply) <= redeemed * (value * baseUnits)
    requires issued * value <= credit * supply
    ensures paid * PRECISE_UNIT <= credit * baseUnits
  {
    MulNonNeg(value, baseUnits);
    MulLe(redeemed, issued, value * baseUnits);
    MulLe(issued * value, credit * supply, baseUnits);
    assert issued * (value * baseUnits) == issued * value * baseUnits;
    assert credit * supply * baseUnits == credit * baseUnits * supply;
    assert paid * (PRECISE_UNIT * supply) == paid * PRECISE_UNIT * supply;
    CancelLe(paid * PRECISE_UNIT, credit * baseUnits, supply);
  }
}
