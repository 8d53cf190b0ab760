/** Any run of net-asset-value issues and redemptions of one SetToken, as a state machine over its reserve position. */
module NavRun {
  import opened Nonlinear
  import opened FixedPoint
  import opened NavIssuance

  datatype NavState = NavState(supply: int, reserveUnit: int, reserveBalance: int, multiplier: int)

  datatype NavOp =
    | Issue(reserve: int, valuation: int, baseUnits: int, rates: Rates)
    | Redeem(quantity: int, valuation: int, baseUnits: int, rates: Rates)

  function SupplyAfterIssue(s: NavState, op: NavOp): int
    requires op.Issue? && op.baseUnits != 0
  {
    var deposit := NormalizedDeposit(op.reserve, op.baseUnits, op.rates);
    var credit := NormalizedCredit(op.reserve, op.baseUnits, op.rates);
    if IssueDenominator(s.supply, op.valuation, deposit, credit) == 0 then 0
    else s.supply + IssueQuantity(s.supply, op.valuation, op.baseUnits, op.reserve, op.rates)
  }

  /** The call does not revert: unsigned arguments, no underflow and no division by zero. */
  predicate Accepted(s: NavState, op: NavOp) {
    && op.rates.Valid() && 0 <= op.valuation && 0 < op.baseUnits
    && match op {
      case Issue(reserve, _, _, _) =>
        && 0 <= reserve
        && 0 < SupplyAfterIssue(s, op)
        && 0 < IssuePositionMultiplier(s.multiplier, s.supply, SupplyAfterIssue(s, op))
      case Redeem(quantity, valuation, baseUnits, rates) =>
        && 0 <= quantity < s.supply
        && 0 < RedeemPositionMultiplier(s.multiplier, s.supply, s.supply - quantity)
        && 0 <= RedeemNumerator(s.reserveUnit, s.supply, ReserveRemoved(quantity, valuation, baseUnits, rates))
    }
  }

  /** A reverted call leaves the state as it was. */
  function Step(s: NavState, op: NavOp): NavState {
    if !Accepted(s, op) then s
    else match op {
      case Issue(reserve, _, _, rates) =>
        var supply := SupplyAfterIssue(s, op);
        var multiplier := IssuePositionMultiplier(s.multiplier, s.supply, supply);
        NavState(supply,
                 IssuePositionUnit(s.reserveUnit, reserve, s.supply, supply, multiplier, rates),
                 s.reserveBalance + PostFeeQuantity(reserve, rates),
                 multiplier)
      case Redeem(quantity, valuation, baseUnits, rates) =>
        var supply := s.supply - quantity;
        var multiplier := RedeemPositionMultiplier(s.multiplier, s.supply, supply);
        NavState(supply,
                 RedeemPositionUnit(s.reserveUnit, quantity, valuation, baseUnits, s.supply, supply, multiplier, rates),
                 s.reserveBalance - ReserveRemoved(quantity, valuation, baseUnits, rates),
                 multiplier)
    }
  }

  function Run(s: NavState, ops: seq<NavOp>): NavState
    decreases ops
  {
    if ops == [] then s else Run(Step(s, ops[0]), ops[1..])
  }

  /** The reserve balance covers the reserve unit of every token. */
  ghost predicate Backed(s: NavState) {
    && 0 <= s.supply && 0 <= s.reserveUnit && 0 <= s.reserveBalance && 0 <= s.multiplier
    && s.reserveUnit * s.supply <= PRECISE_UNIT * s.reserveBalance
  }

  // ---------- One call ----------

  /**
   * An issue goes through exactly when there is a value beyond its credit to measure it against, it does not start
   * from nothing, and it does not inflate the supply so far that the multiplier rounds to zero.
   */
  lemma IssueAcceptedIff(s: NavState, op: NavOp)
    requires Backed(s) && op.Issue? && op.rates.Valid()
    requires 0 <= op.reserve && 0 <= op.valuation && 0 < op.baseUnits
    ensures Accepted(s, op) <==>
              && (NormalizedCredit(op.reserve, op.baseUnits, op.rates)
                    < PreciseMul(s.supply, op.valuation) + NormalizedDeposit(op.reserve, op.baseUnits, op.rates))
              && 0 < s.supply
              && var supply := s.supply + IssueQuantity(s.supply, op.valuation, op.baseUnits, op.reserve, op.rates);
                 0 < supply && PRECISE_UNIT <= s.multiplier * PreciseDiv(s.supply, supply)
  {
    var deposit := NormalizedDeposit(op.reserve, op.baseUnits, op.rates);
    var credit := NormalizedCredit(op.reserve, op.baseUnits, op.rates);
    var value := PreciseMul(s.supply, op.valuation) + deposit;
    DepositCoversCredit(op.reserve, op.baseUnits, op.rates);
    MulFloor(s.supply, op.valuation);
    if credit < value {
      if s.supply == 0 {
        NothingFromNothing(credit, s.supply, value - credit);
      } else {
        IssueForIsFair(s.supply, op.valuation, deposit, credit);
        var supply := SupplyAfterIssue(s, op);
        IssueMultiplierIsSupplyRatio(s.multiplier, s.supply, supply);
        DivFloor(s.supply, supply);
        MulFloorGalois(s.multiplier, PreciseDiv(s.supply, supply), 1);
      }
    }
  }

  /**
   * A redemption goes through exactly when it leaves tokens, there is a multiplier, and the reserve position
   * accounts for what is to leave the Set.
   */
  lemma RedeemAcceptedIff(s: NavState, op: NavOp)
    requires Backed(s) && op.Redeem? && op.rates.Valid()
    requires 0 <= op.quantity && 0 <= op.valuation && 0 < op.baseUnits
    ensures Accepted(s, op) <==>
              && op.quantity < s.supply && 0 < s.multiplier
              && ReserveRemoved(op.quantity, op.valuation, op.baseUnits, op.rates) * PRECISE_UNIT
                   <= s.supply * s.reserveUnit
  {
    if op.quantity < s.supply {
      var left := s.supply - op.quantity;
      RedeemMultiplierIsSupplyRatio(s.multiplier, s.supply, left);
      DivFloorGalois(s.supply, left, PRECISE_UNIT);
      MulFloorGalois(s.multiplier, PreciseDiv(s.supply, left), 1);
      if 0 < s.multiplier { MulLe(1, s.multiplier, PreciseDiv(s.supply, left)); }
      MulFloorGalois(s.supply, s.reserveUnit, ReserveRemoved(op.quantity, op.valuation, op.baseUnits, op.rates));
    }
  }

  /** A Set without supply issues nothing, whatever is credited. */
  lemma NothingFromNothing(credit: int, supply: int, denominator: int)
    requires supply == 0 && 0 < denominator
    ensures PreciseDiv(PreciseMul(credit, supply), denominator) == 0
  {
    QuotientUnique(0, PRECISE_UNIT, 0);
    QuotientUnique(0, denominator, 0);
  }

  /** Between two accepted states the unit is `held` over the new supply, short of it by its two roundings at most. */
  ghost predicate UnitFollows(held: int, s: NavState) {
    && s.reserveUnit * s.supply <= held * PRECISE_UNIT
    && held * PRECISE_UNIT * s.multiplier < ((s.reserveUnit + 2) * s.multiplier + PRECISE_UNIT) * s.supply
  }

  /**
   * What an accepted call does to the books: an issue mints its quantity and adds the reserve net of fees, a
   * redemption burns its quantity and removes what leaves the Set, the unit follows what is held, and the
   * multiplier is scaled by the ratio of the supplies. A call that is not accepted changes nothing.
   */
  lemma StepIsExact(s: NavState, op: NavOp)
    requires Backed(s)
    ensures !Accepted(s, op) ==> Step(s, op) == s
    ensures Accepted(s, op) ==>
              var s' := Step(s, op);
              var held := PreciseMul(s.supply, s.reserveUnit);
              && 0 < s'.supply
              && s'.multiplier == PreciseMul(s.multiplier, PreciseDiv(s.supply, s'.supply))
              && match op {
                case Issue(reserve, valuation, baseUnits, rates) =>
                  && (NormalizedCredit(reserve, baseUnits, rates)
                        < PreciseMul(s.supply, valuation) + NormalizedDeposit(reserve, baseUnits, rates))
                  && s'.supply == s.supply + IssueQuantity(s.supply, valuation, baseUnits, reserve, rates)
                  && s'.reserveBalance == s.reserveBalance + PostFeeQuantity(reserve, rates)
                  && UnitFollows(held + PostFeeQuantity(reserve, rates), s')
                case Redeem(quantity, valuation, baseUnits, rates) =>
                  && s'.supply == s.supply - quantity
                  && s'.reserveBalance == s.reserveBalance - ReserveRemoved(quantity, valuation, baseUnits, rates)
                  && UnitFollows(held - ReserveRemoved(quantity, valuation, baseUnits, rates), s')
              }
  {
    if Accepted(s, op) {
      var s' := Step(s, op);
      if op.Issue? {
        IssueStepIsExact(s, op);
      } else {
        PaymentBounds(op.quantity, op.valuation, op.baseUnits, op.rates);
        RedeemMultiplierIsSupplyRatio(s.multiplier, s.supply, s'.supply);
        RedeemConserves(s.reserveUnit, op.quantity, op.valuation, op.baseUnits, s.supply, s'.supply, s'.multiplier,
                        op.rates);
      }
    }
  }

  lemma IssueStepIsExact(s: NavState, op: NavOp)
    requires Backed(s) && op.Issue? && Accepted(s, op)
    ensures NormalizedCredit(op.reserve, op.baseUnits, op.rates)
              < PreciseMul(s.supply, op.valuation) + NormalizedDeposit(op.reserve, op.baseUnits, op.rates)
    ensures Step(s, op).multiplier == PreciseMul(s.multiplier, PreciseDiv(s.supply, Step(s, op).supply))
    ensures UnitFollows(PreciseMul(s.supply, s.reserveUnit) + PostFeeQuantity(op.reserve, op.rates), Step(s, op))
  {
    var s' := Step(s, op);
    DepositCoversCredit(op.reserve, op.baseUnits, op.rates);
    MulFloor(s.supply, op.valuation);
    IssueForIsFair(s.supply, op.valuation, NormalizedDeposit(op.reserve, op.baseUnits, op.rates),
                   NormalizedCredit(op.reserve, op.baseUnits, op.rates));
    IssueMultiplierIsSupplyRatio(s.multiplier, s.supply, s'.supply);
    IssueUnitTracksDeposit(s.reserveUnit, op.reserve, s.supply, s'.supply, s'.multiplier, op.rates);
  }

  // ---------- Runs ----------

  /** The notional that the old unit accounts for is in the reserve. */
  lemma NotionalIsHeld(s: NavState)
    requires Backed(s)
    ensures 0 <= PreciseMul(s.supply, s.reserveUnit) <= s.reserveBalance
  {
    MulFloor(s.supply, s.reserveUnit);
  }

  lemma IssueKeepsBacking(s: NavState, op: NavOp)
    requires Backed(s) && op.Issue? && Accepted(s, op)
    ensures Backed(Step(s, op))
    ensures Step(s, op).multiplier * Step(s, op).supply <= s.multiplier * s.supply
    ensures s.supply <= Step(s, op).supply
  {
    var deposit := NormalizedDeposit(op.reserve, op.baseUnits, op.rates);
    var credit := NormalizedCredit(op.reserve, op.baseUnits, op.rates);
    DepositCoversCredit(op.reserve, op.baseUnits, op.rates);
    MulFloor(s.supply, op.valuation);
    IssueForIsFair(s.supply, op.valuation, deposit, credit);
    NotionalIsHeld(s);
    var s' := Step(s, op);
    IssueMultiplierIsSupplyRatio(s.multiplier, s.supply, s'.supply);
    RatioKeepsProduct(s.multiplier, s.supply, s'.supply);
    UnitIsBacked(PreciseMul(s.supply, s.reserveUnit) + PostFeeQuantity(op.reserve, op.rates), s'.supply, s'.multiplier);
  }

  lemma RedeemKeepsBacking(s: NavState, op: NavOp)
    requires Backed(s) && op.Redeem? && Accepted(s, op)
    ensures Backed(Step(s, op))
    ensures Step(s, op).multiplier * Step(s, op).supply <= s.multiplier * s.supply
  {
    var removed := ReserveRemoved(op.quantity, op.valuation, op.baseUnits, op.rates);
    PaymentBounds(op.quantity, op.valuation, op.baseUnits, op.rates);
    NotionalIsHeld(s);
    var s' := Step(s, op);
    RedeemMultiplierIsSupplyRatio(s.multiplier, s.supply, s'.supply);
    RatioKeepsProduct(s.multiplier, s.supply, s'.supply);
    UnitIsBacked(RedeemNumerator(s.reserveUnit, s.supply, removed), s'.supply, s'.multiplier);
  }

  /** No interleaving of issues and redemptions ever leaves a token unbacked or inflates the positions per token. */
  lemma {:induction false} RunKeepsBacking(s: NavState, ops: seq<NavOp>)
    requires Backed(s)
    ensures Backed(Run(s, ops))
    ensures Run(s, ops).multiplier * Run(s, ops).supply <= s.multiplier * s.supply
    decreases ops
  {
    if ops != [] {
      if Accepted(s, ops[0]) {
        if ops[0].Issue? { IssueKeepsBacking(s, ops[0]); } else { RedeemKeepsBacking(s, ops[0]); }
      }
      RunKeepsBacking(Step(s, ops[0]), ops[1..]);
    }
  }

  /** Reserve that accepted issues brought in, net of fees. */
  function Deposited(s: NavState, ops: seq<NavOp>): int
    decreases ops
  {
    if ops == [] then 0 else
      (if Accepted(s, ops[0]) && ops[0].Issue? then PostFeeQuantity(ops[0].reserve, ops[0].rates) else 0)
        + Deposited(Step(s, ops[0]), ops[1..])
  }

  /** Reserve that accepted redemptions paid to their redeemers. */
  function PaidOut(s: NavState, ops: seq<NavOp>): int
    decreases ops
  {
    if ops == [] then 0 else
      (if Accepted(s, ops[0]) && ops[0].Redeem?
       then ReserveRedeemQuantity(ops[0].quantity, ops[0].valuation, ops[0].baseUnits, ops[0].rates) else 0)
        + PaidOut(Step(s, ops[0]), ops[1..])
  }

  /** Reserve that accepted redemptions took out of the Set: the payments and the fees on them. */
  function Removed(s: NavState, ops: seq<NavOp>): int
    decreases ops
  {
    if ops == [] then 0 else
      (if Accepted(s, ops[0]) && ops[0].Redeem?
       then ReserveRemoved(ops[0].quantity, ops[0].valuation, ops[0].baseUnits, ops[0].rates) else 0)
        + Removed(Step(s, ops[0]), ops[1..])
  }

  /**
   * Over any run the reserve moves by exactly what issues deposited and redemptions removed, and redeemers were
   * paid no more than was removed: all payments and what is left came from the first balance and the deposits.
   */
  lemma {:induction false} RunConservesReserve(s: NavState, ops: seq<NavOp>)
    requires Backed(s)
    ensures Run(s, ops).reserveBalance == s.reserveBalance + Deposited(s, ops) - Removed(s, ops)
    ensures 0 <= PaidOut(s, ops) <= Removed(s, ops)
    ensures PaidOut(s, ops) + Run(s, ops).reserveBalance <= s.reserveBalance + Deposited(s, ops)
    decreases ops
  {
    if ops != [] {
      var op := ops[0];
      if Accepted(s, op) {
        if op.Issue? { IssueKeepsBacking(s, op); } else { RedeemKeepsBacking(s, op); }
        if op.Redeem? { PaymentBounds(op.quantity, op.valuation, op.baseUnits, op.rates); }
      }
      RunConservesReserve(Step(s, op), ops[1..]);
    }
  }

  /** Whoever is still holding when the supply is back to at least where it was never sees the multiplier raised. */
  lemma MultiplierNeverRaisedAtSameSupply(s: NavState, ops: seq<NavOp>)
    requires Backed(s) && 0 < s.supply <= Run(s, ops).supply
    ensures Run(s, ops).multiplier <= s.multiplier
  {
    RunKeepsBacking(s, ops);
    FactorFalls(Run(s, ops).multiplier, Run(s, ops).supply, s.multiplier, s.supply);
  }
}
