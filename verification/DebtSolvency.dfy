/** What every step of debt issuance keeps, what every redemption can rely on, and what a round trip costs. */
module DebtSolvency {
  import opened Nonlinear
  import opened FixedPoint
  import opened DebtIssuance

  /** What the Set holds covers what its tokens claim, and what its tokens owe covers what the Set owes. */
  ghost predicate Collateralized(c: Component, supply: nat) {
    && WellFormed(c)
    && c.unit * supply <= PRECISE_UNIT * c.balance
    && c.debt * PRECISE_UNIT <= -c.debtUnit * supply
  }

  ghost predicate AllCollateralized(s: State) {
    forall i :: 0 <= i < |s.components| ==> Collateralized(s.components[i], s.supply)
  }

  // ---------- Single components ----------

  /** A sync makes the units exact from the balances, whatever happened to the balances before. */
  lemma SyncCollateralizes(c: Component, supply: nat)
    requires 0 < supply
    ensures SyncCollateral(c, supply).unit * supply <= PRECISE_UNIT * c.balance
                                                    < (SyncCollateral(c, supply).unit + 1) * supply
    ensures var debtUnit := -SyncDebt(c, supply).debtUnit;
            (debtUnit - 1) * supply < c.debt * PRECISE_UNIT <= debtUnit * supply
  {
    DivFloor(c.balance, supply);
    DivCeil(c.debt, supply);
    NextMultiples(PreciseDiv(c.balance, supply), supply);
    NextMultiples(PreciseDivCeil(c.debt, supply), supply);
  }

  lemma SyncedKeepsCollateral(c: Component, supply: nat)
    requires Collateralized(c, supply)
    ensures Collateralized(Synced(c, supply), supply)
  {
    if 0 < supply {
      SyncCollateralizes(c, supply);
    }
  }

  /** Every flow is the exact claim of the quantity to less than one base unit, rounded in favour of the Set. */
  lemma FlowsWithinOneUnit(c: Component, quantity: nat)
    requires WellFormed(c)
    ensures (EquityIn(c, quantity) - 1) * PRECISE_UNIT < c.unit * quantity <= EquityIn(c, quantity) * PRECISE_UNIT
    ensures EquityOut(c, quantity) * PRECISE_UNIT <= c.unit * quantity < (EquityOut(c, quantity) + 1) * PRECISE_UNIT
    ensures DebtOut(c, quantity) * PRECISE_UNIT <= -c.debtUnit * quantity < (DebtOut(c, quantity) + 1) * PRECISE_UNIT
    ensures (DebtIn(c, quantity) - 1) * PRECISE_UNIT < -c.debtUnit * quantity <= DebtIn(c, quantity) * PRECISE_UNIT
  {
    MulCeil(c.unit, quantity);
    MulFloor(c.unit, quantity);
    MulFloor(-c.debtUnit, quantity);
    MulCeil(-c.debtUnit, quantity);
  }

  lemma IssueKeepsCollateral(c: Component, supply: nat, quantity: nat)
    requires Collateralized(c, supply)
    ensures Collateralized(IssueComponent(c, quantity), supply + quantity)
  {
    MulCeil(c.unit, quantity);
    MulFloor(-c.debtUnit, quantity);
    assert c.unit * (supply + quantity) == c.unit * supply + c.unit * quantity;
    assert -c.debtUnit * (supply + quantity) == -c.debtUnit * supply + -c.debtUnit * quantity;
  }

  lemma RedeemIsPayable(c: Component, supply: nat, quantity: nat)
    requires Collateralized(c, supply) && quantity <= supply
    ensures EquityOut(c, quantity) <= c.balance
    ensures Payable(c, quantity)
  {
    MulFloor(c.unit, quantity);
    MulLe(quantity, supply, c.unit);
  }

  lemma RedeemKeepsCollateral(c: Component, supply: nat, quantity: nat)
    requires Collateralized(c, supply) && quantity <= supply && Payable(c, quantity)
    ensures Collateralized(RedeemComponent(c, quantity), supply - quantity)
  {
    MulFloor(c.unit, quantity);
    MulCeil(-c.debtUnit, quantity);
    assert c.unit * (supply - quantity) == c.unit * supply - c.unit * quantity;
    assert -c.debtUnit * (supply - quantity) == -c.debtUnit * supply - -c.debtUnit * quantity;
    MulNonNeg(-c.debtUnit, supply - quantity);
  }

  /** The unit left by a cut is backed by the balance left by the seizure. */
  lemma CutUnitIsBacked(unit: nat, balance: nat, supply: nat, seized: nat)
    requires unit * supply <= PRECISE_UNIT * balance && seized <= balance
    ensures UnitAfterCut(unit, seized, supply) * supply <= PRECISE_UNIT * (balance - seized)
    ensures 0 < supply && seized == balance ==> UnitAfterCut(unit, seized, supply) == 0
  {
    if 0 < supply {
      DivCeil(seized, supply);
      var cut := UnitCut(seized, supply);
      assert (unit - cut) * supply == unit * supply - cut * supply;
      if seized == balance { CancelLe(unit, cut, supply); }
    }
  }

  /** Any seizure up to the whole balance keeps the claims covered; seizing everything leaves no claim. */
  lemma SeizureKeepsCollateral(c: Component, supply: nat, seized: nat)
    requires Collateralized(c, supply) && seized <= c.balance
    ensures Collateralized(Seize(c, supply, seized), supply)
    ensures 0 < supply && seized == c.balance ==> Seize(c, supply, seized).unit == 0
  {
    CutUnitIsBacked(c.unit, c.balance, supply, seized);
  }

  /**
   * The cut after a liquidation and a later sync from the balance agree to one unit that the cut is lower.
   * The sync finds the tests' unit exactly when the seized amount divides evenly over the supply, or leaves a
   * larger remainder than the balance does.
   */
  lemma CutAgreesWithSyncIff(c: Component, supply: nat, seized: nat)
    requires 0 < supply && seized <= c.balance
    requires c.unit == PreciseDiv(c.balance, supply)
    ensures var unit := SyncCollateral(c.(balance := c.balance - seized), supply).unit;
            && Seize(c, supply, seized).unit <= unit <= Seize(c, supply, seized).unit + 1
            && (unit == c.unit - UnitCut(seized, supply) <==>
                  || (seized * PRECISE_UNIT) % supply == 0
                  || (c.balance * PRECISE_UNIT) % supply < (seized * PRECISE_UNIT) % supply)
  {
    DivFloor(c.balance, supply);
    DivFloor(c.balance - seized, supply);
    DivCeil(seized, supply);
    DifferenceOfQuotients(c.balance * PRECISE_UNIT, seized * PRECISE_UNIT, supply, c.unit, UnitCut(seized, supply),
                          PreciseDiv(c.balance - seized, supply));
  }

  /** Seizing one of two base units held by three: the sync finds one unit more than the tests' formula. */
  lemma CutCanBeBelowSync(c: Component, supply: nat, seized: nat)
    requires supply == 3 && c.balance == 2 && seized == 1 && c.unit == PreciseDiv(c.balance, supply)
    ensures SyncCollateral(c.(balance := c.balance - seized), supply).unit == c.unit - UnitCut(seized, supply) + 1
  {
    CutAgreesWithSyncIff(c, supply, seized);
    DivFloor(c.balance, supply);
    DivCeil(seized, supply);
  }

  /** The floor of a difference against the difference of floor and ceiling, decided by the two remainders. */
  lemma DifferenceOfQuotients(a: int, b: int, d: int, floor: int, ceil: int, rest: int)
    requires 0 < d && floor * d <= a < floor * d + d && ceil * d - d < b <= ceil * d
    requires rest * d <= a - b < rest * d + d
    ensures floor - ceil <= rest <= floor - ceil + 1
    ensures rest == floor - ceil <==> (b % d == 0 || a % d < b % d)
  {
    FloorUnique(a, d, floor);
    CeilRemainder(b, d, ceil);
    var gap := rest - (floor - ceil);
    assert gap * d == rest * d - floor * d + ceil * d;
    CancelLt(-1, gap, d);
    CancelLt(gap, 2, d);
  }

  lemma CeilRemainder(b: int, d: int, ceil: int)
    requires 0 < d && ceil * d - d < b <= ceil * d
    ensures b % d == if b == ceil * d then 0 else b - ceil * d + d
  {
    if b == ceil * d {
      FloorUnique(b, d, ceil);
    } else {
      NextMultiples(ceil, d);
      FloorUnique(b, d, ceil - 1);
    }
  }

  // ---------- Steps and runs ----------

  lemma SyncAllKeepsCollateral(s: State)
    requires AllCollateralized(s)
    ensures AllWellFormed(s.components)
    ensures AllCollateralized(s.(components := SyncAll(s.components, s.supply)))
  {
    forall i | 0 <= i < |s.components|
      ensures Collateralized(Synced(s.components[i], s.supply), s.supply)
    {
      SyncedKeepsCollateral(s.components[i], s.supply);
    }
  }

  lemma IssueAllKeepsCollateral(s: State, quantity: nat)
    requires AllCollateralized(s)
    ensures AllWellFormed(s.components)
    ensures AllCollateralized(State(s.supply + quantity, IssueAll(s.components, quantity)))
  {
    forall i | 0 <= i < |s.components|
      ensures Collateralized(IssueComponent(s.components[i], quantity), s.supply + quantity)
    {
      IssueKeepsCollateral(s.components[i], s.supply, quantity);
    }
  }

  lemma AllRedeemable(s: State, quantity: nat)
    requires AllCollateralized(s) && quantity <= s.supply
    ensures AllWellFormed(s.components) && AllPayable(s.components, quantity)
  {
    forall i | 0 <= i < |s.components|
      ensures Payable(s.components[i], quantity)
    {
      RedeemIsPayable(s.components[i], s.supply, quantity);
    }
  }

  lemma RedeemAllKeepsCollateral(s: State, quantity: nat)
    requires AllCollateralized(s) && quantity <= s.supply
    ensures AllWellFormed(s.components) && AllPayable(s.components, quantity)
    ensures AllCollateralized(State(s.supply - quantity, RedeemAll(s.components, quantity)))
  {
    AllRedeemable(s, quantity);
    forall i | 0 <= i < |s.components|
      ensures Collateralized(RedeemComponent(s.components[i], quantity), s.supply - quantity)
    {
      RedeemKeepsCollateral(s.components[i], s.supply, quantity);
    }
  }

  lemma LeverKeepsCollateral(s: State, op: Op)
    requires AllCollateralized(s)
    requires op.Lever? && op.collateralIndex < |s.components| && op.debtIndex < |s.components| && 0 < s.supply
    ensures AllCollateralized(s.(components := LeverComponents(s.components, s.supply, op)))
  {
    var c := s.components[op.collateralIndex];
    var bought := SyncCollateral(c.(balance := c.balance + op.received), s.supply);
    BoughtIsCollateralized(c, s.supply, op.received);
    var d := if op.debtIndex == op.collateralIndex then bought else s.components[op.debtIndex];
    BorrowedIsCollateralized(d, s.supply, op.borrowed);
  }

  lemma BoughtIsCollateralized(c: Component, supply: nat, received: nat)
    requires 0 < supply && Collateralized(c, supply)
    ensures Collateralized(SyncCollateral(c.(balance := c.balance + received), supply), supply)
  {
    SyncCollateralizes(c.(balance := c.balance + received), supply);
  }

  lemma BorrowedIsCollateralized(c: Component, supply: nat, borrowed: nat)
    requires 0 < supply && Collateralized(c, supply)
    ensures Collateralized(SyncDebt(c.(debt := c.debt + borrowed), supply), supply)
  {
    SyncCollateralizes(c.(debt := c.debt + borrowed), supply);
  }

  /** The unit raised by a leftover is the tracked balance and the leftover over the supply, rounded down. */
  lemma LeftoverIsBacked(c: Component, supply: nat, leftover: nat)
    requires 0 < supply && Tracked(c, supply) <= c.balance
    ensures var raised := AddLeftover(c, supply, leftover);
            && raised.unit * supply <= (Tracked(c, supply) + leftover) * PRECISE_UNIT < (raised.unit + 1) * supply
            && raised.unit * supply <= PRECISE_UNIT * raised.balance
  {
    DivFloor(Tracked(c, supply) + leftover, supply);
    NextMultiples(PreciseDiv(Tracked(c, supply) + leftover, supply), supply);
  }

  lemma UnitTracksBalance(c: Component, supply: nat)
    requires c.unit * supply <= PRECISE_UNIT * c.balance
    ensures Tracked(c, supply) <= c.balance
  {
    MulFloor(supply, c.unit);
  }

  lemma RepaidKeepsCollateral(c: Component, supply: nat, received: nat)
    requires 0 < supply && Collateralized(c, supply)
    ensures Deleverable(c, supply, received)
    ensures Collateralized(RepayFromTrade(c, supply, received), supply)
  {
    UnitTracksBalance(c, supply);
    var leftover := received - Min(received, c.debt);
    if 0 < leftover { LeftoverIsBacked(c, supply, leftover); }
    var paid := if 0 < leftover then AddLeftover(c, supply, leftover) else c;
    SyncCollateralizes(paid.(debt := c.debt - Min(received, c.debt)), supply);
  }

  lemma DeleverKeepsCollateral(s: State, op: Op)
    requires AllCollateralized(s) && op.Delever? && CanDelever(s, op)
    ensures AllCollateralized(s.(components := DeleverComponents(s.components, s.supply, op)))
  {
    var c := s.components[op.collateralIndex];
    SyncCollateralizes(c.(balance := c.balance - op.sent), s.supply);
    RepaidKeepsCollateral(s.components[op.debtIndex], s.supply, op.received);
  }

  /** From a collateralized state a delever is refused only for want of supply, of collateral or of two components. */
  lemma DeleverSucceedsIff(s: State, fees: FeeRates, op: Op)
    requires AllCollateralized(s) && op.Delever?
    ensures AllWellFormed(s.components)
    ensures Step(s, fees, op).Done? <==>
              && 0 < s.supply && op.collateralIndex != op.debtIndex
              && op.collateralIndex < |s.components| && op.debtIndex < |s.components|
              && op.sent <= s.components[op.collateralIndex].balance
  {
    if 0 < s.supply && op.debtIndex < |s.components| {
      RepaidKeepsCollateral(s.components[op.debtIndex], s.supply, op.received);
    }
  }

  lemma LiquidateKeepsCollateral(s: State, op: Op)
    requires AllCollateralized(s)
    requires op.Liquidate? && op.collateralIndex < |s.components| && op.debtIndex < |s.components|
    requires op.seized <= s.components[op.collateralIndex].balance && op.covered <= s.components[op.debtIndex].debt
    ensures AllCollateralized(s.(components := LiquidateComponents(s.components, s.supply, op)))
  {
    SeizureKeepsCollateral(s.components[op.collateralIndex], s.supply, op.seized);
  }

  lemma StepKeepsCollateral(s: State, fees: FeeRates, op: Op)
    requires AllCollateralized(s)
    ensures AllWellFormed(s.components)
    ensures Step(s, fees, op).Done? ==> AllCollateralized(Step(s, fees, op).state)
  {
    SyncAllKeepsCollateral(s);
    var synced := s.(components := SyncAll(s.components, s.supply));
    match op {
      case Sync =>
      case Issue(quantity) =>
        IssueAllKeepsCollateral(synced, IssueTotal(quantity, fees.issue));
      case Redeem(quantity) =>
        if Step(s, fees, op).Done? {
          MulFloor(fees.redeem, quantity);
          RedeemAllKeepsCollateral(synced, RedeemNet(quantity, fees.redeem));
        }
      case Lever(_, _, _, _) =>
        if Step(s, fees, op).Done? { LeverKeepsCollateral(s, op); }
      case Delever(_, _, _, _) =>
        if Step(s, fees, op).Done? { DeleverKeepsCollateral(s, op); }
      case Liquidate(_, _, _, _) =>
        if Step(s, fees, op).Done? { LiquidateKeepsCollateral(s, op); }
    }
  }

  /** Reverted calls leave the state as it was. */
  ghost function Run(s: State, fees: FeeRates, ops: seq<Op>): State
    requires AllCollateralized(s)
    decreases ops
  {
    if ops == [] then s
    else
      StepKeepsCollateral(s, fees, ops[0]);
      var r := Step(s, fees, ops[0]);
      Run(if r.Done? then r.state else s, fees, ops[1..])
  }

  /** Every state reachable by any interleaving of calls is collateralized. */
  lemma {:induction false} EveryRunIsCollateralized(s: State, fees: FeeRates, ops: seq<Op>)
    requires AllCollateralized(s)
    ensures AllCollateralized(Run(s, fees, ops))
    decreases ops
  {
    if ops != [] {
      StepKeepsCollateral(s, fees, ops[0]);
      var r := Step(s, fees, ops[0]);
      EveryRunIsCollateralized(if r.Done? then r.state else s, fees, ops[1..]);
    }
  }

  // ---------- Dilution ----------

  /** Calls open to everyone, as opposed to the manager's trades and a lender's liquidations. */
  predicate Public(op: Op) {
    op.Sync? || op.Issue? || op.Redeem?
  }

  /** A token claims at least as much of the component, and owes at most as much, as before. */
  predicate NotDiluted(before: Component, after: Component) {
    before.unit <= after.unit && before.debtUnit <= after.debtUnit
  }

  lemma SyncNeverDilutes(c: Component, supply: nat)
    requires Collateralized(c, supply)
    ensures NotDiluted(c, Synced(c, supply))
  {
    if 0 < supply {
      DivFloorGalois(c.balance, supply, c.unit);
      DivCeilGalois(c.debt, supply, -c.debtUnit);
    }
  }

  lemma PublicStepNeverDilutes(s: State, fees: FeeRates, op: Op, i: nat)
    requires AllCollateralized(s) && Public(op) && i < |s.components|
    ensures AllWellFormed(s.components)
    ensures Step(s, fees, op).Done? ==>
              var after := Step(s, fees, op).state.components;
              |after| == |s.components| && NotDiluted(s.components[i], after[i])
  {
    SyncNeverDilutes(s.components[i], s.supply);
  }

  /** However others sync, issue and redeem, no token's claim on any component falls and none of its debts grows. */
  lemma {:induction false} PublicRunsNeverDilute(s: State, fees: FeeRates, ops: seq<Op>, i: nat)
    requires AllCollateralized(s) && i < |s.components|
    requires forall op :: op in ops ==> Public(op)
    ensures var after := Run(s, fees, ops).components;
            |after| == |s.components| && NotDiluted(s.components[i], after[i])
    decreases ops
  {
    if ops != [] {
      StepKeepsCollateral(s, fees, ops[0]);
      PublicStepNeverDilutes(s, fees, ops[0], i);
      var r := Step(s, fees, ops[0]);
      PublicRunsNeverDilute(if r.Done? then r.state else s, fees, ops[1..], i);
    }
  }

  // ---------- Redemptions ----------

  lemma NetWithinQuantity(quantity: nat, fee: nat)
    requires fee <= PRECISE_UNIT
    ensures 0 <= RedeemNet(quantity, fee) <= quantity
  {
    MulFloor(fee, quantity);
    MulLe(fee, PRECISE_UNIT, quantity);
  }

  /**
   * What no sync can repair: components that are not synced collateral must hold what they claim.
   * Collateral balances and debts may have drifted by interest or liquidation in any way.
   */
  ghost predicate DefaultsHeld(s: State) {
    forall i :: 0 <= i < |s.components| ==> DefaultHeld(s.components[i], s.supply)
  }

  ghost predicate DefaultHeld(c: Component, supply: nat) {
    WellFormed(c) && (!c.collateral ==> c.unit * supply <= PRECISE_UNIT * c.balance)
  }

  lemma SyncRepairsDrift(s: State)
    requires DefaultsHeld(s) && 0 < s.supply
    ensures AllWellFormed(s.components)
    ensures AllCollateralized(s.(components := SyncAll(s.components, s.supply)))
  {
    forall i | 0 <= i < |s.components|
      ensures Collateralized(Synced(s.components[i], s.supply), s.supply)
    {
      SyncCollateralizes(s.components[i], s.supply);
    }
  }

  lemma RedeemCollateralizes(s: State, fees: FeeRates, quantity: nat)
    requires DefaultsHeld(s) && AllWellFormed(s.components) && Step(s, fees, Redeem(quantity)).Done?
    ensures AllCollateralized(Step(s, fees, Redeem(quantity)).state)
  {
    SyncRepairsDrift(s);
    MulFloor(fees.redeem, quantity);
    RedeemAllKeepsCollateral(s.(components := SyncAll(s.components, s.supply)), RedeemNet(quantity, fees.redeem));
  }

  lemma CollateralizedHoldsDefaults(s: State)
    requires AllCollateralized(s)
    ensures DefaultsHeld(s)
  {}

  /**
   * However collateral and debts have drifted, a redemption succeeds exactly when the tokens exist, no
   * component is ever short, and the state it leaves is collateralized. Every debt falls by what is paid in,
   * every balance by what is paid out; what is paid beyond a debt is added to the balance.
   */
  lemma RedeemSucceedsIff(s: State, fees: FeeRates, quantity: nat)
    requires DefaultsHeld(s) && fees.redeem <= PRECISE_UNIT
    ensures AllWellFormed(s.components)
    ensures Step(s, fees, Redeem(quantity)).Done? <==> 0 < quantity <= s.supply
    ensures 0 < quantity <= s.supply ==>
              var net := RedeemNet(quantity, fees.redeem);
              var synced := SyncAll(s.components, s.supply);
              var after := Step(s, fees, Redeem(quantity)).state;
              && 0 <= net <= quantity && after.supply == s.supply - net
              && AllCollateralized(after) && |after.components| == |synced|
              && forall i :: 0 <= i < |synced| ==>
                   && Redeemed(s.components[i], after.components[i], DebtIn(synced[i], net), EquityOut(synced[i], net))
                   && SameUnits(synced[i], after.components[i])
  {
    if 0 < quantity <= s.supply {
      NetWithinQuantity(quantity, fees.redeem);
      SyncRepairsDrift(s);
      RedeemAllKeepsCollateral(s.(components := SyncAll(s.components, s.supply)), RedeemNet(quantity, fees.redeem));
    }
  }

  /** Net assets move by exactly the two flows, and debt and balance each by its own while no more than the debt is paid. */
  predicate Redeemed(before: Component, after: Component, paidIn: nat, paidOut: nat) {
    && after.balance - after.debt == before.balance - before.debt + paidIn - paidOut
    && (after.debt == before.debt - paidIn <==> paidIn <= before.debt)
    && (after.balance == before.balance - paidOut <==> paidIn <= before.debt)
    && (before.debt <= paidIn ==> after.debt == 0)
  }

  predicate SameUnits(before: Component, after: Component) {
    after.unit == before.unit && after.debtUnit == before.debtUnit && after.collateral == before.collateral
  }

  ghost predicate NoDebts(s: State) {
    forall i :: 0 <= i < |s.components| ==> s.components[i].debt == 0
  }

  /** A sync collateralizes any Set with supply, and there is nothing to repair in one without supply or debts. */
  lemma SyncCollateralizesAll(s: State)
    requires DefaultsHeld(s) && (0 < s.supply || NoDebts(s))
    ensures AllWellFormed(s.components)
    ensures AllCollateralized(s.(components := SyncAll(s.components, s.supply)))
  {
    if 0 < s.supply {
      SyncRepairsDrift(s);
    } else {
      SyncAllKeepsCollateral(s);
    }
  }

  /**
   * However collateral and debts have drifted, an issue succeeds exactly when it is for something, mints the
   * quantity and its fee, and moves every component by its synced flows. It leaves a collateralized Set when
   * there was supply to sync over or, as at the first issue, nothing owed.
   */
  lemma IssueSucceedsIff(s: State, fees: FeeRates, quantity: nat)
    requires DefaultsHeld(s)
    ensures AllWellFormed(s.components)
    ensures Step(s, fees, Issue(quantity)).Done? <==> 0 < quantity
    ensures 0 < quantity ==>
              var total := IssueTotal(quantity, fees.issue);
              var synced := SyncAll(s.components, s.supply);
              var after := Step(s, fees, Issue(quantity)).state;
              && after.supply == s.supply + total && quantity <= total
              && |after.components| == |synced|
              && (forall i :: 0 <= i < |synced| ==>
                    && after.components[i].balance == s.components[i].balance + EquityIn(synced[i], total)
                    && after.components[i].debt == s.components[i].debt + DebtOut(synced[i], total)
                    && SameUnits(synced[i], after.components[i]))
              && (0 < s.supply || NoDebts(s) ==> AllCollateralized(after))
  {
    assert AllWellFormed(s.components);
    if 0 < quantity && (0 < s.supply || NoDebts(s)) {
      SyncCollateralizesAll(s);
      IssueAllKeepsCollateral(s.(components := SyncAll(s.components, s.supply)), IssueTotal(quantity, fees.issue));
    }
  }

  function NetTotal(quantities: seq<nat>, fee: nat): int {
    if quantities == [] then 0 else RedeemNet(quantities[0], fee) + NetTotal(quantities[1..], fee)
  }

  /** Redeem one quantity after the other; revert as soon as one does. */
  ghost function RedeemEach(s: State, fees: FeeRates, quantities: seq<nat>): Result
    requires DefaultsHeld(s)
    decreases quantities
  {
    if quantities == [] then Done(s)
    else
      assert AllWellFormed(s.components);
      var r := Step(s, fees, Redeem(quantities[0]));
      if r.Reverted? then r
      else
        RedeemCollateralizes(s, fees, quantities[0]);
        CollateralizedHoldsDefaults(r.state);
        RedeemEach(r.state, fees, quantities[1..])
  }

  /** Each quantity is positive and at most the supply that the net quantities before it leave. */
  predicate ExistInTurn(quantities: seq<nat>, supply: int, fee: nat) {
    quantities == [] ||
    (0 < quantities[0] <= supply && ExistInTurn(quantities[1..], supply - RedeemNet(quantities[0], fee), fee))
  }

  /**
   * Any list of redemptions, those of fee tokens minted by earlier ones included, succeeds exactly when its
   * quantities exist in turn; then the supply falls by the net quantities.
   */
  lemma {:induction false} EveryRedemptionOrderIsPayable(s: State, fees: FeeRates, quantities: seq<nat>)
    requires DefaultsHeld(s) && fees.redeem <= PRECISE_UNIT
    ensures RedeemEach(s, fees, quantities).Done? <==> ExistInTurn(quantities, s.supply, fees.redeem)
    ensures RedeemEach(s, fees, quantities).Done? ==>
              var after := RedeemEach(s, fees, quantities).state;
              && after.supply == s.supply - NetTotal(quantities, fees.redeem)
              && (quantities != [] ==> AllCollateralized(after))
    decreases quantities
  {
    if quantities != [] {
      RedeemSucceedsIff(s, fees, quantities[0]);
      if 0 < quantities[0] <= s.supply {
        var after := Step(s, fees, Redeem(quantities[0])).state;
        CollateralizedHoldsDefaults(after);
        EveryRedemptionOrderIsPayable(after, fees, quantities[1..]);
      }
    }
  }

  function Total(quantities: seq<nat>): nat {
    if quantities == [] then 0 else quantities[0] + Total(quantities[1..])
  }

  /** In particular every split of at most the supply exists in turn, in any order. */
  lemma {:induction false} EverySplitExistsInTurn(quantities: seq<nat>, supply: int, fee: nat)
    requires fee <= PRECISE_UNIT && Total(quantities) <= supply
    requires forall i :: 0 <= i < |quantities| ==> 0 < quantities[i]
    ensures ExistInTurn(quantities, supply, fee)
    decreases quantities
  {
    if quantities != [] {
      NetWithinQuantity(quantities[0], fee);
      EverySplitExistsInTurn(quantities[1..], supply - RedeemNet(quantities[0], fee), fee);
    }
  }
}
