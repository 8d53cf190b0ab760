/** Issuing and redeeming back, redeeming everything, and where the fee formulas of code and tests differ. */
module DebtRoundTrip {
  import opened Nonlinear
  import opened FixedPoint
  import opened DebtIssuance
  import opened DebtSolvency
  import opened DebtDrift

  // ---------- Issue then redeem ----------

  /** The component as the issue finds it, as it leaves it, and as the next redemption finds it. */
  function AfterIssue(c: Component, supply: nat, issued: nat): Component
    requires WellFormed(c)
  {
    IssueComponent(Synced(c, supply), issued)
  }

  function AtRedeem(c: Component, supply: nat, issued: nat): (found: Component)
    requires WellFormed(c)
    ensures WellFormed(found)
  {
    Synced(AfterIssue(c, supply, issued), supply + issued)
  }

  function PaidIn(c: Component, supply: nat, issued: nat): nat {
    EquityIn(Synced(c, supply), issued)
  }

  function PaidOut(c: Component, supply: nat, issued: nat, redeemed: nat): nat
    requires WellFormed(c)
  {
    EquityOut(AtRedeem(c, supply, issued), redeemed)
  }

  function Borrowed(c: Component, supply: nat, issued: nat): nat
    requires WellFormed(c)
  {
    DebtOut(Synced(c, supply), issued)
  }

  function PaidBack(c: Component, supply: nat, issued: nat, redeemed: nat): nat
    requires WellFormed(c)
  {
    DebtIn(AtRedeem(c, supply, issued), redeemed)
  }

  /**
   * A sync between issue and redemption can raise the unit by what the issue rounded up, but only when
   * so little is issued that the raise rounds away.
   */
  lemma UnitRaiseRoundsAway(balance: int, supply: int, unit: int, issued: int, paid: int, unit': int)
    requires 0 <= unit && 0 <= supply && 0 <= issued && unit < unit'
    requires balance * PRECISE_UNIT < unit * supply + supply
    requires paid * PRECISE_UNIT - PRECISE_UNIT < unit * issued
    requires unit' * (supply + issued) <= (balance + paid) * PRECISE_UNIT
    ensures (unit' - unit) * issued < PRECISE_UNIT
  {
    var k := unit' - unit;
    assert unit' * (supply + issued) == unit * supply + unit * issued + k * supply + k * issued;
    MulLe(1, k, supply);
  }

  lemma PaidOutWithinUnits(unit: int, unit': int, issued: int, redeemed: int, paid: int, out: int)
    requires 0 <= unit && 0 <= unit' && 0 <= redeemed <= issued
    requires unit < unit' ==> (unit' - unit) * issued < PRECISE_UNIT
    requires unit * issued <= paid * PRECISE_UNIT && out * PRECISE_UNIT <= unit' * redeemed
    ensures out <= paid
  {
    MulLe(redeemed, issued, unit');
    assert unit' * issued == unit * issued + (unit' - unit) * issued;
    if unit' <= unit { MulLe(unit', unit, issued); }
  }

  lemma UnitBarelyMoves(c: Component, supply: nat, issued: nat)
    requires WellFormed(c) && (0 < supply || !c.collateral)
    ensures var before, found := Synced(c, supply).unit, AtRedeem(c, supply, issued).unit;
            before < found ==> (found - before) * issued < PRECISE_UNIT
  {
    if c.collateral {
      var before, found := Synced(c, supply).unit, AtRedeem(c, supply, issued).unit;
      var paid := PaidIn(c, supply, issued);
      DivFloor(c.balance, supply);
      MulCeil(before, issued);
      DivFloor(c.balance + paid, supply + issued);
      if before < found {
        UnitRaiseRoundsAway(c.balance, supply, before, issued, paid, found);
      }
    }
  }

  lemma FirstIssueIsReturnable(paid: nat, issued: nat, redeemed: nat)
    requires 0 < issued && redeemed <= issued
    ensures PreciseMul(PreciseDiv(paid, issued), redeemed) <= paid
  {
    DivFloor(paid, issued);
    MulFloor(PreciseDiv(paid, issued), redeemed);
    MulLe(redeemed, issued, PreciseDiv(paid, issued));
  }

  /** With supply outstanding, whatever part of an issue is redeemed pays out no more equity than was put in. */
  lemma EquityRoundTrip(c: Component, supply: nat, issued: nat, redeemed: nat)
    requires WellFormed(c) && redeemed <= issued
    requires 0 < supply || !c.collateral || c.balance == 0
    ensures PaidOut(c, supply, issued, redeemed) <= PaidIn(c, supply, issued)
  {
    if 0 < supply || !c.collateral || issued == 0 {
      var before, found := Synced(c, supply).unit, AtRedeem(c, supply, issued).unit;
      MulCeil(before, issued);
      MulFloor(found, redeemed);
      if issued != 0 { UnitBarelyMoves(c, supply, issued); }
      PaidOutWithinUnits(before, found, issued, redeemed, PaidIn(c, supply, issued),
                         PaidOut(c, supply, issued, redeemed));
    } else {
      FirstIssueIsReturnable(PaidIn(c, supply, issued), issued, redeemed);
    }
  }

  /**
   * The condition is exact: a collateral component with a balance but no supply, as dust left by a
   * complete redemption, goes to whoever issues next and redeems.
   */
  lemma EquityRoundTripIff(c: Component, supply: nat)
    requires WellFormed(c)
    ensures (forall issued: nat :: PaidOut(c, supply, issued, issued) <= PaidIn(c, supply, issued))
       <==> (0 < supply || !c.collateral || c.balance == 0)
  {
    if 0 < supply || !c.collateral || c.balance == 0 {
      forall issued: nat
        ensures PaidOut(c, supply, issued, issued) <= PaidIn(c, supply, issued)
      {
        EquityRoundTrip(c, supply, issued, issued);
      }
    } else {
      var paid := PaidIn(c, supply, 1);
      DivFloor(c.balance + paid, 1);
      MulFloor((c.balance + paid) * PRECISE_UNIT, 1);
      assert PaidOut(c, supply, 1, 1) == c.balance + paid;
    }
  }

  /** Redeeming the whole supply pays out the whole of a synced balance exactly when it divides evenly over the supply. */
  lemma FullRedemptionLeavesNoDustIff(c: Component, supply: nat)
    requires WellFormed(c) && 0 < supply && c.collateral
    ensures EquityOut(SyncComponent(c, supply), supply) <= c.balance
    ensures EquityOut(SyncComponent(c, supply), supply) == c.balance <==> (c.balance * PRECISE_UNIT) % supply == 0
  {
    var unit := PreciseDiv(c.balance, supply);
    DivFloor(c.balance, supply);
    MulFloor(unit, supply);
    FloorDividesIff(c.balance * PRECISE_UNIT, supply, unit);
  }

  lemma FloorDividesIff(a: int, b: int, floor: int)
    requires 0 < b && floor * b <= a < floor * b + b
    ensures a == floor * b <==> a % b == 0
  {
    FloorUnique(a, b, floor);
  }

  /** A Set that claims one base unit of collateral per token, with what one issue of at most a token brings in. */
  function OneUnitSet(supply: nat, balance: nat): State {
    State(supply, [Component(1, balance, 0, 0, true)])
  }

  lemma FirstIssueOfOneUnitSet(quantity: nat)
    requires 0 < quantity <= PRECISE_UNIT
    ensures Step(OneUnitSet(0, 0), FeeRates(0, 0), Issue(quantity)) == Done(OneUnitSet(quantity, 1))
    ensures AllCollateralized(OneUnitSet(0, 0)) && AllCollateralized(OneUnitSet(quantity, 1))
  {
    var c := Component(1, 0, 0, 0, true);
    MulFloor(0, quantity);
    MulCeil(1, quantity);
    assert IssueComponent(c, quantity) == Component(1, 1, 0, 0, true);
    assert IssueAll(SyncAll([c], 0), quantity) == [IssueComponent(c, quantity)];
  }

  lemma FullRedemptionOfOneUnitSet(quantity: nat)
    requires 0 < quantity <= PRECISE_UNIT && PRECISE_UNIT % quantity != 0
    ensures AllCollateralized(OneUnitSet(quantity, 1))
    ensures var r := Step(OneUnitSet(quantity, 1), FeeRates(0, 0), Redeem(quantity));
            && r.Done? && r.state.supply == 0 && |r.state.components| == 1
            && r.state.components[0].collateral && r.state.components[0].balance == 1
  {
    var s, c := OneUnitSet(quantity, 1), Component(1, 1, 0, 0, true);
    MulFloor(0, quantity);
    RedeemSucceedsIff(s, FeeRates(0, 0), quantity);
    FullRedemptionLeavesNoDustIff(c, quantity);
    MulCeil(0, quantity);
    assert RedeemComponent(SyncComponent(c, quantity), quantity).balance == 1;
  }

  /**
   * Calls alone reach a Set without supply that still holds collateral: issue any quantity that does not
   * divide a whole token, such as three base units, and redeem it.
   */
  lemma DustIsReachable(quantity: nat)
    requires 0 < quantity <= PRECISE_UNIT && PRECISE_UNIT % quantity != 0
    ensures AllCollateralized(OneUnitSet(0, 0))
    ensures var left := Run(OneUnitSet(0, 0), FeeRates(0, 0), [Issue(quantity), Redeem(quantity)]);
            && left.supply == 0 && |left.components| == 1
            && left.components[0].collateral && left.components[0].balance == 1
  {
    var fees, empty, issued := FeeRates(0, 0), OneUnitSet(0, 0), OneUnitSet(quantity, 1);
    FirstIssueOfOneUnitSet(quantity);
    FullRedemptionOfOneUnitSet(quantity);
    StepKeepsCollateral(issued, fees, Redeem(quantity));
    var r := Step(issued, fees, Redeem(quantity));
    var ops := [Issue(quantity), Redeem(quantity)];
    assert ops[1..] == [Redeem(quantity)] && ops[1..][1..] == [];
    assert Run(r.state, fees, []) == r.state;
    assert Run(issued, fees, ops[1..]) == r.state;
  }

  lemma UnitDropRoundsAway(debt: int, supply: int, unit: int, issued: int, borrowed: int, unit': int)
    requires 0 <= supply && 0 <= issued && unit' < unit
    requires unit * supply - supply < debt * PRECISE_UNIT
    requires unit * issued < borrowed * PRECISE_UNIT + PRECISE_UNIT
    requires (debt + borrowed) * PRECISE_UNIT <= unit' * (supply + issued)
    ensures (unit - unit') * issued < PRECISE_UNIT
  {
    var k := unit - unit';
    assert unit' * (supply + issued) == unit * supply + unit * issued - k * supply - k * issued;
    MulLe(1, k, supply);
  }

  lemma PaidBackWithinUnits(unit: int, unit': int, issued: int, borrowed: int, back: int)
    requires 0 <= unit && 0 <= unit' && 0 <= issued
    requires unit' < unit ==> (unit - unit') * issued < PRECISE_UNIT
    requires borrowed * PRECISE_UNIT <= unit * issued && unit' * issued <= back * PRECISE_UNIT
    ensures borrowed <= back
  {
    if unit' < unit {
      assert unit * issued == unit' * issued + (unit - unit') * issued;
    } else {
      MulLe(unit, unit', issued);
    }
  }

  lemma DebtUnitBarelyMoves(c: Component, supply: nat, issued: nat)
    requires WellFormed(c) && 0 < supply
    ensures var before, found := -Synced(c, supply).debtUnit, -AtRedeem(c, supply, issued).debtUnit;
            found < before ==> (before - found) * issued < PRECISE_UNIT
  {
    var before, found := -Synced(c, supply).debtUnit, -AtRedeem(c, supply, issued).debtUnit;
    var borrowed := Borrowed(c, supply, issued);
    DivCeil(c.debt, supply);
    MulFloor(before, issued);
    DivCeil(c.debt + borrowed, supply + issued);
    if found < before {
      UnitDropRoundsAway(c.debt, supply, before, issued, borrowed, found);
    }
  }

  lemma FirstBorrowingIsRepaid(debt: nat, borrowed: nat, issued: nat)
    requires 0 < issued
    ensures borrowed <= PreciseMulCeil(PreciseDivCeil(debt + borrowed, issued), issued)
  {
    DivCeil(debt + borrowed, issued);
    MulCeil(PreciseDivCeil(debt + borrowed, issued), issued);
  }

  /** Redeeming all that was issued repays at least the debt that the issue handed out, however stale the debt unit was. */
  lemma DebtRoundTripRepays(c: Component, supply: nat, issued: nat)
    requires WellFormed(c)
    ensures Borrowed(c, supply, issued) <= PaidBack(c, supply, issued, issued)
  {
    if 0 < supply || issued == 0 {
      var before, found := -Synced(c, supply).debtUnit, -AtRedeem(c, supply, issued).debtUnit;
      MulFloor(before, issued);
      MulCeil(found, issued);
      if 0 < supply { DebtUnitBarelyMoves(c, supply, issued); }
      PaidBackWithinUnits(before, found, issued, Borrowed(c, supply, issued), PaidBack(c, supply, issued, issued));
    } else {
      FirstBorrowingIsRepaid(c.debt, Borrowed(c, supply, issued), issued);
    }
  }

  /**
   * The whole Set: issue, then redeem what was issued for, whatever the two fees and however collateral and
   * debts drifted before the issue.
   */
  lemma IssueThenRedeemGivesNoProfit(s: State, fees: FeeRates, quantity: nat, i: nat)
    requires DefaultsHeld(s) && 0 < quantity && i < |s.components|
    requires 0 < s.supply || !s.components[i].collateral || s.components[i].balance == 0
    requires fees.redeem <= PRECISE_UNIT
    ensures AllWellFormed(s.components) && Step(s, fees, Issue(quantity)).Done?
    ensures var issued := IssueTotal(quantity, fees.issue);
            var net := RedeemNet(quantity, fees.redeem);
            var after := Step(s, fees, Issue(quantity)).state;
            && 0 <= net && AllWellFormed(after.components)
            && Step(after, fees, Redeem(quantity)).Done?
            && |after.components| == |s.components|
            && EquityOut(SyncAll(after.components, after.supply)[i], net)
                 <= EquityIn(SyncAll(s.components, s.supply)[i], issued)
            && (fees.issue == 0 == fees.redeem ==>
                  DebtOut(SyncAll(s.components, s.supply)[i], issued)
                    <= DebtIn(SyncAll(after.components, after.supply)[i], net))
  {
    assert AllWellFormed(s.components);
    IssueKeepsDefaults(s, fees, quantity);
    var after := Step(s, fees, Issue(quantity)).state;
    assert Step(after, fees, Redeem(quantity)).Done? by { RedeemSucceedsIff(after, fees, quantity); }
    NetWithinQuantity(quantity, fees.redeem);
    var issued := IssueTotal(quantity, fees.issue);
    assert after.components[i] == AfterIssue(s.components[i], s.supply, issued);
    EquityRoundTrip(s.components[i], s.supply, issued, RedeemNet(quantity, fees.redeem));
    DebtRoundTripRepays(s.components[i], s.supply, issued);
  }

  // ---------- Redeeming everything ----------

  /**
   * Redeeming the whole supply clears the debt. What is paid beyond the debt stays in the Set: less than
   * one base unit per whole token, and nothing exactly when the debt divides evenly over the supply.
   */
  lemma FullRedemptionClearsDebt(c: Component, supply: nat)
    requires WellFormed(c) && 0 < supply
    ensures var synced := SyncComponent(c, supply);
            var paid := DebtIn(synced, supply);
            && Repay(synced, supply).debt == 0
            && Repay(synced, supply).balance == c.balance + (paid - c.debt)
            && c.debt <= paid <= c.debt + (supply - 1 + PRECISE_UNIT - 1) / PRECISE_UNIT
            && (paid == c.debt <==> (c.debt * PRECISE_UNIT) % supply == 0)
  {
    var unit := PreciseDivCeil(c.debt, supply);
    DivCeil(c.debt, supply);
    MulCeil(unit, supply);
    DivBounds(supply - 1 + PRECISE_UNIT - 1, PRECISE_UNIT);
    DividesIff(c.debt * PRECISE_UNIT, supply, unit);
  }

  lemma DividesIff(a: int, b: int, ceil: int)
    requires 0 < b && ceil * b - b < a <= ceil * b
    ensures a == ceil * b <==> a % b == 0
  {
    DivBounds(a, b);
    if a == ceil * b {
      FloorUnique(a, b, ceil);
    } else {
      assert (ceil - 1) * b == ceil * b - b;
      FloorUnique(a, b, ceil - 1);
    }
  }

  // ---------- Fee formulas ----------

  /** On issue the tests' formula is the contract's. */
  lemma IssueTotalMatchesTests(quantity: nat, fee: nat)
    ensures IssueTotal(quantity, fee) == PreciseMul(quantity, PRECISE_UNIT + fee)
  {
    MulFloor(fee, quantity);
    MulNonNeg(fee, quantity);
    assert quantity * (PRECISE_UNIT + fee) == quantity * PRECISE_UNIT + fee * quantity;
    MulFloor(quantity, PRECISE_UNIT + fee);
  }

  /** On redemption the tests round the fee up where the contract rounds it down: they agree iff nothing is rounded. */
  lemma RedeemNetMatchesTestsIff(quantity: nat, fee: nat)
    requires fee <= PRECISE_UNIT
    ensures var tests := PreciseMul(quantity, PRECISE_UNIT - fee);
            && (RedeemNet(quantity, fee) == tests <==> (fee * quantity) % PRECISE_UNIT == 0)
            && tests <= RedeemNet(quantity, fee) <= tests + 1
  {
    MulFloor(fee, quantity);
    MulNonNeg(fee, quantity);
    Distribute(PRECISE_UNIT - fee, fee, quantity);
    MulFloor(quantity, PRECISE_UNIT - fee);
    FloorsOfComplement(fee * quantity, quantity, PreciseMul(fee, quantity), PreciseMul(quantity, PRECISE_UNIT - fee));
  }

  lemma FloorsOfComplement(charged: int, quantity: int, floor: int, rest: int)
    requires floor * PRECISE_UNIT <= charged < floor * PRECISE_UNIT + PRECISE_UNIT
    requires rest * PRECISE_UNIT <= quantity * PRECISE_UNIT - charged < rest * PRECISE_UNIT + PRECISE_UNIT
    ensures quantity - floor == rest <==> charged % PRECISE_UNIT == 0
    ensures rest <= quantity - floor <= rest + 1
  {}

  /** A fee of one base unit on one base unit of tokens: the contract charges nothing, the tests all of it. */
  lemma RedeemNetDiffersFromTests()
    ensures RedeemNet(1, 1) == 1 && PreciseMul(1, PRECISE_UNIT - 1) == 0
  {
    RedeemNetMatchesTestsIff(1, 1);
  }
}
