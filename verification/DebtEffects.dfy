/**
 * What a sync, a lever, a delever and a liquidation do to every component, stated by amounts and by products
 * alone. Issues and redemptions are in `DebtSolvency`.
 */
module DebtEffects {
  import opened Nonlinear
  import opened FixedPoint
  import opened DebtIssuance
  import opened DebtSolvency

  predicate ClaimExact(c: Component, supply: nat) {
    c.unit * supply <= PRECISE_UNIT * c.balance < (c.unit + 1) * supply
  }

  predicate DebtExact(c: Component, supply: nat) {
    (-c.debtUnit - 1) * supply < c.debt * PRECISE_UNIT <= -c.debtUnit * supply
  }

  /** After a sync the debt unit, and for collateral the unit, are the best ones for debt and balance. */
  predicate SyncedExactly(before: Component, after: Component, supply: nat) {
    && after.balance == before.balance && after.debt == before.debt && after.collateral == before.collateral
    && (if supply == 0 then after == before
        else DebtExact(after, supply)
             && if before.collateral then ClaimExact(after, supply) else after.unit == before.unit)
  }

  predicate AllSyncedExactly(before: seq<Component>, after: seq<Component>, supply: nat) {
    |after| == |before| && forall i :: 0 <= i < |before| ==> SyncedExactly(before[i], after[i], supply)
  }

  lemma SyncAllIsExact(cs: seq<Component>, supply: nat)
    requires AllWellFormed(cs)
    ensures AllSyncedExactly(cs, SyncAll(cs, supply), supply)
  {
    forall i | 0 <= i < |cs|
      ensures SyncedExactly(cs[i], Synced(cs[i], supply), supply)
    {
      if 0 < supply { SyncCollateralizes(cs[i], supply); }
    }
  }

  /** A sync never fails, moves nothing, and makes every synced unit exact, whichever way it was off. */
  lemma SyncIsExact(s: State, fees: FeeRates)
    requires AllWellFormed(s.components)
    ensures var r := Step(s, fees, Sync);
            && r.Done? && r.state.supply == s.supply
            && AllSyncedExactly(s.components, r.state.components, s.supply)
  {
    SyncAllIsExact(s.components, s.supply);
  }

  predicate LeveredComponent(before: Component, after: Component, supply: nat,
                             isCollateral: bool, received: nat, isDebt: bool, borrowed: nat) {
    && after.collateral == before.collateral
    && after.balance == before.balance + (if isCollateral then received else 0)
    && after.debt == before.debt + (if isDebt then borrowed else 0)
    && (if isCollateral then ClaimExact(after, supply) else after.unit == before.unit)
    && (if isDebt then DebtExact(after, supply) else after.debtUnit == before.debtUnit)
  }

  /**
   * A lever adds what the trade brought to the collateral and what was borrowed to the debt, be they one component
   * or two, and makes the two units exact. Nothing else moves.
   */
  predicate Levered(before: seq<Component>, after: seq<Component>, supply: nat,
                    received: nat, i: nat, borrowed: nat, j: nat) {
    |after| == |before| && forall k :: 0 <= k < |before| ==>
      LeveredComponent(before[k], after[k], supply, k == i, received, k == j, borrowed)
  }

  lemma BoughtIsExact(c: Component, supply: nat, received: nat)
    requires 0 < supply
    ensures LeveredComponent(c, SyncCollateral(c.(balance := c.balance + received), supply), supply,
                             true, received, false, 0)
  {
    SyncCollateralizes(c.(balance := c.balance + received), supply);
  }

  lemma BorrowedIsExact(c: Component, d: Component, supply: nat, isCollateral: bool, received: nat, borrowed: nat)
    requires 0 < supply && LeveredComponent(c, d, supply, isCollateral, received, false, 0)
    ensures LeveredComponent(c, SyncDebt(d.(debt := d.debt + borrowed), supply), supply,
                             isCollateral, received, true, borrowed)
  {
    SyncCollateralizes(d.(debt := d.debt + borrowed), supply);
  }

  lemma LeverComponentsIsExact(cs: seq<Component>, supply: nat, received: nat, i: nat, borrowed: nat, j: nat)
    requires 0 < supply && i < |cs| && j < |cs|
    ensures Levered(cs, LeverComponents(cs, supply, Lever(received, i, borrowed, j)), supply, received, i, borrowed, j)
  {
    var bought := SyncCollateral(cs[i].(balance := cs[i].balance + received), supply);
    BoughtIsExact(cs[i], supply, received);
    BorrowedIsExact(cs[j], if i == j then bought else cs[j], supply, i == j, received, borrowed);
  }

  lemma LeverIsExact(s: State, fees: FeeRates, received: nat, i: nat, borrowed: nat, j: nat)
    requires AllWellFormed(s.components)
    ensures var r := Step(s, fees, Lever(received, i, borrowed, j));
            && (r.Done? <==> 0 < s.supply && i < |s.components| && j < |s.components|)
            && (r.Done? ==> && r.state.supply == s.supply
                            && Levered(s.components, r.state.components, s.supply, received, i, borrowed, j))
  {
    if 0 < s.supply && i < |s.components| && j < |s.components| {
      LeverComponentsIsExact(s.components, s.supply, received, i, borrowed, j);
    }
  }

  /**
   * A delever takes what is sold from the collateral. What the trade brought pays off the debt first; only once
   * the debt is cleared is the rest kept, and the unit then claims the tracked balance and that rest.
   */
  predicate Delevered(before: seq<Component>, after: seq<Component>, supply: nat,
                      sent: nat, i: nat, received: nat, j: nat)
    requires j < |before|
  {
    && |after| == |before|
    && PaidOff(before[j], after[j], supply, received)
    && forall k :: 0 <= k < |before| ==>
         && after[k].collateral == before[k].collateral
         && (k == i ==> after[k].balance + sent == before[k].balance && ClaimExact(after[k], supply))
         && (k != i && k != j ==> after[k].balance == before[k].balance && after[k].unit == before[k].unit)
         && (k != j ==> after[k].debt == before[k].debt && after[k].debtUnit == before[k].debtUnit)
  }

  predicate PaidOff(before: Component, after: Component, supply: nat, received: nat) {
    var kept := after.balance - before.balance;
    && after.debt <= before.debt && DebtExact(after, supply)
    && received == (before.debt - after.debt) + kept
    && (if kept == 0 then after.unit == before.unit
        else && 0 < kept && after.debt == 0
             && after.unit * supply <= (PreciseMul(before.unit, supply) + kept) * PRECISE_UNIT
             && (PreciseMul(before.unit, supply) + kept) * PRECISE_UNIT < (after.unit + 1) * supply)
  }

  lemma PaidOffExactly(c: Component, supply: nat, received: nat)
    requires 0 < supply && Deleverable(c, supply, received)
    ensures PaidOff(c, RepayFromTrade(c, supply, received), supply, received)
  {
    if c.debt < received {
      PaidOffWithLeftover(c, supply, received);
    } else {
      SyncCollateralizes(c.(debt := c.debt - received), supply);
    }
  }

  lemma PaidOffWithLeftover(c: Component, supply: nat, received: nat)
    requires 0 < supply && c.debt < received && Tracked(c, supply) <= c.balance
    ensures PaidOff(c, SyncDebt(AddLeftover(c, supply, received - c.debt).(debt := 0), supply), supply, received)
  {
    var raised := AddLeftover(c, supply, received - c.debt);
    LeftoverIsBacked(c, supply, received - c.debt);
    assert DebtExact(SyncDebt(raised.(debt := 0), supply), supply) by {
      SyncCollateralizes(raised.(debt := 0), supply);
    }
  }

  lemma SoldIsExact(c: Component, supply: nat, sent: nat)
    requires 0 < supply && sent <= c.balance
    ensures ClaimExact(SyncCollateral(c.(balance := c.balance - sent), supply), supply)
  {
    SyncCollateralizes(c.(balance := c.balance - sent), supply);
  }

  lemma DeleverComponentsIsExact(cs: seq<Component>, supply: nat, sent: nat, i: nat, received: nat, j: nat)
    requires CanDelever(State(supply, cs), Delever(sent, i, received, j))
    ensures Delevered(cs, DeleverComponents(cs, supply, Delever(sent, i, received, j)), supply, sent, i, received, j)
  {
    SoldIsExact(cs[i], supply, sent);
    PaidOffExactly(cs[j], supply, received);
  }

  lemma DeleverIsExact(s: State, fees: FeeRates, sent: nat, i: nat, received: nat, j: nat)
    requires AllWellFormed(s.components)
    ensures var r := Step(s, fees, Delever(sent, i, received, j));
            && (r.Done? <==>
                  && 0 < s.supply && i != j && i < |s.components| && j < |s.components|
                  && sent <= s.components[i].balance
                  && (s.components[j].debt < received ==>
                        PreciseMul(s.components[j].unit, s.supply) <= s.components[j].balance))
            && (r.Done? ==> && r.state.supply == s.supply
                            && Delevered(s.components, r.state.components, s.supply, sent, i, received, j))
  {
    var op := Delever(sent, i, received, j);
    if CanDelever(s, op) { DeleverComponentsIsExact(s.components, s.supply, sent, i, received, j); }
  }

  /** The unit is lowered by the least cut that covers the seized amount, and cleared when it is below that cut. */
  predicate CutExactly(unit: nat, after: nat, supply: nat, seized: nat) {
    && after <= unit
    && if supply == 0 then after == unit
       else && (unit - after - 1) * supply < seized * PRECISE_UNIT
            && (0 < after ==> seized * PRECISE_UNIT <= (unit - after) * supply)
  }

  lemma LowerCut(a: int, b: int, c: nat)
    requires a <= b
    ensures (a - 1) * c <= (b - 1) * c
  {
    MulLe(a - 1, b - 1, c);
  }

  lemma CutIsExact(unit: nat, seized: nat, supply: nat)
    ensures CutExactly(unit, UnitAfterCut(unit, seized, supply), supply, seized)
  {
    if 0 < supply {
      DivCeil(seized, supply);
      var cut := UnitCut(seized, supply);
      NextMultiples(cut, supply);
      if unit <= cut { LowerCut(unit, cut, supply); }
    }
  }

  /** A liquidation takes the seized amount from the balance and the covered one from the debt, and cuts the unit. */
  predicate Liquidated(before: seq<Component>, after: seq<Component>, supply: nat,
                       seized: nat, i: nat, covered: nat, j: nat) {
    |after| == |before| && forall k :: 0 <= k < |before| ==>
      && after[k].collateral == before[k].collateral && after[k].debtUnit == before[k].debtUnit
      && after[k].balance + (if k == i then seized else 0) == before[k].balance
      && after[k].debt + (if k == j then covered else 0) == before[k].debt
      && (if k == i then CutExactly(before[k].unit, after[k].unit, supply, seized) else after[k].unit == before[k].unit)
  }

  lemma LiquidateIsExact(s: State, fees: FeeRates, seized: nat, i: nat, covered: nat, j: nat)
    requires AllWellFormed(s.components)
    ensures var r := Step(s, fees, Liquidate(seized, i, covered, j));
            && (r.Done? <==>
                  && i < |s.components| && j < |s.components|
                  && seized <= s.components[i].balance && covered <= s.components[j].debt)
            && (r.Done? ==> && r.state.supply == s.supply
                            && Liquidated(s.components, r.state.components, s.supply, seized, i, covered, j))
  {
    if i < |s.components| { CutIsExact(s.components[i].unit, seized, s.supply); }
  }
}
