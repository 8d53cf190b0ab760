/** The debt issuance calls, performed on a SetToken's books in place, component by component. */
module DebtLedger {
  import opened FixedPoint
  import opened DebtIssuance
  import opened DebtSolvency
  import opened DebtDrift
  import opened DebtEffects

  /** What a call moved per component, or the error that undid it. */
  datatype Receipt = Settled(equity: seq<nat>, debt: seq<nat>) | Undone(error: string)

  class Ledger {
    var supply: nat
    var components: seq<Component>
    const fees: FeeRates

    function Books(): State
      reads this
    {
      State(supply, components)
    }

    ghost predicate Valid()
      reads this
    {
      AllWellFormed(components)
    }

    /** A SetToken starts with units but without supply, balances or debts. */
    constructor (fees: FeeRates, units: seq<nat>, collateral: seq<bool>)
      requires |units| == |collateral|
      ensures Valid() && AllCollateralized(Books())
      ensures this.fees == fees && supply == 0 && |components| == |units|
      ensures forall i :: 0 <= i < |units| ==> components[i] == Component(units[i], 0, 0, 0, collateral[i])
    {
      this.fees := fees;
      supply := 0;
      components := seq(|units|, i requires 0 <= i < |units| => Component(units[i], 0, 0, 0, collateral[i]));
    }

    /** Bring every unit in line with the balances. */
    method Sync()
      requires Valid()
      modifies this`components
      ensures Valid() && components == SyncAll(old(components), supply)
      ensures AllSyncedExactly(old(components), components, supply)
      ensures supply > 0 && old(DefaultsHeld(Books())) ==> AllCollateralized(Books())
    {
      ghost var s := Books();
      if supply > 0 {
        for i := 0 to |components|
          invariant |components| == |s.components|
          invariant forall j :: 0 <= j < i ==> components[j] == SyncComponent(s.components[j], supply)
          invariant forall j :: i <= j < |components| ==> components[j] == s.components[j]
        {
          var c := components[i];
          if c.collateral {
            c := c.(unit := PositionUnit(c.balance, supply));
          }
          c := c.(debtUnit := -1 * PreciseDivCeil(c.debt, supply));
          components := components[i := c];
        }
      }
      assert components == SyncAll(s.components, supply);
      SyncAllIsExact(s.components, supply);
      if supply > 0 && DefaultsHeld(s) { SyncRepairsDrift(s); }
    }

    static function PositionUnit(balance: nat, supply: nat): (unit: nat)
      requires 0 < supply
    {
      DivFloor(balance, supply);
      PreciseDiv(balance, supply)
    }

    /** Component amounts for a quantity: an issue rounds equity up and debt down, a redemption the other way. */
    method RequiredComponentUnits(quantity: nat, isIssue: bool) returns (equity: seq<nat>, debt: seq<nat>)
      requires Valid()
      ensures |equity| == |debt| == |components|
      ensures forall i :: 0 <= i < |components| ==>
                && equity[i] == (if isIssue then EquityIn(components[i], quantity) else EquityOut(components[i], quantity))
                && debt[i] == (if isIssue then DebtOut(components[i], quantity) else DebtIn(components[i], quantity))
    {
      equity, debt := [], [];
      for i := 0 to |components|
        invariant |equity| == |debt| == i
        invariant forall j :: 0 <= j < i ==>
          && equity[j] == (if isIssue then EquityIn(components[j], quantity) else EquityOut(components[j], quantity))
          && debt[j] == (if isIssue then DebtOut(components[j], quantity) else DebtIn(components[j], quantity))
      {
        var c := components[i];
        if isIssue {
          equity, debt := equity + [EquityIn(c, quantity)], debt + [DebtOut(c, quantity)];
        } else {
          equity, debt := equity + [EquityOut(c, quantity)], debt + [DebtIn(c, quantity)];
        }
      }
    }

    /** Take in the equity of an issue, where there is any. */
    method ReceiveEquity(equity: seq<nat>, ghost quantity: nat)
      requires Valid() && |equity| == |components|
      requires forall i :: 0 <= i < |components| ==> equity[i] == EquityIn(components[i], quantity)
      modifies this`components
      ensures Valid() && |components| == |old(components)|
      ensures forall i :: 0 <= i < |components| ==> components[i] == DepositEquity(old(components[i]), quantity)
    {
      ghost var before := components;
      for i := 0 to |components|
        invariant |components| == |before|
        invariant forall j :: 0 <= j < i ==> components[j] == DepositEquity(before[j], quantity)
        invariant forall j :: i <= j < |components| ==> components[j] == before[j]
      {
        var c := components[i];
        if equity[i] > 0 {
          components := components[i := c.(balance := c.balance + equity[i])];
        }
      }
    }

    /** Borrow the debt of an issue, where there is any, and pass it on. */
    method BorrowDebt(debt: seq<nat>, ghost quantity: nat)
      requires Valid() && |debt| == |components|
      requires forall i :: 0 <= i < |components| ==> debt[i] == DebtOut(components[i], quantity)
      modifies this`components
      ensures Valid() && |components| == |old(components)|
      ensures forall i :: 0 <= i < |components| ==> components[i] == Borrow(old(components[i]), quantity)
    {
      ghost var before := components;
      for i := 0 to |components|
        invariant |components| == |before|
        invariant forall j :: 0 <= j < i ==> components[j] == Borrow(before[j], quantity)
        invariant forall j :: i <= j < |components| ==> components[j] == before[j]
      {
        var c := components[i];
        if debt[i] > 0 {
          components := components[i := c.(debt := c.debt + debt[i])];
        }
      }
    }

    /** Repay the debt of a redemption; the lender takes no more than is owed. */
    method RepayDebt(debt: seq<nat>, ghost quantity: nat)
      requires Valid() && |debt| == |components|
      requires forall i :: 0 <= i < |components| ==> debt[i] == DebtIn(components[i], quantity)
      modifies this`components
      ensures Valid() && |components| == |old(components)|
      ensures forall i :: 0 <= i < |components| ==> components[i] == Repay(old(components[i]), quantity)
    {
      ghost var before := components;
      for i := 0 to |components|
        invariant |components| == |before|
        invariant forall j :: 0 <= j < i ==> components[j] == Repay(before[j], quantity)
        invariant forall j :: i <= j < |components| ==> components[j] == before[j]
      {
        var c := components[i];
        if debt[i] > 0 {
          var repaid := Min(debt[i], c.debt);
          components := components[i := c.(debt := c.debt - repaid, balance := c.balance + (debt[i] - repaid))];
        }
      }
    }

    /** Pay out the equity of a redemption; stop as soon as a balance does not suffice. */
    method PayEquity(equity: seq<nat>, ghost quantity: nat, ghost synced: seq<Component>) returns (payable: bool)
      requires |equity| == |components| == |synced| && AllWellFormed(synced)
      requires forall i :: 0 <= i < |components| ==>
                 equity[i] == EquityOut(synced[i], quantity) && components[i] == Repay(synced[i], quantity)
      modifies this`components
      ensures payable <==> AllPayable(synced, quantity)
      ensures payable ==> components == RedeemAll(synced, quantity)
    {
      for i := 0 to |components|
        invariant |components| == |synced|
        invariant forall j :: 0 <= j < i ==>
          Payable(synced[j], quantity) && components[j] == RedeemComponent(synced[j], quantity)
        invariant forall j :: i <= j < |components| ==> components[j] == Repay(synced[j], quantity)
      {
        var c := components[i];
        if c.balance < equity[i] {
          assert !Payable(synced[i], quantity);
          return false;
        }
        if equity[i] > 0 {
          components := components[i := c.(balance := c.balance - equity[i])];
        }
      }
      payable := true;
    }

    /** Sync, take every equity amount in, borrow every debt amount out, and mint the quantity with its fee. */
    method Issue(quantity: nat) returns (r: Receipt)
      requires Valid()
      modifies this
      ensures Valid()
      ensures match Step(old(Books()), fees, Op.Issue(quantity))
              case Done(s) =>
                var synced := SyncAll(old(components), old(supply));
                var total := IssueTotal(quantity, fees.issue);
                && Books() == s && r.Settled? && |r.equity| == |r.debt| == |synced|
                && (forall i :: 0 <= i < |synced| ==>
                      r.equity[i] == EquityIn(synced[i], total) && r.debt[i] == DebtOut(synced[i], total))
              case Reverted(error) => Books() == old(Books()) && r == Undone(error)
      ensures old(AllCollateralized(Books())) ==> AllCollateralized(Books())
      ensures old(DefaultsHeld(Books())) ==> DefaultsHeld(Books())
    {
      ghost var s := Books();
      if AllCollateralized(s) { StepKeepsCollateral(s, fees, Op.Issue(quantity)); }
      if DefaultsHeld(s) { EventKeepsDefaults(s, fees, Call(Op.Issue(quantity))); }
      if quantity == 0 {
        return Undone("Issue quantity must be > 0");
      }
      Sync();
      ghost var synced := components;
      var total := IssueTotal(quantity, fees.issue);
      var equity, debt := RequiredComponentUnits(total, true);
      ReceiveEquity(equity, total);
      BorrowDebt(debt, total);
      supply := supply + total;
      assert components == IssueAll(synced, total);
      r := Settled(equity, debt);
    }

    /** Sync, repay every debt amount, pay every equity amount out, and burn the quantity less its fee. */
    method Redeem(quantity: nat) returns (r: Receipt)
      requires Valid()
      modifies this
      ensures Valid()
      ensures match Step(old(Books()), fees, Op.Redeem(quantity))
              case Done(s) =>
                var synced := SyncAll(old(components), old(supply));
                var net := RedeemNet(quantity, fees.redeem);
                && Books() == s && r.Settled? && |r.equity| == |r.debt| == |synced|
                && (forall i :: 0 <= i < |synced| ==>
                      0 <= net && r.equity[i] == EquityOut(synced[i], net) && r.debt[i] == DebtIn(synced[i], net))
              case Reverted(error) => Books() == old(Books()) && r == Undone(error)
      ensures old(DefaultsHeld(Books())) && fees.redeem <= PRECISE_UNIT ==>
                (r.Settled? <==> 0 < quantity <= old(supply)) && (r.Settled? ==> AllCollateralized(Books()))
    {
      ghost var s := Books();
      if DefaultsHeld(s) && fees.redeem <= PRECISE_UNIT { RedeemSucceedsIff(s, fees, quantity); }
      if quantity == 0 {
        return Undone("Redeem quantity must be > 0");
      }
      var saved := components;
      Sync();
      ghost var synced := components;
      if supply < quantity {
        components := saved;
        return Undone("ERC20: burn amount exceeds balance");
      }
      var net := RedeemNet(quantity, fees.redeem);
      if net < 0 {
        components := saved;
        return Undone("SafeMath: subtraction overflow");
      }
      MulFloor(fees.redeem, quantity);
      var equity, debt := RequiredComponentUnits(net, false);
      RepayDebt(debt, net);
      var payable := PayEquity(equity, net, synced);
      if !payable {
        components := saved;
        return Undone("Insufficient component balance");
      }
      supply := supply - net;
      r := Settled(equity, debt);
    }

    /** Trade borrowed funds for collateral and resync both positions. */
    method Lever(received: nat, i: nat, borrowed: nat, j: nat) returns (r: Receipt)
      requires Valid()
      modifies this`components
      ensures Valid()
      ensures match Step(old(Books()), fees, Op.Lever(received, i, borrowed, j))
              case Done(s) => Books() == s && r == Settled([received], [borrowed])
              case Reverted(error) => Books() == old(Books()) && r == Undone(error)
      ensures r.Settled? ==> Levered(old(components), components, supply, received, i, borrowed, j)
      ensures old(AllCollateralized(Books())) ==> AllCollateralized(Books())
      ensures old(DefaultsHeld(Books())) ==> DefaultsHeld(Books())
    {
      ghost var s, op := Books(), Op.Lever(received, i, borrowed, j);
      if AllCollateralized(s) { StepKeepsCollateral(s, fees, op); }
      if DefaultsHeld(s) { EventKeepsDefaults(s, fees, Call(op)); }
      LeverIsExact(s, fees, received, i, borrowed, j);
      if supply == 0 || |components| <= i || |components| <= j {
        return Undone("Invalid lever");
      }
      var c := components[i];
      components := components[i := SyncCollateral(c.(balance := c.balance + received), supply)];
      var d := components[j];
      components := components[j := SyncDebt(d.(debt := d.debt + borrowed), supply)];
      r := Settled([received], [borrowed]);
    }

    /** Move the amounts of a delever and recompute the positions of both components. */
    method RepayFromSale(sent: nat, i: nat, received: nat, j: nat) returns (repaid: nat)
      requires Valid() && CanDelever(Books(), Op.Delever(sent, i, received, j))
      modifies this`components
      ensures Valid() && components == DeleverComponents(old(components), supply, Op.Delever(sent, i, received, j))
      ensures repaid == Min(received, old(components)[j].debt)
    {
      var d := components[j];
      repaid := Min(received, d.debt);
      if repaid < received {
        d := AddLeftover(d, supply, received - repaid);
      }
      var c := components[i];
      components := components[i := SyncCollateral(c.(balance := c.balance - sent), supply)];
      components := components[j := SyncDebt(d.(debt := d.debt - repaid), supply)];
    }

    /** Trade collateral for the borrowed asset, repay, keep any leftover as a default position, and resync both. */
    method Delever(sent: nat, i: nat, received: nat, j: nat) returns (r: Receipt)
      requires Valid()
      modifies this`components
      ensures Valid()
      ensures match Step(old(Books()), fees, Op.Delever(sent, i, received, j))
              case Done(s) => Books() == s && r == Settled([sent], [Min(received, old(components)[j].debt)])
              case Reverted(error) => Books() == old(Books()) && r == Undone(error)
      ensures r.Settled? ==>
                j < |old(components)| && Delevered(old(components), components, supply, sent, i, received, j)
      ensures old(AllCollateralized(Books())) ==> AllCollateralized(Books())
      ensures old(DefaultsHeld(Books())) ==> DefaultsHeld(Books())
    {
      ghost var s, op := Books(), Op.Delever(sent, i, received, j);
      if AllCollateralized(s) { StepKeepsCollateral(s, fees, op); }
      if DefaultsHeld(s) { EventKeepsDefaults(s, fees, Call(op)); }
      DeleverIsExact(s, fees, sent, i, received, j);
      if supply == 0 || i == j || |components| <= i || |components| <= j || components[i].balance < sent {
        return Undone("Invalid delever");
      }
      if components[j].debt < received && components[j].balance < Tracked(components[j], supply) {
        return Undone("Invalid delever");
      }
      var repaid := RepayFromSale(sent, i, received, j);
      r := Settled([sent], [repaid]);
    }

    /** A liquidator covers debt, seizes collateral, and the collateral unit is cut by the seized amount per token. */
    method Liquidate(seized: nat, i: nat, covered: nat, j: nat) returns (r: Receipt)
      requires Valid()
      modifies this`components
      ensures Valid()
      ensures match Step(old(Books()), fees, Op.Liquidate(seized, i, covered, j))
              case Done(s) => Books() == s && r == Settled([seized], [covered])
              case Reverted(error) => Books() == old(Books()) && r == Undone(error)
      ensures r.Settled? ==> Liquidated(old(components), components, supply, seized, i, covered, j)
      ensures old(AllCollateralized(Books())) ==> AllCollateralized(Books())
      ensures old(DefaultsHeld(Books())) ==> DefaultsHeld(Books())
    {
      ghost var s, op := Books(), Op.Liquidate(seized, i, covered, j);
      if AllCollateralized(s) { StepKeepsCollateral(s, fees, op); }
      if DefaultsHeld(s) { EventKeepsDefaults(s, fees, Call(op)); }
      LiquidateIsExact(s, fees, seized, i, covered, j);
      if |components| <= i || |components| <= j {
        return Undone("Invalid liquidation");
      }
      var c := components[i];
      var cut := UnitCut(seized, supply);
      if c.balance < seized || components[j].debt < covered {
        return Undone("Invalid liquidation");
      }
      components := components[i := c.(balance := c.balance - seized, unit := if c.unit < cut then 0 else c.unit - cut)];
      var d := components[j];
      components := components[j := d.(debt := d.debt - covered)];
      r := Settled([seized], [covered]);
    }
  }
}
