/**
 * Issuing and redeeming a leveraged SetToken against its components: every component can hold a
 * default (equity) position and one external (debt) position. The steps are pure here; `DebtLedger`
 * performs them in place.
 */
module DebtIssuance {
  import opened FixedPoint

  /**
   * `balance` is what the Set holds of the component and `unit` what each token claims of it; `debt` is
   * what the Set owes and `debtUnit`, never positive, what each token owes. The balance of a
   * `collateral` component is synced into its unit.
   */
  datatype Component = Component(unit: nat, balance: nat, debtUnit: int, debt: nat, collateral: bool)

  datatype State = State(supply: nat, components: seq<Component>)

  datatype FeeRates = FeeRates(issue: nat, redeem: nat)

  datatype Op =
    | Sync
    | Issue(quantity: nat)
    | Redeem(quantity: nat)
    | Lever(received: nat, collateralIndex: nat, borrowed: nat, debtIndex: nat)
    | Delever(sent: nat, collateralIndex: nat, received: nat, debtIndex: nat)
    | Liquidate(seized: nat, collateralIndex: nat, covered: nat, debtIndex: nat)

  datatype Result = Done(state: State) | Reverted(error: string)

  function Min(a: nat, b: nat): nat {
    if a < b then a else b
  }

  // ---------- Quantities ----------

  /** What the issuer pays for: the quantity and the fee minted on top of it. */
  function IssueTotal(quantity: nat, fee: nat): (total: nat)
    ensures quantity <= total
  {
    MulFloor(fee, quantity);
    quantity + PreciseMul(fee, quantity)
  }

  /** What the redeemer is paid for: the fee is minted back to its recipients. */
  function RedeemNet(quantity: nat, fee: nat): int {
    quantity - PreciseMul(fee, quantity)
  }

  function EquityIn(c: Component, quantity: nat): (amount: nat) {
    MulCeil(c.unit, quantity);
    PreciseMulCeil(c.unit, quantity)
  }

  function EquityOut(c: Component, quantity: nat): (amount: nat) {
    MulFloor(c.unit, quantity);
    PreciseMul(c.unit, quantity)
  }

  function DebtOut(c: Component, quantity: nat): (amount: nat)
    requires c.debtUnit <= 0
  {
    MulFloor(-c.debtUnit, quantity);
    PreciseMul(-c.debtUnit, quantity)
  }

  function DebtIn(c: Component, quantity: nat): (amount: nat)
    requires c.debtUnit <= 0
  {
    MulCeil(-c.debtUnit, quantity);
    PreciseMulCeil(-c.debtUnit, quantity)
  }

  // ---------- One component ----------

  predicate WellFormed(c: Component) {
    c.debtUnit <= 0
  }

  function SyncCollateral(c: Component, supply: nat): Component
    requires 0 < supply
  {
    DivFloor(c.balance, supply);
    c.(unit := PreciseDiv(c.balance, supply))
  }

  function SyncDebt(c: Component, supply: nat): (synced: Component)
    requires 0 < supply
    ensures WellFormed(synced)
  {
    DivCeil(c.debt, supply);
    c.(debtUnit := -1 * PreciseDivCeil(c.debt, supply))
  }

  function SyncComponent(c: Component, supply: nat): (synced: Component)
    requires 0 < supply
    ensures WellFormed(synced)
  {
    SyncDebt(if c.collateral then SyncCollateral(c, supply) else c, supply)
  }

  function DepositEquity(c: Component, quantity: nat): Component {
    c.(balance := c.balance + EquityIn(c, quantity))
  }

  /** The borrowed amount is passed on to the issuer. */
  function Borrow(c: Component, quantity: nat): Component
    requires WellFormed(c)
  {
    c.(debt := c.debt + DebtOut(c, quantity))
  }

  /** The lender takes no more than is owed; the rest of what the redeemer paid in stays in the Set. */
  function Repay(c: Component, quantity: nat): Component
    requires WellFormed(c)
  {
    var paid := DebtIn(c, quantity);
    var repaid := Min(paid, c.debt);
    c.(debt := c.debt - repaid, balance := c.balance + (paid - repaid))
  }

  function WithdrawEquity(c: Component, quantity: nat): Component
    requires EquityOut(c, quantity) <= c.balance
  {
    c.(balance := c.balance - EquityOut(c, quantity))
  }

  function IssueComponent(c: Component, quantity: nat): Component
    requires WellFormed(c)
  {
    Borrow(DepositEquity(c, quantity), quantity)
  }

  predicate Payable(c: Component, quantity: nat)
    requires WellFormed(c)
  {
    EquityOut(c, quantity) <= Repay(c, quantity).balance
  }

  function RedeemComponent(c: Component, quantity: nat): Component
    requires WellFormed(c) && Payable(c, quantity)
  {
    WithdrawEquity(Repay(c, quantity), quantity)
  }

  // ---------- The whole Set ----------

  predicate AllWellFormed(cs: seq<Component>) {
    forall i :: 0 <= i < |cs| ==> WellFormed(cs[i])
  }

  predicate AllPayable(cs: seq<Component>, quantity: nat)
    requires AllWellFormed(cs)
  {
    forall i :: 0 <= i < |cs| ==> Payable(cs[i], quantity)
  }

  /** Without supply there is nothing to divide by and the units are left alone. */
  function Synced(c: Component, supply: nat): (synced: Component)
    ensures WellFormed(c) ==> WellFormed(synced)
  {
    if supply == 0 then c else SyncComponent(c, supply)
  }

  function SyncAll(cs: seq<Component>, supply: nat): (synced: seq<Component>)
    requires AllWellFormed(cs)
    ensures |synced| == |cs| && AllWellFormed(synced)
    ensures forall i :: 0 <= i < |cs| ==> synced[i] == Synced(cs[i], supply)
  {
    seq(|cs|, i requires 0 <= i < |cs| => Synced(cs[i], supply))
  }

  function IssueAll(cs: seq<Component>, quantity: nat): seq<Component>
    requires AllWellFormed(cs)
  {
    seq(|cs|, i requires 0 <= i < |cs| => IssueComponent(cs[i], quantity))
  }

  function RedeemAll(cs: seq<Component>, quantity: nat): seq<Component>
    requires AllWellFormed(cs) && AllPayable(cs, quantity)
  {
    seq(|cs|, i requires 0 <= i < |cs| => RedeemComponent(cs[i], quantity))
  }

  /** Trade a borrowed amount for collateral and resync the two positions. */
  function LeverComponents(cs: seq<Component>, supply: nat, op: Op): seq<Component>
    requires op.Lever? && op.collateralIndex < |cs| && op.debtIndex < |cs| && 0 < supply
  {
    var c := cs[op.collateralIndex];
    var bought := cs[op.collateralIndex := SyncCollateral(c.(balance := c.balance + op.received), supply)];
    var d := bought[op.debtIndex];
    bought[op.debtIndex := SyncDebt(d.(debt := d.debt + op.borrowed), supply)]
  }

  /** What of the balance the unit accounts for; the rest was airdropped. */
  function Tracked(c: Component, supply: nat): (tracked: nat) {
    MulFloor(c.unit, supply);
    PreciseMul(c.unit, supply)
  }

  /** A leftover of the repaid asset becomes a default position, without picking up what was airdropped before. */
  function AddLeftover(c: Component, supply: nat, leftover: nat): Component
    requires 0 < supply && Tracked(c, supply) <= c.balance
  {
    var airdropped := c.balance - Tracked(c, supply);
    var balance := c.balance + leftover;
    DivFloor(balance - airdropped, supply);
    c.(balance := balance, unit := PreciseDiv(balance - airdropped, supply))
  }

  predicate Deleverable(c: Component, supply: nat, received: nat) {
    received <= c.debt || Tracked(c, supply) <= c.balance
  }

  /** Repay from the proceeds of a trade: the lender takes no more than is owed. */
  function RepayFromTrade(c: Component, supply: nat, received: nat): Component
    requires 0 < supply && Deleverable(c, supply, received)
  {
    var repaid := Min(received, c.debt);
    var paid := if repaid < received then AddLeftover(c, supply, received - repaid) else c;
    SyncDebt(paid.(debt := c.debt - repaid), supply)
  }

  predicate CanDelever(s: State, op: Op)
    requires op.Delever?
  {
    && 0 < s.supply && op.collateralIndex != op.debtIndex
    && op.collateralIndex < |s.components| && op.debtIndex < |s.components|
    && op.sent <= s.components[op.collateralIndex].balance
    && Deleverable(s.components[op.debtIndex], s.supply, op.received)
  }

  /** Trade collateral for the borrowed asset, repay with it, and resync the two positions. */
  function DeleverComponents(cs: seq<Component>, supply: nat, op: Op): seq<Component>
    requires op.Delever? && CanDelever(State(supply, cs), op)
  {
    var c := cs[op.collateralIndex];
    var sold := cs[op.collateralIndex := SyncCollateral(c.(balance := c.balance - op.sent), supply)];
    sold[op.debtIndex := RepayFromTrade(cs[op.debtIndex], supply, op.received)]
  }

  function UnitCut(seized: nat, supply: nat): (cut: nat) {
    assert 0 <= PreciseDivCeil(seized, supply) by { if 0 < supply { DivCeil(seized, supply); } }
    PreciseDivCeil(seized, supply)
  }

  /** A unit is never negative: a cut by more than the unit clears it. */
  function UnitAfterCut(unit: nat, seized: nat, supply: nat): nat {
    if unit < UnitCut(seized, supply) then 0 else unit - UnitCut(seized, supply)
  }

  function Seize(c: Component, supply: nat, seized: nat): Component
    requires seized <= c.balance
  {
    c.(balance := c.balance - seized, unit := UnitAfterCut(c.unit, seized, supply))
  }

  /** A liquidator repays part of a debt and seizes collateral; the collateral unit is cut, rounded up. */
  function LiquidateComponents(cs: seq<Component>, supply: nat, op: Op): seq<Component>
    requires op.Liquidate? && op.collateralIndex < |cs| && op.debtIndex < |cs|
    requires op.seized <= cs[op.collateralIndex].balance && op.covered <= cs[op.debtIndex].debt
  {
    var c := cs[op.collateralIndex];
    var cut := cs[op.collateralIndex := Seize(c, supply, op.seized)];
    var d := cut[op.debtIndex];
    cut[op.debtIndex := d.(debt := d.debt - op.covered)]
  }

  /**
   * One external call: the state it leaves, or the error it reverts with. A trade or liquidation that
   * would need more than there is stands for the several ways in which the lender refuses it.
   */
  function Step(s: State, fees: FeeRates, op: Op): Result
    requires AllWellFormed(s.components)
  {
    var cs := s.components;
    match op
    case Sync =>
      Done(s.(components := SyncAll(cs, s.supply)))
    case Issue(quantity) =>
      if quantity == 0 then Reverted("Issue quantity must be > 0")
      else
        var total := IssueTotal(quantity, fees.issue);
        Done(State(s.supply + total, IssueAll(SyncAll(cs, s.supply), total)))
    case Redeem(quantity) =>
      if quantity == 0 then Reverted("Redeem quantity must be > 0")
      else if s.supply < quantity then Reverted("ERC20: burn amount exceeds balance")
      else if RedeemNet(quantity, fees.redeem) < 0 then Reverted("SafeMath: subtraction overflow")
      else
        var net := RedeemNet(quantity, fees.redeem);
        MulFloor(fees.redeem, quantity);
        var synced := SyncAll(cs, s.supply);
        if !AllPayable(synced, net) then Reverted("Insufficient component balance")
        else Done(State(s.supply - net, RedeemAll(synced, net)))
    case Lever(_, i, _, j) =>
      if s.supply == 0 || |cs| <= i || |cs| <= j then Reverted("Invalid lever")
      else Done(s.(components := LeverComponents(cs, s.supply, op)))
    case Delever(_, _, _, _) =>
      if !CanDelever(s, op) then Reverted("Invalid delever")
      else Done(s.(components := DeleverComponents(cs, s.supply, op)))
    case Liquidate(seized, i, covered, j) =>
      if |cs| <= i || |cs| <= j || cs[i].balance < seized || cs[j].debt < covered
      then Reverted("Invalid liquidation")
      else Done(s.(components := LiquidateComponents(cs, s.supply, op)))
  }
}
