/**
 * Runs in which interest and liquidations move balances and debts between the calls, in any way and at any
 * time, without the Set's units following until the next sync.
 */
module DebtDrift {
  import opened FixedPoint
  import opened DebtIssuance
  import opened DebtSolvency

  /** A call on the Set, or new collateral balances and debts set by the lender, one per component. */
  datatype Event = Call(op: Op) | Drift(balances: seq<nat>, debts: seq<nat>)

  function DriftedComponent(c: Component, i: nat, balances: seq<nat>, debts: seq<nat>): Component {
    c.(balance := if c.collateral && i < |balances| then balances[i] else c.balance,
       debt := if i < |debts| then debts[i] else c.debt)
  }

  function Drifted(cs: seq<Component>, balances: seq<nat>, debts: seq<nat>): seq<Component> {
    seq(|cs|, i requires 0 <= i < |cs| => DriftedComponent(cs[i], i, balances, debts))
  }

  /** Reverted calls leave the state as it was. */
  function React(s: State, fees: FeeRates, event: Event): State
    requires AllWellFormed(s.components)
  {
    match event
    case Call(op) =>
      var r := Step(s, fees, op);
      if r.Done? then r.state else s
    case Drift(balances, debts) =>
      s.(components := Drifted(s.components, balances, debts))
  }

  ghost function RunEvents(s: State, fees: FeeRates, events: seq<Event>): State
    requires DefaultsHeld(s)
    decreases events
  {
    if events == [] then s
    else
      EventKeepsDefaults(s, fees, events[0]);
      RunEvents(React(s, fees, events[0]), fees, events[1..])
  }

  /** The lender and the markets decide collateral balances and debts; nothing else can drift. */
  predicate DriftsTo(before: Component, after: Component) {
    && SameUnits(before, after)
    && (!before.collateral ==> after.balance == before.balance)
  }

  /** One drift reaches exactly the books with the same supply and units in which only what can drift differs. */
  lemma DriftReachesIff(s: State, fees: FeeRates, t: State)
    requires AllWellFormed(s.components)
    ensures (exists balances: seq<nat>, debts: seq<nat> :: React(s, fees, Drift(balances, debts)) == t)
       <==> && t.supply == s.supply && |t.components| == |s.components|
            && forall i :: 0 <= i < |s.components| ==> DriftsTo(s.components[i], t.components[i])
  {
    if && t.supply == s.supply && |t.components| == |s.components|
       && (forall i :: 0 <= i < |s.components| ==> DriftsTo(s.components[i], t.components[i])) {
      var n := |t.components|;
      var balances := seq(n, i requires 0 <= i < n => t.components[i].balance);
      var debts := seq(n, i requires 0 <= i < n => t.components[i].debt);
      assert Drifted(s.components, balances, debts) == t.components;
      assert React(s, fees, Drift(balances, debts)) == t;
    }
  }

  // ---------- One event ----------

  lemma IssueKeepsDefaults(s: State, fees: FeeRates, quantity: nat)
    requires DefaultsHeld(s) && AllWellFormed(s.components) && Step(s, fees, Issue(quantity)).Done?
    ensures DefaultsHeld(Step(s, fees, Issue(quantity)).state)
  {
    IssueSucceedsIff(s, fees, quantity);
    if s.supply == 0 {
      var total := IssueTotal(quantity, fees.issue);
      forall i | 0 <= i < |s.components|
        ensures DefaultHeld(IssueComponent(s.components[i], total), total)
      {
        FlowsWithinOneUnit(s.components[i], total);
      }
    }
  }

  lemma LeverKeepsDefaults(s: State, fees: FeeRates, op: Op)
    requires DefaultsHeld(s) && AllWellFormed(s.components) && op.Lever? && Step(s, fees, op).Done?
    ensures DefaultsHeld(Step(s, fees, op).state)
  {
    var c := s.components[op.collateralIndex];
    SyncCollateralizes(c.(balance := c.balance + op.received), s.supply);
  }

  lemma DeleverKeepsDefaults(s: State, fees: FeeRates, op: Op)
    requires DefaultsHeld(s) && AllWellFormed(s.components) && op.Delever? && Step(s, fees, op).Done?
    ensures DefaultsHeld(Step(s, fees, op).state)
  {
    var c, d := s.components[op.collateralIndex], s.components[op.debtIndex];
    SyncCollateralizes(c.(balance := c.balance - op.sent), s.supply);
    if d.debt < op.received { LeftoverIsBacked(d, s.supply, op.received - d.debt); }
  }

  lemma LiquidateKeepsDefaults(s: State, fees: FeeRates, op: Op)
    requires DefaultsHeld(s) && AllWellFormed(s.components) && op.Liquidate? && Step(s, fees, op).Done?
    ensures DefaultsHeld(Step(s, fees, op).state)
  {
    var c := s.components[op.collateralIndex];
    if !c.collateral { CutUnitIsBacked(c.unit, c.balance, s.supply, op.seized); }
  }

  /** No call and no drift touches what the components that are not synced must hold. */
  lemma EventKeepsDefaults(s: State, fees: FeeRates, event: Event)
    requires DefaultsHeld(s)
    ensures AllWellFormed(s.components)
    ensures DefaultsHeld(React(s, fees, event))
  {
    assert AllWellFormed(s.components);
    if event.Call? && Step(s, fees, event.op).Done? {
      match event.op {
        case Sync =>
        case Issue(quantity) => IssueKeepsDefaults(s, fees, quantity);
        case Redeem(quantity) =>
          RedeemCollateralizes(s, fees, quantity);
          CollateralizedHoldsDefaults(React(s, fees, event));
        case Lever(_, _, _, _) => LeverKeepsDefaults(s, fees, event.op);
        case Delever(_, _, _, _) => DeleverKeepsDefaults(s, fees, event.op);
        case Liquidate(_, _, _, _) => LiquidateKeepsDefaults(s, fees, event.op);
      }
    }
  }

  // ---------- Runs ----------

  lemma {:induction false} DriftingRunKeepsDefaults(s: State, fees: FeeRates, events: seq<Event>)
    requires DefaultsHeld(s)
    ensures DefaultsHeld(RunEvents(s, fees, events))
    decreases events
  {
    if events != [] {
      EventKeepsDefaults(s, fees, events[0]);
      DriftingRunKeepsDefaults(React(s, fees, events[0]), fees, events[1..]);
    }
  }

  /**
   * After any interleaving of calls, interest and liquidations, a sync collateralizes every Set with supply,
   * and a redemption succeeds exactly when its tokens exist and leaves a collateralized Set.
   */
  lemma EveryDriftingRunIsRedeemable(s: State, fees: FeeRates, events: seq<Event>, quantity: nat)
    requires DefaultsHeld(s) && fees.redeem <= PRECISE_UNIT
    ensures var reached := RunEvents(s, fees, events);
            && AllWellFormed(reached.components)
            && (0 < reached.supply ==>
                  AllCollateralized(reached.(components := SyncAll(reached.components, reached.supply))))
            && (Step(reached, fees, Redeem(quantity)).Done? <==> 0 < quantity <= reached.supply)
            && (0 < quantity <= reached.supply ==>
                  AllCollateralized(Step(reached, fees, Redeem(quantity)).state))
  {
    DriftingRunKeepsDefaults(s, fees, events);
    var reached := RunEvents(s, fees, events);
    RedeemSucceedsIff(reached, fees, quantity);
    if 0 < reached.supply { SyncRepairsDrift(reached); }
  }
}
