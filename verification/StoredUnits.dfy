/**
 * A SetToken does not keep a unit as such: it divides it by its position multiplier when the unit is edited
 * and multiplies it back when it is read. Both roundings go down, for claims and for debts.
 */
module StoredUnits {
  import opened Nonlinear
  import opened FixedPoint
  import opened DebtIssuance
  import opened DebtSolvency

  function ConservativePreciseMul(a: int, b: int): int {
    DivDown(a * b, PRECISE_UNIT)
  }

  function ConservativePreciseDiv(a: int, b: int): int
    requires b != 0
  {
    DivDown(a * PRECISE_UNIT, b)
  }

  /** The unit that is read back after one was edited. */
  function ReadBack(unit: int, multiplier: int): int
    requires multiplier != 0
  {
    ConservativePreciseMul(ConservativePreciseDiv(unit, multiplier), multiplier)
  }

  /**
   * Storing and reading back each round down, whatever the sign of the unit. Together they never raise it, and
   * lower it by less than one step of each rounding.
   */
  lemma ReadBackBounds(unit: int, multiplier: int)
    requires 0 < multiplier
    ensures var virtual, readBack := ConservativePreciseDiv(unit, multiplier), ReadBack(unit, multiplier);
            && virtual * multiplier <= unit * PRECISE_UNIT < (virtual + 1) * multiplier
            && readBack * PRECISE_UNIT <= virtual * multiplier < (readBack + 1) * PRECISE_UNIT
    ensures ReadBack(unit, multiplier) <= unit
    ensures unit * PRECISE_UNIT < (ReadBack(unit, multiplier) + 1) * PRECISE_UNIT + multiplier
    ensures 0 <= unit ==> 0 <= ReadBack(unit, multiplier)
  {
    var virtual := ConservativePreciseDiv(unit, multiplier);
    var readBack := ReadBack(unit, multiplier);
    DivDownIsFloor(unit * PRECISE_UNIT, multiplier, virtual);
    DivDownIsFloor(unit * PRECISE_UNIT, multiplier, virtual + 1);
    DivDownIsFloor(virtual * multiplier, PRECISE_UNIT, readBack);
    DivDownIsFloor(virtual * multiplier, PRECISE_UNIT, readBack + 1);
    NextMultiples(virtual, multiplier);
    if 0 <= unit {
      DivDownIsFloor(unit * PRECISE_UNIT, multiplier, 0);
      MulNonNeg(virtual, multiplier);
      DivDownIsFloor(virtual * multiplier, PRECISE_UNIT, 0);
    }
  }

  function Stored(c: Component, multiplier: int): (stored: Component)
    requires 0 < multiplier && WellFormed(c)
    ensures WellFormed(stored)
  {
    ReadBackBounds(c.unit, multiplier);
    ReadBackBounds(c.debtUnit, multiplier);
    c.(unit := ReadBack(c.unit, multiplier), debtUnit := ReadBack(c.debtUnit, multiplier))
  }

  function StoredAll(s: State, multiplier: int): (stored: State)
    requires 0 < multiplier && AllWellFormed(s.components)
    ensures AllWellFormed(stored.components)
  {
    s.(components := seq(|s.components|, i requires 0 <= i < |s.components| => Stored(s.components[i], multiplier)))
  }

  /** Only the two units change, each by the roundings of being stored and read back. */
  predicate OnlyRounded(before: Component, after: Component, multiplier: int) {
    && after.balance == before.balance && after.debt == before.debt && after.collateral == before.collateral
    && after.unit <= before.unit && before.unit * PRECISE_UNIT < (after.unit + 1) * PRECISE_UNIT + multiplier
    && after.debtUnit <= before.debtUnit
    && before.debtUnit * PRECISE_UNIT < (after.debtUnit + 1) * PRECISE_UNIT + multiplier
  }

  /** Storing only lowers what is claimed and raises what is owed, so it keeps both covered. */
  lemma StoringKeepsCollateral(c: Component, supply: nat, multiplier: int)
    requires 0 < multiplier && Collateralized(c, supply)
    ensures Collateralized(Stored(c, multiplier), supply)
    ensures OnlyRounded(c, Stored(c, multiplier), multiplier)
  {
    ReadBackBounds(c.unit, multiplier);
    ReadBackBounds(c.debtUnit, multiplier);
    MulLe(ReadBack(c.unit, multiplier), c.unit, supply);
    MulLe(-c.debtUnit, -ReadBack(c.debtUnit, multiplier), supply);
  }

  /**
   * Calls that sync, store the units and compute their flows from the units read back are as safe as those
   * that use the units themselves: for every positive multiplier and from any drifted state, every quantity
   * that exists can be paid, and an issue and a redemption leave a collateralized Set.
   */
  lemma CallsOnStoredUnitsKeepCollateral(s: State, multiplier: int, issued: nat, redeemed: nat)
    requires DefaultsHeld(s) && 0 < s.supply && 0 < multiplier && redeemed <= s.supply
    ensures AllWellFormed(s.components)
    ensures var stored := StoredAll(s.(components := SyncAll(s.components, s.supply)), multiplier);
            && AllCollateralized(stored) && |stored.components| == |s.components|
            && (forall i :: 0 <= i < |s.components| ==>
                  OnlyRounded(Synced(s.components[i], s.supply), stored.components[i], multiplier))
            && AllCollateralized(State(s.supply + issued, IssueAll(stored.components, issued)))
            && AllPayable(stored.components, redeemed)
            && AllCollateralized(State(s.supply - redeemed, RedeemAll(stored.components, redeemed)))
  {
    SyncRepairsDrift(s);
    var synced := s.(components := SyncAll(s.components, s.supply));
    var stored := StoredAll(synced, multiplier);
    forall i | 0 <= i < |synced.components|
      ensures Collateralized(stored.components[i], s.supply)
      ensures OnlyRounded(synced.components[i], stored.components[i], multiplier)
    {
      StoringKeepsCollateral(synced.components[i], s.supply, multiplier);
    }
    IssueAllKeepsCollateral(stored, issued);
    RedeemAllKeepsCollateral(stored, redeemed);
  }
}
