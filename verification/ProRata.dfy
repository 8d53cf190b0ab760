/**
 * The pro-rata share that most formulas of the source take: a notional amount is turned into a unit
 * per token of supply, rounded toward zero, and the unit back into the notional of a quantity.
 */
module ProRata {
  import opened Nonlinear
  import opened FixedPoint

  function Share(notional: int, supply: int, quantity: int): int
    requires supply != 0
  {
    PreciseMul(PreciseDiv(notional, supply), quantity)
  }

  /** The shares that several quantities take of the same notional, all from one snapshot. */
  function Shares(notional: int, supply: int, quantities: seq<int>): seq<int>
    requires supply != 0
  {
    seq(|quantities|, i requires 0 <= i < |quantities| => Share(notional, supply, quantities[i]))
  }

  function Sum(xs: seq<int>): int {
    if xs == [] then 0 else xs[0] + Sum(xs[1..])
  }

  function SumAbs(xs: seq<int>): int {
    if xs == [] then 0 else Abs(xs[0]) + SumAbs(xs[1..])
  }

  ghost predicate NonNegative(xs: seq<int>) {
    forall i :: 0 <= i < |xs| ==> 0 <= xs[i]
  }

  /** `x` points the same way as `whole`, or is zero. */
  predicate SameSideOrZero(x: int, whole: int) {
    (0 <= whole ==> 0 <= x) && (whole <= 0 ==> x <= 0)
  }

  lemma ShareBounds(notional: int, supply: int, quantity: int)
    requires 0 < supply && 0 <= quantity
    ensures SameSideOrZero(Share(notional, supply, quantity), notional)
    ensures Abs(Share(notional, supply, quantity)) == Share(Abs(notional), supply, quantity)
    ensures Abs(Share(notional, supply, quantity)) * PRECISE_UNIT <= PreciseDiv(Abs(notional), supply) * quantity
  {
    PreciseDivSigns(notional, supply);
    PreciseMulSigns(PreciseDiv(notional, supply), quantity);
    DivFloor(Abs(notional), supply);
    MulFloor(PreciseDiv(Abs(notional), supply), quantity);
  }

  /** A share keeps its notional's side and tracks its quantity, short by less than one base unit and one unit rounding. */
  lemma ShareTracksProportion(notional: int, supply: int, quantity: int)
    requires 0 < supply && 0 <= quantity
    ensures SameSideOrZero(Share(notional, supply, quantity), notional)
    ensures var share := Abs(Share(notional, supply, quantity));
            && share * supply <= Abs(notional) * quantity
            && Abs(notional) * PRECISE_UNIT * quantity
                 < (share + 1) * PRECISE_UNIT * supply + supply * quantity
  {
    ShareBounds(notional, supply, quantity);
    var unit := PreciseDiv(Abs(notional), supply);
    DivFloor(Abs(notional), supply);
    MulFloor(unit, quantity);
    Proportion(Abs(notional), supply, quantity, unit, Abs(Share(notional, supply, quantity)));
  }

  lemma Proportion(notional: int, supply: int, quantity: int, unit: int, share: int)
    requires 0 < supply && 0 <= quantity
    requires unit * supply <= notional * PRECISE_UNIT < unit * supply + supply
    requires share * PRECISE_UNIT <= unit * quantity < share * PRECISE_UNIT + PRECISE_UNIT
    ensures share * supply <= notional * quantity
    ensures notional * PRECISE_UNIT * quantity < (share + 1) * PRECISE_UNIT * supply + supply * quantity
  {
    MulLe(share * PRECISE_UNIT, unit * quantity, supply);
    MulLt(unit * quantity, (share + 1) * PRECISE_UNIT, supply);
    MulLe(unit * supply, notional * PRECISE_UNIT, quantity);
    MulLe(notional * PRECISE_UNIT, unit * supply + supply, quantity);
    assert unit * quantity * supply == unit * supply * quantity;
    assert share * PRECISE_UNIT * supply == share * supply * PRECISE_UNIT;
    assert (unit * supply + supply) * quantity == unit * supply * quantity + supply * quantity;
    assert notional * PRECISE_UNIT * quantity == notional * quantity * PRECISE_UNIT;
  }

  /** Amounts that are each within `unit` of their quantity are together within `unit` of the total. */
  lemma {:induction false} SumWithinUnit(amounts: seq<int>, quantities: seq<int>, unit: int)
    requires |amounts| == |quantities|
    requires forall i :: 0 <= i < |amounts| ==> Abs(amounts[i]) * PRECISE_UNIT <= unit * quantities[i]
    ensures SumAbs(amounts) * PRECISE_UNIT <= unit * Sum(quantities)
  {
    if amounts != [] {
      SumWithinUnit(amounts[1..], quantities[1..], unit);
      Distribute(quantities[0], Sum(quantities[1..]), unit);
    }
  }

  /** However the supply is split, the shares never add up to more than what is shared. */
  lemma SharesConserve(notional: int, supply: int, quantities: seq<int>)
    requires 0 < supply && NonNegative(quantities) && Sum(quantities) <= supply
    ensures SumAbs(Shares(notional, supply, quantities)) <= Abs(notional)
    ensures forall i :: 0 <= i < |quantities| ==> SameSideOrZero(Shares(notional, supply, quantities)[i], notional)
  {
    var unit := PreciseDiv(Abs(notional), supply);
    var shares := Shares(notional, supply, quantities);
    forall i | 0 <= i < |quantities|
      ensures SameSideOrZero(shares[i], notional)
      ensures Abs(shares[i]) * PRECISE_UNIT <= unit * quantities[i]
    {
      ShareBounds(notional, supply, quantities[i]);
    }
    SumWithinUnit(shares, quantities, unit);
    CapBySupply(SumAbs(shares), Abs(notional), supply, Sum(quantities));
  }

  lemma CapBySupply(total: int, notional: int, supply: int, quantity: int)
    requires 0 <= notional && 0 < supply && quantity <= supply
    requires total * PRECISE_UNIT <= PreciseDiv(notional, supply) * quantity
    ensures total <= notional
  {
    DivFloor(notional, supply);
    MulLe(quantity, supply, PreciseDiv(notional, supply));
  }
}
