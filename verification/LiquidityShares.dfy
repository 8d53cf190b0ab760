/** Shares of a two-asset liquidity pool, and the quantity to engage to hold a given share outside of it. */
module LiquidityShares {
  import opened Nonlinear
  import opened FixedPoint
  import opened ProRata

  /** The Set's part of both reserves. Reserves, pool supply and the staked balance are arguments. */
  function TokensInReserve(reserveOne: int, reserveTwo: int, totalSupply: int, lpBalance: int): (int, int)
    requires totalSupply != 0
  {
    (Share(reserveOne, totalSupply, lpBalance), Share(reserveTwo, totalSupply, lpBalance))
  }

  function EngageQuantity(inReserve: int, balance: int, reservePercentage: int): int {
    PreciseMul(inReserve, reservePercentage) - PreciseMul(balance, PRECISE_UNIT - reservePercentage)
  }

  function EngageQuantities(reserveOne: int, reserveTwo: int, totalSupply: int, lpBalance: int,
                            balanceOne: int, balanceTwo: int, reservePercentage: int): (int, int)
    requires totalSupply != 0
  {
    var (one, two) := TokensInReserve(reserveOne, reserveTwo, totalSupply, lpBalance);
    (EngageQuantity(one, balanceOne, reservePercentage), EngageQuantity(two, balanceTwo, reservePercentage))
  }

  /** A holding is within one unit of the percentage of itself before engaging and the pool share together. */
  ghost predicate ReachesPercentage(holding: int, balance: int, inReserve: int, reservePercentage: int) {
    var target := reservePercentage * (balance + inReserve);
    0 <= holding && target - PRECISE_UNIT < holding * PRECISE_UNIT < target + PRECISE_UNIT
  }

  function ClaimsOne(reserveOne: int, reserveTwo: int, totalSupply: int, lpBalances: seq<int>): seq<int>
    requires totalSupply != 0
  {
    seq(|lpBalances|, i requires 0 <= i < |lpBalances| => TokensInReserve(reserveOne, reserveTwo, totalSupply, lpBalances[i]).0)
  }

  function ClaimsTwo(reserveOne: int, reserveTwo: int, totalSupply: int, lpBalances: seq<int>): seq<int>
    requires totalSupply != 0
  {
    seq(|lpBalances|, i requires 0 <= i < |lpBalances| => TokensInReserve(reserveOne, reserveTwo, totalSupply, lpBalances[i]).1)
  }

  lemma {:induction false} SumOfNonNegative(xs: seq<int>)
    requires NonNegative(xs)
    ensures Sum(xs) == SumAbs(xs)
  {
    if xs != [] { SumOfNonNegative(xs[1..]); }
  }

  /** Each claim is proportional to the pool tokens held, short by less than one base unit and one unit rounding. */
  lemma ClaimsTrackReserves(reserveOne: int, reserveTwo: int, totalSupply: int, lpBalance: int)
    requires 0 <= reserveOne && 0 <= reserveTwo && 0 < totalSupply && 0 <= lpBalance
    ensures var (one, two) := TokensInReserve(reserveOne, reserveTwo, totalSupply, lpBalance);
            Proportional(one, reserveOne, totalSupply, lpBalance) && Proportional(two, reserveTwo, totalSupply, lpBalance)
  {
    ShareTracksProportion(reserveOne, totalSupply, lpBalance);
    ShareTracksProportion(reserveTwo, totalSupply, lpBalance);
  }

  predicate Proportional(claim: int, reserve: int, totalSupply: int, lpBalance: int) {
    && 0 <= claim && claim * totalSupply <= reserve * lpBalance
    && reserve * PRECISE_UNIT * lpBalance < (claim + 1) * PRECISE_UNIT * totalSupply + totalSupply * lpBalance
  }

  /** However the pool tokens are spread over holders, their claims never exceed either reserve. */
  lemma ClaimsConserveReserves(reserveOne: int, reserveTwo: int, totalSupply: int, lpBalances: seq<int>)
    requires 0 <= reserveOne && 0 <= reserveTwo && 0 < totalSupply
    requires NonNegative(lpBalances) && Sum(lpBalances) <= totalSupply
    ensures Sum(ClaimsOne(reserveOne, reserveTwo, totalSupply, lpBalances)) <= reserveOne
    ensures Sum(ClaimsTwo(reserveOne, reserveTwo, totalSupply, lpBalances)) <= reserveTwo
    ensures NonNegative(ClaimsOne(reserveOne, reserveTwo, totalSupply, lpBalances))
    ensures NonNegative(ClaimsTwo(reserveOne, reserveTwo, totalSupply, lpBalances))
  {
    SharesConserve(reserveOne, totalSupply, lpBalances);
    SharesConserve(reserveTwo, totalSupply, lpBalances);
    assert ClaimsOne(reserveOne, reserveTwo, totalSupply, lpBalances) == Shares(reserveOne, totalSupply, lpBalances);
    assert ClaimsTwo(reserveOne, reserveTwo, totalSupply, lpBalances) == Shares(reserveTwo, totalSupply, lpBalances);
    SumOfNonNegative(Shares(reserveOne, totalSupply, lpBalances));
    SumOfNonNegative(Shares(reserveTwo, totalSupply, lpBalances));
  }

  lemma EngageOne(inReserve: int, balance: int, reservePercentage: int)
    requires 0 <= inReserve && 0 <= balance && 0 <= reservePercentage <= PRECISE_UNIT
    ensures ReachesPercentage(balance + EngageQuantity(inReserve, balance, reservePercentage), balance, inReserve,
                              reservePercentage)
  {
    MulFloor(inReserve, reservePercentage);
    MulFloor(balance, PRECISE_UNIT - reservePercentage);
    Distribute(PRECISE_UNIT - reservePercentage, reservePercentage, balance);
    Distribute(balance, inReserve, reservePercentage);
    MulNonNeg(balance, reservePercentage);
  }

  /** Engaging both quantities brings both holdings to the percentage of holding and pool share together. */
  lemma EngageReachesPercentage(reserveOne: int, reserveTwo: int, totalSupply: int, lpBalance: int,
                                balanceOne: int, balanceTwo: int, reservePercentage: int)
    requires 0 <= reserveOne && 0 <= reserveTwo && 0 < totalSupply && 0 <= lpBalance
    requires 0 <= balanceOne && 0 <= balanceTwo && 0 <= reservePercentage <= PRECISE_UNIT
    ensures var (inOne, inTwo) := TokensInReserve(reserveOne, reserveTwo, totalSupply, lpBalance);
            var (engageOne, engageTwo) := EngageQuantities(reserveOne, reserveTwo, totalSupply, lpBalance,
                                                           balanceOne, balanceTwo, reservePercentage);
            && ReachesPercentage(balanceOne + engageOne, balanceOne, inOne, reservePercentage)
            && ReachesPercentage(balanceTwo + engageTwo, balanceTwo, inTwo, reservePercentage)
  {
    ShareBounds(reserveOne, totalSupply, lpBalance);
    ShareBounds(reserveTwo, totalSupply, lpBalance);
    var (inOne, inTwo) := TokensInReserve(reserveOne, reserveTwo, totalSupply, lpBalance);
    EngageOne(inOne, balanceOne, reservePercentage);
    EngageOne(inTwo, balanceTwo, reservePercentage);
  }
}
