/** The streaming fee: a yearly rate charged by inflating the supply and shrinking every position unit. */
module StreamingFee {
  import opened Nonlinear
  import opened FixedPoint

  const ONE_YEAR_IN_SECONDS: int := 31_557_600

  /** Fee for the time since the last accrual, as a fraction of `PRECISE_UNIT`. */
  function Fee(previous: int, recent: int, rate: int): int {
    TruncDiv((recent - previous) * rate, ONE_YEAR_IN_SECONDS)
  }

  /** Tokens minted to the fee recipient. */
  function InflationAmount(percent: int, supply: int): int
    requires percent != PRECISE_UNIT
  {
    TruncDiv(percent * supply, PRECISE_UNIT - percent)
  }

  function PostFeeUnit(unit: int, percent: int): int {
    if 0 <= unit then PreciseMul(unit, PRECISE_UNIT - percent)
    else PreciseMulCeilInt(unit, PRECISE_UNIT - percent)
  }

  /** What the fee leaves of the unit: an asset rounded down, the magnitude of a debt rounded up. */
  predicate Shrunk(unit: int, shrunk: int, percent: int) {
    var kept := PRECISE_UNIT - percent;
    if 0 <= unit then 0 <= shrunk && shrunk * PRECISE_UNIT <= unit * kept < (shrunk + 1) * PRECISE_UNIT
    else shrunk <= 0 && (-shrunk - 1) * PRECISE_UNIT < -unit * kept <= -shrunk * PRECISE_UNIT
  }

  lemma PostFeeUnitIsShrunk(unit: int, percent: int)
    requires 0 <= percent <= PRECISE_UNIT
    ensures Shrunk(unit, PostFeeUnit(unit, percent), percent)
  {
    if 0 <= unit {
      MulFloor(unit, PRECISE_UNIT - percent);
    } else {
      MulCeil(-unit, PRECISE_UNIT - percent);
      MulCeilIntByMagnitude(unit, PRECISE_UNIT - percent);
    }
  }

  /** The new unit of every position, pushed one by one. */
  method PostFeePositionUnits(units: seq<int>, percent: int) returns (newUnits: seq<int>)
    ensures newUnits == PostFeeUnits(units, percent)
    ensures 0 <= percent <= PRECISE_UNIT ==>
              |newUnits| == |units| && forall i :: 0 <= i < |units| ==> Shrunk(units[i], newUnits[i], percent)
  {
    newUnits := [];
    for i := 0 to |units|
      invariant newUnits == PostFeeUnits(units[..i], percent)
    {
      if 0 <= units[i] {
        newUnits := newUnits + [PreciseMul(units[i], PRECISE_UNIT - percent)];
      } else {
        newUnits := newUnits + [PreciseMulCeilInt(units[i], PRECISE_UNIT - percent)];
      }
      assert units[..i + 1] == units[..i] + [units[i]];
    }
    assert units[..|units|] == units;
    if 0 <= percent <= PRECISE_UNIT {
      forall i | 0 <= i < |units|
        ensures Shrunk(units[i], newUnits[i], percent)
      {
        PostFeeUnitIsShrunk(units[i], percent);
      }
    }
  }

  function PostFeeUnits(units: seq<int>, percent: int): seq<int> {
    seq(|units|, i requires 0 <= i < |units| => PostFeeUnit(units[i], percent))
  }

  // ---------- One accrual ----------

  lemma FeeFloor(previous: int, recent: int, rate: int, q: int)
    requires previous <= recent && 0 <= rate
    ensures 0 <= Fee(previous, recent, rate)
    ensures q <= Fee(previous, recent, rate) <==> q * ONE_YEAR_IN_SECONDS <= (recent - previous) * rate
  {
    MulNonNeg(recent - previous, rate);
    QuotientGalois((recent - previous) * rate, ONE_YEAR_IN_SECONDS, q);
  }

  /** Minting inflates the supply to the old supply over what the fee leaves of it, rounded down. */
  lemma InflatedSupply(percent: int, supply: int, q: int)
    requires 0 <= percent < PRECISE_UNIT && 0 <= supply
    ensures 0 <= InflationAmount(percent, supply)
    ensures q <= supply + InflationAmount(percent, supply) <==> q * (PRECISE_UNIT - percent) <= supply * PRECISE_UNIT
  {
    var kept := PRECISE_UNIT - percent;
    MulNonNeg(percent, supply);
    QuotientGalois(percent * supply, kept, q - supply);
    assert (q - supply) * kept == q * kept - supply * PRECISE_UNIT + percent * supply;
  }

  /** The mint is the largest that gives the recipient at most the fee's fraction of the new supply. */
  lemma MintIsLargestFairShare(percent: int, supply: int, mint: int)
    requires 0 <= percent < PRECISE_UNIT && 0 <= supply
    ensures mint <= InflationAmount(percent, supply) <==> mint * PRECISE_UNIT <= percent * (supply + mint)
  {
    InflatedSupply(percent, supply, supply + mint);
    assert (supply + mint) * (PRECISE_UNIT - percent)
        == supply * PRECISE_UNIT + mint * PRECISE_UNIT - percent * (supply + mint);
  }

  /** An asset unit shrinks at least as much as the supply grows, and no more than one rounding each beyond it. */
  lemma AssetStaysCovered(unit: int, percent: int, supply: int)
    requires 0 <= unit && 0 <= percent < PRECISE_UNIT && 0 <= supply
    ensures 0 <= PostFeeUnit(unit, percent)
    ensures PostFeeUnit(unit, percent) * (supply + InflationAmount(percent, supply)) <= unit * supply
    ensures unit * supply < (PostFeeUnit(unit, percent) + 1) * (supply + InflationAmount(percent, supply) + 1)
  {
    var kept := PRECISE_UNIT - percent;
    var inflated := supply + InflationAmount(percent, supply);
    InflatedSupply(percent, supply, inflated);
    InflatedSupply(percent, supply, inflated + 1);
    MulFloor(unit, kept);
    var shrunk := PostFeeUnit(unit, percent);
    UpperProduct(shrunk, unit, inflated, supply, kept);
    LowerProduct(shrunk + 1, unit, inflated + 1, supply, kept);
  }

  lemma UpperProduct(shrunk: int, unit: int, inflated: int, supply: int, kept: int)
    requires 0 <= unit && 0 <= inflated
    requires shrunk * PRECISE_UNIT <= unit * kept && inflated * kept <= supply * PRECISE_UNIT
    ensures shrunk * inflated <= unit * supply
  {
    MulLe(shrunk * PRECISE_UNIT, unit * kept, inflated);
    MulLe(inflated * kept, supply * PRECISE_UNIT, unit);
    assert unit * kept * inflated == inflated * kept * unit;
    assert shrunk * PRECISE_UNIT * inflated == shrunk * inflated * PRECISE_UNIT;
  }

  lemma LowerProduct(shrunk: int, unit: int, inflated: int, supply: int, kept: int)
    requires 0 <= unit && 0 < inflated
    requires unit * kept < shrunk * PRECISE_UNIT && supply * PRECISE_UNIT < inflated * kept
    ensures unit * supply < shrunk * inflated
  {
    MulLt(unit * kept, shrunk * PRECISE_UNIT, inflated);
    MulLe(supply * PRECISE_UNIT, inflated * kept, unit);
    assert unit * kept * inflated == inflated * kept * unit;
    assert shrunk * PRECISE_UNIT * inflated == shrunk * inflated * PRECISE_UNIT;
  }

  /** A debt unit is never understated: its magnitude over the next larger supply exceeds the old debt. */
  lemma DebtIsNotUnderstated(unit: int, percent: int, supply: int)
    requires unit < 0 && 0 <= percent < PRECISE_UNIT && 0 <= supply
    ensures unit <= PostFeeUnit(unit, percent) < 0
    ensures -unit * supply < -PostFeeUnit(unit, percent) * (supply + InflationAmount(percent, supply) + 1)
  {
    var kept := PRECISE_UNIT - percent;
    var inflated := supply + InflationAmount(percent, supply);
    InflatedSupply(percent, supply, inflated);
    InflatedSupply(percent, supply, inflated + 1);
    MulCeil(-unit, kept);
    MulCeilIntByMagnitude(unit, kept);
    MagnitudeShrinks(-unit, percent);
    LowerDebtProduct(-PostFeeUnit(unit, percent), -unit, inflated + 1, supply, kept);
  }

  /** Nor is it overstated: with one unit less of magnitude, the new supply would owe no more than the old one. */
  lemma DebtIsNotOverstated(unit: int, percent: int, supply: int)
    requires unit < 0 && 0 <= percent < PRECISE_UNIT && 0 <= supply
    ensures (-PostFeeUnit(unit, percent) - 1) * (supply + InflationAmount(percent, supply)) <= -unit * supply
  {
    var kept := PRECISE_UNIT - percent;
    var inflated := supply + InflationAmount(percent, supply);
    InflatedSupply(percent, supply, inflated);
    MulCeil(-unit, kept);
    MulCeilIntByMagnitude(unit, kept);
    UpperProduct(-PostFeeUnit(unit, percent) - 1, -unit, inflated, supply, kept);
  }

  lemma MagnitudeShrinks(unit: int, percent: int)
    requires 0 < unit && 0 <= percent < PRECISE_UNIT
    ensures 0 < PreciseMulCeil(unit, PRECISE_UNIT - percent) <= unit
  {
    var kept := PRECISE_UNIT - percent;
    MulCeilGalois(unit, kept, unit);
    MulCeilGalois(unit, kept, 0);
    MulLe(kept, PRECISE_UNIT, unit);
    MulLe(1, unit, kept);
  }

  lemma LowerDebtProduct(shrunk: int, unit: int, inflated: int, supply: int, kept: int)
    requires 0 < unit && 0 < inflated
    requires unit * kept <= shrunk * PRECISE_UNIT && supply * PRECISE_UNIT < inflated * kept
    ensures unit * supply < shrunk * inflated
  {
    MulLe(unit * kept, shrunk * PRECISE_UNIT, inflated);
    MulLt(supply * PRECISE_UNIT, inflated * kept, unit);
    assert unit * kept * inflated == inflated * kept * unit;
    assert shrunk * PRECISE_UNIT * inflated == shrunk * inflated * PRECISE_UNIT;
  }

  // ---------- Any schedule of accruals ----------

  /** Timestamps in order, each interval with a fee below the whole. */
  predicate Chargeable(last: int, times: seq<int>, rate: int)
    decreases times
  {
    times == [] ||
    (last <= times[0] && 0 <= rate && Fee(last, times[0], rate) < PRECISE_UNIT && Chargeable(times[0], times[1..], rate))
  }

  function SupplyAfter(supply: int, last: int, times: seq<int>, rate: int): int
    requires Chargeable(last, times, rate)
    decreases times
  {
    if times == [] then supply
    else SupplyAfter(supply + InflationAmount(Fee(last, times[0], rate), supply), times[0], times[1..], rate)
  }

  function UnitsAfter(units: seq<int>, last: int, times: seq<int>, rate: int): (after: seq<int>)
    ensures |after| == |units|
    decreases times
  {
    if times == [] then units
    else UnitsAfter(PostFeeUnits(units, Fee(last, times[0], rate)), times[0], times[1..], rate)
  }

  /** Fees of adjacent intervals never add up to more than the fee of the whole. */
  lemma FeeSuperadditive(a: int, b: int, c: int, rate: int)
    requires a <= b <= c && 0 <= rate
    ensures 0 <= Fee(a, b, rate) && 0 <= Fee(b, c, rate)
    ensures Fee(a, b, rate) + Fee(b, c, rate) <= Fee(a, c, rate)
  {
    var whole := Fee(a, b, rate) + Fee(b, c, rate);
    FeeFloor(a, b, rate, Fee(a, b, rate));
    FeeFloor(b, c, rate, Fee(b, c, rate));
    FeeFloor(a, c, rate, whole);
    assert (c - a) * rate == (b - a) * rate + (c - b) * rate;
  }

  /** A larger supply or a larger fee inflates to a larger supply. */
  lemma InflationMonotone(p: int, supply: int, p': int, supply': int)
    requires 0 <= p <= p' < PRECISE_UNIT && 0 <= supply <= supply'
    ensures supply + InflationAmount(p, supply) <= supply' + InflationAmount(p', supply')
  {
    var inflated := supply + InflationAmount(p, supply);
    InflatedSupply(p, supply, inflated);
    MonotoneBound(p, supply, p', supply', inflated);
    InflatedSupply(p', supply', inflated);
  }

  lemma MonotoneBound(p: int, supply: int, p': int, supply': int, inflated: int)
    requires p <= p' && supply <= supply' && 0 <= inflated
    requires inflated * (PRECISE_UNIT - p) <= supply * PRECISE_UNIT
    ensures inflated * (PRECISE_UNIT - p') <= supply' * PRECISE_UNIT
  {
    MulLe(PRECISE_UNIT - p', PRECISE_UNIT - p, inflated);
  }

  /** Charging two fees one after the other inflates no more than charging their sum at once. */
  lemma InflationComposes(p: int, q: int, supply: int)
    requires 0 <= p && 0 <= q && p + q < PRECISE_UNIT && 0 <= supply
    ensures var middle := supply + InflationAmount(p, supply);
            middle + InflationAmount(q, middle) <= supply + InflationAmount(p + q, supply)
  {
    var middle := supply + InflationAmount(p, supply);
    var end := middle + InflationAmount(q, middle);
    InflatedSupply(p, supply, middle);
    InflatedSupply(q, middle, end);
    InflatedSupply(p + q, supply, end);
    ComposedBound(p, q, supply, middle, end);
  }

  lemma ComposedBound(p: int, q: int, supply: int, middle: int, end: int)
    requires 0 <= p && 0 <= q && p + q < PRECISE_UNIT && 0 <= end
    requires middle * (PRECISE_UNIT - p) <= supply * PRECISE_UNIT
    requires end * (PRECISE_UNIT - q) <= middle * PRECISE_UNIT
    ensures end * (PRECISE_UNIT - (p + q)) <= supply * PRECISE_UNIT
  {
    var kp, kq := PRECISE_UNIT - p, PRECISE_UNIT - q;
    MulLe(end * kq, middle * PRECISE_UNIT, kp);
    MulNonNeg(p, q);
    assert kq * kp == PRECISE_UNIT * (PRECISE_UNIT - (p + q)) + p * q;
    MulLe(PRECISE_UNIT * (PRECISE_UNIT - (p + q)), kq * kp, end);
    assert end * kq * kp == kq * kp * end;
    assert middle * PRECISE_UNIT * kp == middle * kp * PRECISE_UNIT;
  }

  lemma TwoFeesInflateNoMore(p: int, q: int, whole: int, supply: int)
    requires 0 <= p && 0 <= q && p + q <= whole < PRECISE_UNIT && 0 <= supply
    ensures var middle := supply + InflationAmount(p, supply);
            0 <= supply <= middle <= middle + InflationAmount(q, middle) <= supply + InflationAmount(whole, supply)
  {
    InflatedSupply(p, supply, supply);
    InflatedSupply(q, supply + InflationAmount(p, supply), supply);
    InflationComposes(p, q, supply);
    InflationMonotone(p + q, supply, whole, supply);
  }

  lemma {:induction false} SupplyAfterMonotone(supply: int, supply': int, last: int, times: seq<int>, rate: int)
    requires 0 <= supply <= supply' && Chargeable(last, times, rate)
    ensures supply <= SupplyAfter(supply, last, times, rate) <= SupplyAfter(supply', last, times, rate)
    decreases times
  {
    if times != [] {
      var p := Fee(last, times[0], rate);
      FeeFloor(last, times[0], rate, p);
      InflationMonotone(p, supply, p, supply');
      InflatedSupply(p, supply, supply);
      SupplyAfterMonotone(supply + InflationAmount(p, supply), supply' + InflationAmount(p, supply'),
                          times[0], times[1..], rate);
    }
  }

  lemma SkippingTheFirstMintsMore(supply: int, last: int, times: seq<int>, rate: int)
    requires 0 <= supply && 1 < |times| && Chargeable(last, times, rate) && Chargeable(last, times[1..], rate)
    ensures SupplyAfter(supply, last, times, rate) <= SupplyAfter(supply, last, times[1..], rate)
  {
    var p, q, whole := Fee(last, times[0], rate), Fee(times[0], times[1], rate), Fee(last, times[1], rate);
    FeeSuperadditive(last, times[0], times[1], rate);
    TwoFeesInflateNoMore(p, q, whole, supply);
    var middle := supply + InflationAmount(p, supply);
    SupplyAfterMonotone(middle + InflationAmount(q, middle), supply + InflationAmount(whole, supply),
                        times[1], times[1..][1..], rate);
  }

  /** Leaving out any accrual but the last never lowers the final supply: accruing more often only mints less. */
  lemma {:induction false} SkippingAnAccrualMintsMore(supply: int, last: int, times: seq<int>, rate: int, k: nat)
    requires 0 <= supply && k + 1 < |times| && Chargeable(last, times, rate)
    requires Chargeable(last, times[..k] + times[k + 1..], rate)
    ensures SupplyAfter(supply, last, times, rate) <= SupplyAfter(supply, last, times[..k] + times[k + 1..], rate)
    decreases k
  {
    var skipped := times[..k] + times[k + 1..];
    if k == 0 {
      assert skipped == times[1..];
      SkippingTheFirstMintsMore(supply, last, times, rate);
    } else {
      assert skipped[0] == times[0];
      assert skipped[1..] == times[1..][..k - 1] + times[1..][k..];
      var p := Fee(last, times[0], rate);
      FeeFloor(last, times[0], rate, p);
      InflatedSupply(p, supply, supply);
      SkippingAnAccrualMintsMore(supply + InflationAmount(p, supply), times[0], times[1..], rate, k - 1);
    }
  }

  lemma {:induction false} InOrder(last: int, times: seq<int>, rate: int)
    requires times != [] && Chargeable(last, times, rate)
    ensures last <= times[|times| - 1] && 0 <= rate
    decreases times
  {
    if |times| > 1 {
      InOrder(times[0], times[1..], rate);
    }
  }

  /** No schedule of accruals mints more than a single accrual over the whole period. */
  lemma {:induction false} ScheduleMintsAtMostOneAccrual(supply: int, last: int, times: seq<int>, rate: int)
    requires 0 <= supply && times != [] && Chargeable(last, times, rate)
    requires Fee(last, times[|times| - 1], rate) < PRECISE_UNIT
    ensures SupplyAfter(supply, last, times, rate)
         <= supply + InflationAmount(Fee(last, times[|times| - 1], rate), supply)
    decreases |times|
  {
    if |times| > 1 {
      var end := times[|times| - 1];
      var p := Fee(last, times[0], rate);
      InOrder(times[0], times[1..], rate);
      FeeSuperadditive(last, times[0], end, rate);
      TwoFeesInflateNoMore(p, Fee(times[0], end, rate), Fee(last, end, rate), supply);
      ScheduleMintsAtMostOneAccrual(supply + InflationAmount(p, supply), times[0], times[1..], rate);
    } else {
      assert times[1..] == [];
    }
  }

  /** Over any schedule, every asset unit times the supply never exceeds what it was. */
  lemma {:induction false} ScheduleKeepsAssetsCovered(units: seq<int>, supply: int, last: int, times: seq<int>,
                                                      rate: int, i: nat)
    requires i < |units| && 0 <= units[i] && 0 <= supply && Chargeable(last, times, rate)
    ensures 0 <= UnitsAfter(units, last, times, rate)[i]
    ensures UnitsAfter(units, last, times, rate)[i] * SupplyAfter(supply, last, times, rate) <= units[i] * supply
    decreases times
  {
    if times != [] {
      var p := Fee(last, times[0], rate);
      FeeFloor(last, times[0], rate, p);
      AssetStaysCovered(units[i], p, supply);
      InflatedSupply(p, supply, supply);
      ScheduleKeepsAssetsCovered(PostFeeUnits(units, p), supply + InflationAmount(p, supply),
                                 times[0], times[1..], rate, i);
    }
  }

  /**
   * What rounding can hide of a debt over a schedule, as a number of tokens: it inflates like a supply and
   * gains two per accrual, whatever the supply of the Set.
   */
  function DebtSlack(slack: int, last: int, times: seq<int>, rate: int): int
    requires Chargeable(last, times, rate)
    decreases times
  {
    if times == [] then slack
    else DebtSlack(slack + InflationAmount(Fee(last, times[0], rate), slack) + 2, times[0], times[1..], rate)
  }

  lemma DebtStaysStated(unit: int, percent: int, supply: int, slack: int)
    requires unit < 0 && 0 <= percent < PRECISE_UNIT && 0 <= supply && 0 <= slack
    ensures -unit * (supply + slack)
          < -PostFeeUnit(unit, percent)
            * (supply + InflationAmount(percent, supply) + (slack + InflationAmount(percent, slack) + 2))
  {
    var kept := PRECISE_UNIT - percent;
    var inflated := supply + InflationAmount(percent, supply) + 1;
    var inflatedSlack := slack + InflationAmount(percent, slack) + 1;
    InflatedSupply(percent, supply, inflated);
    InflatedSupply(percent, slack, inflatedSlack);
    Distribute(inflated, inflatedSlack, kept);
    MulCeil(-unit, kept);
    MulCeilIntByMagnitude(unit, kept);
    LowerDebtProduct(-PostFeeUnit(unit, percent), -unit, inflated + inflatedSlack, supply + slack, kept);
  }

  lemma {:induction false} DebtsStatedUpToSlack(units: seq<int>, supply: int, slack: int, last: int,
                                                times: seq<int>, rate: int, i: nat)
    requires i < |units| && units[i] < 0 && 0 <= supply && 0 <= slack && Chargeable(last, times, rate)
    ensures UnitsAfter(units, last, times, rate)[i] < 0
    ensures -units[i] * (supply + slack)
         <= -UnitsAfter(units, last, times, rate)[i]
            * (SupplyAfter(supply, last, times, rate) + DebtSlack(slack, last, times, rate))
    decreases times
  {
    if times != [] {
      var p := Fee(last, times[0], rate);
      FeeFloor(last, times[0], rate, p);
      DebtIsNotUnderstated(units[i], p, supply);
      DebtStaysStated(units[i], p, supply, slack);
      InflatedSupply(p, supply, supply);
      InflatedSupply(p, slack, slack);
      DebtsStatedUpToSlack(PostFeeUnits(units, p), supply + InflationAmount(p, supply),
                           slack + InflationAmount(p, slack) + 2, times[0], times[1..], rate, i);
    }
  }

  /** In closed form the slack of `n` accruals is at most two tokens each, inflated by the fee of the whole period. */
  lemma {:induction false} DebtSlackBound(slack: int, last: int, times: seq<int>, rate: int)
    requires 0 <= slack && times != [] && Chargeable(last, times, rate)
    requires Fee(last, times[|times| - 1], rate) < PRECISE_UNIT
    ensures 0 <= DebtSlack(slack, last, times, rate)
    ensures DebtSlack(slack, last, times, rate) * (PRECISE_UNIT - Fee(last, times[|times| - 1], rate))
         <= (slack + 2 * |times|) * PRECISE_UNIT
    decreases |times|
  {
    var p := Fee(last, times[0], rate);
    FeeFloor(last, times[0], rate, p);
    var inflated := slack + InflationAmount(p, slack);
    InflatedSupply(p, slack, inflated);
    if |times| > 1 {
      var end := times[|times| - 1];
      InOrder(times[0], times[1..], rate);
      FeeSuperadditive(last, times[0], end, rate);
      DebtSlackBound(inflated + 2, times[0], times[1..], rate);
      SlackCompose(p, Fee(times[0], end, rate), Fee(last, end, rate), slack, inflated, |times| - 1,
                   DebtSlack(slack, last, times, rate));
    } else {
      assert times[1..] == [];
      assert DebtSlack(slack, last, times, rate) == inflated + 2;
      Distribute(inflated, 2, PRECISE_UNIT - p);
    }
  }

  lemma SlackCompose(p: int, q: int, whole: int, slack: int, inflated: int, n: nat, end: int)
    requires 0 <= p && 0 <= q && p + q <= whole < PRECISE_UNIT && 0 <= end
    requires inflated * (PRECISE_UNIT - p) <= slack * PRECISE_UNIT
    requires end * (PRECISE_UNIT - q) <= (inflated + 2 + 2 * n) * PRECISE_UNIT
    ensures end * (PRECISE_UNIT - whole) <= (slack + 2 * (n + 1)) * PRECISE_UNIT
  {
    var kp := PRECISE_UNIT - p;
    assert (inflated + 2 + 2 * n) * kp == inflated * kp + 2 * (n + 1) * kp;
    MulLe(kp, PRECISE_UNIT, 2 * (n + 1));
    var virtual := slack + 2 * (n + 1);
    assert (inflated + 2 + 2 * n) * kp <= virtual * PRECISE_UNIT;
    ComposedBound(p, q, virtual, inflated + 2 + 2 * n, end);
    MulLe(PRECISE_UNIT - whole, PRECISE_UNIT - (p + q), end);
  }

  /**
   * No schedule hides more of a debt than rounding two tokens per accrual would: the new unit over the new
   * supply, and over two tokens for each of the accruals inflated by the fee of the whole period, is at least
   * the old debt.
   */
  lemma ScheduleKeepsDebtsStated(units: seq<int>, supply: int, last: int, times: seq<int>, rate: int, i: nat)
    requires i < |units| && units[i] < 0 && 0 <= supply && times != [] && Chargeable(last, times, rate)
    requires Fee(last, times[|times| - 1], rate) < PRECISE_UNIT
    ensures UnitsAfter(units, last, times, rate)[i] < 0
    ensures var kept := PRECISE_UNIT - Fee(last, times[|times| - 1], rate);
            -units[i] * supply * kept
              <= -UnitsAfter(units, last, times, rate)[i]
                 * (SupplyAfter(supply, last, times, rate) * kept + 2 * |times| * PRECISE_UNIT)
  {
    DebtsStatedUpToSlack(units, supply, 0, last, times, rate, i);
    DebtSlackBound(0, last, times, rate);
    ReplaceSlack(-units[i] * supply, -UnitsAfter(units, last, times, rate)[i], SupplyAfter(supply, last, times, rate),
                 DebtSlack(0, last, times, rate), 2 * |times| * PRECISE_UNIT,
                 PRECISE_UNIT - Fee(last, times[|times| - 1], rate));
  }

  lemma ReplaceSlack(debt: int, unit: int, supply: int, slack: int, bound: int, kept: int)
    requires 0 <= unit && 0 < kept
    requires debt <= unit * (supply + slack) && slack * kept <= bound
    ensures debt * kept <= unit * (supply * kept + bound)
  {
    MulLe(debt, unit * (supply + slack), kept);
    MulLe((supply + slack) * kept, supply * kept + bound, unit);
    assert unit * (supply + slack) * kept == (supply + slack) * kept * unit;
  }

  /** Nor does any schedule overstate a debt by more than one unit of the final supply per accrual. */
  lemma {:induction false} ScheduleOverstatesNoDebt(units: seq<int>, supply: int, last: int, times: seq<int>,
                                                    rate: int, i: nat)
    requires i < |units| && units[i] < 0 && 0 <= supply && Chargeable(last, times, rate)
    ensures (-UnitsAfter(units, last, times, rate)[i] - |times|) * SupplyAfter(supply, last, times, rate)
         <= -units[i] * supply
    decreases times
  {
    if times != [] {
      var p := Fee(last, times[0], rate);
      FeeFloor(last, times[0], rate, p);
      InflatedSupply(p, supply, supply);
      var inflated := supply + InflationAmount(p, supply);
      DebtIsNotUnderstated(units[i], p, supply);
      DebtIsNotOverstated(units[i], p, supply);
      SupplyAfterMonotone(inflated, inflated, times[0], times[1..], rate);
      ScheduleOverstatesNoDebt(PostFeeUnits(units, p), inflated, times[0], times[1..], rate, i);
      OneMoreUnit(-UnitsAfter(units, last, times, rate)[i], |times| - 1, SupplyAfter(supply, last, times, rate),
                  -PostFeeUnit(units[i], p), inflated, -units[i] * supply);
    }
  }

  lemma OneMoreUnit(after: int, n: int, supply': int, unit: int, supply: int, debt: int)
    requires supply <= supply'
    requires (after - n) * supply' <= unit * supply && (unit - 1) * supply <= debt
    ensures (after - (n + 1)) * supply' <= debt
  {
    assert (after - (n + 1)) * supply' == (after - n) * supply' - supply';
    NextMultiples(unit, supply);
  }

  // ---------- What a schedule charges at least, and at most ----------

  function FeesCharged(last: int, times: seq<int>, rate: int): int
    decreases times
  {
    if times == [] then 0 else Fee(last, times[0], rate) + FeesCharged(times[0], times[1..], rate)
  }

  /** The fees of a schedule are the fee of the whole period, short of it by less than one for each accrual. */
  lemma {:induction false} FeesChargedTrackPeriod(last: int, times: seq<int>, rate: int)
    requires times != [] && Chargeable(last, times, rate)
    ensures 0 <= FeesCharged(last, times, rate) <= Fee(last, times[|times| - 1], rate)
                                                < FeesCharged(last, times, rate) + |times|
    decreases |times|
  {
    var end := times[|times| - 1];
    FeeFloor(last, times[0], rate, Fee(last, times[0], rate));
    if |times| > 1 {
      var p, q, whole := Fee(last, times[0], rate), Fee(times[0], end, rate), Fee(last, end, rate);
      InOrder(times[0], times[1..], rate);
      FeeSuperadditive(last, times[0], end, rate);
      FeesChargedTrackPeriod(times[0], times[1..], rate);
      FeeFloor(last, times[0], rate, p + 1);
      FeeFloor(times[0], end, rate, q + 1);
      FeeFloor(last, end, rate, whole);
      assert (end - last) * rate == (times[0] - last) * rate + (end - times[0]) * rate;
    } else {
      assert times[1..] == [];
    }
  }

  /** A schedule mints at least the fees on the first supply, less one token per accrual. */
  lemma {:induction false} ScheduleMintsFees(supply: int, last: int, times: seq<int>, rate: int)
    requires 0 <= supply && Chargeable(last, times, rate)
    ensures supply * FeesCharged(last, times, rate)
         <= (SupplyAfter(supply, last, times, rate) - supply + |times|) * PRECISE_UNIT
    ensures 0 <= FeesCharged(last, times, rate)
    decreases times
  {
    if times != [] {
      var p := Fee(last, times[0], rate);
      FeeFloor(last, times[0], rate, p);
      InflatedSupply(p, supply, supply);
      var inflated := supply + InflationAmount(p, supply);
      InflatedSupply(p, supply, inflated + 1);
      ScheduleMintsFees(inflated, times[0], times[1..], rate);
      FeesAddUp(supply, inflated, p, FeesCharged(times[0], times[1..], rate));
    }
  }

  lemma FeesAddUp(supply: int, inflated: int, p: int, fees: int)
    requires 0 <= supply <= inflated && 0 <= p < PRECISE_UNIT && 0 <= fees
    requires supply * PRECISE_UNIT < (inflated + 1) * (PRECISE_UNIT - p)
    ensures supply * (p + fees) <= (inflated - supply + 1) * PRECISE_UNIT + inflated * fees
  {
    MulLe(supply, inflated + 1, p);
    MulLe(supply, inflated, fees);
    Distribute(p, fees, supply);
  }

  lemma LowerFactor(a: int, b: int, c: int, bound: int)
    requires 0 <= a && b <= c && a * c <= bound
    ensures a * b <= bound
  {
    MulLe(b, c, a);
  }

  lemma RaiseFactor(a: int, b: int, c: int, bound: int)
    requires 0 <= a && b <= c && bound <= a * b
    ensures bound <= a * c
  {
    MulLe(b, c, a);
  }

  /** In closed form: at least the whole period's fee on the first supply, less a token and a unit of fee per accrual. */
  lemma ScheduleMintsAtLeastSimpleFee(supply: int, last: int, times: seq<int>, rate: int)
    requires 0 <= supply && times != [] && Chargeable(last, times, rate)
    ensures supply * (Fee(last, times[|times| - 1], rate) - |times|)
         <= (SupplyAfter(supply, last, times, rate) - supply + |times|) * PRECISE_UNIT
  {
    FeesChargedTrackPeriod(last, times, rate);
    ScheduleMintsFees(supply, last, times, rate);
    LowerFactor(supply, Fee(last, times[|times| - 1], rate) - |times|, FeesCharged(last, times, rate),
                (SupplyAfter(supply, last, times, rate) - supply + |times|) * PRECISE_UNIT);
  }

  lemma {:induction false} AssetsLoseOnlyFees(units: seq<int>, last: int, times: seq<int>, rate: int, i: nat)
    requires i < |units| && 0 <= units[i] && Chargeable(last, times, rate)
    ensures 0 <= UnitsAfter(units, last, times, rate)[i] <= units[i]
    ensures (units[i] - UnitsAfter(units, last, times, rate)[i] - |times|) * PRECISE_UNIT
         <= units[i] * FeesCharged(last, times, rate)
    ensures 0 <= FeesCharged(last, times, rate)
    decreases times
  {
    if times != [] {
      var p := Fee(last, times[0], rate);
      FeeFloor(last, times[0], rate, p);
      MulFloor(units[i], PRECISE_UNIT - p);
      var shrunk := PostFeeUnit(units[i], p);
      MulNonNeg(units[i], p);
      Distribute(PRECISE_UNIT - p, p, units[i]);
      AssetsLoseOnlyFees(PostFeeUnits(units, p), times[0], times[1..], rate, i);
      MulLe(shrunk, units[i], FeesCharged(times[0], times[1..], rate));
      Distribute(p, FeesCharged(times[0], times[1..], rate), units[i]);
    }
  }

  /** And at most: an asset unit loses no more than the whole period's fee on it and one unit per accrual. */
  lemma ScheduleTakesAtMostSimpleFee(units: seq<int>, last: int, times: seq<int>, rate: int, i: nat)
    requires i < |units| && 0 <= units[i] && times != [] && Chargeable(last, times, rate)
    ensures (units[i] - UnitsAfter(units, last, times, rate)[i] - |times|) * PRECISE_UNIT
         <= units[i] * Fee(last, times[|times| - 1], rate)
  {
    AssetsLoseOnlyFees(units, last, times, rate, i);
    FeesChargedTrackPeriod(last, times, rate);
    RaiseFactor(units[i], FeesCharged(last, times, rate), Fee(last, times[|times| - 1], rate),
                (units[i] - UnitsAfter(units, last, times, rate)[i] - |times|) * PRECISE_UNIT);
  }
}
