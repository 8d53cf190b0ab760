/**
 * Fixed-point arithmetic with 18 decimals over unbounded integers.
 * Division truncates toward zero, as the big-integer library of the source does.
 */
module FixedPoint {
  import opened Nonlinear

  const PRECISE_UNIT: int := 1_000_000_000_000_000_000

  function Abs(a: int): (r: int)
    ensures 0 <= r
  {
    if a < 0 then -a else a
  }

  /**
   * How often `b` fits into `a`. Spelled out rather than written with `/`, so that proofs meet a quotient
   * only through the bounds that define it.
   */
  function Quotient(a: nat, b: nat): nat
    requires 0 < b
    decreases a
  {
    if a < b then 0 else 1 + Quotient(a - b, b)
  }

  /** Division that truncates toward zero. */
  function TruncDiv(a: int, b: int): int
    requires b != 0
  {
    var magnitude: int := Quotient(Abs(a), Abs(b));
    if (0 <= a) == (0 <= b) then magnitude else -magnitude
  }

  function PreciseMul(a: int, b: int): int {
    TruncDiv(a * b, PRECISE_UNIT)
  }

  function PreciseMulCeil(a: int, b: int): int {
    if a == 0 || b == 0 then 0 else TruncDiv(a * b - 1, PRECISE_UNIT) + 1
  }

  function PreciseMulCeilInt(a: int, b: int): int {
    if a == 0 || b == 0 then 0
    else if (0 < a && 0 < b) || (a < 0 && b < 0) then TruncDiv(a * b - 1, PRECISE_UNIT) + 1
    else TruncDiv(a * b + 1, PRECISE_UNIT) - 1
  }

  function PreciseDiv(a: int, b: int): int
    requires b != 0
  {
    TruncDiv(a * PRECISE_UNIT, b)
  }

  function PreciseDivCeil(a: int, b: int): int {
    if a == 0 || b == 0 then 0 else TruncDiv(a * PRECISE_UNIT - 1, b) + 1
  }

  function PreciseDivCeilInt(a: int, b: int): int
    requires b != 0
  {
    var result := TruncDiv(a * PRECISE_UNIT, b);
    if result * b == a * PRECISE_UNIT then result
    else if (0 < a && 0 < b) || (a < 0 && b < 0) then result + 1
    else result - 1
  }

  /** `%` is Euclidean, as the library's `mod` is, and its modulus here is positive. */
  function DivDown(a: int, b: int): int
    requires b != 0
  {
    var result := TruncDiv(a, b);
    if a < 0 && 0 < b && a % b != 0 then result - 1
    else if 0 < a && b < 0 && a % -b != 0 then result - 1
    else result
  }

  // ---------- The quotient ----------

  lemma {:induction false} QuotientBounds(a: nat, b: nat)
    requires 0 < b
    ensures Quotient(a, b) * b <= a < Quotient(a, b) * b + b
    decreases a
  {
    if b <= a {
      QuotientBounds(a - b, b);
      assert Quotient(a, b) * b == Quotient(a - b, b) * b + b;
    }
  }

  /** A quotient is at least `q` exactly when `q` times the divisor fits. */
  lemma QuotientGalois(a: nat, b: nat, q: int)
    requires 0 < b
    ensures q <= Quotient(a, b) <==> q * b <= a
  {
    QuotientBounds(a, b);
    if q <= Quotient(a, b) {
      MulLe(q, Quotient(a, b), b);
    } else {
      MulLe(Quotient(a, b) + 1, q, b);
    }
  }

  lemma QuotientUnique(a: nat, b: nat, q: int)
    requires 0 < b && q * b <= a < q * b + b
    ensures Quotient(a, b) == q
  {
    QuotientGalois(a, b, q);
    QuotientGalois(a, b, q + 1);
  }

  /** On naturals it is Dafny's division. */
  lemma QuotientIsDivision(a: nat, b: nat)
    requires 0 < b
    ensures Quotient(a, b) == a / b
  {
    DivBounds(a, b);
    QuotientUnique(a, b, a / b);
  }

  // ---------- Unsigned rounding: floor and ceiling as adjoints of multiplication ----------

  lemma MulFloor(a: int, b: int)
    requires 0 <= a && 0 <= b
    ensures 0 <= PreciseMul(a, b)
    ensures PreciseMul(a, b) * PRECISE_UNIT <= a * b < PreciseMul(a, b) * PRECISE_UNIT + PRECISE_UNIT
  {
    MulNonNeg(a, b);
    QuotientBounds(a * b, PRECISE_UNIT);
  }

  lemma MulFloorGalois(a: int, b: int, q: int)
    requires 0 <= a && 0 <= b
    ensures q <= PreciseMul(a, b) <==> q * PRECISE_UNIT <= a * b
  {
    MulFloor(a, b);
  }

  lemma MulCeil(a: int, b: int)
    requires 0 <= a && 0 <= b
    ensures 0 <= PreciseMulCeil(a, b)
    ensures PreciseMulCeil(a, b) * PRECISE_UNIT - PRECISE_UNIT < a * b <= PreciseMulCeil(a, b) * PRECISE_UNIT
  {
    if a != 0 && b != 0 {
      assert 1 <= a * b by { MulLe(1, a, b); }
      QuotientBounds(a * b - 1, PRECISE_UNIT);
    }
  }

  lemma MulCeilGalois(a: int, b: int, q: int)
    requires 0 <= a && 0 <= b
    ensures PreciseMulCeil(a, b) <= q <==> a * b <= q * PRECISE_UNIT
  {
    MulCeil(a, b);
  }

  lemma DivFloor(a: int, b: int)
    requires 0 <= a && 0 < b
    ensures 0 <= PreciseDiv(a, b)
    ensures PreciseDiv(a, b) * b <= a * PRECISE_UNIT < PreciseDiv(a, b) * b + b
  {
    QuotientBounds(a * PRECISE_UNIT, b);
  }

  lemma DivFloorGalois(a: int, b: int, q: int)
    requires 0 <= a && 0 < b
    ensures q <= PreciseDiv(a, b) <==> q * b <= a * PRECISE_UNIT
  {
    QuotientGalois(a * PRECISE_UNIT, b, q);
  }

  lemma DivCeil(a: int, b: int)
    requires 0 <= a && 0 < b
    ensures 0 <= PreciseDivCeil(a, b)
    ensures PreciseDivCeil(a, b) * b - b < a * PRECISE_UNIT <= PreciseDivCeil(a, b) * b
  {
    if a != 0 {
      var x := a * PRECISE_UNIT - 1;
      QuotientBounds(x, b);
      assert (Quotient(x, b) + 1) * b == Quotient(x, b) * b + b;
    }
  }

  lemma DivCeilGalois(a: int, b: int, q: int)
    requires 0 <= a && 0 < b
    ensures PreciseDivCeil(a, b) <= q <==> a * PRECISE_UNIT <= q * b
  {
    DivCeil(a, b);
    var r := PreciseDivCeil(a, b);
    if r <= q {
      MulLe(r, q, b);
    } else {
      MulLe(q, r - 1, b);
      assert (r - 1) * b == r * b - b;
    }
  }

  // ---------- Signs ----------

  lemma AbsMul(a: int, b: int)
    ensures Abs(a * b) == Abs(a) * Abs(b)
    ensures -a * b == -(a * b) && a * -b == -(a * b)
  {}

  /** Multiplication rounds the magnitude down and keeps the sign. */
  lemma PreciseMulSigns(a: int, b: int)
    ensures PreciseMul(-a, b) == -PreciseMul(a, b) == PreciseMul(a, -b)
    ensures Abs(PreciseMul(a, b)) == PreciseMul(Abs(a), Abs(b))
    ensures 0 <= a && 0 <= b ==> 0 <= PreciseMul(a, b)
    ensures a <= 0 && 0 <= b ==> PreciseMul(a, b) <= 0
  {}

  lemma PreciseDivSigns(a: int, b: int)
    requires b != 0
    ensures PreciseDiv(-a, b) == -PreciseDiv(a, b) == PreciseDiv(a, -b)
    ensures Abs(PreciseDiv(a, b)) == PreciseDiv(Abs(a), Abs(b))
    ensures 0 <= a && 0 < b ==> 0 <= PreciseDiv(a, b)
    ensures a <= 0 && 0 < b ==> PreciseDiv(a, b) <= 0
  {}

  /** `DivDown` is the mathematical floor of the quotient for every sign of its arguments. */
  lemma DivDownIsFloor(a: int, b: int, q: int)
    requires b != 0
    ensures q <= DivDown(a, b) <==> (if 0 < b then q * b <= a else a <= q * b)
  {
    var d, n := if 0 < b then b else -b, if 0 < b then a else -a;
    FloorGalois(n, d, q);
    assert 0 < b ==> q * d == q * b;
    assert b < 0 ==> q * d == -(q * b);
    QuotientIsDivision(Abs(a), d);
    assert DivDown(a, b) == n / d by {
      if n < 0 {
        NegativeFloor(-n, d);
      }
    }
  }

  lemma NegativeFloor(m: int, d: int)
    requires 0 < m && 0 < d
    ensures -m / d == if -m % d == 0 then -(m / d) else -(m / d) - 1
    ensures -m % d == 0 <==> m % d == 0
  {
    DivBounds(m, d);
    DivBounds(-m, d);
    var q := m / d;
    var r := m % d;
    assert m == q * d + r;
    if r == 0 {
      assert -q * d == -(q * d);
      FloorUnique(-m, d, -q);
    } else {
      assert (-q - 1) * d == -(q * d) - d;
      FloorUnique(-m, d, -q - 1);
    }
  }

  lemma CeilingOfQuotient(n: nat, d: nat)
    requires 0 < n && 0 < d
    ensures Quotient(n - 1, d) + 1 == if Quotient(n, d) * d == n then Quotient(n, d) else Quotient(n, d) + 1
  {
    QuotientBounds(n, d);
    var q := Quotient(n, d);
    if q * d == n {
      NextMultiples(q, d);
      QuotientUnique(n - 1, d, q - 1);
    } else {
      QuotientUnique(n - 1, d, q);
    }
  }

  /** A truncated quotient is exact exactly when its magnitude is. */
  lemma ExactByMagnitude(a: int, b: int)
    requires b != 0
    ensures TruncDiv(a, b) * b == a <==> Quotient(Abs(a), Abs(b)) * Abs(b) == Abs(a)
  {
    var q := Quotient(Abs(a), Abs(b));
    AbsMul(q, b);
    QuotientBounds(Abs(a), Abs(b));
  }

  /** The signed division ceiling takes the ceiling of the magnitudes and the sign of the exact quotient. */
  lemma DivCeilIntByMagnitude(a: int, b: int)
    requires b != 0
    ensures var magnitude := PreciseDivCeil(Abs(a), Abs(b));
            PreciseDivCeilInt(a, b) == if (0 <= a) == (0 <= b) then magnitude else -magnitude
  {
    ExactByMagnitude(a * PRECISE_UNIT, b);
    QuotientBounds(0, Abs(b));
    if a != 0 { CeilingOfQuotient(Abs(a) * PRECISE_UNIT, Abs(b)); }
  }

  /** It is the least magnitude not below the exact one, odd in each argument, and the unsigned ceiling on positives. */
  lemma DivCeilIntLeastMagnitude(a: int, b: int, m: int)
    requires b != 0
    ensures Abs(PreciseDivCeilInt(a, b)) <= m <==> Abs(a) * PRECISE_UNIT <= m * Abs(b)
    ensures PreciseDivCeilInt(-a, b) == -PreciseDivCeilInt(a, b) == PreciseDivCeilInt(a, -b)
    ensures 0 <= a && 0 < b ==> PreciseDivCeilInt(a, b) == PreciseDivCeil(a, b)
  {
    DivCeilIntByMagnitude(a, b);
    DivCeilIntByMagnitude(-a, b);
    DivCeilIntByMagnitude(a, -b);
    DivCeilGalois(Abs(a), Abs(b), m);
    DivCeil(Abs(a), Abs(b));
  }

  lemma MulCeilIntByMagnitude(a: int, b: int)
    ensures var magnitude := PreciseMulCeil(Abs(a), Abs(b));
            PreciseMulCeilInt(a, b) == if (0 <= a) == (0 <= b) then magnitude else -magnitude
  {
    AbsMul(a, b);
    if a != 0 && b != 0 {
      assert 1 <= Abs(a) * Abs(b) by { MulLe(1, Abs(a), Abs(b)); }
      assert (0 <= a) == (0 <= b) ==> a * b == Abs(a) * Abs(b);
      assert (0 <= a) != (0 <= b) ==> a * b == -(Abs(a) * Abs(b));
    }
  }

  lemma ProductSign(a: int, b: int)
    requires a != 0 && b != 0
    ensures 0 <= a * b <==> (0 <= a) == (0 <= b)
    ensures a * b != 0
  {}

  /** Likewise for multiplication; it agrees with the unsigned ceiling exactly on non-negative products. */
  lemma MulCeilIntLeastMagnitude(a: int, b: int, m: int)
    ensures Abs(PreciseMulCeilInt(a, b)) <= m <==> Abs(a) * Abs(b) <= m * PRECISE_UNIT
    ensures PreciseMulCeilInt(-a, b) == -PreciseMulCeilInt(a, b) == PreciseMulCeilInt(a, -b)
    ensures PreciseMulCeilInt(a, b) == PreciseMulCeil(a, b) <==> 0 <= a * b
  {
    MulCeilIntByMagnitude(a, b);
    MulCeilIntByMagnitude(-a, b);
    MulCeilIntByMagnitude(a, -b);
    MulCeilGalois(Abs(a), Abs(b), m);
    MulCeil(Abs(a), Abs(b));
    if a != 0 && b != 0 {
      ProductSign(a, b);
      AbsMul(a, b);
      QuotientBounds(Abs(a * b) + 1, PRECISE_UNIT);
    }
  }

  // ---------- Unit to notional and back ----------

  /** A unit rounded up recovers at least the balance, and at most one extra base unit per whole token of supply. */
  lemma CeilUnitRoundTrip(balance: int, supply: int)
    requires 0 <= balance && 0 < supply
    ensures balance <= PreciseMul(PreciseDivCeil(balance, supply), supply)
                    <= balance + (supply - 1) / PRECISE_UNIT
  {
    var unit := PreciseDivCeil(balance, supply);
    DivCeil(balance, supply);
    MulFloor(unit, supply);
    DivBounds(supply - 1, PRECISE_UNIT);
  }

  /** Every balance is recovered exactly from its rounded-up unit if and only if the supply is at most one whole token. */
  lemma CeilUnitRoundTripExactIff(supply: int)
    requires 0 < supply
    ensures (forall balance: nat :: PreciseMul(PreciseDivCeil(balance, supply), supply) == balance)
       <==> supply <= PRECISE_UNIT
  {
    if supply <= PRECISE_UNIT {
      forall balance: nat
        ensures PreciseMul(PreciseDivCeil(balance, supply), supply) == balance
      {
        CeilUnitRoundTrip(balance, supply);
      }
    } else {
      var balance: nat := supply - 1;
      DivCeilGalois(balance, supply, PRECISE_UNIT);
      DivCeilGalois(balance, supply, PRECISE_UNIT - 1);
      assert PreciseDivCeil(balance, supply) == PRECISE_UNIT;
      assert PreciseMul(PRECISE_UNIT, supply) == supply by { MulFloor(PRECISE_UNIT, supply); }
    }
  }

  /** A unit rounded down never recovers more than the balance. */
  lemma FloorUnitRoundTrip(balance: int, supply: int)
    requires 0 <= balance && 0 < supply
    ensures balance - ((supply - 1 + PRECISE_UNIT - 1) / PRECISE_UNIT)
         <= PreciseMul(PreciseDiv(balance, supply), supply) <= balance
  {
    var unit := PreciseDiv(balance, supply);
    DivFloor(balance, supply);
    MulFloor(unit, supply);
    DivBounds(supply - 1 + PRECISE_UNIT - 1, PRECISE_UNIT);
  }
}
