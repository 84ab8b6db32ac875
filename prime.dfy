/**
 * The trial-division primality check: a value is reported prime when no
 * candidate from 2 up to its integer square root divides it.
 *
 * The candidates are tried in increasing order and the first that divides
 * ends the search. FirstDivisor is that search written as a function; the
 * loop of Run is proved to report exactly whether it finds nothing. The
 * lemmas then say what the answer means: every value up to 3 is reported
 * prime (0 and 1 included), and for a value of at least 2 the answer is
 * primality itself.
 */
module Prime {
  datatype Option<T> = None | Some(value: T)

  /** What the check gives back: a boolean, or the error a negative square root raises. */
  datatype Verdict = Returned(prime: bool) | ValueError

  /** The integer square root: the largest r whose square does not exceed n. */
  function ISqrt(n: nat): (r: nat)
    ensures r * r <= n < (r + 1) * (r + 1)
  {
    if n == 0 then 0
    else
      var s := ISqrt(n - 1);
      if (s + 1) * (s + 1) <= n then s + 1 else s
  }

  /** n has no divisor other than 1 and itself, and is at least 2. */
  predicate IsPrime(n: nat) {
    n >= 2 && forall d | 2 <= d < n :: n % d != 0
  }

  /** The first candidate in [lo, top) that divides value, tried in increasing order. */
  function FirstDivisor(value: nat, lo: nat, top: nat): (r: Option<nat>)
    requires 2 <= lo
    ensures r.Some? ==> lo <= r.value < top && value % r.value == 0
    decreases top - lo
  {
    if lo >= top then None
    else if value % lo == 0 then Some(lo)
    else FirstDivisor(value, lo + 1, top)
  }

  /**
   * The search returns the least divisor of the range: it lies in [lo, top),
   * divides value, and no smaller candidate of the range does.
   */
  lemma {:induction false} FirstDivisorLeast(value: nat, lo: nat, top: nat)
    requires 2 <= lo && FirstDivisor(value, lo, top).Some?
    ensures lo <= FirstDivisor(value, lo, top).value < top
    ensures value % FirstDivisor(value, lo, top).value == 0
    ensures forall i | lo <= i < FirstDivisor(value, lo, top).value :: value % i != 0
    decreases top - lo
  {
    if value % lo != 0 {
      FirstDivisorLeast(value, lo + 1, top);
    }
  }

  /** The search finds nothing exactly when no candidate of the range divides value. */
  lemma {:induction false} FirstDivisorNone(value: nat, lo: nat, top: nat)
    requires 2 <= lo
    ensures FirstDivisor(value, lo, top).None? <==> forall i | lo <= i < top :: value % i != 0
    decreases top - lo
  {
    if lo < top && value % lo != 0 {
      FirstDivisorNone(value, lo + 1, top);
    }
  }

  /**
   * The check. A negative value makes the square root raise; otherwise the
   * candidates 2, 3, ... up to the integer square root are tried in turn and
   * the first that divides value makes the answer false.
   */
  method Run(value: int) returns (v: Verdict)
    ensures v.ValueError? <==> value < 0
    ensures value >= 0 ==> v == Returned(FirstDivisor(value, 2, ISqrt(value) + 1).None?)
  {
    if value < 0 {
      return ValueError;
    }
    var top := ISqrt(value) + 1;
    var i := 2;
    while i < top
      invariant 2 <= i
      invariant FirstDivisor(value, i, top) == FirstDivisor(value, 2, top)
    {
      if value % i == 0 {
        return Returned(false);
      }
      i := i + 1;
    }
    return Returned(true);
  }

  /** Every value from 0 to 3 is reported prime: there is no candidate to try. */
  lemma SmallValuesReportedPrime(value: nat)
    requires value <= 3
    ensures FirstDivisor(value, 2, ISqrt(value) + 1).None?
  {
    var r := ISqrt(value);
    assert r <= 1 by {
      if r >= 2 {
        MulMonotone(2, 2, r, r);
      }
    }
  }

  /** The product of two factors grows with each of them. */
  lemma MulMonotone(a: nat, b: nat, c: nat, d: nat)
    requires a <= c && b <= d
    ensures a * b <= c * d
  {
    assert a * b <= c * b;
    assert c * b <= c * d;
  }

  /** A multiple of a is divisible by a: the quotient is the multiplier, the remainder 0. */
  lemma MultipleDivisible(a: nat, b: nat)
    requires a >= 1
    ensures (a * b) % a == 0
  {
    var x := a * b;
    var q, m := x / a, x % a;
    assert x == a * q + m && 0 <= m < a;
    var k := b - q;
    assert a * k == m by {
      assert a * k == a * b - a * q;
    }
  }

  /** A value divisible by d is d times its quotient, and divisible by that quotient. */
  lemma CoFactor(value: nat, d: nat)
    requires d >= 1 && value % d == 0
    ensures value == d * (value / d)
    ensures value / d >= 1 && value >= 1 ==> value % (value / d) == 0
  {
    var e := value / d;
    assert value == d * e;
    if e >= 1 {
      assert value == e * d;
      MultipleDivisible(e, d);
    }
  }

  /** A composite value has a divisor no larger than its square root. */
  lemma SmallDivisor(value: nat, d: nat)
    requires 2 <= d < value && value % d == 0
    ensures exists e | 2 <= e <= ISqrt(value) :: value % e == 0
  {
    var r := ISqrt(value);
    var e := value / d;
    CoFactor(value, d);
    assert e >= 2 by {
      if e <= 1 {
        MulMonotone(d, e, d, 1);
      }
    }
    if d <= r {
      assert value % d == 0;
    } else if e <= r {
      assert value % e == 0;
    } else {
      MulMonotone(r + 1, r + 1, d, e);
    }
  }

  /**
   * For a value of at least 2 the answer is primality: no candidate up to the
   * square root divides value exactly when value is prime.
   */
  lemma RunDecidesPrimality(value: nat)
    requires value >= 2
    ensures FirstDivisor(value, 2, ISqrt(value) + 1).None? <==> IsPrime(value)
  {
    var r := ISqrt(value);
    FirstDivisorNone(value, 2, r + 1);
    if r >= 2 {
      MulMonotone(2, r, r, r);
    }
    assert r < value;
    if !IsPrime(value) {
      var d :| 2 <= d < value && value % d == 0;
      SmallDivisor(value, d);
    }
  }
}
