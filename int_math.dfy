/**
 * Integer helpers of package utils: IsEven, IsPrime and Factorial.
 * Go's `int` is a 64-bit two's-complement integer; `%` truncates toward zero
 * and `*` wraps around on overflow. `GoRem` and `WrapMul` write both out; the
 * loop guard of `IsPrime` and the product of `Factorial` use `WrapMul`.
 */
module IntMath {

  const TwoTo63: int := 0x8000_0000_0000_0000
  const TwoTo64: int := 0x1_0000_0000_0000_0000

  /** A value of Go's 64-bit `int`. */
  predicate InInt64(x: int) {
    -TwoTo63 <= x < TwoTo63
  }

  function Abs(x: int): nat {
    if x < 0 then -x else x
  }

  /** Go's `a % b` for a positive divisor: the remainder of truncated division, carrying the sign of `a`. */
  function GoRem(a: int, b: int): (r: int)
    requires b > 0
    ensures -b < r < b
    ensures a >= 0 ==> r == a % b
    ensures a < 0 ==> r <= 0
    ensures r == 0 <==> a % b == 0
  {
    NegMod(a, b);
    if a >= 0 then a % b else -((-a) % b)
  }

  lemma MulModZero(k: int, x: int)
    requires k > 0
    ensures (k * x) % k == 0
  {
    var q := (k * x) / k;
    var r := (k * x) % k;
    assert k * x == k * q + r;
    var y := x - q;
    assert r == k * y;
    if y >= 1 {
      MulLeMono(1, y, k);
      assert false;
    } else if y <= -1 {
      MulLeMono(y, -1, k);
      assert false;
    }
  }

  lemma ModZeroMul(n: int, d: int)
    requires d > 0 && n % d == 0
    ensures n == d * (n / d)
  {
  }

  lemma NegMod(a: int, b: int)
    requires b > 0
    ensures (-a) % b == 0 <==> a % b == 0
  {
    if a % b == 0 {
      ModZeroMul(a, b);
      assert -a == b * -(a / b);
      MulModZero(b, -(a / b));
    }
    if (-a) % b == 0 {
      ModZeroMul(-a, b);
      assert a == b * -((-a) / b);
      MulModZero(b, -((-a) / b));
    }
  }

  /** Go's `a * b` on `int`: the mathematical product reduced into the 64-bit range. */
  function WrapMul(a: int, b: int): (r: int)
    ensures InInt64(r)
    ensures InInt64(a * b) ==> r == a * b
  {
    (a * b + TwoTo63) % TwoTo64 - TwoTo63
  }

  /** `IsEven` (utils/math.go): `n%2 == 0` with Go's truncated remainder. */
  function IsEven(n: int): (r: bool)
    ensures r <==> n % 2 == 0
  {
    GoRem(n, 2) == 0
  }

  lemma IsEvenExamples()
    ensures IsEven(0) && IsEven(2) && IsEven(-4)
    ensures !IsEven(3) && !IsEven(-5)
  {
  }

  /** Evenness ignores the sign and alternates: n, -n and n + 2 agree, n and n + 1 do not. */
  lemma IsEvenSymmetric(n: int)
    ensures IsEven(-n) == IsEven(n)
    ensures IsEven(n + 2) == IsEven(n) && IsEven(n + 1) != IsEven(n)
  {
  }

  /** The textbook definition of a prime number. */
  ghost predicate Prime(n: int) {
    n > 1 && forall d :: 1 < d < n ==> n % d != 0
  }

  /** A divisor of a multiple: if `d` divides `n` and `k` divides `d`, then `k` divides `n`. */
  lemma DivisorOfDivisor(n: int, d: int, k: int)
    requires k > 0 && d > 0
    requires n % d == 0 && d % k == 0
    ensures n % k == 0
  {
    ModZeroMul(n, d);
    ModZeroMul(d, k);
    var q, e := n / d, d / k;
    assert n == (k * e) * q;
    assert n == k * (e * q);
    MulModZero(k, e * q);
  }

  /** A divisor `d` of `n` that is at least `i`, where `i * i > n`, has a co-divisor below `i`. */
  lemma SmallCoDivisor(n: int, d: int, i: int)
    requires 1 < d < n && n % d == 0
    requires 0 < i <= d && n < i * i
    ensures 1 < n / d < i && n % (n / d) == 0
  {
    ModZeroMul(n, d);
    var q := n / d;
    MulLeMono(i, d, q);
    MulLtCancel(i, q, i);
    if q <= 1 {
      MulLeMono(q, 1, d);
      assert false;
    }
    assert n == q * d;
    MulModZero(q, d);
  }

  lemma MulLeMono(a: int, b: int, c: int)
    requires 0 <= c && a <= b
    ensures a * c <= b * c
  {
    assert (b - a) * c >= 0;
  }

  lemma MulLtCancel(a: int, b: int, c: int)
    requires a > 0 && a * b < a * c
    ensures b < c
  {
    if b >= c {
      MulLeMono(c, b, a);
      assert false;
    }
  }

  /** Between two consecutive candidates 6k-1 of the trial division, only 6k-1 and 6k+1 can divide an n coprime to 6. */
  lemma NoOtherDivisorInBlock(n: int, i: int)
    requires n % 2 != 0 && n % 3 != 0
    requires i >= 5 && i % 6 == 5
    requires n % i != 0 && n % (i + 2) != 0
    ensures forall d :: i <= d < i + 6 ==> n % d != 0
  {
    forall d | i <= d < i + 6 ensures n % d != 0 {
      if d == i + 1 || d == i + 3 || d == i + 5 {
        assert d % 2 == 0;
        FactorNotDividing(n, d, 2);
      } else if d == i + 4 {
        assert d % 3 == 0;
        FactorNotDividing(n, d, 3);
      }
    }
  }

  /** A multiple of a number that does not divide `n` does not divide `n` either. */
  lemma FactorNotDividing(n: int, d: int, k: int)
    requires k > 0 && d > 0 && d % k == 0 && n % k != 0
    ensures n % d != 0
  {
    if n % d == 0 {
      DivisorOfDivisor(n, d, k);
    }
  }

  /** The largest `i` whose square `i * i` still fits in Go's `int`. */
  const SquareRootBound: int := 3037000499

  /**
   * The inputs on which the loop of `IsPrime` never squares a number past
   * `SquareRootBound`: (SquareRootBound - 6)^2.
   */
  const IsPrimeLimit: int := 9223371994482243049

  /** Below `SquareRootBound`, Go's `i*i` is the exact square. */
  lemma SquareExact(i: int)
    requires 0 <= i <= SquareRootBound
    ensures WrapMul(i, i) == i * i
  {
    MulLeMono(i, SquareRootBound, i);
    MulLeMono(i, SquareRootBound, SquareRootBound);
  }

  /** One past `SquareRootBound`, Go's `i*i` wraps around to a negative number. */
  lemma SquareWrapsPastBound()
    ensures WrapMul(SquareRootBound + 1, SquareRootBound + 1) < 0
  {
  }

  /** Squares of non-negative numbers are ordered like the numbers. */
  lemma SquareLeCancel(i: int, k: int)
    requires 0 <= i && 0 <= k && i * i <= k * k
    ensures i <= k
  {
    if i > k {
      MulLeMono(k + 1, i, i);
      MulLeMono(k + 1, i, k + 1);
      assert false;
    }
  }

  /**
   * `IsPrime` (utils/math.go): rejects n <= 1, accepts 2 and 3, rejects multiples of 2
   * and 3, then tries the candidates 6k-1 and 6k+1 while their square, computed as
   * Go's wrapping `i*i`, stays <= n. Up to `IsPrimeLimit` that square never wraps and
   * the answer is exactly the textbook primality of n.
   */
  method IsPrime(n: int) returns (r: bool)
    requires n <= IsPrimeLimit
    ensures r <==> Prime(n)
  {
    if n <= 1 {
      return false;
    }
    if n <= 3 {
      return true;
    }
    if IsEven(n) || GoRem(n, 3) == 0 {
      assert n % 2 == 0 || n % 3 == 0;
      return false;
    }
    NoDivisorBelowFive(n);
    var i := 5;
    SquareExact(i);
    while WrapMul(i, i) <= n
      invariant 5 <= i <= SquareRootBound && i % 6 == 5
      invariant WrapMul(i, i) == i * i
      invariant NoDivisorBelow(n, i)
      decreases n - i
    {
      MulLeMono(5, i, i);
      SquareLeCancel(i, SquareRootBound - 6);
      var found := TrialStep(n, i);
      if found {
        return false;
      }
      i := i + 6;
      SquareExact(i);
    }
    PrimeByTrialDivision(n, i);
    return true;
  }

  /** No number strictly between 1 and `i` divides `n`. */
  ghost predicate NoDivisorBelow(n: int, i: int) {
    forall d :: 1 < d < i ==> n % d != 0
  }

  /**
   * One pass of the loop of `IsPrime`: tries `i` and `i + 2`; when neither
   * divides `n`, no number below `i + 6` does.
   */
  method TrialStep(n: int, i: int) returns (found: bool)
    requires n % 2 != 0 && n % 3 != 0
    requires 5 <= i && i % 6 == 5 && i + 2 < n
    requires NoDivisorBelow(n, i)
    ensures found ==> !Prime(n)
    ensures !found ==> NoDivisorBelow(n, i + 6)
  {
    if GoRem(n, i) == 0 {
      HasDivisor(n, i);
      return true;
    }
    if GoRem(n, i + 2) == 0 {
      HasDivisor(n, i + 2);
      return true;
    }
    NoOtherDivisorInBlock(n, i);
    return false;
  }

  /** A number coprime to 2 and 3 has no divisor below 5. */
  lemma NoDivisorBelowFive(n: int)
    requires n % 2 != 0 && n % 3 != 0
    ensures NoDivisorBelow(n, 5)
  {
    forall d | 1 < d < 5 ensures n % d != 0 {
      if d == 4 && n % 4 == 0 {
        DivisorOfDivisor(n, 4, 2);
      }
    }
  }

  /** A divisor strictly between 1 and `n` makes `n` composite. */
  lemma HasDivisor(n: int, d: int)
    requires 1 < d < n && n % d == 0
    ensures !Prime(n)
  {
  }

  /** No divisor below `i`, where `i * i > n`, leaves none at all. */
  lemma PrimeByTrialDivision(n: int, i: int)
    requires n > 1 && 0 < i && n < i * i
    requires NoDivisorBelow(n, i)
    ensures Prime(n)
  {
    forall d | i <= d < n ensures n % d != 0 {
      if n % d == 0 {
        SmallCoDivisor(n, d, i);
      }
    }
  }

  lemma IsPrimeExamples()
    ensures !Prime(-1) && !Prime(0) && !Prime(1)
    ensures Prime(2) && Prime(3) && Prime(5) && Prime(7)
    ensures !Prime(4) && !Prime(9) && !Prime(25)
  {
    assert 4 % 2 == 0;
    assert 9 % 3 == 0;
    assert 25 % 5 == 0;
  }

  /** The mathematical factorial, with the source's convention that n <= 0 gives 1. */
  function MathFactorial(n: int): (r: int)
    ensures r >= 1
    ensures n >= 1 ==> r >= n
  {
    if n <= 0 then 1 else n * MathFactorial(n - 1)
  }

  /**
   * `Factorial` (utils/math.go) as Go executes it: `n * Factorial(n-1)` on 64-bit `int`,
   * so the product wraps around once it leaves the 64-bit range.
   */
  function Factorial(n: int): (r: int)
    ensures InInt64(r)
  {
    if n <= 0 then 1 else WrapMul(n, Factorial(n - 1))
  }

  /** 20! = 2432902008176640000, the last factorial below 2^63. */
  lemma MathFactorialOf20()
    ensures MathFactorial(20) == 2432902008176640000
  {
    assert MathFactorial(1) == 1;
    assert MathFactorial(2) == 2;
    assert MathFactorial(3) == 6;
    assert MathFactorial(4) == 24;
    assert MathFactorial(5) == 120;
    assert MathFactorial(6) == 720;
    assert MathFactorial(7) == 5040;
    assert MathFactorial(8) == 40320;
    assert MathFactorial(9) == 362880;
    assert MathFactorial(10) == 3628800;
    assert MathFactorial(11) == 39916800;
    assert MathFactorial(12) == 479001600;
    assert MathFactorial(13) == 6227020800;
    assert MathFactorial(14) == 87178291200;
    assert MathFactorial(15) == 1307674368000;
    assert MathFactorial(16) == 20922789888000;
    assert MathFactorial(17) == 355687428096000;
    assert MathFactorial(18) == 6402373705728000;
    assert MathFactorial(19) == 121645100408832000;
  }

  lemma {:induction false} MathFactorialMonotone(m: int, n: int)
    requires m <= n
    ensures MathFactorial(m) <= MathFactorial(n)
    decreases n - m
  {
    if m < n {
      MathFactorialMonotone(m, n - 1);
      if n > 0 {
        MulLeMono(1, n, MathFactorial(n - 1));
      }
    }
  }

  /** Up to 20 the 64-bit recursion agrees with the mathematical factorial, so it is >= 1. */
  lemma {:induction false} FactorialExactUpTo20(n: int)
    requires n <= 20
    ensures Factorial(n) == MathFactorial(n)
    ensures Factorial(n) >= 1
  {
    if n > 0 {
      FactorialExactUpTo20(n - 1);
      MathFactorialMonotone(n, 20);
      MathFactorialOf20();
      assert InInt64(n * MathFactorial(n - 1));
    }
  }

  lemma FactorialFive()
    ensures Factorial(5) == 120 && Factorial(0) == 1 && Factorial(-1) == 1
  {
    FactorialExactUpTo20(5);
    assert MathFactorial(5) == 120;
  }

  /** 21! exceeds the 64-bit range: the Go function returns a negative number. */
  lemma FactorialOverflowsAt21()
    ensures Factorial(21) == -4249290049419214848
    ensures Factorial(21) < 1
  {
    FactorialExactUpTo20(20);
    MathFactorialOf20();
    WrapMulAt21();
  }

  /** 21 * 20! wraps past 2^63 three times and lands below zero. */
  lemma WrapMulAt21()
    ensures WrapMul(21, 2432902008176640000) == -4249290049419214848
  {
    ModLiteral(51090942171709440000 + TwoTo63, 3, 4974081987435560960);
  }

  /** `x % 2^64 == r` when `x` is `q` times 2^64 plus `r`. */
  lemma ModLiteral(x: int, q: int, r: int)
    requires 0 <= r < TwoTo64 && x == q * TwoTo64 + r
    ensures x % TwoTo64 == r
  {
  }
}
