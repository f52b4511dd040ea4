/** stdlib/math.ep: the loops whose answers are not plain from their bodies. Numbers are
    signed 64-bit; products wrap. */
module MathLib {
  import opened Machine

  // ---------- the integer square root ----------

  /** The largest half whose square fits in 64 bits. */
  const WIDEST := 3037000499

  lemma Squares(a: nat, b: nat)
    requires a <= b
    ensures a * a <= b * b
  {}

  /** Newton's step from above never falls below the root. */
  lemma NewtonStaysAbove(n: nat, g: nat)
    requires g > 0
    ensures var next := (g + n / g) / 2; n < (next + 1) * (next + 1)
  {
    var q := n / g;
    var next := (g + q) / 2;
    assert n < g * (q + 1) by { assert n == g * q + n % g; }
    var twice := 2 * (next + 1);
    assert twice >= g + (q + 1);
    MeanSquare(g, q + 1);
    Squares(g + (q + 1), twice);
    assert twice * twice == 4 * ((next + 1) * (next + 1));
  }

  lemma MeanSquare(a: nat, b: nat)
    ensures 4 * (a * b) <= (a + b) * (a + b)
  {
    assert (a - b) * (a - b) >= 0;
    assert (a + b) * (a + b) == 4 * (a * b) + (a - b) * (a - b);
  }

  lemma Products(a: nat, b: nat, c: nat)
    ensures b <= c ==> a * b <= a * c
  {}

  lemma NewtonFalls(n: nat, g: nat)
    requires 0 < n < g * g
    ensures 0 < (g + n / g) / 2 < g
  {
    assert n / g < g by {
      assert n == g * (n / g) + n % g;
      Products(g, g, n / g);
    }
    assert g != 1;
  }

  /** Do the guesses from g on come down to the root? One whose square wraps to n or less
      ends the loop too early. */
  ghost predicate Sound(n: int, g: int)
    requires 0 < n && 0 < g
    decreases g
  {
    g * g <= n || (Wrap(g * g) > n && (NewtonFalls(n, g); Sound(n, (g + n / g) / 2)))
  }

  function FirstGuess(n: int): int { if n / 2 == 0 then 1 else n / 2 }

  /** The root, rounded down, exactly where the guesses are sound; never less than it. */
  method SqrtInt(n: Int64) returns (guess: int)
    ensures n <= 0 ==> guess == 0
    ensures n > 0 ==> guess > 0 && n < (guess + 1) * (guess + 1)
    ensures n > 0 ==> (guess * guess <= n <==> Sound(n, FirstGuess(n)))
  {
    if n < 0 { return 0; }
    if n == 0 { return 0; }
    guess := n / 2;
    if guess == 0 { guess := 1; }
    FirstGuessAbove(n);
    while Wrap(guess * guess) > n
      invariant 0 < guess <= FirstGuess(n) && n < (guess + 1) * (guess + 1)
      invariant Sound(n, FirstGuess(n)) <==> Sound(n, guess)
      decreases guess
    {
      SquareIsMore(n, guess);
      NewtonStaysAbove(n, guess);
      NewtonFalls(n, guess);
      SumFits(n, guess);
      guess := Wrap(guess + n / guess) / 2;
    }
  }

  /** A square that wraps to more than n is more than n. */
  lemma SquareIsMore(n: Int64, g: nat)
    requires n > 0 && Wrap(g * g) > n
    ensures g * g > n
  {
    if g * g <= n { WrapNothing(g * g); }
  }

  lemma SumFits(n: Int64, g: nat)
    requires 0 < g <= FirstGuess(n) && 0 < n < g * g
    ensures Wrap(g + n / g) == g + n / g
  {
    assert g >= 2;
    Products(n / g, 2, g);
    assert n == g * (n / g) + n % g;
    WrapNothing(g + n / g);
  }

  lemma SquareFits(g: nat)
    requires g <= WIDEST
    ensures Wrap(g * g) == g * g
  {
    Squares(g, WIDEST);
    WrapNothing(g * g);
  }

  lemma FirstGuessAbove(n: nat)
    requires n > 0
    ensures n < (FirstGuess(n) + 1) * (FirstGuess(n) + 1)
  {
    var g := FirstGuess(n);
    assert (g + 1) * (g + 1) == g * g + 2 * g + 1 && g * g >= g;
  }

  /** Guesses whose square fits in 64 bits are sound. */
  lemma {:induction false} SmallGuessesAreSound(n: Int64, g: nat)
    requires 0 < n && 0 < g <= WIDEST
    ensures Sound(n, g)
    decreases g
  {
    if g * g > n {
      SquareFits(g);
      NewtonFalls(n, g);
      SmallGuessesAreSound(n, (g + n / g) / 2);
    }
  }

  /** So up to 6074000999 every root is right; for the next number the first square wraps
      to less than it, and the guess is no root. Later numbers can be right again. */
  lemma SqrtIsRightUpTo(n: Int64)
    requires n > 0
    ensures n < 2 * (WIDEST + 1) ==> Sound(n, FirstGuess(n))
    ensures n == 2 * (WIDEST + 1) ==> !Sound(n, FirstGuess(n))
    ensures n == 10000000000 ==> Sound(n, FirstGuess(n))
  {
    if n < 2 * (WIDEST + 1) { SmallGuessesAreSound(n, FirstGuess(n)); }
    if n == 10000000000 {
      var next := (FirstGuess(n) + n / FirstGuess(n)) / 2;
      assert next == 2500000001;
      SmallGuessesAreSound(n, next);
    }
  }

  // ---------- the greatest common divisor ----------

  predicate Divides(d: int, n: int) { d != 0 && n % d == 0 }

  lemma DividesSum(d: int, a: int, b: int, k: int)
    requires Divides(d, a) && Divides(d, b)
    ensures Divides(d, a + k * b)
  {
    var p, q := a / d, b / d;
    assert a == p * d && b == q * d;
    assert a + k * b == (p + k * q) * d;
    Multiple(p + k * q, d);
  }

  lemma Multiple(p: int, d: int)
    requires d != 0
    ensures (p * d) % d == 0
  {
    var q, r := p * d / d, p * d % d;
    assert p * d == q * d + r;
    assert (p - q) * d == r;
    AtLeastOnce(p - q, d);
  }

  lemma AtLeastOnce(k: int, d: int)
    ensures k >= 1 && d >= 0 ==> k * d >= d
    ensures k >= 1 && d <= 0 ==> k * d <= d
    ensures k <= -1 && d >= 0 ==> k * d <= -d
    ensures k <= -1 && d <= 0 ==> k * d >= -d
  {}

  /** One step keeps the common divisors. */
  lemma SameDivisors(x: nat, y: nat, d: int)
    requires y > 0
    ensures Divides(d, x) && Divides(d, y) <==> Divides(d, y) && Divides(d, x - x / y * y)
  {
    SameDivisorsFor(x, y, x / y, d);
  }

  lemma SameDivisorsFor(x: int, y: int, q: int, d: int)
    ensures Divides(d, x) && Divides(d, y) <==> Divides(d, y) && Divides(d, x - q * y)
  {
    var r := x - q * y;
    if Divides(d, x) && Divides(d, y) {
      assert r == x + -q * y;
      DividesSum(d, x, y, -q);
    }
    if Divides(d, y) && Divides(d, r) { StillDivides(d, x, y, q, r); }
  }

  lemma StillDivides(d: int, x: int, y: int, q: int, r: int)
    requires Divides(d, y) && Divides(d, r) && x == r + q * y
    ensures Divides(d, x)
  {
    DividesSum(d, r, y, q);
  }

  /** The least number has no absolute value in 64 bits. */
  function Absolute(x: Int64): (r: int)
    ensures x != MIN ==> r >= 0
    ensures x == MIN ==> r == MIN
  {
    if x < 0 then Wrap(0 - x) else x
  }

  lemma AbsoluteDivides(d: int, a: Int64)
    ensures Divides(d, Absolute(a)) <==> Divides(d, a)
  {
    if a < 0 && d != 0 {
      var opposite: int := 0 - a;
      if Divides(d, a) { DividesSum(d, 0, a, -1); }
      if Divides(d, opposite) { DividesSum(d, 0, opposite, -1); }
    }
  }

  lemma AbsoluteDividesInto(a: Int64, n: int)
    ensures Divides(Absolute(a), n) <==> Divides(a, n)
  {
    var opposite: int := 0 - a;
    if Divides(a, n) { OtherSign(a, n); }
    if Divides(opposite, n) { OtherSign(opposite, n); }
  }

  lemma OtherSign(d: int, n: int)
    requires Divides(d, n)
    ensures Divides(-d, n)
  {
    assert n == -(n / d) * -d;
    Multiple(-(n / d), -d);
  }

  /** A common divisor that every common divisor divides; 0 when both numbers are. */
  ghost predicate Greatest(x: int, a: int, b: int) {
    && x >= 0 && (x == 0 <==> a == 0 && b == 0)
    && forall d :: Divides(d, a) && Divides(d, b) <==> Divides(d, x)
  }

  /** Division towards zero, by a positive number. */
  function Quotient(x: int, y: int): int
    requires y > 0
  {
    if x < 0 then -(-x / y) else x / y
  }

  /** The greatest common divisor, exactly when neither number is the least one, or only
      one is and the other divides it. */
  method Gcd(a: Int64, b: Int64) returns (x: int)
    ensures Greatest(x, a, b) <==>
      (a != MIN && b != MIN) || (a != b && if a == MIN then Divides(b, a) else Divides(a, b))
  {
    hide Divides;
    x := Absolute(a);
    var y := Absolute(b);
    forall d
      ensures Divides(d, a) && Divides(d, b) <==> Divides(d, x) && Divides(d, y)
    {
      AbsoluteDivides(d, a);
      AbsoluteDivides(d, b);
    }
    while y > 0
      invariant a == MIN || b == MIN ==>
        (x == Absolute(a) && y == Absolute(b)) || (a == MIN && b != MIN && x == Absolute(b) > 0 >= y)
      invariant a != MIN && b != MIN ==> x >= 0 && y >= 0 && (x == 0 && y == 0 <==> a == 0 && b == 0)
      invariant a != MIN && b != MIN ==>
        forall d :: Divides(d, a) && Divides(d, b) <==> Divides(d, x) && Divides(d, y)
      decreases y
    {
      SmallerRest(x, y);
      if x >= 0 {
        forall d
          ensures Divides(d, x) && Divides(d, y) <==> Divides(d, y) && Divides(d, x - x / y * y)
        {
          SameDivisors(x, y, d);
        }
      }
      var temp := y;
      y := x - Quotient(x, y) * y;
      x := temp;
    }
    if a != MIN && b != MIN { AllDivide(x, y); } else { LeastIsHard(x, a, b); }
  }

  lemma SmallerRest(x: int, y: int)
    requires y > 0
    ensures x >= 0 ==> 0 <= x - Quotient(x, y) * y < y
    ensures x <= 0 ==> -y < x - Quotient(x, y) * y <= 0
  {
    RestOf(x, y);
    RestOf(-x, y);
    if x < 0 { assert Quotient(x, y) * y == -(-x / y * y); }
  }

  lemma RestOf(x: int, y: int)
    requires y > 0
    ensures x - x / y * y == x % y
  {
    assert x == y * (x / y) + x % y;
  }

  lemma AllDivide(x: int, y: int)
    requires y == 0
    ensures forall d :: Divides(d, x) && Divides(d, y) <==> Divides(d, x)
  {}

  /** With the least number the answer is the absolute value of the other one. */
  lemma LeastIsHard(x: int, a: Int64, b: Int64)
    requires a == MIN || b == MIN
    requires x == if a == MIN && b != MIN && b != 0 then Absolute(b) else Absolute(a)
    ensures Greatest(x, a, b) <==> a != b && if a == MIN then Divides(b, a) else Divides(a, b)
  {
    if a == b {
      assert x < 0;
    } else if a == MIN {
      if b == 0 { assert x < 0; } else { LeastAnd(b, x); }
    } else {
      LeastAnd(a, x);
      forall d
        ensures Divides(d, a) && Divides(d, b) <==> Divides(d, b) && Divides(d, a)
      {}
    }
  }

  lemma LeastAnd(c: Int64, x: int)
    requires c != MIN && x == Absolute(c)
    ensures Greatest(x, MIN, c) <==> Divides(c, MIN)
    ensures Greatest(x, c, MIN) <==> Divides(c, MIN)
  {
    hide Divides;
    AbsoluteDividesInto(c, MIN);
    forall d
      ensures Divides(d, x) <==> Divides(d, c)
      ensures Divides(c, MIN) && Divides(d, c) ==> Divides(d, MIN)
    {
      AbsoluteDivides(d, c);
      if Divides(c, MIN) && Divides(d, c) { DividesOn(d, c, MIN); }
    }
    if c != 0 { DividesItself(x); } else { NothingByZero(MIN); }
  }

  lemma DividesItself(x: int)
    requires x != 0
    ensures Divides(x, x)
  {
    Multiple(1, x);
  }

  lemma NothingByZero(n: int)
    ensures !Divides(0, n)
  {}

  lemma DividesOn(d: int, c: int, n: int)
    requires Divides(d, c) && Divides(c, n)
    ensures Divides(d, n)
  {
    assert n == 0 + n / c * c;
    assert Divides(d, 0);
    DividesSum(d, 0, c, n / c);
  }

  // ---------- primes ----------

  predicate Prime(n: int) { n >= 2 && forall d :: 2 <= d < n ==> n % d != 0 }

  /** A divisor past the root leaves one before it. */
  lemma Cofactor(n: nat, d: nat, i: nat) returns (e: nat)
    requires i > 0 && n < i * i && i <= d < n && n % d == 0
    ensures 2 <= e < i && n % e == 0
  {
    e := n / d;
    assert n == d * e;
    Products(d, e, 1);
    Products(d, i, e);
    Products(i, i, d);
    Multiple(d, e);
  }

  lemma OddHasOddDivisors(n: nat, d: nat)
    requires n % 2 == 1 && d > 0 && d % 2 == 0
    ensures n % d != 0
  {
    var k, h := n / d, d / 2;
    assert n == 2 * h * k + n % d;
    assert 2 * h * k == 2 * (h * k);
  }

  predicate NoneBelow(n: int, i: int) { forall d :: 2 <= d < i && d < n ==> n % d != 0 }

  lemma TwoFurther(n: nat, i: nat)
    requires n % 2 == 1 && i % 2 == 1 && i >= 3 && NoneBelow(n, i) && n - n / i * i != 0
    ensures NoneBelow(n, i + 2)
  {
    assert n % i != 0;
    OddHasOddDivisors(n, i + 1);
  }

  lemma NoneAtAll(n: nat, i: nat)
    requires n >= 2 && i > 0 && n < i * i && NoneBelow(n, i)
    ensures Prime(n)
  {
    forall d | 2 <= d < n
      ensures n % d != 0
    {
      if d >= i && n % d == 0 { var e := Cofactor(n, d, i); }
    }
  }

  /** A number whose square wraps to one below the largest that is a square at all. */
  const PROBE := 2759374635167858507

  /** For every odd prime some trial divisor ends the loop in time. */
  lemma SomeSquareIsMore(n: Int64) returns (i: int)
    requires 3 <= n < MAX && n % 2 == 1 && Prime(n)
    ensures 3 <= i <= n && i % 2 == 1 && Wrap(i * i) > n
  {
    if n < WIDEST {
      i := n;
      Products(n, 2, n);
      SquareFits(n);
    } else if n < WIDEST * WIDEST {
      i := WIDEST;
      SquareFits(WIDEST);
    } else if n < MAX - 6 {
      i := PROBE;
      assert Wrap(PROBE * PROBE) == MAX - 6;
    } else {
      NoLatePrimes(n);
      assert false;
    }
  }

  lemma NoLatePrimes(n: int)
    requires MAX - 6 <= n < MAX && n % 2 == 1
    ensures !Prime(n)
  {
    assert n == MAX - 6 || n == MAX - 4 || n == MAX - 2;
    assert n % (if n == MAX - 6 then 157 else if n == MAX - 4 then 3 else 5) == 0;
  }

  /** Trial division by the odd numbers: right for every number but the largest, whose
      successor wraps, so that it is called a prime. */
  method IsPrime(n: Int64) returns (r: bool)
    ensures r <==> Prime(n) || n == MAX
  {
    hide Wrap, NoneBelow, Prime;
    NotPrime(n);
    if n < 2 { return false; }
    if n == 2 { return true; }
    var remainder := n - n / 2 * 2;
    if remainder == 0 {
      assert n % 2 == 0;
      return false;
    }
    var i := 3;
    NoneYet(n);
    while Wrap(i * i) < Wrap(n + 1)
      invariant 3 <= i <= n && i % 2 == 1 && NoneBelow(n, i)
      invariant n == MAX ==> i == 3
      invariant n < MAX ==> forall j :: 3 <= j < i && j % 2 == 1 ==> Wrap(j * j) <= n
      decreases n - i
    {
      LargestStops(n, i);
      var rem := n - n / i * i;
      if rem == 0 {
        DividedOrLate(n, i);
        return false;
      }
      NextTrial(n, i);
      i := Wrap(i + 2);
    }
    if n < MAX {
      assert Wrap(n + 1) == n + 1 by { WrapNothing(n + 1); }
      SquareIsMore(n, i);
      NoneAtAll(n, i);
    }
    return true;
  }

  /** The numbers decided at once. */
  lemma NotPrime(n: int)
    ensures n < 2 || (n != 2 && n % 2 == 0) ==> !Prime(n)
    ensures Prime(2)
  {}

  lemma NoneYet(n: int)
    requires n % 2 == 1
    ensures NoneBelow(n, 3)
  {}

  lemma NextTrial(n: Int64, i: nat)
    requires 3 <= i <= n && n % 2 == 1 && i % 2 == 1 && NoneBelow(n, i) && n - n / i * i != 0
    ensures NoneBelow(n, i + 2) && i + 2 <= n && Wrap(i + 2) == i + 2
  {
    hide *;
    TwoFurther(n, i);
    if i == n { RestOfItself(n, i); }
    OddsApart(n, i);
    WrapNothing(i + 2);
  }

  lemma OddsApart(n: int, i: int)
    requires i <= n && i != n && n % 2 == 1 && i % 2 == 1
    ensures i + 2 <= n
  {}

  lemma RestOfItself(n: int, i: int)
    requires i == n > 0
    ensures n - n / i * i == 0
  {
    assert n / n == 1;
  }

  lemma LargestStops(n: Int64, i: int)
    requires Wrap(i * i) < Wrap(n + 1) && n >= 0
    ensures n < MAX && Wrap(i * i) <= n
  {
    WrapKeeps(i * i);
    if n < MAX { WrapNothing(n + 1); }
  }

  /** A divisor was found: a real one, or no square was more than n in time. */
  lemma DividedOrLate(n: Int64, i: nat)
    requires 3 <= i <= n < MAX && n % 2 == 1 && n - n / i * i == 0
    requires forall j :: 3 <= j <= i && j % 2 == 1 ==> Wrap(j * j) <= n
    ensures !Prime(n)
  {
    assert n % i == 0;
    if Prime(n) { var j := SomeSquareIsMore(n); }
  }

  lemma LargestIsNoPrime()
    ensures !Prime(MAX)
  {
    assert MAX % 7 == 0;
  }
}
