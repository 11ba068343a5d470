/**
 Binomial coefficients, congruence, and what a prime modulus does to them: Euclid's lemma,
 Fermat's little theorem and Lucas' theorem, from Pascal's rule up.
 */
module Binomials {

  function Choose(n: nat, r: nat): nat {
    if r == 0 then 1
    else if n == 0 then 0
    else Choose(n - 1, r - 1) + Choose(n - 1, r)
  }

  function Factorial(n: nat): (f: nat)
    ensures f >= 1
  {
    if n == 0 then 1 else n * Factorial(n - 1)
  }

  function Power(b: int, e: nat): int {
    if e == 0 then 1 else b * Power(b, e - 1)
  }

  ghost predicate Divides(d: int, x: int) {
    exists k :: x == d * k
  }

  ghost predicate Prime(p: int) {
    p >= 2 && forall d :: 1 < d < p ==> !Divides(d, p)
  }

  /** x and y leave the same remainder. */
  ghost predicate Same(m: int, x: int, y: int) {
    Divides(m, x - y)
  }

  // ----- congruence

  lemma {:induction false} DividesBy(d: int, x: int, k: int)
    requires x == d * k
    ensures Divides(d, x)
  {
  }

  lemma {:induction false} SameRefl(m: int, x: int)
    ensures Same(m, x, x)
  {
    DividesBy(m, x - x, 0);
  }

  lemma {:induction false} SameSym(m: int, x: int, y: int)
    requires Same(m, x, y)
    ensures Same(m, y, x)
  {
    var k :| x - y == m * k;
    DividesBy(m, y - x, -k);
  }

  lemma {:induction false} SameTrans(m: int, x: int, y: int, z: int)
    requires Same(m, x, y) && Same(m, y, z)
    ensures Same(m, x, z)
  {
    var k :| x - y == m * k;
    var l :| y - z == m * l;
    DividesBy(m, x - z, k + l);
  }

  lemma {:induction false} SameAdd(m: int, x: int, y: int, u: int, v: int)
    requires Same(m, x, y) && Same(m, u, v)
    ensures Same(m, x + u, y + v)
  {
    var k :| x - y == m * k;
    var l :| u - v == m * l;
    DividesBy(m, x + u - (y + v), k + l);
  }

  lemma {:induction false} SameMul(m: int, x: int, y: int, u: int, v: int)
    requires Same(m, x, y) && Same(m, u, v)
    ensures Same(m, x * u, y * v)
  {
    var k :| x - y == m * k;
    var l :| u - v == m * l;
    calc {
      x * u - y * v;
      x * (u - v) + (x - y) * v;
      x * (m * l) + (m * k) * v;
      m * (x * l) + m * (k * v);
      m * (x * l + k * v);
    }
    DividesBy(m, x * u - y * v, x * l + k * v);
  }

  lemma {:induction false} SameMod(m: int, x: int)
    requires m > 0
    ensures Same(m, x % m, x)
  {
    assert x == m * (x / m) + x % m;
    DividesBy(m, x % m - x, -(x / m));
  }

  lemma {:induction false} NoSmallMultiple(m: int, x: int)
    requires m > 0 && Divides(m, x) && -m < x < m
    ensures x == 0
  {
    var k :| x == m * k;
    MultipleBound(m, k);
  }

  lemma {:induction false} MultipleBound(m: int, k: int)
    requires m > 0
    ensures k >= 1 ==> m * k >= m
    ensures k <= -1 ==> m * k <= -m
    ensures k == 0 ==> m * k == 0
  {
  }

  /** Numbers below the modulus are congruent only if equal. */
  lemma {:induction false} SameSmall(m: int, x: int, y: int)
    requires m > 0 && Same(m, x, y) && 0 <= x < m && 0 <= y < m
    ensures x == y
  {
    NoSmallMultiple(m, x - y);
  }

  lemma {:induction false} SameModEqual(m: int, x: int, y: int)
    requires m > 0
    ensures Same(m, x, y) <==> x % m == y % m
  {
    SameMod(m, x);
    SameMod(m, y);
    if Same(m, x, y) {
      SameTrans(m, x % m, x, y);
      SameSym(m, y % m, y);
      SameTrans(m, x % m, y, y % m);
      SameSmall(m, x % m, y % m);
    }
    if x % m == y % m {
      SameSym(m, x % m, x);
      SameTrans(m, x, x % m, y);
    }
  }

  lemma {:induction false} DividesSame(m: int, x: int)
    ensures Divides(m, x) <==> Same(m, x, 0)
  {
  }

  // ----- primes

  /** The least positive combination of a and m divides both. */
  lemma {:induction false} Bezout(a: int, p: int) returns (x: int, y: int)
    requires Prime(p) && 0 < a < p
    ensures a * x + p * y == 1
  {
    var g: int;
    g, x, y := Gcd(a, p);
    if g != 1 {
      assert Divides(g, p) && g <= a;
    }
  }

  lemma {:induction false} GcdAlgebra(a: int, b: int, q: int, r: int, x: int, y: int)
    requires b == a * q + r
    ensures a * (y - q * x) + b * x == r * x + a * y
  {
    assert a * (q * x) == (a * q) * x;
  }

  lemma {:induction false} Gcd(a: int, b: int) returns (g: int, x: int, y: int)
    requires 0 <= a && 0 < b
    ensures g == a * x + b * y && g >= 1 && Divides(g, a) && Divides(g, b) && g <= b && (a > 0 ==> g <= a)
    decreases a
  {
    if a == 0 {
      g, x, y := b, 0, 1;
      DividesBy(b, 0, 0);
      DividesBy(b, b, 1);
    } else {
      var x', y';
      g, x', y' := Gcd(b % a, a);
      var q := b / a;
      assert b == a * q + b % a;
      x, y := y' - q * x', x';
      GcdAlgebra(a, b, q, b % a, x', y');
      var k :| b % a == g * k;
      var l :| a == g * l;
      Assoc(g, l, q);
      DividesBy(g, b, l * q + k);
      DivisorBound(g, b);
    }
  }

  lemma {:induction false} DivisorBound(g: int, b: int)
    requires g >= 1 && b >= 1 && Divides(g, b)
    ensures g <= b
  {
    if g > b {
      NoSmallMultiple(g, b);
    }
  }

  lemma {:induction false} Assoc(x: int, y: int, z: int)
    ensures (x * y) * z == x * (y * z)
  {
  }

  /** Euclid's lemma. */
  lemma {:induction false} Euclid(p: int, a: int, b: int)
    requires Prime(p) && Divides(p, a * b) && !Divides(p, a)
    ensures Divides(p, b)
  {
    var x := Inverse(p, a);
    SameRefl(p, b);
    SameMul(p, x * a, 1, b, b);
    Assoc(x, a, b);
    SameRefl(p, x);
    SameMul(p, x, x, a * b, 0);
    SameSym(p, (x * a) * b, b);
    SameTrans(p, b, (x * a) * b, 0);
  }

  lemma {:induction false} Inverse(p: int, a: int) returns (x: int)
    requires Prime(p) && !Divides(p, a)
    ensures Same(p, x * a, 1)
  {
    var r := a % p;
    SameMod(p, a);
    if r == 0 {
      SameSym(p, r, a);
      DividesSame(p, a);
    }
    var y;
    x, y := Bezout(r, p);
    DividesBy(p, x * r - 1, -y);
    SameRefl(p, x);
    SameSym(p, r, a);
    SameMul(p, x, x, a, r);
    SameTrans(p, x * a, x * r, 1);
  }

  lemma {:induction false} FactorialNotDivisible(p: int, n: nat)
    requires Prime(p) && n < p
    ensures !Divides(p, Factorial(n))
    decreases n
  {
    if n == 0 {
      if Divides(p, 1) {
        NoSmallMultiple(p, 1);
      }
    } else {
      FactorialNotDivisible(p, n - 1);
      if Divides(p, n * Factorial(n - 1)) {
        if Divides(p, n) {
          NoSmallMultiple(p, n);
        }
        Euclid(p, n, Factorial(n - 1));
      }
    }
  }

  // ----- binomial coefficients

  lemma {:induction false} ChooseAbove(n: nat, r: nat)
    requires r > n
    ensures Choose(n, r) == 0
    decreases n
  {
    if n == 0 {
    } else {
      ChooseAbove(n - 1, r - 1);
      ChooseAbove(n - 1, r);
    }
  }

  lemma {:induction false} ChooseAll(n: nat)
    ensures Choose(n, n) == 1
    decreases n
  {
    if n == 0 {
    } else {
      ChooseAll(n - 1);
      ChooseAbove(n - 1, n);
    }
  }

  /** C(n, r) is the quotient of factorials. */
  lemma {:induction false} ChooseFactorial(n: nat, r: nat)
    requires r <= n
    ensures Choose(n, r) * (Factorial(r) * Factorial(n - r)) == Factorial(n)
    decreases n
  {
    if r == 0 {
    } else if r == n {
      ChooseAll(n);
    } else {
      var a, b := Choose(n - 1, r - 1), Choose(n - 1, r);
      var x, y := Factorial(r - 1), Factorial(n - r - 1);
      ChooseFactorial(n - 1, r - 1);
      ChooseFactorial(n - 1, r);
      assert Factorial(r) == r * x && Factorial(n - r) == (n - r) * y;
      PascalStep(a, b, x, y, r, n - r, Factorial(n - 1));
    }
  }

  lemma {:induction false} PascalStep(a: int, b: int, x: int, y: int, r: int, q: int, f: int)
    requires a * (x * (q * y)) == f && b * ((r * x) * y) == f
    ensures (a + b) * ((r * x) * (q * y)) == (r + q) * f
  {
    assert a * ((r * x) * (q * y)) == r * (a * (x * (q * y)));
    assert b * ((r * x) * (q * y)) == q * (b * ((r * x) * y));
  }

  /** A prime divides the inner coefficients of its row. */
  lemma {:induction false} PrimeRow(p: nat, r: nat)
    requires Prime(p) && 0 < r < p
    ensures Divides(p, Choose(p, r))
  {
    ChooseFactorial(p, r);
    FactorialNotDivisible(p, r);
    FactorialNotDivisible(p, p - r);
    Cofactor(p, Choose(p, r), Factorial(r), Factorial(p - r), Factorial(p - 1));
  }

  lemma {:induction false} Cofactor(p: int, c: int, x: int, y: int, f: int)
    requires Prime(p) && c * (x * y) == p * f && !Divides(p, x) && !Divides(p, y)
    ensures Divides(p, c)
  {
    if Divides(p, x * y) {
      Euclid(p, x, y);
    }
    DividesBy(p, (x * y) * c, f);
    Euclid(p, x * y, c);
  }

  /** What Lucas' theorem makes of the last digits and the rest. */
  function DigitProduct(p: nat, n: nat, r: nat): int
    requires p > 0
  {
    Choose(n / p, r / p) * Choose(n % p, r % p)
  }

  lemma {:induction false} NonZeroDigits(p: nat, r: nat)
    requires p > 0 && r > 0
    ensures Choose(0, r / p) * Choose(0, r % p) == 0
  {
    assert r == p * (r / p) + r % p;
  }

  lemma {:induction false} NextDigit(p: nat, n: nat)
    requires p >= 1
    ensures if n % p == p - 1 then (n + 1) % p == 0 && (n + 1) / p == n / p + 1
            else (n + 1) % p == n % p + 1 && (n + 1) / p == n / p
  {
    var q, d := n / p, n % p;
    assert n == p * q + d;
    if d == p - 1 {
      assert p * (q + 1) == p * q + p;
      QuotientIs(p, n + 1, q + 1, 0);
    } else {
      QuotientIs(p, n + 1, q, d + 1);
    }
  }

  lemma {:induction false} QuotientIs(p: nat, x: int, q: int, d: int)
    requires p >= 1 && x == p * q + d && 0 <= d < p
    ensures x / p == q && x % p == d
  {
    var e := x / p - q;
    assert p * e == d - x % p;
    MultipleBound(p, e);
  }

  /** The digit products obey Pascal's rule; d + 1 carries when it reaches p. */
  lemma {:induction false} DigitPascal(p: nat, nq: nat, nd: nat, rq: nat, rd: nat)
    requires Prime(p) && nd < p && rd < p
    ensures var nq', nd' := if nd == p - 1 then nq + 1 else nq, if nd == p - 1 then 0 else nd + 1;
            var rq', rd' := if rd == p - 1 then rq + 1 else rq, if rd == p - 1 then 0 else rd + 1;
            Same(p, Choose(nq, rq) * Choose(nd, rd) + Choose(nq, rq') * Choose(nd, rd'),
                Choose(nq', rq') * Choose(nd', rd'))
  {
    if nd < p - 1 && rd < p - 1 {
      Distribute(Choose(nq, rq), Choose(nd, rd), Choose(nd, rd + 1));
      SameRefl(p, Choose(nq, rq) * Choose(nd + 1, rd + 1));
    } else if nd < p - 1 {
      ChooseAbove(nd, rd);
      SameRefl(p, Choose(nq, rq + 1) * 1);
    } else if rd < p - 1 {
      PrimeRow(p, rd + 1);
      Distribute(Choose(nq, rq), Choose(p - 1, rd), Choose(p - 1, rd + 1));
      SameRefl(p, Choose(nq, rq));
      SameMul(p, Choose(nq, rq), Choose(nq, rq), Choose(p, rd + 1), 0);
    } else {
      ChooseAll(p - 1);
      SameRefl(p, Choose(nq + 1, rq + 1));
    }
  }

  lemma {:induction false} Distribute(x: int, y: int, z: int)
    ensures x * y + x * z == x * (y + z)
  {
  }

  lemma {:induction false} NoDigits(p: nat, n: nat, r: nat)
    requires p > 0 && (n == 0 || r == 0)
    ensures DigitProduct(p, n, r) == Choose(n, r)
  {
    QuotientIs(p, 0, 0, 0);
    if r > 0 {
      NonZeroDigits(p, r);
    }
  }

  lemma {:induction false} DigitProductPascal(p: nat, n: nat, r: nat)
    requires Prime(p)
    ensures Same(p, DigitProduct(p, n, r) + DigitProduct(p, n, r + 1), DigitProduct(p, n + 1, r + 1))
  {
    NextDigit(p, n);
    NextDigit(p, r);
    DigitPascal(p, n / p, n % p, r / p, r % p);
  }

  lemma {:induction false} PascalSame(p: int, x: int, y: int, a: int, b: int, c: int)
    requires Same(p, x, a) && Same(p, y, b) && Same(p, a + b, c)
    ensures Same(p, x + y, c)
  {
    SameAdd(p, x, a, y, b);
    SameTrans(p, x + y, a + b, c);
  }

  /** One step of Lucas' theorem: the last digit splits off. */
  lemma {:induction false} LucasStep(p: nat, n: nat, r: nat)
    requires Prime(p)
    ensures Same(p, Choose(n, r), DigitProduct(p, n, r))
    decreases n
  {
    if r == 0 || n == 0 {
      NoDigits(p, n, r);
      SameRefl(p, Choose(n, r));
    } else {
      LucasStep(p, n - 1, r - 1);
      LucasStep(p, n - 1, r);
      DigitProductPascal(p, n - 1, r - 1);
      PascalSame(p, Choose(n - 1, r - 1), Choose(n - 1, r), DigitProduct(p, n - 1, r - 1), DigitProduct(p, n - 1, r),
                 DigitProduct(p, n, r));
    }
  }

  // ----- Fermat

  /** The sum of C(n, i) a^i for i below k. */
  function BinomialSum(n: nat, a: int, k: nat): int {
    if k == 0 then 0 else BinomialSum(n, a, k - 1) + Choose(n, k - 1) * Power(a, k - 1)
  }

  lemma {:induction false} SumAlgebra(a: int, s: int, c1: int, c2: int, w: int)
    ensures a * (s + c1 * w) + c2 * (a * w) == a * s + (c1 + c2) * (a * w)
  {
    assert a * (c1 * w) == c1 * (a * w);
  }

  /** Pascal's rule on the sums. */
  lemma {:induction false} SumStep(n: nat, a: int, k: nat)
    ensures BinomialSum(n + 1, a, k + 1) == a * BinomialSum(n, a, k) + BinomialSum(n, a, k + 1)
    decreases k
  {
    if k == 0 {
      assert BinomialSum(n + 1, a, 1) == BinomialSum(n + 1, a, 0) + Choose(n + 1, 0) * Power(a, 0);
      assert BinomialSum(n, a, 1) == BinomialSum(n, a, 0) + Choose(n, 0) * Power(a, 0);
    } else {
      SumStep(n, a, k - 1);
      SumAlgebra(a, BinomialSum(n, a, k - 1), Choose(n, k - 1), Choose(n, k), Power(a, k - 1));
    }
  }

  lemma {:induction false} OneMore(a: int, s: int)
    ensures (a + 1) * s == a * s + s
  {
  }

  lemma {:induction false} Times(c: int, x: int)
    requires c == 0
    ensures c * x == 0
  {
  }

  lemma {:induction false} BinomialTheorem(n: nat, a: int)
    ensures Power(a + 1, n) == BinomialSum(n, a, n + 1)
    decreases n
  {
    if n == 0 {
      assert BinomialSum(0, a, 1) == BinomialSum(0, a, 0) + Choose(0, 0) * Power(a, 0);
    } else {
      BinomialTheorem(n - 1, a);
      SumStep(n - 1, a, n);
      ChooseAbove(n - 1, n);
      Times(Choose(n - 1, n), Power(a, n));
      OneMore(a, Power(a + 1, n - 1));
    }
  }

  lemma {:induction false} InnerVanish(p: nat, a: int, k: nat)
    requires Prime(p) && 1 <= k <= p
    ensures Same(p, BinomialSum(p, a, k), 1)
    decreases k
  {
    if k == 1 {
      assert BinomialSum(p, a, 1) == BinomialSum(p, a, 0) + Choose(p, 0) * Power(a, 0);
      SameRefl(p, 1);
    } else {
      InnerVanish(p, a, k - 1);
      PrimeRow(p, k - 1);
      SameRefl(p, Power(a, k - 1));
      SameMul(p, Choose(p, k - 1), 0, Power(a, k - 1), Power(a, k - 1));
      SameAdd(p, BinomialSum(p, a, k - 1), 1, Choose(p, k - 1) * Power(a, k - 1), 0);
    }
  }

  /** a^p and a leave the same remainder. */
  lemma {:induction false} FermatPower(p: nat, a: nat)
    requires Prime(p)
    ensures Same(p, Power(a, p), a)
    decreases a
  {
    if a == 0 {
      assert Power(0, p) == 0 * Power(0, p - 1);
      SameRefl(p, 0);
    } else {
      FermatPower(p, a - 1);
      BinomialTheorem(p, a - 1);
      InnerVanish(p, a - 1, p);
      ChooseAll(p);
      assert BinomialSum(p, a - 1, p + 1) == BinomialSum(p, a - 1, p) + Choose(p, p) * Power(a - 1, p);
      SameAdd(p, BinomialSum(p, a - 1, p), 1, Power(a - 1, p), a - 1);
    }
  }

  /** Fermat's little theorem: a^(p-2) inverts a. */
  lemma {:induction false} FermatInverse(p: nat, a: nat)
    requires Prime(p) && !Divides(p, a)
    ensures Same(p, a * Power(a, p - 2), 1)
  {
    FermatPower(p, a);
    var x := Power(a, p - 1);
    assert Power(a, p) == a * x && x == a * Power(a, p - 2);
    assert a * x - a == a * (x - 1);
    Euclid(p, a, x - 1);
  }
}
