/**
 Modular powers, inverses, the factorial tables and Lucas' digit loop.  All values stay below the
 modulus, so the products the program takes in 128 bits never lose anything.
 */
module Combinatorics {
  import opened Binomials

  lemma {:induction false} PowerSplit(b: int, e: nat)
    ensures Power(b, 2 * e) == Power(b * b, e)
    decreases e
  {
    if e == 0 {
    } else {
      PowerSplit(b, e - 1);
      assert Power(b, 2 * e) == b * Power(b, 2 * e - 1) && Power(b, 2 * e - 1) == b * Power(b, 2 * e - 2);
      assert 2 * e - 2 == 2 * (e - 1);
      Assoc(b, b, Power(b, 2 * e - 2));
    }
  }

  lemma {:induction false} PowerSame(m: int, x: int, y: int, e: nat)
    requires Same(m, x, y)
    ensures Same(m, Power(x, e), Power(y, e))
    decreases e
  {
    if e == 0 {
      SameRefl(m, 1);
    } else {
      PowerSame(m, x, y, e - 1);
      SameMul(m, x, y, Power(x, e - 1), Power(y, e - 1));
    }
  }

  lemma {:induction false} SameTimes(m: int, x: int, y: int, z: int)
    requires Same(m, x, y)
    ensures Same(m, x * z, y * z) && Same(m, z * x, z * y)
  {
    SameRefl(m, z);
    SameMul(m, x, y, z, z);
    SameMul(m, z, z, x, y);
  }

  /** One turn of the loop: res * base^exp keeps its remainder. */
  lemma {:induction false} PowStep(m: int, res: int, base: int, exp: nat, res': int, base': int)
    requires m > 0 && exp > 0 && base' == base * base % m && res' == if exp % 2 == 1 then res * base % m else res
    ensures Same(m, res' * Power(base', exp / 2), res * Power(base, exp))
  {
    var half := Power(base * base, exp / 2);
    PowerSplit(base, exp / 2);
    SameMod(m, base * base);
    PowerSame(m, base', base * base, exp / 2);
    SameTimes(m, Power(base', exp / 2), half, res');
    if exp % 2 == 1 {
      assert exp == 2 * (exp / 2) + 1;
      assert Power(base, exp) == base * half;
      SameMod(m, res * base);
      SameTimes(m, res', res * base, half);
      Assoc(res, base, half);
      SameTrans(m, res' * Power(base', exp / 2), res' * half, res * Power(base, exp));
    } else {
      assert exp == 2 * (exp / 2);
    }
  }

  /** mod_pow: right but for exponent 0 with modulus 1, where it answers 1 instead of 0. */
  method ModPow(base0: nat, exp0: nat, m: nat) returns (res: nat)
    requires m > 0
    ensures exp0 == 0 ==> res == 1
    ensures res == Power(base0, exp0) % m <==> !(exp0 == 0 && m == 1)
    ensures res < m || m == 1
  {
    res := 1;
    var base, exp := base0 % m, exp0;
    SameMod(m, base0);
    PowerSame(m, base, base0, exp0);
    while exp > 0
      invariant Same(m, res * Power(base, exp), Power(base0, exp0))
      invariant res < m || (res == 1 && (exp0 > 0 ==> exp > 0))
      invariant exp0 == 0 ==> exp == 0 && res == 1
    {
      ghost var r, b := res, base;
      if exp % 2 == 1 {
        res := res * base % m;
      }
      base := base * base % m;
      PowStep(m, r, b, exp, res, base);
      SameTrans(m, res * Power(base, exp / 2), r * Power(b, exp), Power(base0, exp0));
      exp := exp / 2;
    }
    SameModEqual(m, res, Power(base0, exp0));
    Remainder(m, res);
  }

  lemma {:induction false} Remainder(m: int, x: int)
    requires m > 0 && 0 <= x
    ensures x < m ==> x % m == x
    ensures m == 1 ==> x % m == 0
  {
  }

  /** mod_inverse, by Fermat. */
  method ModInverse(a: nat, p: nat) returns (r: nat)
    requires Prime(p)
    ensures r < p
    ensures !Divides(p, a) ==> Same(p, a * r, 1)
  {
    r := ModPow(a, p - 2, p);
    SameMod(p, Power(a, p - 2));
    if !Divides(p, a) {
      FermatInverse(p, a);
      SameTimes(p, r, Power(a, p - 2), a);
      SameTrans(p, a * r, a * Power(a, p - 2), 1);
    }
  }

  datatype Option<T> = None | Some(value: T)

  /** What the sweep leaves of inv_fact[i] * i!: 1 if the table stops below the prime, else 0. */
  function Unit(maxN: nat, p: nat): int {
    if maxN < p then 1 else 0
  }

  predicate FactorialAt(p: nat, i: nat, f: nat) {
    p > 0 && f == Factorial(i) % p
  }

  ghost predicate InverseAt(p: nat, maxN: nat, i: nat, inv: nat) {
    inv < p && Same(p, inv * Factorial(i), Unit(maxN, p))
  }

  /** A product taken in 128 bits and reduced. */
  function MulMod(a: nat, b: nat, m: nat): (r: nat)
    requires m > 0
    ensures r < m
  {
    a * b % m
  }

  lemma {:induction false} NextFactorial(p: nat, i: nat, f: nat)
    requires p > 0 && i >= 1 && FactorialAt(p, i - 1, f)
    ensures FactorialAt(p, i, MulMod(f, i, p))
  {
    SameMod(p, Factorial(i - 1));
    SameTimes(p, f, Factorial(i - 1), i);
    SameModEqual(p, f * i, Factorial(i));
  }

  lemma {:induction false} LastInverse(p: nat, n: nat, f: nat, inv: nat)
    requires Prime(p) && f == Factorial(n) % p && (!Divides(p, f) ==> Same(p, f * inv, 1))
    ensures Same(p, inv * Factorial(n), Unit(n, p))
  {
    SameMod(p, Factorial(n));
    SameSym(p, f, Factorial(n));
    SameTimes(p, Factorial(n), f, inv);
    if n < p {
      FactorialNotDivisible(p, n);
      if Divides(p, f) {
        SameTrans(p, Factorial(n), f, 0);
      }
      SameTrans(p, inv * Factorial(n), inv * f, 1);
    } else {
      FactorialDivisible(p, n);
      SameTimes(p, Factorial(n), 0, inv);
    }
  }

  lemma {:induction false} FactorialDivisible(p: nat, n: nat)
    requires 0 < p <= n
    ensures Divides(p, Factorial(n))
    decreases n
  {
    if n == p {
      DividesBy(p, Factorial(p), Factorial(p - 1));
    } else {
      FactorialDivisible(p, n - 1);
      SameTimes(p, Factorial(n - 1), 0, n);
    }
  }

  lemma {:induction false} SweepStep(p: nat, maxN: nat, i: nat, inv: nat)
    requires p > 0 && i >= 1 && InverseAt(p, maxN, i, inv)
    ensures InverseAt(p, maxN, i - 1, MulMod(inv, i, p))
  {
    SameMod(p, inv * i);
    SameTimes(p, MulMod(inv, i, p), inv * i, Factorial(i - 1));
    Assoc(inv, i, Factorial(i - 1));
    SameTrans(p, MulMod(inv, i, p) * Factorial(i - 1), inv * Factorial(i), Unit(maxN, p));
  }

  method FillFactorials(fact: array<nat>, n: nat, p: nat)
    requires Prime(p) && fact.Length == n + 1
    modifies fact
    ensures forall j {:trigger fact[j]} :: 0 <= j <= n ==> FactorialAt(p, j, fact[j])
  {
    fact[0] := 1;
    Remainder(p, 1);
    var i := 1;
    while i <= n
      invariant 1 <= i <= n + 1
      invariant forall j {:trigger fact[j]} :: 0 <= j < i ==> FactorialAt(p, j, fact[j])
    {
      NextFactorial(p, i, fact[i - 1]);
      fact[i] := MulMod(fact[i - 1], i, p);
      i := i + 1;
    }
  }

  /** The inverse of the last factorial, then backwards: inv_fact[i - 1] = inv_fact[i] * i. */
  method SweepInverses(fact: array<nat>, invFact: array<nat>, n: nat, p: nat)
    requires Prime(p) && fact.Length == invFact.Length == n + 1 && fact != invFact && FactorialAt(p, n, fact[n])
    modifies invFact
    ensures forall j {:trigger invFact[j]} :: 0 <= j <= n ==> InverseAt(p, n, j, invFact[j])
  {
    var last := ModInverse(fact[n], p);
    LastInverse(p, n, fact[n], last);
    invFact[n] := last;
    var i := n;
    while i >= 1
      invariant 0 <= i <= n
      invariant forall j {:trigger invFact[j]} :: i <= j <= n ==> InverseAt(p, n, j, invFact[j])
    {
      SweepStep(p, n, i, invFact[i]);
      invFact[i - 1] := MulMod(invFact[i], i, p);
      i := i - 1;
    }
  }

  class ModularCombinatorics {
    const maxN: nat
    const p: nat
    const fact: array<nat>
    const invFact: array<nat>

    ghost predicate EntryOk(i: nat)
      requires i < fact.Length && i < invFact.Length
      reads fact, invFact
    {
      p > 0 && fact[i] == Factorial(i) % p && invFact[i] < p && Same(p, invFact[i] * Factorial(i), Unit(maxN, p))
    }

    ghost predicate Valid()
      reads fact, invFact
    {
      && Prime(p) && fact.Length == invFact.Length == maxN + 1 && fact != invFact
      && forall i {:trigger EntryOk(i)} :: 0 <= i <= maxN ==> EntryOk(i)
    }

    constructor (n: nat, m: nat)
      requires Prime(m)
      ensures Valid() && maxN == n && p == m && fresh(fact) && fresh(invFact)
    {
      maxN, p := n, m;
      fact := new nat[n + 1](i => 0);
      invFact := new nat[n + 1](i => 0);
      new;
      FillFactorials(fact, n, m);
      SweepInverses(fact, invFact, n, m);
      forall i | 0 <= i <= maxN
        ensures EntryOk(i)
      {
        assert FactorialAt(m, i, fact[i]) && InverseAt(m, n, i, invFact[i]);
      }
    }

    /** nCr: the coefficient itself, if the tables stop below the prime; otherwise always 0. */
    method NCr(n: nat, r: nat) returns (res: Option<nat>)
      requires Valid()
      ensures r > n ==> res == Some(0)
      ensures r <= n && n > maxN ==> res == None
      ensures r <= n <= maxN ==> res == Some(if maxN < p then Choose(n, r) % p else 0)
      ensures res.Some? ==> (res.value == Choose(n, r) % p <==> maxN < p || Choose(n, r) % p == 0)
    {
      if r > n {
        ChooseAbove(n, r);
        Remainder(p, 0);
        return Some(0);
      }
      if n > maxN {
        return None;
      }
      assert EntryOk(n) && EntryOk(r) && EntryOk(n - r);
      var num := fact[n];
      var den := invFact[r] * invFact[n - r] % p;
      var c := num * den % p;
      NumberOf(p, maxN, n, r, num, invFact[r], invFact[n - r]);
      res := Some(c);
    }
  }

  /** fact[n] * inv_fact[r] * inv_fact[n - r] is C(n, r) times what is left of r! and (n - r)!. */
  lemma {:induction false} NumberOf(p: nat, maxN: nat, n: nat, r: nat, num: nat, a: nat, b: nat)
    requires Prime(p) && r <= n <= maxN && num == Factorial(n) % p && a < p && b < p
    requires Same(p, a * Factorial(r), Unit(maxN, p)) && Same(p, b * Factorial(n - r), Unit(maxN, p))
    ensures num * (a * b % p) % p == if maxN < p then Choose(n, r) % p else 0
  {
    var x, y, c := Factorial(r), Factorial(n - r), Choose(n, r);
    ChooseFactorial(n, r);
    SameMod(p, Factorial(n));
    SameMod(p, a * b);
    SameMul(p, num, Factorial(n), a * b % p, a * b);
    Regroup(c, x, y, a, b);
    SameMul(p, a * x, Unit(maxN, p), b * y, Unit(maxN, p));
    SameTimes(p, (a * x) * (b * y), Unit(maxN, p), c);
    SameTrans(p, num * (a * b % p), c * ((a * x) * (b * y)), c * Unit(maxN, p));
    SameModEqual(p, num * (a * b % p), c * Unit(maxN, p));
    Remainder(p, 0);
  }

  lemma {:induction false} Regroup(c: int, x: int, y: int, a: int, b: int)
    ensures (c * (x * y)) * (a * b) == c * ((a * x) * (b * y))
  {
    assert (x * y) * (a * b) == (a * x) * (b * y);
    Assoc(c, x * y, a * b);
  }

  lemma {:induction false} Digits(p: nat, n: nat, r: nat, ans: int)
    requires Prime(p)
    ensures Same(p, ans * DigitProduct(p, n, r), ans * Choose(n, r))
  {
    LucasStep(p, n, r);
    SameSym(p, Choose(n, r), DigitProduct(p, n, r));
    SameTimes(p, DigitProduct(p, n, r), Choose(n, r), ans);
  }

  lemma {:induction false} Vanishes(p: nat, ans: int, hi: int, lo: int, target: int)
    requires p > 0 && lo == 0 && Same(p, ans * (hi * lo), target)
    ensures target % p == 0
  {
    SameModEqual(p, 0, target);
    Remainder(p, 0);
  }

  lemma {:induction false} NextAnswer(p: nat, ans: int, hi: int, lo: int, target: int)
    requires p > 0 && Same(p, ans * (hi * lo), target)
    ensures Same(p, (ans * (lo % p) % p) * hi, target)
  {
    SameMod(p, lo);
    SameTimes(p, lo % p, lo, ans);
    SameMod(p, ans * (lo % p));
    SameTrans(p, ans * (lo % p) % p, ans * (lo % p), ans * lo);
    SameTimes(p, ans * (lo % p) % p, ans * lo, hi);
    assert (ans * lo) * hi == ans * (hi * lo);
    SameTrans(p, (ans * (lo % p) % p) * hi, ans * (hi * lo), target);
  }

  lemma {:induction false} Halves(p: nat, n: nat)
    requires p >= 2
    ensures 0 <= n / p <= n && (n > 0 ==> n / p < n)
  {
    var q := n / p;
    assert n == p * q + n % p;
    if q >= 1 {
      MultipleBound(q, p - 1);
      assert p * q == q * (p - 1) + q;
    }
  }

  /** The last digit of n in base p, and the number without it. */
  function Digit(n: nat, p: nat): (d: nat)
    requires p >= 2
    ensures d < p
  {
    n % p
  }

  function Rest(n: nat, p: nat): (q: nat)
    requires p >= 2
    ensures q <= n && (n > 0 ==> q < n)
  {
    Halves(p, n);
    n / p
  }

  /** What is still to be multiplied in: ans * C(n, r) is the answer. */
  ghost predicate Pending(p: nat, ans: nat, n: nat, r: nat, target: nat) {
    ans < p && Same(p, ans * Choose(n, r), target)
  }

  lemma {:induction false} Start(p: nat, n: nat, r: nat)
    requires Prime(p)
    ensures Pending(p, 1, n, r, Choose(n, r))
  {
    SameRefl(p, Choose(n, r));
  }

  lemma {:induction false} Finished(p: nat, ans: nat, target: nat)
    requires Pending(p, ans, 0, 0, target)
    ensures ans == target % p
  {
    SameModEqual(p, ans, target);
    Remainder(p, ans);
  }

  lemma {:induction false} SplitDigit(p: nat, ans: nat, n: nat, r: nat, hi: nat, lo: nat, target: nat)
    requires Prime(p) && Pending(p, ans, n, r, target)
    requires hi == Choose(Rest(n, p), Rest(r, p)) && lo == Choose(Digit(n, p), Digit(r, p))
    ensures Same(p, ans * (hi * lo), target)
  {
    Digits(p, n, r, ans);
    SameTrans(p, ans * DigitProduct(p, n, r), ans * Choose(n, r), target);
  }

  /** A digit of r above n's digit makes the whole coefficient a multiple of p. */
  lemma {:induction false} DigitTooBig(p: nat, ans: nat, n: nat, r: nat, target: nat)
    requires Prime(p) && Pending(p, ans, n, r, target) && Digit(r, p) > Digit(n, p)
    ensures target % p == 0
  {
    var hi, lo := Choose(Rest(n, p), Rest(r, p)), Choose(Digit(n, p), Digit(r, p));
    SplitDigit(p, ans, n, r, hi, lo, target);
    ChooseAbove(Digit(n, p), Digit(r, p));
    Vanishes(p, ans, hi, lo, target);
  }

  lemma {:induction false} DigitDone(p: nat, ans: nat, n: nat, r: nat, c: nat, target: nat)
    requires Prime(p) && Pending(p, ans, n, r, target) && c == Choose(Digit(n, p), Digit(r, p)) % p
    ensures Pending(p, MulMod(ans, c, p), Rest(n, p), Rest(r, p), target)
  {
    var hi, lo := Choose(Rest(n, p), Rest(r, p)), Choose(Digit(n, p), Digit(r, p));
    SplitDigit(p, ans, n, r, hi, lo, target);
    NextAnswer(p, ans, hi, lo, target);
  }

  /** Tables as long as the prime break it: C(1, 0) is 1 modulo 2, but tables up to 2 answer 0. */
  method LongTablesBreakNCr() returns (res: Option<nat>)
    ensures res == Some(0) && Choose(1, 0) % 2 == 1
  {
    TwoIsPrime();
    var c := new ModularCombinatorics(2, 2);
    res := c.NCr(1, 0);
  }

  lemma {:induction false} TwoIsPrime()
    ensures Prime(2)
  {
  }

  /** nCr_lucas: C(n, r) modulo a prime, for all n and r. */
  method NCrLucas(n0: nat, r0: nat, p: nat) returns (ans: nat)
    requires Prime(p)
    ensures ans == Choose(n0, r0) % p
  {
    if r0 > n0 {
      ChooseAbove(n0, r0);
      Remainder(p, 0);
      return 0;
    }
    var small := new ModularCombinatorics(p - 1, p);
    ans := 1;
    var n: nat, r: nat := n0, r0;
    Start(p, n0, r0);
    while n > 0 || r > 0
      invariant Pending(p, ans, n, r, Choose(n0, r0))
      decreases n + r
      modifies {}
    {
      var ni, ri := Digit(n, p), Digit(r, p);
      if ri > ni {
        DigitTooBig(p, ans, n, r, Choose(n0, r0));
        return 0;
      }
      var c := small.NCr(ni, ri);
      DigitDone(p, ans, n, r, c.value, Choose(n0, r0));
      ans := MulMod(ans, c.value, p);
      n := Rest(n, p);
      r := Rest(r, p);
    }
    Finished(p, ans, Choose(n0, r0));
  }
}
