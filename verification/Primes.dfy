/** Powers, congruences and Fermat's little theorem. */
module Primes {
  // ---------------------------------------------------------------- powers

  ghost function Pow(z: int, e: nat): int {
    if e == 0 then 1 else z * Pow(z, e - 1)
  }

  lemma PowSmall(z: int)
    ensures Pow(z, 0) == 1 && Pow(z, 1) == z
  {
  }

  lemma {:induction false} PowAdd(z: int, d: nat, e: nat)
    ensures Pow(z, d + e) == Pow(z, d) * Pow(z, e)
  {
    if d > 0 {
      PowAdd(z, d - 1, e);
      assert z * (Pow(z, d - 1) * Pow(z, e)) == (z * Pow(z, d - 1)) * Pow(z, e);
    }
  }

  lemma MiddleTwo(a: int, b: int, c: int, d: int)
    ensures (a * b) * (c * d) == (a * c) * (b * d)
  {
  }

  lemma {:induction false} PowMul(x: int, y: int, e: nat)
    ensures Pow(x * y, e) == Pow(x, e) * Pow(y, e)
  {
    if e > 0 {
      PowMul(x, y, e - 1);
      MiddleTwo(x, y, Pow(x, e - 1), Pow(y, e - 1));
    }
  }

  lemma {:induction false} PowOne(e: nat)
    ensures Pow(1, e) == 1
  {
    if e > 0 {
      PowOne(e - 1);
    }
  }

  lemma {:induction false} PowPow(z: int, a: nat, e: nat)
    ensures Pow(Pow(z, a), e) == Pow(z, a * e)
    decreases e
  {
    if e > 0 {
      PowPow(z, a, e - 1);
      PowAdd(z, a, a * (e - 1));
      assert a * e == a + a * (e - 1);
    }
  }

  // ---------------------------------------------------------------- congruence

  /** n divides x. */
  ghost predicate Divides(n: int, x: int) { exists q :: x == n * q }

  ghost predicate Cong(n: int, x: int, y: int) { Divides(n, x - y) }

  lemma DividesBy(n: int, x: int, q: int)
    requires x == n * q
    ensures Divides(n, x)
  {
  }

  lemma CongSelf(n: int, x: int)
    ensures Cong(n, x, x)
  {
    DividesBy(n, x - x, 0);
  }

  lemma CongTrans(n: int, x: int, y: int, z: int)
    requires Cong(n, x, y) && Cong(n, y, z)
    ensures Cong(n, x, z)
  {
    var q :| x - y == n * q;
    var r :| y - z == n * r;
    assert x - z == n * (q + r);
  }

  lemma CongAdd(n: int, x: int, y: int, u: int, v: int)
    requires Cong(n, x, y) && Cong(n, u, v)
    ensures Cong(n, x + u, y + v) && Cong(n, x - u, y - v)
  {
    var q :| x - y == n * q;
    var r :| u - v == n * r;
    assert (x + u) - (y + v) == n * (q + r);
    assert (x - u) - (y - v) == n * (q - r);
  }

  lemma CongMul(n: int, x: int, y: int, u: int, v: int)
    requires Cong(n, x, y) && Cong(n, u, v)
    ensures Cong(n, x * u, y * v)
  {
    var q :| x - y == n * q;
    var r :| u - v == n * r;
    assert x * u - y * v == n * (q * u + y * r) by {
      assert x * u - y * v == (x - y) * u + y * (u - v);
      assert (n * q) * u + y * (n * r) == n * (q * u + y * r);
    }
  }

  lemma {:induction false} CongPow(n: int, x: int, y: int, e: nat)
    requires Cong(n, x, y)
    ensures Cong(n, Pow(x, e), Pow(y, e))
  {
    hide Cong;
    if e > 0 {
      CongPow(n, x, y, e - 1);
      CongMul(n, x, y, Pow(x, e - 1), Pow(y, e - 1));
    } else {
      CongSelf(n, 1);
    }
  }

  lemma DividesRemainder(n: int, x: int)
    requires n > 0
    ensures Divides(n, x) <==> x % n == 0
  {
    if Divides(n, x) {
      var q :| x == n * q;
      SmallMultiple(n, q - x / n, x % n);
    } else if x % n == 0 {
      DividesBy(n, x, x / n);
    }
  }

  /** Below n only zero is a multiple of n. */
  lemma SmallMultiple(n: int, q: int, r: int)
    requires n > 0 && 0 <= r < n && r == n * q
    ensures r == 0
  {
    if q > 0 {
      Grows(n, q);
    } else if q < 0 {
      Product(n, -q);
      Grows(n, -q);
    }
  }

  lemma Product(n: int, q: int)
    requires n > 0 && q > 0
    ensures n * -q == -(n * q) && n * q > 0
  {
    assert n * q == n + n * (q - 1);
  }

  lemma Grows(n: int, q: int)
    requires n > 0 && q > 0
    ensures n * q >= n
  {
    assert n * q == n + n * (q - 1);
  }

  lemma DividesMul(n: int, x: int, y: int)
    requires Divides(n, x)
    ensures Divides(n, x * y) && Divides(n, y * x)
  {
    var q :| x == n * q;
    assert x * y == n * (q * y) by { assert (n * q) * y == n * (q * y); }
    assert y * x == x * y;
  }

  lemma DividesAdd(n: int, x: int, y: int)
    requires Divides(n, x) && Divides(n, y)
    ensures Divides(n, x + y) && Divides(n, x - y)
  {
    var q :| x == n * q;
    var r :| y == n * r;
    assert x + y == n * (q + r) && x - y == n * (q - r);
  }

  // ---------------------------------------------------------------- primes

  ghost predicate Prime(p: int) {
    p >= 2 && forall d :: 2 <= d < p ==> !Divides(d, p)
  }

  /** A prime that divides a product of a smaller number with b divides b. */
  lemma {:induction false} EuclidSmall(p: int, a: int, b: int)
    requires Prime(p) && 0 < a < p && Divides(p, a * b)
    ensures Divides(p, b)
    decreases a
  {
    if a > 1 {
      var q, r := p / a, p % a;
      assert r != 0 by { if r == 0 { DividesBy(a, p, q); } }
      hide Divides, Prime;
      DividesBy(p, p * b, b);
      DividesMul(p, a * b, q);
      DividesAdd(p, p * b, q * (a * b));
      Remaining(p, a, b, q, r);
      EuclidSmall(p, r, b);
    } else {
      assert a * b == b;
    }
  }

  lemma Remaining(p: int, a: int, b: int, q: int, r: int)
    requires p == a * q + r
    ensures p * b - q * (a * b) == r * b
  {
    assert (a * q + r) * b == q * (a * b) + r * b;
  }

  /** A prime that divides a product divides a factor. */
  lemma Euclid(p: int, a: int, b: int)
    requires Prime(p) && Divides(p, a * b) && !Divides(p, a)
    ensures Divides(p, b)
  {
    hide Divides;
    var q, r := a / p, a % p;
    DividesRemainder(p, a);
    DividesBy(p, p * (q * b), q * b);
    DividesAdd(p, a * b, p * (q * b));
    assert a * b - p * (q * b) == r * b by {
      assert (p * q + r) * b == p * (q * b) + r * b;
    }
    EuclidSmall(p, r, b);
  }

  // ---------------------------------------------------------------- Fermat's little theorem

  ghost function Choose(n: nat, k: nat): nat {
    if k == 0 then 1 else if n == 0 then 0 else Choose(n - 1, k) + Choose(n - 1, k - 1)
  }

  lemma {:induction false} ChooseNone(n: nat, k: nat)
    requires k > n
    ensures Choose(n, k) == 0
  {
    if n > 0 {
      ChooseNone(n - 1, k);
      ChooseNone(n - 1, k - 1);
    }
  }

  lemma {:induction false} ChooseAll(n: nat)
    ensures Choose(n, n) == 1
  {
    if n > 0 {
      ChooseAll(n - 1);
      ChooseNone(n - 1, n);
    }
  }

  lemma {:induction false} ChooseAbsorb(n: nat, k: nat)
    requires n > 0 && k > 0
    ensures k * Choose(n, k) == n * Choose(n - 1, k - 1)
  {
    if n == 1 {
      if k > 1 { ChooseNone(1, k); ChooseNone(0, k - 1); }
    } else {
      ChooseAbsorb(n - 1, k);
      if k > 1 { ChooseAbsorb(n - 1, k - 1); }
      Absorb(n, k, Choose(n - 1, k), Choose(n - 1, k - 1), Choose(n - 2, k - 1), if k > 1 then Choose(n - 2, k - 2) else 0);
    }
  }

  lemma Absorb(n: int, k: int, c: int, d: int, e: int, f: int)
    requires k * c == (n - 1) * e && (k - 1) * d == (n - 1) * f && d == e + f
    ensures k * (c + d) == n * d
  {
    assert k * (c + d) == k * c + (k - 1) * d + d;
    assert (n - 1) * e + (n - 1) * f == (n - 1) * (e + f);
  }

  /** The first k terms of the expansion of (x + 1)^n. */
  ghost function Terms(n: nat, x: int, k: nat): int {
    if k == 0 then 0 else Terms(n, x, k - 1) + Choose(n, k - 1) * Pow(x, k - 1)
  }

  lemma {:induction false} TermsStep(n: nat, x: int, k: nat)
    ensures Terms(n + 1, x, k + 1) == Terms(n, x, k + 1) + x * Terms(n, x, k)
    decreases k
  {
    if k > 0 {
      TermsStep(n, x, k - 1);
      NextTerm(Terms(n, x, k), Terms(n, x, k - 1), Choose(n, k), Choose(n, k - 1), x, Pow(x, k - 1));
      assert Terms(n + 1, x, k + 1) == Terms(n + 1, x, k) + Choose(n + 1, k) * Pow(x, k);
    }
  }

  lemma NextTerm(s: int, t: int, c: int, d: int, x: int, z: int)
    ensures (s + x * t) + (c + d) * (x * z) == (s + c * (x * z)) + x * (t + d * z)
  {
    assert (c + d) * (x * z) == c * (x * z) + x * (d * z);
    assert x * (t + d * z) == x * t + x * (d * z);
  }

  lemma {:induction false} Binomial(n: nat, x: int)
    ensures Pow(x + 1, n) == Terms(n, x, n + 1)
  {
    if n > 0 {
      var t := Terms(n - 1, x, n);
      Binomial(n - 1, x);
      TermsStep(n - 1, x, n);
      NoMoreTerms(n - 1, x);
      Distribute(x, t);
    } else {
      assert Terms(0, x, 1) == Terms(0, x, 0) + Choose(0, 0) * Pow(x, 0);
    }
  }

  lemma NoMoreTerms(n: nat, x: int)
    ensures Terms(n, x, n + 2) == Terms(n, x, n + 1)
  {
    ChooseNone(n, n + 1);
    assert Terms(n, x, n + 2) == Terms(n, x, n + 1) + Choose(n, n + 1) * Pow(x, n + 1);
  }

  lemma Distribute(x: int, t: int)
    ensures (x + 1) * t == t + x * t
  {
  }

  lemma PrimeDividesChoose(p: nat, k: nat)
    requires Prime(p) && 0 < k < p
    ensures Divides(p, Choose(p, k))
  {
    hide Divides, Prime, Choose;
    ChooseAbsorb(p, k);
    DividesBy(p, k * Choose(p, k), Choose(p - 1, k - 1));
    EuclidSmall(p, k, Choose(p, k));
  }

  lemma {:induction false} TermsCong(p: nat, x: int, k: nat)
    requires Prime(p) && 1 <= k <= p
    ensures Cong(p, Terms(p, x, k), 1)
    decreases k
  {
    hide Cong, Prime, Divides;
    if k == 1 {
      assert Terms(p, x, 1) == Terms(p, x, 0) + Choose(p, 0) * Pow(x, 0);
      CongSelf(p, 1);
    } else {
      TermsCong(p, x, k - 1);
      PrimeDividesChoose(p, k - 1);
      DividesMul(p, Choose(p, k - 1), Pow(x, k - 1));
      CongPlus(p, Terms(p, x, k - 1), 1, Choose(p, k - 1) * Pow(x, k - 1));
    }
  }

  lemma CongPlus(n: int, x: int, y: int, d: int)
    requires Cong(n, x, y) && Divides(n, d)
    ensures Cong(n, x + d, y)
  {
    DividesAdd(n, x - y, d);
    assert x - y + d == x + d - y;
  }

  /** A number and its p-th power. */
  lemma {:induction false} FermatPower(p: nat, a: nat)
    requires Prime(p)
    ensures Cong(p, Pow(a, p), a)
  {
    hide Cong, Prime, Terms, Pow;
    PrimeIsLarge(p);
    if a == 0 {
      PowAdd(0, 1, p - 1);
      PowSmall(0);
      CongSelf(p, 0);
    } else {
      FermatPower(p, a - 1);
      Binomial(p, a - 1);
      TermsCong(p, a - 1, p);
      LastTerm(p, a - 1);
      CongAdd(p, Terms(p, a - 1, p), 1, Pow(a - 1, p), a - 1);
    }
  }

  lemma PrimeIsLarge(p: int)
    requires Prime(p)
    ensures p >= 2
  {
  }

  lemma LastTerm(p: nat, x: int)
    ensures Terms(p, x, p + 1) == Terms(p, x, p) + Pow(x, p)
  {
    ChooseAll(p);
  }

  /** Fermat's little theorem. */
  lemma Fermat(p: nat, a: nat)
    requires Prime(p) && !Divides(p, a)
    ensures Cong(p, Pow(a, p - 1), 1)
  {
    hide Divides, Prime, Pow;
    PrimeIsLarge(p);
    FermatPower(p, a);
    PowAdd(a, 1, p - 1);
    PowSmall(a);
    assert Pow(a, p) - a == a * (Pow(a, p - 1) - 1);
    Euclid(p, a, Pow(a, p - 1) - 1);
  }
}
