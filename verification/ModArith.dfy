// Arithmetic modulo n: the mathematical meaning of modPow, modInv and gcd of big integers.
module ModArith {
  import opened Wrappers
  import opened Division

  /** a and b leave the same remainder. */
  ghost predicate Congruent(a: int, b: int, n: nat)
    requires n > 0
  {
    exists k: int :: a == b + n * k
  }

  lemma CongruentMod(a: int, b: int, n: nat)
    requires n > 0
    ensures Congruent(a, b, n) <==> a % n == b % n
    ensures Congruent(a % n, a, n)
  {
    var q, r := a / n, b / n;
    assert a == a % n + n * q && b == b % n + n * r;
    Regroup(n, q, -q);
    assert a % n == a + n * (-q);
    if Congruent(a, b, n) {
      var k :| a == b + n * k;
      Regroup(n, r, k);
      DivisionUnique(a, n, r + k, b % n);
    }
    if a % n == b % n {
      Regroup(n, q, -r);
      Regroup(n, r, -r);
      assert a == b + n * (q + -r);
    }
  }

  lemma Regroup(n: int, x: int, y: int)
    ensures n * x + n * y == n * (x + y)
  {
  }

  lemma CongruentMul(a: int, b: int, c: int, d: int, n: nat)
    requires n > 0 && Congruent(a, b, n) && Congruent(c, d, n)
    ensures Congruent(a * c, b * d, n)
  {
    var k :| a == b + n * k;
    var l :| c == d + n * l;
    var m := b * l + k * d + k * n * l;
    Expand(b, d, n, k, l);
    assert a * c == b * d + n * m;
  }

  lemma Expand(b: int, d: int, n: int, k: int, l: int)
    ensures (b + n * k) * (d + n * l) == b * d + n * (b * l + k * d + k * n * l)
  {
    calc {
      (b + n * k) * (d + n * l);
      b * d + b * (n * l) + (n * k) * d + (n * k) * (n * l);
      {
        assert b * (n * l) == n * (b * l);
        assert (n * k) * d == n * (k * d);
        assert (n * k) * (n * l) == n * (k * n * l);
      }
      b * d + n * (b * l) + n * (k * d) + n * (k * n * l);
      { Regroup(n, b * l, k * d); Regroup(n, b * l + k * d, k * n * l); }
      b * d + n * (b * l + k * d + k * n * l);
    }
  }

  lemma CongruentTrans(a: int, b: int, c: int, n: nat)
    requires n > 0 && Congruent(a, b, n) && Congruent(b, c, n)
    ensures Congruent(a, c, n)
  {
    CongruentMod(a, b, n);
    CongruentMod(b, c, n);
    CongruentMod(a, c, n);
  }

  lemma CongruentSym(a: int, b: int, n: nat)
    requires n > 0 && Congruent(a, b, n)
    ensures Congruent(b, a, n)
  {
    CongruentMod(a, b, n);
    CongruentMod(b, a, n);
  }

  function Pow(b: nat, e: nat): nat {
    if e == 0 then 1 else b * Pow(b, e - 1)
  }

  lemma {:induction false} PowOfSum(b: nat, e: nat, f: nat)
    ensures Pow(b, 1) == b && Pow(b, e + f) == Pow(b, e) * Pow(b, f)
  {
    assert Pow(b, 1) == b * Pow(b, 0);
    if e > 0 {
      PowOfSum(b, e - 1, f);
      Associate(b, Pow(b, e - 1), Pow(b, f));
    }
  }

  lemma Associate(a: nat, b: nat, c: nat)
    ensures (a * b) * c == a * (b * c)
  {
  }

  /** b.modPow(e, n) */
  function ModPow(b: nat, e: nat, n: nat): (r: nat)
    requires n > 0
    ensures r < n
  {
    Pow(b, e) % n
  }

  lemma {:induction false} PowCongruent(a: nat, b: nat, e: nat, n: nat)
    requires n > 0 && Congruent(a, b, n)
    ensures Congruent(Pow(a, e), Pow(b, e), n)
  {
    if e == 0 {
      CongruentMod(1, 1, n);
    } else {
      PowCongruent(a, b, e - 1, n);
      CongruentMul(a, b, Pow(a, e - 1), Pow(b, e - 1), n);
    }
  }

  lemma {:induction false} PowOfProduct(a: nat, b: nat, e: nat)
    ensures Pow(a * b, e) == Pow(a, e) * Pow(b, e)
  {
    if e > 0 {
      PowOfProduct(a, b, e - 1);
      Interchange(a, b, Pow(a, e - 1), Pow(b, e - 1));
    }
  }

  lemma Interchange(a: nat, b: nat, c: nat, d: nat)
    ensures (a * b) * (c * d) == (a * c) * (b * d)
  {
    assert (a * b) * (c * d) == a * (b * (c * d));
    assert b * (c * d) == c * (b * d);
    assert a * (c * (b * d)) == (a * c) * (b * d);
  }

  // ----- Greatest common divisors and inverses -----

  function Gcd(a: nat, b: nat): nat
    decreases b
  {
    if b == 0 then a else Gcd(b, a % b)
  }

  /** Coefficients x and y with a * x + b * y == Gcd(a, b). */
  function Bezout(a: nat, b: nat): (int, int)
    decreases b
  {
    if b == 0 then (1, 0)
    else
      var (x, y) := Bezout(b, a % b);
      (y, x - (a / b) * y)
  }

  lemma {:induction false} BezoutIdentity(a: nat, b: nat)
    ensures var (x, y) := Bezout(a, b); a * x + b * y == Gcd(a, b)
    decreases b
  {
    if b > 0 {
      BezoutIdentity(b, a % b);
      var (x, y) := Bezout(b, a % b);
      EuclidStep(a, b, x, y);
    }
  }

  lemma EuclidStep(a: nat, b: nat, x: int, y: int)
    requires b > 0
    ensures b * x + (a % b) * y == a * y + b * (x - (a / b) * y)
  {
    var q, r := a / b, a % b;
    assert a == b * q + r;
    calc {
      a * y + b * (x - q * y);
      (b * q + r) * y + b * (x - q * y);
      { assert (b * q + r) * y == b * (q * y) + r * y; assert b * (x - q * y) == b * x - b * (q * y); }
      b * x + r * y;
    }
  }

  /** No number but 1 divides both. */
  ghost predicate Coprime(a: nat, b: nat) {
    forall d: nat :: Divides(d, a) && Divides(d, b) ==> d == 1
  }

  ghost predicate Divides(d: nat, a: nat) {
    exists k: nat :: a == d * k
  }

  lemma {:induction false} GcdDivides(a: nat, b: nat)
    ensures Divides(Gcd(a, b), a) && Divides(Gcd(a, b), b)
    decreases b
  {
    if b == 0 {
      assert a == a * 1 && b == a * 0;
    } else {
      GcdDivides(b, a % b);
      DividesNumber(Gcd(b, a % b), a, b);
    }
  }

  lemma DividesNumber(g: nat, a: nat, b: nat)
    requires b > 0 && Divides(g, b) && Divides(g, a % b)
    ensures Divides(g, a)
  {
    var k: nat :| b == g * k;
    var l: nat :| a % b == g * l;
    var q := a / b;
    assert a == b * q + a % b;
    Factor(g, k, l, q);
  }

  lemma Factor(g: nat, k: nat, l: nat, q: nat)
    ensures (g * k) * q + g * l == g * (k * q + l)
  {
    assert (g * k) * q == g * (k * q);
    Regroup(g, k * q, l);
  }

  /** The test for a greatest common divisor of 1 is the test for coprime numbers. */
  lemma GcdIsOneIff(a: nat, b: nat)
    ensures Gcd(a, b) == 1 <==> Coprime(a, b)
  {
    GcdDivides(a, b);
    if Gcd(a, b) == 1 {
      BezoutIdentity(a, b);
      var (x, y) := Bezout(a, b);
      forall d: nat | Divides(d, a) && Divides(d, b) ensures d == 1 {
        CommonDivisor(d, a, b, x, y);
      }
    }
  }

  lemma CommonDivisor(d: nat, a: nat, b: nat, x: int, y: int)
    requires Divides(d, a) && Divides(d, b) && a * x + b * y == 1
    ensures d == 1
  {
    var k: nat :| a == d * k;
    var l: nat :| b == d * l;
    CommonFactor(d, k, l, x, y);
    UnitDivides(d, k * x + l * y);
  }

  lemma CommonFactor(d: nat, k: nat, l: nat, x: int, y: int)
    ensures (d * k) * x + (d * l) * y == d * (k * x + l * y)
  {
    assert (d * k) * x == d * (k * x) && (d * l) * y == d * (l * y);
    Regroup(d, k * x, l * y);
  }

  lemma UnitDivides(d: nat, m: int)
    requires d * m == 1
    ensures d == 1
  {
    if d >= 2 && m >= 1 {
      MulOrder(d, 1, m);
    }
  }

  /** a.modInv(n): None when the code throws because a and n are not coprime. */
  function ModInv(a: nat, n: nat): (r: Option<nat>)
    requires n > 0
    ensures r.Some? ==> r.value < n
  {
    if Gcd(a, n) == 1 then Some(Bezout(a, n).0 % n) else None
  }

  /** The inverse exists exactly for coprime numbers, and it is one. */
  lemma ModInvInverts(a: nat, n: nat)
    requires n > 0
    ensures ModInv(a, n).Some? <==> Gcd(a, n) == 1
    ensures ModInv(a, n).Some? ==> Congruent(a * ModInv(a, n).value, 1, n)
  {
    if Gcd(a, n) == 1 {
      BezoutIdentity(a, n);
      var (x, y) := Bezout(a, n);
      CongruentMod(x, x, n);
      CongruentMod(a, a, n);
      CongruentMul(a, a, x % n, x, n);
      assert a * x == 1 + n * (-y);
      CongruentTrans(a * (x % n), a * x, 1, n);
    }
  }
}
