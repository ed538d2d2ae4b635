/** The scalar field Fr of the BN254 pairing curve: the integers modulo the
    prime order P of its pairing groups. Every element is kept in canonical
    form, 0 <= x < P, so equality of field elements is equality of integers. */
module Field {

  /** The order r of BN254's G1, G2 and GT groups, which is also the modulus of Fr. */
  const P: nat := 21888242871839275222246405745257275088548364400416034343698204186575808495617

  type Fr = x: int | 0 <= x < P

  function Add(a: Fr, b: Fr): Fr { (a + b) % P }

  function Neg(a: Fr): Fr { (P - a) % P }

  function Sub(a: Fr, b: Fr): Fr { (a - b) % P }

  function Mul(a: Fr, b: Fr): Fr { (a * b) % P }

  /** a^n, with a^0 = 1 (also for a = 0). */
  function Pow(a: Fr, n: nat): Fr
  {
    if n == 0 then 1 else Mul(a, Pow(a, n - 1))
  }

  /** The natural number n as a field element. */
  function FromNat(n: nat): Fr { n % P }

  ghost predicate IsPrime(n: nat)
  {
    n > 1 && forall d :: 1 < d < n ==> n % d != 0
  }

  // ---------------------------------------------------------------------
  // Integer facts about reduction modulo P

  lemma ModUnique(x: int, q: int, r: int)
    requires x == q * P + r && 0 <= r < P
    ensures x % P == r && x / P == q
  {
  }

  lemma ModAddMultiple(x: int, k: int)
    ensures (x + k * P) % P == x % P
  {
    ModUnique(x + k * P, x / P + k, x % P);
  }

  lemma ModMulLeft(x: int, y: int)
    ensures ((x % P) * y) % P == (x * y) % P
  {
    var q, r := x / P, x % P;
    assert x * y == (q * y) * P + r * y;
    ModAddMultiple(r * y, q * y);
  }

  lemma ModMulRight(x: int, y: int)
    ensures (x * (y % P)) % P == (x * y) % P
  {
    ModMulLeft(y, x);
    assert x * (y % P) == (y % P) * x;
    assert x * y == y * x;
  }

  lemma ModAddLeft(x: int, y: int)
    ensures ((x % P) + y) % P == (x + y) % P
  {
    ModAddMultiple(x % P + y, x / P);
  }

  lemma ModAddBoth(x: int, y: int)
    ensures ((x % P) + (y % P)) % P == (x + y) % P
  {
    ModAddLeft(x, y % P);
    ModAddLeft(y, x);
  }

  lemma ModNeg(x: int)
    ensures (P - x % P) % P == (-x) % P
  {
    var q, r := x / P, x % P;
    assert -x == -r + (-q) * P;
    ModAddMultiple(-r, 1);
    ModAddMultiple(-r, -q);
  }

  // ---------------------------------------------------------------------
  // Ring laws

  lemma AddComm(a: Fr, b: Fr)
    ensures Add(a, b) == Add(b, a)
  {
  }

  lemma AddAssoc(a: Fr, b: Fr, c: Fr)
    ensures Add(Add(a, b), c) == Add(a, Add(b, c))
  {
    calc {
      Add(Add(a, b), c);
      ((a + b) % P + c) % P;
      { ModAddLeft(a + b, c); }
      (a + b + c) % P;
      { ModAddLeft(b + c, a); }
      ((b + c) % P + a) % P;
    }
  }

  lemma AddAddSwap(a: Fr, b: Fr, c: Fr, d: Fr)
    ensures Add(Add(a, b), Add(c, d)) == Add(Add(a, c), Add(b, d))
  {
    AddAssoc(a, b, Add(c, d));
    AddAssoc(b, c, d);
    AddComm(b, c);
    AddAssoc(c, b, d);
    AddAssoc(a, c, Add(b, d));
  }

  lemma AddZero(a: Fr)
    ensures Add(a, 0) == a && Add(0, a) == a
  {
  }

  lemma MulComm(a: Fr, b: Fr)
    ensures Mul(a, b) == Mul(b, a)
  {
  }

  lemma MulAssoc(a: Fr, b: Fr, c: Fr)
    ensures Mul(Mul(a, b), c) == Mul(a, Mul(b, c))
  {
    ModMulLeft(a * b, c);
    ModMulLeft(b * c, a);
    assert (a * b) * c == (b * c) * a;
  }

  lemma MulOne(a: Fr)
    ensures Mul(a, 1) == a && Mul(1, a) == a
  {
  }

  lemma MulZero(a: Fr)
    ensures Mul(a, 0) == 0 && Mul(0, a) == 0
  {
  }

  lemma Distrib(a: Fr, b: Fr, c: Fr)
    ensures Mul(a, Add(b, c)) == Add(Mul(a, b), Mul(a, c))
  {
    var ab, ac := a * b, a * c;
    calc {
      Mul(a, Add(b, c));
      (a * ((b + c) % P)) % P;
      { ModMulRight(a, b + c); }
      (a * (b + c)) % P;
      { assert a * (b + c) == ab + ac; }
      (ab + ac) % P;
      { ModAddBoth(ab, ac); }
      (ab % P + ac % P) % P;
    }
  }

  lemma DistribRight(a: Fr, b: Fr, c: Fr)
    ensures Mul(Add(a, b), c) == Add(Mul(a, c), Mul(b, c))
  {
    Distrib(c, a, b);
  }

  lemma SubIsAddNeg(a: Fr, b: Fr)
    ensures Sub(a, b) == Add(a, Neg(b))
  {
    ModAddLeft(P - b, a);
    ModAddMultiple(a - b, 1);
  }

  lemma SubAdd(a: Fr, b: Fr)
    ensures Add(Sub(a, b), b) == a && Sub(Add(a, b), b) == a
  {
    calc {
      Add(Sub(a, b), b);
      ((a - b) % P + b) % P;
      { ModAddLeft(a - b, b); }
      a % P;
    }
    calc {
      Sub(Add(a, b), b);
      ((a + b) % P - b) % P;
      { ModAddLeft(a + b, -(b as int)); }
      a % P;
    }
  }

  lemma SubZero(a: Fr, b: Fr)
    ensures Sub(a, b) == 0 <==> a == b
  {
  }

  lemma SubInjective(c: Fr, y: Fr, y': Fr)
    requires Sub(c, y) == Sub(c, y')
    ensures y == y'
  {
  }

  lemma MulSubDistribRight(a: Fr, b: Fr, c: Fr)
    ensures Mul(Sub(a, b), c) == Sub(Mul(a, c), Mul(b, c))
  {
    MulSubDistrib(c, a, b);
    MulComm(Sub(a, b), c);
    MulComm(a, c);
    MulComm(b, c);
  }

  lemma MulNeg(a: Fr, b: Fr)
    ensures Mul(a, Neg(b)) == Neg(Mul(a, b))
  {
    var ab := a * b;
    calc {
      Mul(a, Neg(b));
      (a * ((P - b) % P)) % P;
      { ModMulRight(a, P - b); }
      (a * (P - b)) % P;
      { assert a * (P - b) == -ab + a * P; ModAddMultiple(-ab, a); }
      (-ab) % P;
      { ModNeg(ab); }
      (P - ab % P) % P;
    }
  }

  lemma MulSubDistrib(a: Fr, b: Fr, c: Fr)
    ensures Mul(a, Sub(b, c)) == Sub(Mul(a, b), Mul(a, c))
  {
    SubIsAddNeg(b, c);
    Distrib(a, b, Neg(c));
    MulNeg(a, c);
    SubIsAddNeg(Mul(a, b), Mul(a, c));
  }

  // ---------------------------------------------------------------------
  // Powers

  lemma PowAdd(a: Fr, m: nat, n: nat)
    ensures Pow(a, m + n) == Mul(Pow(a, m), Pow(a, n))
    decreases m
  {
    if m == 0 {
      MulOne(Pow(a, n));
    } else {
      PowAdd(a, m - 1, n);
      MulAssoc(a, Pow(a, m - 1), Pow(a, n));
    }
  }

  lemma {:induction false} PowMul(a: Fr, m: nat, n: nat)
    ensures Pow(a, m * n) == Pow(Pow(a, m), n)
    decreases n
  {
    if n > 0 {
      var k := m * (n - 1);
      assert m * n == m + k;
      PowMul(a, m, n - 1);
      PowAdd(a, m, k);
      assert Pow(Pow(a, m), n) == Mul(Pow(a, m), Pow(Pow(a, m), n - 1));
    }
  }

  lemma PowOne(n: nat)
    ensures Pow(1, n) == 1
  {
    if n > 0 { PowOne(n - 1); }
  }

  lemma PowMulBase(a: Fr, b: Fr, n: nat)
    ensures Pow(Mul(a, b), n) == Mul(Pow(a, n), Pow(b, n))
  {
    if n > 0 {
      PowMulBase(a, b, n - 1);
      var an, bn := Pow(a, n - 1), Pow(b, n - 1);
      calc {
        Pow(Mul(a, b), n);
        Mul(Mul(a, b), Mul(an, bn));
        { MulAssoc(a, b, Mul(an, bn)); }
        Mul(a, Mul(b, Mul(an, bn)));
        { MulAssoc(b, an, bn); MulComm(b, an); MulAssoc(an, b, bn); }
        Mul(a, Mul(an, Mul(b, bn)));
        { MulAssoc(a, an, Mul(b, bn)); }
        Mul(Pow(a, n), Pow(b, n));
      }
    }
  }

  /** Powers of an element whose m-th power is 1 repeat with period m. */
  lemma PowPeriodic(w: Fr, m: nat, q: nat, r: nat)
    requires Pow(w, m) == 1
    ensures Pow(w, q * m + r) == Pow(w, r)
  {
    assert q * m == m * q;
    PowAdd(w, m * q, r);
    PowMul(w, m, q);
    PowOne(q);
    MulOne(Pow(w, r));
  }

  // ---------------------------------------------------------------------
  // Prime modulus: no zero divisors

  /** Euclid's lemma for the prime P: if P divides a * b and not a, it divides b. */
  lemma {:induction false} Euclid(a: nat, b: int)
    requires IsPrime(P) && 0 < a < P && (a * b) % P == 0
    ensures b % P == 0
    decreases a
  {
    if a > 1 {
      var q, r := P / a, P % a;
      assert P == q * a + r;
      assert r != 0;
      var k := (a * b) / P;
      assert a * b == k * P;
      assert r * b == (b - q * k) * P by {
        calc {
          r * b;
          (P - q * a) * b;
          P * b - q * (a * b);
          P * b - q * (k * P);
          (b - q * k) * P;
        }
      }
      ModUnique(r * b, b - q * k, 0);
      Euclid(r, b);
    }
  }

  lemma NoZeroDivisors(a: Fr, b: Fr)
    requires IsPrime(P)
    ensures Mul(a, b) == 0 <==> a == 0 || b == 0
  {
    if Mul(a, b) == 0 && a != 0 {
      Euclid(a, b);
    }
  }
}
