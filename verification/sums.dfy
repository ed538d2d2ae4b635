/** Finite sums of field elements, f(0) + ... + f(n-1), and the algebra the
    interpolation proof needs: linearity, exchange of a double sum, and the
    geometric series. */
module Sums {
  import opened Field

  function Sum(n: nat, f: nat -> Fr): Fr
  {
    if n == 0 then 0 else Add(Sum(n - 1, f), f(n - 1))
  }

  lemma {:induction false} SumExt(n: nat, f: nat -> Fr, g: nat -> Fr)
    requires forall i: nat :: i < n ==> f(i) == g(i)
    ensures Sum(n, f) == Sum(n, g)
  {
    if n > 0 { SumExt(n - 1, f, g); }
  }

  lemma {:induction false} SumScale(c: Fr, n: nat, f: nat -> Fr, g: nat -> Fr)
    requires forall i: nat :: i < n ==> g(i) == Mul(c, f(i))
    ensures Sum(n, g) == Mul(c, Sum(n, f))
  {
    if n == 0 {
      MulZero(c);
    } else {
      SumScale(c, n - 1, f, g);
      Distrib(c, Sum(n - 1, f), f(n - 1));
    }
  }

  lemma {:induction false} SumAdd(n: nat, f: nat -> Fr, g: nat -> Fr, h: nat -> Fr)
    requires forall i: nat :: i < n ==> h(i) == Add(f(i), g(i))
    ensures Sum(n, h) == Add(Sum(n, f), Sum(n, g))
  {
    if n > 0 {
      SumAdd(n - 1, f, g, h);
      var a, b, c, d := Sum(n - 1, f), Sum(n - 1, g), f(n - 1), g(n - 1);
      AddAddSwap(a, b, c, d);
    }
  }

  /** Exchanging the order of summation of a double sum. */
  lemma {:induction false} SumSwap(m: nat, n: nat, g: (nat, nat) -> Fr)
    ensures Sum(m, j => Sum(n, k => g(j, k))) == Sum(n, k => Sum(m, j => g(j, k)))
  {
    if m == 0 {
      SumZeros(n, k => Sum(m, j => g(j, k)));
    } else {
      var m1: nat := m - 1;
      var rows := (j: nat) => Sum(n, (k: nat) => g(j, k));
      var last := (k: nat) => g(m1, k);
      var before := (k: nat) => Sum(m1, (j: nat) => g(j, k));
      var cols := (k: nat) => Sum(m, (j: nat) => g(j, k));
      calc {
        Sum(m, rows);
        Add(Sum(m1, rows), Sum(n, last));
        { SumSwap(m1, n, g); }
        Add(Sum(n, before), Sum(n, last));
        { forall k: nat | k < n ensures cols(k) == Add(before(k), last(k)) { }
          SumAdd(n, before, last, cols); }
        Sum(n, cols);
      }
    }
  }

  lemma {:induction false} SumZeros(n: nat, f: nat -> Fr)
    requires forall i: nat :: i < n ==> f(i) == 0
    ensures Sum(n, f) == 0
  {
    if n > 0 { SumZeros(n - 1, f); }
  }

  /** Appending vanishing terms does not change a sum. */
  lemma {:induction false} SumPad(n: nat, m: nat, f: nat -> Fr)
    requires n <= m
    requires forall i: nat :: n <= i < m ==> f(i) == 0
    ensures Sum(m, f) == Sum(n, f)
    decreases m
  {
    if m > n {
      SumPad(n, m - 1, f);
      AddZero(Sum(m - 1, f));
    }
  }

  /** A sum whose terms vanish except at l is its l-th term. */
  lemma {:induction false} SumDelta(n: nat, f: nat -> Fr, l: nat)
    requires l < n
    requires forall i: nat :: i < n && i != l ==> f(i) == 0
    ensures Sum(n, f) == f(l)
  {
    if n - 1 == l {
      SumZeros(n - 1, f);
    } else {
      SumDelta(n - 1, f, l);
    }
  }

  /** Splitting off the first term: g is f shifted by one. */
  lemma {:induction false} SumShift(n: nat, f: nat -> Fr, g: nat -> Fr)
    requires forall i: nat :: i < n ==> g(i) == f(i + 1)
    ensures Sum(n + 1, f) == Add(f(0), Sum(n, g))
  {
    if n == 0 {
      AddComm(0, f(0));
    } else {
      SumShift(n - 1, f, g);
      AddAssoc(f(0), Sum(n - 1, g), f(n));
    }
  }

  lemma {:induction false} SumOnes(n: nat)
    ensures Sum(n, i => 1) == FromNat(n)
  {
    if n > 0 {
      SumOnes(n - 1);
      ModAddLeft(n - 1, 1);
    }
  }

  lemma AddSubChain(a: Fr, b: Fr, c: Fr)
    ensures Add(Sub(a, b), Sub(c, a)) == Sub(c, b)
  {
    ModAddBoth(a - b, c - a);
  }

  /** The geometric series: (z - 1)(1 + z + ... + z^(n-1)) = z^n - 1. */
  lemma {:induction false} Geometric(z: Fr, n: nat)
    ensures Mul(Sub(z, 1), Sum(n, j => Pow(z, j))) == Sub(Pow(z, n), 1)
  {
    if n == 0 {
      MulZero(Sub(z, 1));
    } else {
      Geometric(z, n - 1);
      var s, zn := Sum(n - 1, j => Pow(z, j)), Pow(z, n - 1);
      calc {
        Mul(Sub(z, 1), Add(s, zn));
        { Distrib(Sub(z, 1), s, zn); }
        Add(Sub(zn, 1), Mul(Sub(z, 1), zn));
        { MulComm(Sub(z, 1), zn); MulSubDistrib(zn, z, 1); MulOne(zn); MulComm(zn, z); }
        Add(Sub(zn, 1), Sub(Mul(z, zn), zn));
        { AddSubChain(zn, 1, Mul(z, zn)); }
        Sub(Pow(z, n), 1);
      }
    }
  }
}
