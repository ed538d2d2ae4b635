/** Dense univariate polynomials over Fr, as arkworks' DensePolynomial holds
    them, and the opening quotient `vanish` of poc-prover's poly.rs:
    q(X) = (f(X) - y) / (X - i), computed by division by a monic linear
    factor whose remainder is discarded. */
module Polynomial {
  import opened Field
  import opened Sums

  /** Coefficients, lowest degree first: p[j] is the coefficient of X^j. */
  type Poly = seq<Fr>

  /** The canonical form arkworks keeps: no trailing zero coefficient, so the
      zero polynomial has no coefficients at all. */
  predicate IsTrimmed(p: Poly)
  {
    |p| == 0 || p[|p| - 1] != 0
  }

  /** Dropping trailing zero coefficients (arkworks' `from_coefficients_vec`
      and the normalisation after `sub` and `div`). */
  function Trim(p: Poly): (r: Poly)
    ensures IsTrimmed(r) && r <= p
    ensures forall k :: |r| <= k < |p| ==> p[k] == 0
    decreases |p|
  {
    if IsTrimmed(p) then p else Trim(p[..|p| - 1])
  }

  /** The trimmed form of p is the unique trimmed prefix of p followed only
      by zeros. */
  lemma TrimUnique(p: Poly, r: Poly)
    requires r <= p && IsTrimmed(r)
    requires forall k :: |r| <= k < |p| ==> p[k] == 0
    ensures Trim(p) == r
  {
  }

  /** The coefficient of X^j, zero beyond the stored ones. */
  function Coeff(p: Poly, j: nat): Fr
  {
    if j < |p| then p[j] else 0
  }

  /** p(x), by Horner's rule. */
  function Eval(p: Poly, x: Fr): Fr
  {
    if |p| == 0 then 0 else Add(p[0], Mul(x, Eval(p[1..], x)))
  }

  /** Coefficient-wise sum; the shorter operand is padded with zeros. */
  function AddPoly(a: Poly, b: Poly): (r: Poly)
    ensures |r| == if |a| < |b| then |b| else |a|
    ensures forall j :: 0 <= j < |r| ==> r[j] == Add(Coeff(a, j), Coeff(b, j))
  {
    if |a| == 0 then (
      assert forall j :: 0 <= j < |b| ==> Add(0, b[j]) == b[j];
      b
    ) else if |b| == 0 then (
      assert forall j :: 0 <= j < |a| ==> Add(a[j], 0) == a[j];
      a
    ) else [Add(a[0], b[0])] + AddPoly(a[1..], b[1..])
  }

  /** The coefficients of f(X) - y before normalisation. */
  function ConstSub(f: Poly, y: Fr): (r: Poly)
    ensures |r| == if |f| == 0 then 1 else |f|
  {
    if |f| == 0 then [Neg(y)] else [Sub(f[0], y)] + f[1..]
  }

  /** f - y as arkworks computes `f.sub(&from_coefficients_vec(vec![y]))`:
      the constant coefficient lowered by y, then trailing zeros dropped. */
  function SubConstant(f: Poly, y: Fr): Poly
  {
    Trim(ConstSub(f, y))
  }

  /** The coefficients of q(X) * (X - z). */
  function MulLinear(q: Poly, z: Fr): (r: Poly)
    ensures |r| == if |q| == 0 then 0 else |q| + 1
  {
    if |q| == 0 then [] else [Neg(Mul(z, q[0]))] + AddPoly([q[0]], MulLinear(q[1..], z))
  }

  datatype Division = Division(quotient: Poly, remainder: Fr)

  /** Division of a by the monic linear X - z (synthetic division). The
      quotient has one coefficient fewer than a, and its leading coefficient
      is a's. */
  function SyntheticDivision(a: Poly, z: Fr): (d: Division)
    ensures |d.quotient| == if |a| == 0 then 0 else |a| - 1
    ensures |a| >= 2 ==> d.quotient[|d.quotient| - 1] == a[|a| - 1]
    decreases |a|
  {
    if |a| <= 1 then
      Division([], if |a| == 0 then 0 else a[0])
    else
      var d := SyntheticDivision(a[1..], z);
      Division([d.remainder] + d.quotient, Add(a[0], Mul(z, d.remainder)))
  }

  /** poly.rs `vanish(f, i, y_i)`: the quotient of f - y_i by X - i; the
      remainder of the division is dropped. */
  function Vanish(f: Poly, i: Fr, y: Fr): (q: Poly)
    ensures IsTrimmed(q)
    ensures |q| == if |SubConstant(f, y)| == 0 then 0 else |SubConstant(f, y)| - 1
  {
    SyntheticDivision(SubConstant(f, y), i).quotient
  }

  // ---------------------------------------------------------------------
  // Evaluation

  lemma {:induction false} EvalZeros(p: Poly, x: Fr)
    requires forall j :: 0 <= j < |p| ==> p[j] == 0
    ensures Eval(p, x) == 0
  {
    if |p| > 0 {
      EvalZeros(p[1..], x);
      MulZero(x);
    }
  }

  /** Trailing zero coefficients do not change the value. */
  lemma {:induction false} EvalPrefix(p: Poly, k: nat, x: Fr)
    requires k <= |p|
    requires forall j :: k <= j < |p| ==> p[j] == 0
    ensures Eval(p[..k], x) == Eval(p, x)
  {
    if k == 0 {
      EvalZeros(p, x);
    } else {
      assert p[..k][1..] == p[1..][..k - 1];
      EvalPrefix(p[1..], k - 1, x);
    }
  }

  lemma EvalTrim(p: Poly, x: Fr)
    ensures Eval(Trim(p), x) == Eval(p, x)
  {
    var r := Trim(p);
    assert r == p[..|r|];
    EvalPrefix(p, |r|, x);
  }

  lemma EvalConstant(c: Fr, x: Fr)
    ensures Eval([c], x) == c
  {
    assert [c][1..] == [];
    MulZero(x);
  }

  lemma {:induction false} EvalAddPoly(a: Poly, b: Poly, x: Fr)
    ensures Eval(AddPoly(a, b), x) == Add(Eval(a, x), Eval(b, x))
  {
    if |a| == 0 {
      AddZero(Eval(b, x));
    } else if |b| == 0 {
      AddZero(Eval(a, x));
    } else {
      var r := AddPoly(a, b);
      assert r[1..] == AddPoly(a[1..], b[1..]);
      EvalAddPoly(a[1..], b[1..], x);
      var ea, eb := Eval(a[1..], x), Eval(b[1..], x);
      Distrib(x, ea, eb);
      AddAddSwap(a[0], b[0], Mul(x, ea), Mul(x, eb));
    }
  }

  lemma EvalConstSub(f: Poly, y: Fr, x: Fr)
    ensures Eval(ConstSub(f, y), x) == Sub(Eval(f, x), y)
  {
    var c := ConstSub(f, y);
    if |f| == 0 {
      EvalConstant(Neg(y), x);
      SubIsAddNeg(0, y);
    } else {
      assert c[1..] == f[1..];
      var t := Mul(x, Eval(f[1..], x));
      SubIsAddNeg(f[0], y);
      SubIsAddNeg(Add(f[0], t), y);
      AddAssoc(f[0], Neg(y), t);
      AddComm(Neg(y), t);
      AddAssoc(f[0], t, Neg(y));
    }
  }

  lemma EvalSubConstant(f: Poly, y: Fr, x: Fr)
    ensures Eval(SubConstant(f, y), x) == Sub(Eval(f, x), y)
  {
    EvalTrim(ConstSub(f, y), x);
    EvalConstSub(f, y, x);
  }

  lemma {:induction false} EvalMulLinear(q: Poly, z: Fr, x: Fr)
    ensures Eval(MulLinear(q, z), x) == Mul(Eval(q, x), Sub(x, z))
  {
    if |q| == 0 {
      MulZero(Sub(x, z));
    } else {
      var q0, e := q[0], Eval(q[1..], x);
      var m := MulLinear(q, z);
      assert m[1..] == AddPoly([q0], MulLinear(q[1..], z));
      EvalMulLinear(q[1..], z, x);
      EvalAddPoly([q0], MulLinear(q[1..], z), x);
      EvalConstant(q0, x);
      var t := Mul(e, Sub(x, z));
      // Eval(m, x) == -(z q0) + x (q0 + t)
      Distrib(x, q0, t);
      AddAssoc(Neg(Mul(z, q0)), Mul(x, q0), Mul(x, t));
      AddComm(Neg(Mul(z, q0)), Mul(x, q0));
      SubIsAddNeg(Mul(x, q0), Mul(z, q0));
      // (q0 + x e)(x - z) == (q0 x - q0 z) + x t
      DistribRight(q0, Mul(x, e), Sub(x, z));
      MulSubDistrib(q0, x, z);
      MulComm(q0, x);
      MulComm(q0, z);
      MulAssoc(x, e, Sub(x, z));
    }
  }

  /** Writing f as its power sum, the form in which interpolation is proved. */
  lemma {:induction false} EvalAsSum(p: Poly, x: Fr)
    ensures Eval(p, x) == Sum(|p|, j => Mul(Coeff(p, j), Pow(x, j)))
    decreases |p|
  {
    if |p| > 0 {
      var f := (j: nat) => Mul(Coeff(p, j), Pow(x, j));
      var t := p[1..];
      var g := (j: nat) => Mul(Coeff(t, j), Pow(x, j));
      var h := (j: nat) => Mul(x, g(j));
      forall j: nat | j < |t|
        ensures h(j) == f(j + 1)
      {
        assert Coeff(p, j + 1) == t[j];
        MulAssoc(t[j], x, Pow(x, j));
        MulComm(t[j], x);
        MulAssoc(x, t[j], Pow(x, j));
      }
      calc {
        Eval(p, x);
        Add(p[0], Mul(x, Eval(t, x)));
        { EvalAsSum(t, x); }
        Add(p[0], Mul(x, Sum(|t|, g)));
        { SumScale(x, |t|, g, h); }
        Add(p[0], Sum(|t|, h));
        { MulOne(p[0]); assert f(0) == p[0]; }
        Add(f(0), Sum(|t|, h));
        { SumShift(|t|, f, h); }
        Sum(|p|, f);
      }
    }
  }

  /** The power sum may run over any bound beyond the stored coefficients. */
  lemma EvalAsLongSum(p: Poly, x: Fr, m: nat)
    requires |p| <= m
    ensures Eval(p, x) == Sum(m, j => Mul(Coeff(p, j), Pow(x, j)))
  {
    EvalAsSum(p, x);
    forall j: nat | |p| <= j < m ensures Mul(Coeff(p, j), Pow(x, j)) == 0 {
      MulZero(Pow(x, j));
    }
    SumPad(|p|, m, j => Mul(Coeff(p, j), Pow(x, j)));
  }

  // ---------------------------------------------------------------------
  // Division by X - z

  lemma {:induction false} AddPolyComm(a: Poly, b: Poly)
    ensures AddPoly(a, b) == AddPoly(b, a)
  {
    var l, r := AddPoly(a, b), AddPoly(b, a);
    forall j | 0 <= j < |l| ensures l[j] == r[j] {
      AddComm(Coeff(a, j), Coeff(b, j));
    }
  }

  lemma CancelNeg(a0: Fr, u: Fr)
    ensures Add(Neg(u), Add(a0, u)) == a0
  {
    AddComm(a0, u);
    AddAssoc(Neg(u), u, a0);
    SubIsAddNeg(u, u);
    AddComm(Neg(u), u);
    AddZero(a0);
  }

  /** Adding a constant changes only the constant coefficient. */
  lemma AddConstantSplit(m: Poly, c: Fr)
    requires |m| >= 1
    ensures AddPoly(m, [c]) == [Add(m[0], c)] + m[1..]
  {
    var r, e := AddPoly(m, [c]), [Add(m[0], c)] + m[1..];
    assert |r| == |e|;
    forall j | 0 <= j < |r| ensures r[j] == e[j] {
      if j > 0 { AddZero(m[j]); }
    }
  }

  /** The division identity on coefficients: a = q * (X - z) + r. */
  lemma {:induction false} DivisionIdentity(a: Poly, z: Fr)
    requires |a| >= 1
    ensures var d := SyntheticDivision(a, z);
      a == AddPoly(MulLinear(d.quotient, z), [d.remainder])
    decreases |a|
  {
    var d := SyntheticDivision(a, z);
    if |a| >= 2 {
      var d' := SyntheticDivision(a[1..], z);
      var rr, q' := d'.remainder, d'.quotient;
      var u := Mul(z, rr);
      calc {
        AddPoly(MulLinear(d.quotient, z), [d.remainder]);
        { assert d.quotient == [rr] + q'; }
        AddPoly([Neg(u)] + AddPoly([rr], MulLinear(q', z)), [d.remainder]);
        { DivisionIdentity(a[1..], z); AddPolyComm(MulLinear(q', z), [rr]); }
        AddPoly([Neg(u)] + a[1..], [d.remainder]);
        { AddConstantSplit([Neg(u)] + a[1..], d.remainder); }
        [Add(Neg(u), Add(a[0], u))] + a[1..];
        { CancelNeg(a[0], u); }
        [a[0]] + a[1..];
        a;
      }
    } else {
      assert AddPoly([], [a[0]]) == a;
    }
  }

  /** The remainder of division by X - z is the value at z. */
  lemma {:induction false} RemainderTheorem(a: Poly, z: Fr)
    ensures SyntheticDivision(a, z).remainder == Eval(a, z)
    decreases |a|
  {
    if |a| == 1 {
      EvalConstant(a[0], z);
      assert a == [a[0]];
    } else if |a| >= 2 {
      RemainderTheorem(a[1..], z);
    }
  }

  /** The division identity at every point x: a(x) = q(x) (x - z) + a(z). */
  lemma DivisionAt(a: Poly, z: Fr, x: Fr)
    ensures var d := SyntheticDivision(a, z);
      Eval(a, x) == Add(Mul(Eval(d.quotient, x), Sub(x, z)), Eval(a, z))
  {
    var d := SyntheticDivision(a, z);
    RemainderTheorem(a, z);
    if |a| == 0 {
      MulZero(Sub(x, z));
    } else {
      DivisionIdentity(a, z);
      EvalAddPoly(MulLinear(d.quotient, z), [d.remainder], x);
      EvalMulLinear(d.quotient, z, x);
      EvalConstant(d.remainder, x);
    }
  }

  // ---------------------------------------------------------------------
  // Properties of vanish

  /** The coefficients of f - y with f canonical: same length as f once f
      has degree at least 1, at most one coefficient otherwise. */
  lemma SubConstantLength(f: Poly, y: Fr)
    requires IsTrimmed(f)
    ensures |f| >= 2 ==> |SubConstant(f, y)| == |f|
    ensures |f| <= 1 ==> |SubConstant(f, y)| <= 1
  {
    var c := ConstSub(f, y);
    if |f| >= 2 {
      assert c[|c| - 1] == f[|f| - 1];
    }
  }

  /** f(X) - y = q(X) (X - i) + (f(i) - y), as polynomials, for every input:
      the division never fails. */
  lemma VanishIdentity(f: Poly, i: Fr, y: Fr)
    ensures SubConstant(f, y) == Trim(AddPoly(MulLinear(Vanish(f, i, y), i), [Sub(Eval(f, i), y)]))
  {
    var a := SubConstant(f, y);
    var d := SyntheticDivision(a, i);
    RemainderTheorem(a, i);
    EvalSubConstant(f, y, i);
    if |a| == 0 {
      assert AddPoly([], [0]) == [0];
    } else {
      DivisionIdentity(a, i);
    }
  }

  /** The same identity at every point x. */
  lemma VanishAt(f: Poly, i: Fr, y: Fr, x: Fr)
    ensures Sub(Eval(f, x), y) == Add(Mul(Eval(Vanish(f, i, y), x), Sub(x, i)), Sub(Eval(f, i), y))
  {
    var a := SubConstant(f, y);
    DivisionAt(a, i, x);
    EvalSubConstant(f, y, x);
    EvalSubConstant(f, y, i);
  }

  /** Adding the zero constant leaves the canonical form unchanged. */
  lemma AddZeroConstant(m: Poly)
    ensures Trim(AddPoly(m, [0])) == Trim(m)
  {
    var s := AddPoly(m, [0]);
    if |m| == 0 {
      assert s == [0];
    } else {
      forall j | 0 <= j < |m| ensures s[j] == m[j] { AddZero(m[j]); }
      assert s == m;
    }
  }

  /** When y = f(i) the division is exact: f(X) - y = q(X) (X - i). */
  lemma VanishExact(f: Poly, i: Fr, y: Fr)
    requires y == Eval(f, i)
    ensures SubConstant(f, y) == Trim(MulLinear(Vanish(f, i, y), i))
    ensures forall x: Fr :: Sub(Eval(f, x), y) == Mul(Eval(Vanish(f, i, y), x), Sub(x, i))
  {
    var q := Vanish(f, i, y);
    VanishIdentity(f, i, y);
    AddZeroConstant(MulLinear(q, i));
    forall x: Fr ensures Sub(Eval(f, x), y) == Mul(Eval(q, x), Sub(x, i)) {
      VanishAt(f, i, y, x);
      AddZero(Mul(Eval(q, x), Sub(x, i)));
    }
  }

  /** When y != f(i) vanish still returns a quotient, but the exact identity
      fails: the dropped remainder f(i) - y is not zero. */
  lemma VanishInexact(f: Poly, i: Fr, y: Fr)
    requires y != Eval(f, i)
    ensures SubConstant(f, y) != Trim(MulLinear(Vanish(f, i, y), i))
  {
    var q := Vanish(f, i, y);
    var m := MulLinear(q, i);
    EvalSubConstant(f, y, i);
    SubZero(Eval(f, i), y);
    assert Eval(SubConstant(f, y), i) != 0;
    EvalTrim(m, i);
    EvalMulLinear(q, i, i);
    SubZero(i, i);
    MulZero(Eval(q, i));
    assert Eval(Trim(m), i) == 0;
  }

  /** deg q = deg f - 1 when deg f >= 1, and q is the zero polynomial when
      f - y is a constant. */
  lemma VanishDegree(f: Poly, i: Fr, y: Fr)
    requires IsTrimmed(f)
    ensures |f| >= 2 ==> |Vanish(f, i, y)| == |f| - 1
    ensures |f| <= 1 ==> Vanish(f, i, y) == []
  {
    SubConstantLength(f, y);
  }
}
