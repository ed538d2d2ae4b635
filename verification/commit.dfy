/** commit.rs: the KZG commitment scheme over BN254, in the exponent model.

    A point of G1 (or G2) is written as its discrete logarithm to the base of
    the group's generator, so that adding points adds scalars, multiplying a
    point by a scalar multiplies them, and the pairing e(a G1, b G2) is
    e(G1, G2)^(a b), written as the product a b. The structured reference
    string of a secret tau is then srs_g1[j] = tau^j and srs_g2 = [1, tau]. */
module Commitment {
  import opened Wrappers
  import opened Field
  import opened Sums
  import opened Polynomial
  import opened Interpolation

  /** A point of G1, as its discrete logarithm to the base of the G1 generator. */
  type G1 = Fr

  /** A point of G2, as its discrete logarithm to the base of the G2 generator. */
  type G2 = Fr

  /** An element of the target group, as its logarithm to the base e(G1, G2). */
  type GT = Fr

  const G1Generator: G1 := 1
  const G2Generator: G2 := 1

  /** The point p multiplied by the scalar s, in either group. */
  function Scale(p: Fr, s: Fr): Fr { Mul(s, p) }

  /** The bilinear pairing e: G1 x G2 -> GT. */
  function Pairing(a: G1, b: G2): GT { Mul(a, b) }

  /** Variable-base multi-scalar multiplication sum_j scalars[j] bases[j].
      Like the library's `msm_bigint`, it pairs scalars with bases up to the
      shorter of the two sequences. */
  function Msm(scalars: seq<Fr>, bases: seq<G1>): G1
  {
    if |scalars| == 0 || |bases| == 0 then 0
    else Add(Scale(bases[0], scalars[0]), Msm(scalars[1..], bases[1..]))
  }

  /** The term scalars[j] bases[j] of the MSM, zero where either sequence
      has ended. */
  function MsmTerm(scalars: seq<Fr>, bases: seq<G1>, j: nat): G1
  {
    if j < |scalars| && j < |bases| then Scale(bases[j], scalars[j]) else 0
  }

  /** The MSM is the sum of scalars[j] bases[j] over the indices both
      sequences have. */
  lemma {:induction false} MsmAsSum(scalars: seq<Fr>, bases: seq<G1>)
    ensures var n := if |scalars| <= |bases| then |scalars| else |bases|;
      Msm(scalars, bases) == Sum(n, (j: nat) => MsmTerm(scalars, bases, j))
    decreases |scalars|
  {
    var n := if |scalars| <= |bases| then |scalars| else |bases|;
    if n > 0 {
      var s', b' := scalars[1..], bases[1..];
      MsmAsSum(s', b');
      var f := (j: nat) => MsmTerm(scalars, bases, j);
      var g := (j: nat) => MsmTerm(s', b', j);
      forall i: nat | i < n - 1 ensures g(i) == f(i + 1) { }
      SumShift(n - 1, f, g);
    }
  }

  /** commit.rs free function `commit(poly, srs_g1)`: the MSM of the
      coefficients against the G1 part of the reference string. */
  function CommitPoly(f: Poly, srsG1: seq<G1>): G1
  {
    Msm(f, srsG1)
  }

  /** The G1 part of main.rs's mock reference string for the secret tau:
      the powers tau^0, tau^1, ... */
  ghost predicate WellFormedG1(tau: Fr, srsG1: seq<G1>)
  {
    forall j :: 0 <= j < |srsG1| ==> srsG1[j] == Pow(tau, j)
  }

  /** The whole reference string main.rs's mock setup produces for the
      secret tau: the G1 powers and the G2 pair [G2, tau G2]. */
  ghost predicate WellFormedSrs(tau: Fr, srsG1: seq<G1>, srsG2: seq<G2>)
  {
    && WellFormedG1(tau, srsG1)
    && |srsG2| == 2 && srsG2[0] == G2Generator && srsG2[1] == tau
  }

  /** The two panics of commit.rs: the failed `assert_eq!` of setup and the
      out-of-range index `srs_g2[1]` of verify. */
  datatype Panic =
    | LengthMismatch(polyLen: nat, srsG1Len: nat)
    | IndexOutOfBounds(index: nat, len: nat)

  /** commit.rs `CommitmentScheme`: written once by `setup`, then only read. */
  datatype CommitmentScheme = CommitmentScheme(poly: Poly, srsG1: seq<G1>, srsG2: seq<G2>)
  {
    /** `self.commit()`. */
    function Commit(): G1
    {
      CommitPoly(poly, srsG1)
    }

    /** `self.open(x)`: the value y = f(x) and the commitment to the
        quotient (f(X) - y) / (X - x). */
    function Open(x: Fr): (Fr, G1)
    {
      var y := Eval(poly, x);
      (y, CommitPoly(Vanish(poly, x, y), srsG1))
    }

    /** `self.verify(commit, y, proof, x)`: the pairing check
        e(C - y G1, G2) == e(proof, srs_g2[1] - x G2), which panics when
        srs_g2 has no element at index 1. In the exponent model the check
        reads C - y == proof (tau - x) with tau = srs_g2[1]. */
    function Verify(commitment: G1, y: Fr, proof: G1, x: Fr): (r: Result<bool, Panic>)
      ensures r.Err? <==> |srsG2| < 2
      ensures r.Ok? ==> (r.value <==> Sub(commitment, y) == Mul(proof, Sub(srsG2[1], x)))
    {
      if |srsG2| < 2 then
        Err(IndexOutOfBounds(1, |srsG2|))
      else
        var lhs := Pairing(Sub(commitment, Scale(G1Generator, y)), G2Generator);
        var rhs := Pairing(proof, Sub(srsG2[1], Scale(G2Generator, x)));
        MulOne(y);
        MulOne(x);
        MulOne(Sub(commitment, y));
        Ok(lhs == rhs)
    }
  }

  /** commit.rs `CommitmentScheme::setup`: the polynomial must have exactly
      as many coefficients as srs_g1 has points (a shorter one panics too);
      srs_g2 is stored unchecked. */
  function Setup(poly: Poly, srsG1: seq<G1>, srsG2: seq<G2>): (r: Result<CommitmentScheme, Panic>)
    ensures r.Ok? <==> |poly| == |srsG1|
    ensures r.Ok? ==> r.value.poly == poly && r.value.srsG1 == srsG1 && r.value.srsG2 == srsG2
    ensures r.Err? ==> r.error == LengthMismatch(|poly|, |srsG1|)
  {
    if |poly| != |srsG1| then Err(LengthMismatch(|poly|, |srsG1|))
    else Ok(CommitmentScheme(poly, srsG1, srsG2))
  }

  // ---------------------------------------------------------------------
  // Commitments are evaluations at tau

  /** The MSM against consecutive powers tau^o, tau^(o+1), ... is tau^o f(tau). */
  lemma {:induction false} MsmOfPowers(f: Poly, bases: seq<G1>, tau: Fr, o: nat)
    requires |f| <= |bases|
    requires forall j :: 0 <= j < |bases| ==> bases[j] == Pow(tau, j + o)
    ensures Msm(f, bases) == Mul(Pow(tau, o), Eval(f, tau))
  {
    if |f| == 0 {
      MulZero(Pow(tau, o));
    } else {
      var e := Eval(f[1..], tau);
      MsmOfPowers(f[1..], bases[1..], tau, o + 1);
      calc {
        Mul(Pow(tau, o), Eval(f, tau));
        Mul(Pow(tau, o), Add(f[0], Mul(tau, e)));
        { Distrib(Pow(tau, o), f[0], Mul(tau, e)); }
        Add(Mul(Pow(tau, o), f[0]), Mul(Pow(tau, o), Mul(tau, e)));
        { MulComm(Pow(tau, o), f[0]);
          MulAssoc(Pow(tau, o), tau, e);
          MulComm(Pow(tau, o), tau); }
        Add(Mul(f[0], bases[0]), Mul(Pow(tau, o + 1), e));
      }
    }
  }

  /** When srs_g1 holds the powers of tau, committing to f of at most
      |srs_g1| coefficients yields f(tau). */
  lemma CommitIsEvaluation(f: Poly, srsG1: seq<G1>, tau: Fr)
    requires WellFormedG1(tau, srsG1) && |f| <= |srsG1|
    ensures CommitPoly(f, srsG1) == Eval(f, tau)
  {
    MsmOfPowers(f, srsG1, tau, 0);
    MulOne(Eval(f, tau));
  }

  /** The free `commit` does not check lengths: coefficients beyond the
      reference string are silently ignored. Only setup's check prevents it. */
  lemma {:induction false} CommitIgnoresExcess(f: Poly, srsG1: seq<G1>)
    requires |f| > |srsG1|
    ensures CommitPoly(f, srsG1) == CommitPoly(f[..|srsG1|], srsG1)
  {
    if |srsG1| > 0 {
      assert f[..|srsG1|][1..] == f[1..][..|srsG1| - 1];
      CommitIgnoresExcess(f[1..], srsG1[1..]);
    }
  }

  /** `self.commit()` of a scheme built by setup, with srs_g1 holding the
      powers of tau, is f(tau); being a function of the stored values, it is
      the same on every call. */
  lemma SchemeCommit(poly: Poly, srsG1: seq<G1>, srsG2: seq<G2>, tau: Fr)
    requires Setup(poly, srsG1, srsG2).Ok? && WellFormedG1(tau, srsG1)
    ensures Setup(poly, srsG1, srsG2).value.Commit() == Eval(poly, tau)
  {
    CommitIsEvaluation(poly, srsG1, tau);
  }

  // ---------------------------------------------------------------------
  // Opening

  /** `open(x)` returns (f(x), q(tau)) for q = vanish(f, x, f(x)); for a
      canonical f of degree at least 1 the quotient has one coefficient
      fewer than srs_g1, and the MSM still accepts it. */
  lemma OpenShape(poly: Poly, srsG1: seq<G1>, srsG2: seq<G2>, tau: Fr, x: Fr)
    requires Setup(poly, srsG1, srsG2).Ok? && WellFormedG1(tau, srsG1)
    ensures var s := Setup(poly, srsG1, srsG2).value;
      var q := Vanish(poly, x, Eval(poly, x));
      && s.Open(x).0 == Eval(poly, x)
      && |q| <= |srsG1|
      && (IsTrimmed(poly) && |poly| >= 2 ==> |q| == |srsG1| - 1)
      && s.Open(x).1 == Eval(q, tau)
  {
    var y := Eval(poly, x);
    var q := Vanish(poly, x, y);
    var a := SubConstant(poly, y);
    assert |ConstSub(poly, y)| <= |poly| || |poly| == 0;
    if |poly| == 0 {
      assert ConstSub(poly, y) == [Neg(y)];
      assert Neg(0) == 0;
      assert Trim([0]) == [];
    }
    if IsTrimmed(poly) {
      VanishDegree(poly, x, y);
    }
    CommitIsEvaluation(q, srsG1, tau);
  }

  // ---------------------------------------------------------------------
  // Verification

  /** Completeness: for every point x, the opening of a scheme built by setup
      over a well-formed reference string verifies against its commitment. */
  lemma Completeness(poly: Poly, srsG1: seq<G1>, srsG2: seq<G2>, tau: Fr, x: Fr)
    requires Setup(poly, srsG1, srsG2).Ok? && WellFormedSrs(tau, srsG1, srsG2)
    ensures var s := Setup(poly, srsG1, srsG2).value;
      var (y, proof) := s.Open(x);
      s.Verify(s.Commit(), y, proof, x) == Ok(true)
  {
    var s := Setup(poly, srsG1, srsG2).value;
    var y := Eval(poly, x);
    var q := Vanish(poly, x, y);
    SchemeCommit(poly, srsG1, srsG2, tau);
    OpenShape(poly, srsG1, srsG2, tau, x);
    VanishExact(poly, x, y);
    assert Sub(Eval(poly, tau), y) == Mul(Eval(q, tau), Sub(tau, x));
  }

  /** Tamper rejection: once (C, y, proof) verifies at x, the same proof
      with any other claimed value y' is rejected. */
  lemma TamperRejection(s: CommitmentScheme, commitment: G1, y: Fr, y': Fr, proof: G1, x: Fr)
    requires s.Verify(commitment, y, proof, x) == Ok(true) && y' != y
    ensures s.Verify(commitment, y', proof, x) == Ok(false)
  {
    if Sub(commitment, y') == Mul(proof, Sub(s.srsG2[1], x)) {
      SubInjective(commitment, y, y');
    }
  }

  /** When tau != x, at most one proof verifies a claimed value at x. */
  lemma ProofUnique(s: CommitmentScheme, commitment: G1, y: Fr, proof: G1, proof': G1, x: Fr)
    requires IsPrime(P)
    requires s.Verify(commitment, y, proof, x) == Ok(true)
    requires s.Verify(commitment, y, proof', x) == Ok(true)
    requires s.srsG2[1] != x
    ensures proof == proof'
  {
    var d := Sub(s.srsG2[1], x);
    MulSubDistribRight(proof, proof', d);
    SubZero(Mul(proof, d), Mul(proof', d));
    SubZero(s.srsG2[1], x);
    NoZeroDivisors(Sub(proof, proof'), d);
    SubZero(proof, proof');
  }

  /** verify uses the G2 generator, not srs_g2[0]: replacing srs_g2[0] does
      not change any answer. */
  lemma VerifyIgnoresFirstG2(s: CommitmentScheme, g: G2, commitment: G1, y: Fr, proof: G1, x: Fr)
    requires |s.srsG2| >= 1
    ensures CommitmentScheme(s.poly, s.srsG1, s.srsG2[0 := g]).Verify(commitment, y, proof, x)
         == s.Verify(commitment, y, proof, x)
  {
  }

  // ---------------------------------------------------------------------
  // End to end

  /** Interpolating the values over a domain, setting up the scheme with a
      well-formed reference string of matching length, and opening at the
      k-th domain point yields the k-th value with a proof that verifies. */
  lemma EndToEnd(points: seq<Fr>, domain: Option<Domain>, srsG1: seq<G1>, srsG2: seq<G2>, tau: Fr, k: nat)
    requires IsPrime(P)
    requires domain.Some? && domain.value.Valid() && |points| <= domain.value.size
    requires k < |points|
    requires |Interpolate(points, domain).value| == |srsG1| && WellFormedSrs(tau, srsG1, srsG2)
    ensures var s := Setup(Interpolate(points, domain).value, srsG1, srsG2);
      var x := domain.value.Element(k);
      && s.Ok?
      && s.value.Open(x).0 == points[k]
      && s.value.Verify(s.value.Commit(), s.value.Open(x).0, s.value.Open(x).1, x) == Ok(true)
  {
    var f := Interpolate(points, domain).value;
    InterpolateAt(points, domain, k);
    Completeness(f, srsG1, srsG2, tau, domain.value.Element(k));
  }
}
