/** poly.rs `poly`: the polynomial that takes the given values on the points
    of a root-of-unity evaluation domain, obtained by an inverse discrete
    Fourier transform of the values zero-padded to the domain size. */
module Interpolation {
  import opened Wrappers
  import opened Field
  import opened Sums
  import opened Polynomial

  /** A multiplicative subgroup of Fr of order `size`, generated by `gen`,
      together with the inverses that arkworks' evaluation domains keep
      beside the generator. Its points are gen^0, ..., gen^(size-1). */
  datatype Domain = Domain(size: nat, gen: Fr, genInv: Fr, sizeInv: Fr)
  {
    /** gen is a primitive size-th root of unity; genInv and sizeInv are the
        inverses of gen and of size in Fr. */
    ghost predicate Valid()
    {
      && 1 <= size < P
      && Mul(gen, genInv) == 1
      && Mul(FromNat(size), sizeInv) == 1
      && Pow(gen, size) == 1
      && forall k: nat :: 0 < k < size ==> Pow(gen, k) != 1
    }

    /** The k-th point of the domain. */
    function Element(k: nat): Fr
    {
      Pow(gen, k)
    }
  }

  /** poly.rs reports a missing domain as `Error::PolyError("no poly")`. */
  datatype PolyError = PolyError(message: string)

  /** The values resized to the domain size: zero-padded, or cut off if longer. */
  function Resize(v: seq<Fr>, m: nat): (r: seq<Fr>)
    ensures |r| == m
    ensures forall k :: 0 <= k < m ==> r[k] == Coeff(v, k)
  {
    if |v| >= m then v[..m] else v + seq(m - |v|, _ => 0)
  }

  /** The inverse discrete Fourier transform over d:
      c_j = size^-1 * sum_k v_k * genInv^(j k). */
  function InverseDft(v: seq<Fr>, d: Domain): (c: seq<Fr>)
    ensures |c| == d.size
  {
    seq(d.size, (j: int) requires 0 <= j => Mul(d.sizeInv, DftRow(v, d, j)))
  }

  /** sum_k v_k * genInv^(j k), over the domain size. */
  function DftRow(v: seq<Fr>, d: Domain, j: nat): Fr
  {
    Sum(d.size, (k: nat) => Mul(Coeff(v, k), Pow(d.genInv, j * k)))
  }

  /** poly.rs `poly(points)`. `domain` is what the library's
      `GeneralEvaluationDomain::new(points.len())` returned: None when the
      field has no suitable subgroup, otherwise a domain of size at least
      points.len(). The values are interpolated over that domain and the
      coefficients normalised. */
  function Interpolate(points: seq<Fr>, domain: Option<Domain>): (r: Result<Poly, PolyError>)
    ensures r.Err? <==> domain.None?
    ensures r.Ok? ==> IsTrimmed(r.value) && |r.value| <= domain.value.size
  {
    match domain
    case None => Err(PolyError("no poly"))
    case Some(d) => Ok(Trim(InverseDft(Resize(points, d.size), d)))
  }

  // ---------------------------------------------------------------------
  // Orthogonality of the characters of the domain

  /** genInv is gen^(size-1). */
  lemma InverseIsPower(d: Domain)
    requires d.Valid()
    ensures d.genInv == Pow(d.gen, d.size - 1)
  {
    var w, u, m := d.gen, d.genInv, d.size;
    calc {
      u;
      { MulOne(u); }
      Mul(u, Pow(w, m));
      Mul(u, Mul(w, Pow(w, m - 1)));
      { MulAssoc(u, w, Pow(w, m - 1)); MulComm(u, w); }
      Mul(1, Pow(w, m - 1));
      { MulOne(Pow(w, m - 1)); }
      Pow(w, m - 1);
    }
  }

  /** genInv^k gen^l: the ratio of the k-th and l-th characters of the domain. */
  function Wave(d: Domain, k: nat, l: nat): Fr
  {
    Mul(Pow(d.genInv, k), Pow(d.gen, l))
  }

  /** The exponent of genInv^k gen^l, reduced modulo size. */
  lemma ExponentSplit(m: nat, k: nat, l: nat)
    requires k < m && l < m
    ensures (m - 1) * k + l == (if l >= k then k else k - 1) * m + (if l >= k then l - k else m + l - k)
  {
    assert (m - 1) * k == k * m - k;
    if l < k {
      assert (k - 1) * m == k * m - m;
    }
  }

  /** genInv^k * gen^l is gen^((size - 1) k + l). */
  lemma RatioAsPower(d: Domain, k: nat, l: nat)
    requires d.Valid()
    ensures Wave(d, k, l) == Pow(d.gen, (d.size - 1) * k + l)
  {
    var w, m := d.gen, d.size;
    var a := (m - 1) * k;
    calc {
      Wave(d, k, l);
      { InverseIsPower(d); }
      Mul(Pow(Pow(w, m - 1), k), Pow(w, l));
      { PowMul(w, m - 1, k); }
      Mul(Pow(w, a), Pow(w, l));
      { PowAdd(w, a, l); }
      Pow(w, a + l);
    }
  }

  /** genInv^k * gen^l is the domain point gen^((l - k) mod size). */
  lemma CharacterRatio(d: Domain, k: nat, l: nat)
    requires d.Valid() && k < d.size && l < d.size
    ensures Wave(d, k, l) == Pow(d.gen, if l >= k then l - k else d.size + l - k)
  {
    var m := d.size;
    var q: nat := if l >= k then k else k - 1;
    var r: nat := if l >= k then l - k else m + l - k;
    RatioAsPower(d, k, l);
    ExponentSplit(m, k, l);
    PowPeriodic(d.gen, m, q, r);
  }

  /** sum_j (genInv^k gen^l)^j is size when k = l and zero otherwise. */
  lemma Orthogonality(d: Domain, k: nat, l: nat)
    requires IsPrime(P) && d.Valid() && k < d.size && l < d.size
    ensures Sum(d.size, (j: nat) => Pow(Wave(d, k, l), j))
            == if k == l then FromNat(d.size) else 0
  {
    var w, m := d.gen, d.size;
    var z := Wave(d, k, l);
    var e := if l >= k then l - k else m + l - k;
    CharacterRatio(d, k, l);
    assert z == Pow(w, e);
    if k == l {
      forall j: nat | j < m ensures Pow(z, j) == 1 { PowOne(j); }
      SumExt(m, (j: nat) => Pow(z, j), (j: nat) => 1);
      SumOnes(m);
    } else {
      assert 0 < e < m;
      PowMul(w, e, m);
      PowMul(w, m, e);
      PowOne(e);
      assert Pow(z, m) == 1;
      Geometric(z, m);
      SubZero(z, 1);
      SubZero(1, 1);
      NoZeroDivisors(Sub(z, 1), Sum(m, (j: nat) => Pow(z, j)));
    }
  }

  // ---------------------------------------------------------------------
  // Interpolation theorem

  /** v_k (genInv^k gen^l)^j: one term of the double sum behind InverseDftAt. */
  function ValueCell(v: seq<Fr>, d: Domain, l: nat, j: nat, k: nat): Fr
  {
    Mul(Coeff(v, k), Pow(Wave(d, k, l), j))
  }

  /** Row j of that double sum: summed over the values. */
  function ValueRow(v: seq<Fr>, d: Domain, l: nat, j: nat): Fr
  {
    Sum(d.size, (k: nat) => ValueCell(v, d, l, j, k))
  }

  /** Column k of that double sum: summed over the powers. */
  function ValueColumn(v: seq<Fr>, d: Domain, l: nat, k: nat): Fr
  {
    Sum(d.size, (j: nat) => ValueCell(v, d, l, j, k))
  }

  /** One coefficient of the inverse transform, multiplied by x^j, as a sum
      over the values. */
  lemma TermAsSum(v: seq<Fr>, d: Domain, l: nat, j: nat)
    requires j < d.size
    ensures Mul(InverseDft(v, d)[j], Pow(d.Element(l), j)) == Mul(d.sizeInv, ValueRow(v, d, l, j))
  {
    var u, x, s, m := d.genInv, d.Element(l), d.sizeInv, d.size;
    var a := (k: nat) => Mul(Coeff(v, k), Pow(u, j * k));
    forall k: nat | k < m ensures ValueCell(v, d, l, j, k) == Mul(Pow(x, j), a(k)) {
      PowMul(u, k, j);
      assert k * j == j * k;
      PowMulBase(Pow(u, k), x, j);
      var vk, uj, xj := Coeff(v, k), Pow(u, j * k), Pow(x, j);
      calc {
        ValueCell(v, d, l, j, k);
        Mul(vk, Mul(uj, xj));
        { MulAssoc(vk, uj, xj); MulComm(Mul(vk, uj), xj); }
        Mul(xj, a(k));
      }
    }
    SumScale(Pow(x, j), m, a, (k: nat) => ValueCell(v, d, l, j, k));
    var sa := Sum(m, a);
    MulAssoc(s, sa, Pow(x, j));
    MulComm(sa, Pow(x, j));
  }

  /** The double sum may be taken column by column. */
  lemma SwapValues(v: seq<Fr>, d: Domain, l: nat)
    ensures Sum(d.size, (j: nat) => ValueRow(v, d, l, j)) == Sum(d.size, (k: nat) => ValueColumn(v, d, l, k))
  {
    var m := d.size;
    var h := (j: nat, k: nat) => ValueCell(v, d, l, j, k);
    SumSwap(m, m, h);
    forall j: nat | j < m ensures ValueRow(v, d, l, j) == Sum(m, (k: nat) => h(j, k)) {
      SumExt(m, (k: nat) => h(j, k), (k: nat) => ValueCell(v, d, l, j, k));
    }
    SumExt(m, (j: nat) => ValueRow(v, d, l, j), (j: nat) => Sum(m, (k: nat) => h(j, k)));
    forall k: nat | k < m ensures ValueColumn(v, d, l, k) == Sum(m, (j: nat) => h(j, k)) {
      SumExt(m, (j: nat) => h(j, k), (j: nat) => ValueCell(v, d, l, j, k));
    }
    SumExt(m, (k: nat) => ValueColumn(v, d, l, k), (k: nat) => Sum(m, (j: nat) => h(j, k)));
  }

  /** By orthogonality only the l-th column survives, as v_l times size. */
  lemma ValueColumnsAt(v: seq<Fr>, d: Domain, l: nat)
    requires IsPrime(P) && d.Valid() && |v| == d.size && l < d.size
    ensures Sum(d.size, (k: nat) => ValueColumn(v, d, l, k)) == Mul(v[l], FromNat(d.size))
  {
    var m := d.size;
    var delta := (k: nat) => Mul(Coeff(v, k), if k == l then FromNat(m) else 0);
    forall k: nat | k < m ensures ValueColumn(v, d, l, k) == delta(k) {
      Orthogonality(d, k, l);
      SumScale(Coeff(v, k), m, (j: nat) => Pow(Wave(d, k, l), j), (j: nat) => ValueCell(v, d, l, j, k));
    }
    SumExt(m, (k: nat) => ValueColumn(v, d, l, k), delta);
    forall k: nat | k < m && k != l ensures delta(k) == 0 { MulZero(Coeff(v, k)); }
    SumDelta(m, delta, l);
  }

  /** The inverse transform takes the value v_l at the l-th domain point. */
  lemma InverseDftAt(v: seq<Fr>, d: Domain, l: nat)
    requires IsPrime(P) && d.Valid() && |v| == d.size && l < d.size
    ensures Eval(InverseDft(v, d), d.Element(l)) == v[l]
  {
    var c, x, m, s := InverseDft(v, d), d.Element(l), d.size, d.sizeInv;
    var terms := (j: nat) => Mul(Coeff(c, j), Pow(x, j));
    var scaled := (j: nat) => Mul(s, ValueRow(v, d, l, j));
    EvalAsSum(c, x);
    forall j: nat | j < m ensures terms(j) == scaled(j) {
      TermAsSum(v, d, l, j);
    }
    SumExt(m, terms, scaled);
    SumScale(s, m, (j: nat) => ValueRow(v, d, l, j), scaled);
    SwapValues(v, d, l);
    ValueColumnsAt(v, d, l);
    calc {
      Mul(s, Mul(v[l], FromNat(m)));
      { MulComm(v[l], FromNat(m)); MulAssoc(s, FromNat(m), v[l]); MulComm(s, FromNat(m)); }
      Mul(1, v[l]);
      { MulOne(v[l]); }
      v[l];
    }
  }

  /** poly.rs:14-17. For every k below the domain size, the interpolated f
      takes at gen^k the k-th value, zero-padded: points[k] for the given
      points, 0 for the padding. */
  lemma InterpolateAt(points: seq<Fr>, domain: Option<Domain>, k: nat)
    requires IsPrime(P)
    requires domain.Some? && domain.value.Valid() && |points| <= domain.value.size
    requires k < domain.value.size
    ensures Interpolate(points, domain).Ok?
    ensures Eval(Interpolate(points, domain).value, domain.value.Element(k)) == Coeff(points, k)
  {
    var d := domain.value;
    var v := Resize(points, d.size);
    InverseDftAt(v, d, k);
    EvalTrim(InverseDft(v, d), d.Element(k));
  }

  /** In particular f(gen^k) == points[k] for every index of the input. */
  lemma InterpolateThroughPoints(points: seq<Fr>, domain: Option<Domain>)
    requires IsPrime(P)
    requires domain.Some? && domain.value.Valid() && |points| <= domain.value.size
    ensures Interpolate(points, domain).Ok?
    ensures forall k :: 0 <= k < |points| ==>
      Eval(Interpolate(points, domain).value, domain.value.Element(k)) == points[k]
  {
    forall k | 0 <= k < |points|
      ensures Eval(Interpolate(points, domain).value, domain.value.Element(k)) == points[k]
    {
      InterpolateAt(points, domain, k);
    }
  }

  /** One term of the double sum behind InverseDftOfValues:
      g_i (w^k)^i u^(jk) = g_i (u^j w^i)^k. */
  lemma DoubleSumTerm(d: Domain, gi: Fr, j: nat, k: nat, i: nat)
    ensures Mul(Pow(d.genInv, j * k), Mul(gi, Pow(d.Element(k), i)))
         == Mul(gi, Pow(Wave(d, j, i), k))
  {
    var u, w := d.genInv, d.gen;
    var ujk, x := Pow(u, j * k), Pow(w, k);
    PowMul(w, k, i);
    PowMul(w, i, k);
    assert k * i == i * k;
    PowMul(u, j, k);
    PowMulBase(Pow(u, j), Pow(w, i), k);
    var xi := Pow(x, i);
    assert Pow(Mul(Pow(u, j), Pow(w, i)), k) == Mul(ujk, xi);
    MulAssoc(gi, ujk, xi);
    MulComm(gi, ujk);
    MulAssoc(ujk, gi, xi);
  }

  /** g_i (u^j w^i)^k: one term of the double sum behind InverseDftOfValues. */
  function Cell(g: Poly, d: Domain, j: nat, k: nat, i: nat): Fr
  {
    Mul(Coeff(g, i), Pow(Wave(d, j, i), k))
  }

  /** The k-th term of row j of the transform of g's values, split by g's
      coefficients. */
  lemma DftRowOfValues(g: Poly, v: seq<Fr>, d: Domain, j: nat, k: nat)
    requires |g| <= d.size && k < d.size == |v| && v[k] == Eval(g, d.Element(k))
    ensures Mul(Coeff(v, k), Pow(d.genInv, j * k)) == Sum(d.size, (i: nat) => Cell(g, d, j, k, i))
  {
    var x, ujk := d.Element(k), Pow(d.genInv, j * k);
    var val := (i: nat) => Mul(Coeff(g, i), Pow(x, i));
    EvalAsLongSum(g, x, d.size);
    assert Coeff(v, k) == Sum(d.size, val);
    forall i: nat | i < d.size ensures Cell(g, d, j, k, i) == Mul(ujk, val(i)) {
      DoubleSumTerm(d, Coeff(g, i), j, k, i);
    }
    SumScale(ujk, d.size, val, (i: nat) => Cell(g, d, j, k, i));
    MulComm(ujk, Coeff(v, k));
  }

  /** Row j of the transform of g's values as a double sum. */
  lemma DftRowSplit(g: Poly, v: seq<Fr>, d: Domain, j: nat)
    requires |g| <= d.size && |v| == d.size
    requires forall k :: 0 <= k < d.size ==> v[k] == Eval(g, d.Element(k))
    ensures DftRow(v, d, j) == Sum(d.size, (k: nat) => CellRow(g, d, j, k))
  {
    forall k: nat | k < d.size
      ensures Mul(Coeff(v, k), Pow(d.genInv, j * k)) == CellRow(g, d, j, k)
    {
      DftRowOfValues(g, v, d, j, k);
    }
    SumExt(d.size, (k: nat) => Mul(Coeff(v, k), Pow(d.genInv, j * k)), (k: nat) => CellRow(g, d, j, k));
  }

  /** Row k of the double sum: sum_i g_i (u^j w^i)^k. */
  function CellRow(g: Poly, d: Domain, j: nat, k: nat): Fr
  {
    Sum(d.size, (i: nat) => Cell(g, d, j, k, i))
  }

  /** Column i of the double sum: sum_k g_i (u^j w^i)^k. */
  function CellColumn(g: Poly, d: Domain, j: nat, i: nat): Fr
  {
    Sum(d.size, (k: nat) => Cell(g, d, j, k, i))
  }

  /** The double sum may be taken column by column. */
  lemma SwapCells(g: Poly, d: Domain, j: nat)
    ensures Sum(d.size, (k: nat) => CellRow(g, d, j, k)) == Sum(d.size, (i: nat) => CellColumn(g, d, j, i))
  {
    var m := d.size;
    var h := (k: nat, i: nat) => Cell(g, d, j, k, i);
    SumSwap(m, m, h);
    forall k: nat | k < m ensures CellRow(g, d, j, k) == Sum(m, (i: nat) => h(k, i)) {
      SumExt(m, (i: nat) => h(k, i), (i: nat) => Cell(g, d, j, k, i));
    }
    SumExt(m, (k: nat) => CellRow(g, d, j, k), (k: nat) => Sum(m, (i: nat) => h(k, i)));
    forall i: nat | i < m ensures CellColumn(g, d, j, i) == Sum(m, (k: nat) => h(k, i)) {
      SumExt(m, (k: nat) => h(k, i), (k: nat) => Cell(g, d, j, k, i));
    }
    SumExt(m, (i: nat) => CellColumn(g, d, j, i), (i: nat) => Sum(m, (k: nat) => h(k, i)));
  }

  /** Summing over the domain first, orthogonality leaves only g_j n. */
  lemma DftColumnOfValues(g: Poly, d: Domain, j: nat)
    requires IsPrime(P) && d.Valid() && j < d.size
    ensures Sum(d.size, (i: nat) => CellColumn(g, d, j, i)) == Mul(Coeff(g, j), FromNat(d.size))
  {
    var m := d.size;
    var delta := (i: nat) => Mul(Coeff(g, i), if j == i then FromNat(m) else 0);
    forall i: nat | i < m ensures CellColumn(g, d, j, i) == delta(i) {
      Orthogonality(d, j, i);
      SumScale(Coeff(g, i), m, (k: nat) => Pow(Wave(d, j, i), k), (k: nat) => Cell(g, d, j, k, i));
    }
    SumExt(m, (i: nat) => CellColumn(g, d, j, i), delta);
    forall i: nat | i < m && i != j ensures delta(i) == 0 { MulZero(Coeff(g, i)); }
    SumDelta(m, delta, j);
  }

  /** Row j of the transform of g's values is g_j times the domain size. */
  lemma DftRowValues(g: Poly, v: seq<Fr>, d: Domain, j: nat)
    requires IsPrime(P) && d.Valid() && |g| <= d.size && j < d.size
    requires |v| == d.size && forall k :: 0 <= k < d.size ==> v[k] == Eval(g, d.Element(k))
    ensures DftRow(v, d, j) == Mul(Coeff(g, j), FromNat(d.size))
  {
    DftRowSplit(g, v, d, j);
    SwapCells(g, d, j);
    DftColumnOfValues(g, d, j);
  }

  /** Transforming back the values of a polynomial g of at most size
      coefficients at the domain points yields g's coefficients. */
  lemma InverseDftOfValues(g: Poly, v: seq<Fr>, d: Domain, j: nat)
    requires IsPrime(P) && d.Valid() && |g| <= d.size && j < d.size
    requires |v| == d.size && forall k :: 0 <= k < d.size ==> v[k] == Eval(g, d.Element(k))
    ensures InverseDft(v, d)[j] == Coeff(g, j)
  {
    var s, gj, n := d.sizeInv, Coeff(g, j), FromNat(d.size);
    DftRowValues(g, v, d, j);
    calc {
      InverseDft(v, d)[j];
      Mul(s, Mul(gj, n));
      { MulComm(gj, n); MulAssoc(s, n, gj); MulComm(s, n); }
      Mul(1, gj);
      { MulOne(gj); }
      gj;
    }
  }

  /** The interpolated polynomial is the only one: a canonical g with at most
      size coefficients that takes the zero-padded values on the domain is
      exactly what poly.rs returns. */
  lemma InterpolateUnique(points: seq<Fr>, domain: Option<Domain>, g: Poly)
    requires IsPrime(P)
    requires domain.Some? && domain.value.Valid() && |points| <= domain.value.size
    requires IsTrimmed(g) && |g| <= domain.value.size
    requires forall k :: 0 <= k < domain.value.size ==> Eval(g, domain.value.Element(k)) == Coeff(points, k)
    ensures Interpolate(points, domain) == Ok(g)
  {
    var d := domain.value;
    var v := Resize(points, d.size);
    var c := InverseDft(v, d);
    forall j | 0 <= j < d.size ensures c[j] == Coeff(g, j) {
      InverseDftOfValues(g, v, d, j);
    }
    TrimUnique(c, g);
  }

  /** The one point that the domain shares with the points 1, 2, ..., n that
      poly.rs's comment describes: f(1) == points[0]. */
  lemma InterpolateAtOne(points: seq<Fr>, domain: Option<Domain>)
    requires IsPrime(P)
    requires domain.Some? && domain.value.Valid() && 1 <= |points| <= domain.value.size
    ensures Interpolate(points, domain).Ok?
    ensures Eval(Interpolate(points, domain).value, 1) == points[0]
  {
    InterpolateAt(points, domain, 0);
  }
}
