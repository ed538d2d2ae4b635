# KZG commitments over BN254: a Dafny model of poc-prover

poc-prover is the proving half of kzg-airdrop-bn254. It turns a list of
airdrop values into a polynomial. It commits to that polynomial with the KZG
(Kate–Zaverucha–Goldberg) scheme over the BN254 pairing curve. It can then
open the commitment at a point and check the opening with a pairing. This
project models the two files that hold that logic:

- `poc-prover/src/poly.rs`
  - `poly(points)` interpolates the values over a root-of-unity evaluation
    domain. It is modelled as an inverse discrete Fourier transform of the
    zero-padded values, followed by arkworks' trimming of trailing zeros
    (`Interpolation.Interpolate`).
  - `vanish(f, i, y_i)` computes the opening quotient (f(X) - y_i) / (X - i).
    It is modelled as synthetic division by the monic X - i, with the
    remainder dropped (`Polynomial.Vanish`).
- `poc-prover/src/commit.rs`
  - Models `CommitmentScheme::{setup, commit, open, verify}` and the free
    `commit` (a multi-scalar multiplication).
  - The model lives in the exponent (discrete-logarithm) world. A G1 or G2
    point is its scalar to the base of the group generator. The pairing
    e(aG1, bG2) is the product a·b in Fr. The reference string of a secret
    tau has the shape main.rs builds: srs_g1[j] = tau^j and
    srs_g2 = [G2, tau·G2].

Field elements are integers modulo BN254's scalar order
r = 21888242871839275222246405745257275088548364400416034343698204186575808495617.
Polynomials are coefficient sequences, lowest degree first, with no trailing
zero; the zero polynomial has no coefficients. The two panics of the code
are modelled as `Err` values:

- setup's `assert_eq!` becomes `LengthMismatch`.
- verify's out-of-range `srs_g2[1]` becomes `IndexOutOfBounds`.

`poly` itself returns an error when no evaluation domain exists. The model
keeps it as `Err(PolyError("no poly"))`.

The evaluation domain chosen by arkworks' `GeneralEvaluationDomain::new` is a
parameter: `None`, or a domain whose generator is a primitive root of unity
of its size. That generator comes with its inverse and the inverse of the
size.

Several lemmas need Fr to have no zero divisors. Those lemmas take the
primality of r as a hypothesis (`IsPrime(P)`).

Files:

| file | contents |
|---|---|
| `wrappers.dfy` | `Option` and `Result` |
| `field.dfy` | Fr and its ring laws, powers, no zero divisors for a prime modulus |
| `sums.dfy` | finite sums: linearity, exchange of summation order, geometric series |
| `poly.dfy` | polynomials, evaluation, synthetic division, `vanish` and its properties |
| `interpolate.dfy` | evaluation domains, inverse DFT, `poly` and its properties |
| `commit.dfy` | the commitment scheme, completeness and the other properties of verify |

## Model

| member | source | states |
|---|---|---|
| Polynomial.Trim | poc-prover/src/poly.rs:23-25 | The canonical form is a prefix with no trailing zero, and only zeros are dropped. |
| Polynomial.TrimUnique | poc-prover/src/poly.rs:23-26 | That canonical form is the unique trimmed prefix followed by zeros. |
| Polynomial.Eval | poc-prover/src/commit.rs:34 | No contract. It is Horner's rule for `evaluate`; EvalAsSum ties it to sum_j p_j x^j, and the Vanish and Interpolation lemmas are stated through it. |
| Polynomial.SubConstant | poc-prover/src/poly.rs:23 | No contract. See EvalSubConstant (its value is f(x) - y) and VanishDegree (its length). |
| Polynomial.EvalSubConstant | poc-prover/src/poly.rs:23 | `f.sub([y_i])` evaluates to f(x) - y_i everywhere. |
| Polynomial.SyntheticDivision | poc-prover/src/poly.rs:25-26 | Division by X - z gives a quotient one coefficient shorter, whose leading coefficient is that of the dividend. |
| Polynomial.DivisionIdentity | poc-prover/src/poly.rs:25-26 | On coefficients, a = q·(X - z) + r. |
| Polynomial.RemainderTheorem | poc-prover/src/poly.rs:25-26 | The remainder of division by X - z is a(z). |
| Polynomial.DivisionAt | poc-prover/src/poly.rs:25-26 | a(x) = q(x)(x - z) + a(z) at every point x. |
| Polynomial.Vanish | poc-prover/src/poly.rs:22-27 | The quotient is canonical. It has one coefficient fewer than f - y_i, or none when f - y_i is zero. |
| Polynomial.VanishIdentity | poc-prover/src/poly.rs:21-26 | For all inputs, f - y_i = q·(X - i) + (f(i) - y_i) as canonical coefficient sequences; the division never fails. |
| Polynomial.VanishAt | poc-prover/src/poly.rs:21-26 | The same identity at every point: f(x) - y_i = q(x)(x - i) + (f(i) - y_i). |
| Polynomial.VanishExact | poc-prover/src/poly.rs:21-26 | When y_i = f(i), the division is exact: f - y_i = q·(X - i) on coefficients and at every point. |
| Polynomial.VanishInexact | poc-prover/src/poly.rs:26 | When y_i ≠ f(i), q·(X - i) ≠ f - y_i: the nonzero remainder is silently dropped. |
| Polynomial.VanishDegree | poc-prover/src/poly.rs:25-26 | For canonical f of degree ≥ 1, deg q = deg f - 1. For constant f, q is the zero polynomial. |
| Interpolation.Interpolate | poc-prover/src/poly.rs:13-19 | Returns an error exactly when no domain exists. Otherwise the result is canonical with at most domain-size coefficients (degree below the domain size). |
| Interpolation.Resize | poc-prover/src/poly.rs:17 | The values zero-padded, or cut off, to exactly the domain size; entry k is the k-th value or 0. |
| Interpolation.InverseDft | poc-prover/src/poly.rs:17 | Has one coefficient per domain point. See InverseDftAt (it takes the given values on the domain) and InverseDftOfValues (it inverts evaluation). |
| Interpolation.Orthogonality | poc-prover/src/poly.rs:17 | The characters of the domain are orthogonal: sum_j (w^-k w^l)^j is the domain size when k = l and 0 otherwise. |
| Interpolation.InverseDftAt | poc-prover/src/poly.rs:17 | The inverse DFT of a full set of values takes the l-th value at the l-th domain point. |
| Interpolation.InterpolateAt | poc-prover/src/poly.rs:14-17 | For every k below the domain size, f(w^k) is the k-th value, or 0 in the padding. |
| Interpolation.InterpolateThroughPoints | poc-prover/src/poly.rs:13-18 | f(w^k) = points[k] for every k < points.len(). |
| Interpolation.InterpolateAtOne | poc-prover/src/poly.rs:40 | f(1) = points[0], the one assertion of `test_poly` that holds for every domain. |
| Interpolation.InverseDftOfValues | poc-prover/src/poly.rs:17 | The inverse DFT of the values of g (with degree below the domain size) gives back g's coefficients. |
| Interpolation.InterpolateUnique | poc-prover/src/poly.rs:13-18 | The result is the only canonical polynomial of degree below the domain size that takes the padded values on the domain. |
| Commitment.Setup | poc-prover/src/commit.rs:15-27 | Succeeds exactly when poly.len() == srs_g1.len(); shorter polynomials panic too. On success the three inputs are stored unchanged. |
| Commitment.CommitmentScheme.Commit | poc-prover/src/commit.rs:29-31 | No contract. See SchemeCommit. |
| Commitment.CommitmentScheme.Open | poc-prover/src/commit.rs:33-38 | No contract. See OpenShape and Completeness. |
| Commitment.CommitmentScheme.Verify | poc-prover/src/commit.rs:40-48 | Panics exactly when srs_g2 has no index 1. Otherwise it accepts exactly when C - y = proof·(srs_g2[1] - x). |
| Commitment.Msm | poc-prover/src/commit.rs:57 | No contract. See MsmAsSum and MsmOfPowers. |
| Commitment.MsmAsSum | poc-prover/src/commit.rs:57 | The MSM is sum_j scalars[j]·bases[j] over the indices both sequences have. |
| Commitment.MsmOfPowers | poc-prover/src/commit.rs:51-57 | The MSM of coefficients against tau^o, tau^(o+1), … is tau^o·f(tau). |
| Commitment.CommitPoly | poc-prover/src/commit.rs:51-58 | No contract. See CommitIsEvaluation and CommitIgnoresExcess. |
| Commitment.CommitIsEvaluation | poc-prover/src/commit.rs:51-58 | When srs_g1 holds the powers of tau, the free `commit` of f with at most srs_g1.len() coefficients is f(tau). srs_g2 plays no part. |
| Commitment.CommitIgnoresExcess | poc-prover/src/commit.rs:51-58 | The free `commit` silently ignores coefficients beyond srs_g1. |
| Commitment.SchemeCommit | poc-prover/src/commit.rs:29-31 | `self.commit()` of a scheme from setup, with srs_g1 holding the powers of tau, is the free `commit` of the stored polynomial, which is f(tau). |
| Commitment.OpenShape | poc-prover/src/commit.rs:33-38 | `open(x)` returns f(x) and q(tau) for q = vanish(f, x, f(x)). q fits the reference string, and has exactly one coefficient fewer than it when deg f ≥ 1. |
| Commitment.Completeness | poc-prover/src/commit.rs:33-47 | For every point x, the opening of a scheme built by setup over a well-formed reference string verifies against its commitment. |
| Commitment.TamperRejection | poc-prover/src/commit.rs:40-47 | If (C, y, proof) verifies at x, then (C, y', proof) is rejected at x for every y' ≠ y. |
| Commitment.ProofUnique | poc-prover/src/commit.rs:40-47 | When tau ≠ x, at most one proof verifies a given commitment and value at x. |
| Commitment.VerifyIgnoresFirstG2 | poc-prover/src/commit.rs:43 | verify uses the G2 generator, never srs_g2[0]: replacing srs_g2[0] changes no answer. |
| Commitment.EndToEnd | poc-prover/src/commit.rs:29-47 | Interpolating the values, setting up over a matching well-formed reference string, and opening at the k-th domain point yields points[k] with a proof that verifies. |

## Where the code and its comments differ

In each case below, the model follows the code.

- **Interpolation points.**
  - The comment on `poly` (poc-prover/src/poly.rs:11-12) and `test_poly`
    (poc-prover/src/poly.rs:40-42) say the polynomial passes through
    (1, y1), (2, y2), ….
  - The code interpolates over an evaluation domain instead
    (poc-prover/src/poly.rs:14-17), so the polynomial takes y_{k+1} at w^k.
  - The two agree only at the first point, since w^0 = 1
    (`InterpolateAtOne`).
  - For the test's three values the domain has four points. Neither 2 nor 3
    is one of them, because 2^4 = 16 and 3^4 = 81 are not 1 in Fr. Nothing
    in the code therefore fixes f(2) = 12 or f(3) = 20.
- **Dropped remainder.** `vanish` returns the quotient even when y_i ≠ f(i),
  instead of reporting an invalid opening (`VanishInexact`).
- **Length check.**
  - `setup`'s message says "greater than", but it asserts equality.
  - `len()` counts coefficients after trimming. A polynomial whose leading
    coefficients are zero is therefore rejected against a reference string
    of its nominal length.
- **Point, not index.** `open` and `verify` take the field point x itself, not
  the index of an airdrop entry.
- **Unchecked srs_g2.** `setup` never checks srs_g2. `verify` panics when it
  has fewer than two points.
- **Unchecked commit.** The free `commit` has no length check of its own.

## Left out

- `poc-prover/src/data.rs` is not part of this model: file, JSON and CSV
  input and output, ABI encoding and keccak256 hashing.
- `poc-prover/src/main.rs` is not part of this model apart from the shape of
  its mock reference string (`WellFormedSrs`). Its random secret and file
  output are left out.
- `poc-prover/src/error.rs` is not part of this model beyond the one error
  `poly` returns (`PolyError`).
- Curve arithmetic, affine/projective conversion, point compression, the MSM
  algorithm, the BN254 pairing and the FFT are arkworks internals. They are
  replaced by the exponent model and a direct inverse DFT.
- Domain selection by `GeneralEvaluationDomain::new` (radix-2 or mixed radix,
  size rounded up) is a parameter `Option<Domain>`. The model does not
  compute which size the library picks or when no domain exists.
- The primality of r is assumed, as a hypothesis of the lemmas that need it,
  rather than proved.
- Computational binding and soundness across indices are cryptographic,
  probabilistic claims. They do not hold in the exponent model, where tau is
  known.
- `usize` bounds on lengths are not modelled. Lengths are unbounded naturals.
