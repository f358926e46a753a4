/**
 Four-by-four matrices over GF(2^8), the algebra behind MixColumns and
 InvMixColumns (sections 4.3, 5.1.3 and 5.3.3 of FIPS 197). Entries are field
 elements of module Field, so that the matrix laws follow from the field laws
 proved there; module MixColumns ties them to the program's bytes.
 */
module ColumnAlgebra {
  import opened Coefficients
  import opened Field

  /* Four field elements: a column top to bottom, or a row left to right. */
  datatype Quad = Quad(x0: Elem, x1: Elem, x2: Elem, x3: Elem)

  /* A matrix, by rows. */
  datatype Matrix = Matrix(r0: Quad, r1: Quad, r2: Quad, r3: Quad)

  /* The sum of the products of a row with a column, summed left to right. */
  function Dot(m: Quad, d: Quad): Elem
  {
    Add(Add(Add(Mul(m.x0, d.x0), Mul(m.x1, d.x1)), Mul(m.x2, d.x2)), Mul(m.x3, d.x3))
  }

  /* A matrix times a column. */
  function Apply(a: Matrix, d: Quad): Quad
  {
    Quad(Dot(a.r0, d), Dot(a.r1, d), Dot(a.r2, d), Dot(a.r3, d))
  }

  function Column(a: Matrix, j: nat): Quad
    requires j < 4
  {
    if j == 0 then Quad(a.r0.x0, a.r1.x0, a.r2.x0, a.r3.x0)
    else if j == 1 then Quad(a.r0.x1, a.r1.x1, a.r2.x1, a.r3.x1)
    else if j == 2 then Quad(a.r0.x2, a.r1.x2, a.r2.x2, a.r3.x2)
    else Quad(a.r0.x3, a.r1.x3, a.r2.x3, a.r3.x3)
  }

  /* A row times a matrix. */
  function RowTimes(m: Quad, b: Matrix): Quad
  {
    Quad(Dot(m, Column(b, 0)), Dot(m, Column(b, 1)), Dot(m, Column(b, 2)), Dot(m, Column(b, 3)))
  }

  function Product(a: Matrix, b: Matrix): Matrix
  {
    Matrix(RowTimes(a.r0, b), RowTimes(a.r1, b), RowTimes(a.r2, b), RowTimes(a.r3, b))
  }

  const Identity := Matrix(Quad(One, Zero, Zero, Zero), Quad(Zero, One, Zero, Zero),
                           Quad(Zero, Zero, One, Zero), Quad(Zero, Zero, Zero, One))

  /* A row scaled by c, and the sum of two rows. */
  function Scale(c: Elem, r: Quad): Quad
  {
    Quad(Mul(c, r.x0), Mul(c, r.x1), Mul(c, r.x2), Mul(c, r.x3))
  }

  function Plus(p: Quad, q: Quad): Quad
  {
    Quad(Add(p.x0, q.x0), Add(p.x1, q.x1), Add(p.x2, q.x2), Add(p.x3, q.x3))
  }

  /* Two sums of four terms, interleaved. */
  lemma {:induction false} Interleave(a0: Elem, a1: Elem, a2: Elem, a3: Elem, b0: Elem, b1: Elem, b2: Elem, b3: Elem)
    ensures Add(Add(Add(Add(a0, a1), a2), a3), Add(Add(Add(b0, b1), b2), b3))
         == Add(Add(Add(Add(a0, b0), Add(a1, b1)), Add(a2, b2)), Add(a3, b3))
  {
    XorRegroup(a0, a1, b0, b1);
    XorRegroup(Add(a0, a1), a2, Add(b0, b1), b2);
    XorRegroup(Add(Add(a0, a1), a2), a3, Add(Add(b0, b1), b2), b3);
  }

  /* Scaling a row scales its products. */
  lemma {:induction false} DotScale(c: Elem, r: Quad, d: Quad)
    ensures Mul(c, Dot(r, d)) == Dot(Scale(c, r), d)
  {
    var t0, t1, t2, t3 := Mul(r.x0, d.x0), Mul(r.x1, d.x1), Mul(r.x2, d.x2), Mul(r.x3, d.x3);
    MulLinearRight(c, Add(Add(t0, t1), t2), t3);
    MulLinearRight(c, Add(t0, t1), t2);
    MulLinearRight(c, t0, t1);
    MulAssoc(c, r.x0, d.x0);
    MulAssoc(c, r.x1, d.x1);
    MulAssoc(c, r.x2, d.x2);
    MulAssoc(c, r.x3, d.x3);
  }

  /* The products of a sum of rows are the sums of the products. */
  lemma {:induction false} DotPlus(p: Quad, q: Quad, d: Quad)
    ensures Add(Dot(p, d), Dot(q, d)) == Dot(Plus(p, q), d)
  {
    MulLinearLeft(p.x0, q.x0, d.x0);
    MulLinearLeft(p.x1, q.x1, d.x1);
    MulLinearLeft(p.x2, q.x2, d.x2);
    MulLinearLeft(p.x3, q.x3, d.x3);
    Interleave(Mul(p.x0, d.x0), Mul(p.x1, d.x1), Mul(p.x2, d.x2), Mul(p.x3, d.x3),
               Mul(q.x0, d.x0), Mul(q.x1, d.x1), Mul(q.x2, d.x2), Mul(q.x3, d.x3));
  }

  /* A row times a matrix is the combination of the matrix's rows that the row's entries weigh. */
  lemma {:induction false} RowTimesRows(m: Quad, b: Matrix)
    ensures RowTimes(m, b) == Plus(Plus(Plus(Scale(m.x0, b.r0), Scale(m.x1, b.r1)), Scale(m.x2, b.r2)), Scale(m.x3, b.r3))
  {
  }

  /* Associativity for one row: (m b) d == m (b d). */
  lemma {:induction false} DotApply(m: Quad, b: Matrix, d: Quad)
    ensures Dot(m, Apply(b, d)) == Dot(RowTimes(m, b), d)
  {
    var s0, s1, s2, s3 := Scale(m.x0, b.r0), Scale(m.x1, b.r1), Scale(m.x2, b.r2), Scale(m.x3, b.r3);
    DotScale(m.x0, b.r0, d);
    DotScale(m.x1, b.r1, d);
    DotScale(m.x2, b.r2, d);
    DotScale(m.x3, b.r3, d);
    DotPlus(s0, s1, d);
    DotPlus(Plus(s0, s1), s2, d);
    DotPlus(Plus(Plus(s0, s1), s2), s3, d);
    RowTimesRows(m, b);
  }

  /* Applying a product is applying its factors in turn. */
  lemma {:induction false} ApplyProduct(a: Matrix, b: Matrix, d: Quad)
    ensures Apply(Product(a, b), d) == Apply(a, Apply(b, d))
  {
    DotApply(a.r0, b, d);
    DotApply(a.r1, b, d);
    DotApply(a.r2, b, d);
    DotApply(a.r3, b, d);
  }

  /* The products of a unit row pick one entry of the column. */
  lemma {:induction false} DotUnits(d: Quad)
    ensures Dot(Identity.r0, d) == d.x0 && Dot(Identity.r1, d) == d.x1
    ensures Dot(Identity.r2, d) == d.x2 && Dot(Identity.r3, d) == d.x3
  {
    var e := [d.x0, d.x1, d.x2, d.x3];
    forall k | 0 <= k < 4
      ensures Mul(One, e[k]) == e[k] && Mul(Zero, e[k]) == Zero
    {
      MulOneRight(e[k]);
      MulComm(e[k], One);
      MulZeroRight(e[k]);
      MulComm(e[k], Zero);
    }
    XorZero(d.x0);
    XorZero(d.x1);
    XorZero(d.x2);
    XorZero(d.x3);
    XorZero(Zero);
  }

  lemma {:induction false} ApplyIdentity(d: Quad)
    ensures Apply(Identity, d) == d
  {
    DotUnits(d);
  }

  /* A matrix whose product with b is the identity undoes b. */
  lemma {:induction false} ApplyInverse(a: Matrix, b: Matrix, d: Quad)
    requires Product(a, b) == Identity
    ensures Apply(a, Apply(b, d)) == d
  {
    ApplyProduct(a, b, d);
    ApplyIdentity(d);
  }
}
