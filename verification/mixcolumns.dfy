/**
 MixColumns and InvMixColumns (sections 5.1.3 and 5.3.3 of FIPS 197) as the
 program computes them on one column word: aes_mix_column_matrix,
 aes_mix_column_polynomial and aes_inverse_mix_column. The column's four bytes
 are taken as field elements (their eight bits, Coefficients.Octet): the
 program's `^` on bytes is Field.Add on them, and aes_mix_column_multiply is
 GaloisField.Multiplication, the model of gf2_8_multiplication. Each transform
 is read back as a constant matrix of module ColumnAlgebra applied to the
 column, and the two matrices are shown to be inverse to each other.
 */
module MixColumns {
  import opened Words
  import C = Coefficients
  import F = Field
  import G = GaloisField
  import A = ColumnAlgebra
  import BF = ByteField
  import S = State

  /* `(value >> 24) & 0xff`, ..., `value & 0xff`, as field elements. */
  function Column(w: bv32): A.Quad
  {
    A.Quad(C.FromByte(ByteAt(w, 0)), C.FromByte(ByteAt(w, 1)), C.FromByte(ByteAt(w, 2)), C.FromByte(ByteAt(w, 3)))
  }

  /* `(d[0] << 24) | (d[1] << 16) | (d[2] << 8) | d[3]`. */
  function Pack(q: A.Quad): bv32
  {
    Word(C.ToByte(q.x0), C.ToByte(q.x1), C.ToByte(q.x2), C.ToByte(q.x3))
  }

  /* Reading a column and packing it back lose nothing. */
  lemma {:induction false} ColumnPack(q: A.Quad, w: bv32)
    ensures Column(Pack(q)) == q
    ensures Pack(Column(w)) == w
  {
    BytesOfWord(C.ToByte(q.x0), C.ToByte(q.x1), C.ToByte(q.x2), C.ToByte(q.x3));
    C.FromToByte(q.x0);
    C.FromToByte(q.x1);
    C.FromToByte(q.x2);
    C.FromToByte(q.x3);
    C.ToFromByte(ByteAt(w, 0));
    C.ToFromByte(ByteAt(w, 1));
    C.ToFromByte(ByteAt(w, 2));
    C.ToFromByte(ByteAt(w, 3));
    WordOfBytes(w);
  }

  /* The byte constant k as a field element. */
  function K(k: bv8): F.Elem
  {
    C.FromByte(k)
  }

  /* aes_mix_column_multiply(a, b). */
  function Multiply(a: F.Elem, b: F.Elem): F.Elem
  {
    G.Multiplication(a, b)
  }

  /* The matrix of equation (5.6) of FIPS 197, ... */
  const Mix := A.Matrix(A.Quad(K(2), K(3), K(1), K(1)), A.Quad(K(1), K(2), K(3), K(1)),
                        A.Quad(K(1), K(1), K(2), K(3)), A.Quad(K(3), K(1), K(1), K(2)))

  /* ... and that of equation (5.10), whose rows the program's m[] runs through. */
  const InvMix := A.Matrix(A.Quad(K(14), K(11), K(13), K(9)), A.Quad(K(9), K(14), K(11), K(13)),
                           A.Quad(K(13), K(9), K(14), K(11)), A.Quad(K(11), K(13), K(9), K(14)))

  /* aes_mix_column_matrix on the column b. */
  function MatrixColumn(b: A.Quad): A.Quad
  {
    A.Quad(F.Add(F.Add(F.Add(Multiply(K(2), b.x0), Multiply(K(3), b.x1)), b.x2), b.x3),
           F.Add(F.Add(F.Add(Multiply(K(2), b.x1), Multiply(K(3), b.x2)), b.x3), b.x0),
           F.Add(F.Add(F.Add(Multiply(K(2), b.x2), Multiply(K(3), b.x3)), b.x0), b.x1),
           F.Add(F.Add(F.Add(Multiply(K(2), b.x3), Multiply(K(3), b.x0)), b.x1), b.x2))
  }

  function MixColumnMatrix(value: bv32): bv32
  {
    Pack(MatrixColumn(Column(value)))
  }

  /* aes_mix_column_polynomial on the column b: the product of a(x) = 3x^3 + x^2 + x + 2
     (a[] = {2, 1, 1, 3}, constant term first) with b(x) gives the coefficients c0..c6,
     and the reduction modulo x^4 + 1 folds c4, c5, c6 onto c0, c1, c2. */
  function PolynomialColumn(b: A.Quad): A.Quad
  {
    var a := A.Quad(K(2), K(1), K(1), K(3));
    var c0 := Multiply(a.x0, b.x0);
    var c1 := F.Add(Multiply(a.x1, b.x0), Multiply(a.x0, b.x1));
    var c2 := F.Add(F.Add(Multiply(a.x2, b.x0), Multiply(a.x1, b.x1)), Multiply(a.x0, b.x2));
    var c3 := F.Add(F.Add(F.Add(Multiply(a.x3, b.x0), Multiply(a.x2, b.x1)), Multiply(a.x1, b.x2)), Multiply(a.x0, b.x3));
    var c4 := F.Add(F.Add(Multiply(a.x3, b.x1), Multiply(a.x2, b.x2)), Multiply(a.x1, b.x3));
    var c5 := F.Add(Multiply(a.x3, b.x2), Multiply(a.x2, b.x3));
    var c6 := Multiply(a.x3, b.x3);
    A.Quad(F.Add(c0, c4), F.Add(c1, c5), F.Add(c2, c6), c3)
  }

  function MixColumnPolynomial(value: bv32): bv32
  {
    Pack(PolynomialColumn(Column(value)))
  }

  /* `tmp = m[3]; m[3] = m[2]; m[2] = m[1]; m[1] = m[0]; m[0] = tmp`. */
  function Rotate(m: A.Quad): A.Quad
  {
    A.Quad(m.x3, m.x0, m.x1, m.x2)
  }

  /* The body of the loop of aes_inverse_mix_column: `m[0] * d[0] ^ ... ^ m[3] * d[3]`. */
  function Dot(m: A.Quad, d: A.Quad): F.Elem
  {
    F.Add(F.Add(F.Add(Multiply(m.x0, d.x0), Multiply(m.x1, d.x1)), Multiply(m.x2, d.x2)), Multiply(m.x3, d.x3))
  }

  /* aes_inverse_mix_column on the column d: b[k] is the product of d with m[] after
     k rotations; the result packs b[0] into the top byte. */
  function InverseColumn(d: A.Quad): A.Quad
  {
    var m0 := A.Quad(K(14), K(11), K(13), K(9));
    var m1 := Rotate(m0);
    var m2 := Rotate(m1);
    var m3 := Rotate(m2);
    A.Quad(Dot(m0, d), Dot(m1, d), Dot(m2, d), Dot(m3, d))
  }

  function InverseMixColumn(value: bv32): bv32
  {
    Pack(InverseColumn(Column(value)))
  }

  /* 1 times x is x. */
  lemma {:induction false} MulOne(x: F.Elem)
    ensures F.Mul(K(1), x) == x
  {
    assert K(1) == C.One;
    F.MulOneRight(x);
    F.MulComm(x, C.One);
  }

  /* A sum of four terms rotated by one place. */
  lemma {:induction false} RotateSum(p: F.Elem, q: F.Elem, r: F.Elem, s: F.Elem)
    ensures F.Add(F.Add(F.Add(p, q), r), s) == F.Add(F.Add(F.Add(s, p), q), r)
  {
    C.XorComm(C.Xor(C.Xor(p, q), r), s);
    C.XorAssoc(s, C.Xor(p, q), r);
    C.XorAssoc(s, p, q);
  }

  /* aes_mix_column_matrix multiplies the column by the matrix of equation (5.6):
     each output byte is its row's sum with the two terms of coefficient 1 moved last. */
  lemma {:induction false} MatrixColumnIsMix(b: A.Quad)
    ensures MatrixColumn(b) == A.Apply(Mix, b)
  {
    MulOne(b.x0);
    MulOne(b.x1);
    MulOne(b.x2);
    MulOne(b.x3);
    var m2, m3 := F.Mul(K(2), b.x2), F.Mul(K(3), b.x3);
    var n2, n3 := F.Mul(K(2), b.x3), F.Mul(K(3), b.x0);
    RotateSum(F.Mul(K(2), b.x1), F.Mul(K(3), b.x2), b.x3, b.x0);
    RotateSum(m2, m3, b.x0, b.x1);
    RotateSum(b.x1, m2, m3, b.x0);
    RotateSum(n2, n3, b.x1, b.x2);
    RotateSum(b.x2, n2, n3, b.x1);
    RotateSum(b.x1, b.x2, n2, n3);
  }

  /* aes_mix_column_polynomial multiplies the column by the same matrix: the folded
     coefficients are the rows' sums regrouped. */
  lemma {:induction false} PolynomialColumnIsMix(b: A.Quad)
    ensures PolynomialColumn(b) == A.Apply(Mix, b)
  {
    var t0, t1, t2, t3 := F.Mul(K(2), b.x0), F.Mul(K(3), b.x1), F.Mul(K(1), b.x2), F.Mul(K(1), b.x3);
    C.XorAssoc(t0, C.Xor(t1, t2), t3);
    C.XorAssoc(t0, t1, t2);
    C.XorAssoc(C.Xor(F.Mul(K(1), b.x0), F.Mul(K(2), b.x1)), F.Mul(K(3), b.x2), F.Mul(K(1), b.x3));
  }

  /* The two forms of MixColumns agree on every column, as the program's comments claim. */
  lemma {:induction false} PolynomialIsMatrix(value: bv32)
    ensures MixColumnPolynomial(value) == MixColumnMatrix(value)
  {
    MatrixColumnIsMix(Column(value));
    PolynomialColumnIsMix(Column(value));
  }

  /* aes_inverse_mix_column multiplies the column by the matrix of equation (5.10). */
  lemma {:induction false} InverseColumnIsInvMix(d: A.Quad)
    ensures InverseColumn(d) == A.Apply(InvMix, d)
  {
  }

  /* Rotating both a row and a column leaves their product alone. */
  lemma {:induction false} DotRotate(m: A.Quad, c: A.Quad)
    ensures A.Dot(Rotate(m), Rotate(c)) == A.Dot(m, c)
  {
    RotateSum(F.Mul(m.x0, c.x0), F.Mul(m.x1, c.x1), F.Mul(m.x2, c.x2), F.Mul(m.x3, c.x3));
  }

  /* The products of the first row of (5.10) with the columns of (5.6). */
  lemma {:induction false} InverseDot0(r: A.Quad, c: A.Quad)
    requires r == A.Quad(K(14), K(11), K(13), K(9)) && c == A.Quad(K(2), K(1), K(1), K(3))
    ensures A.Dot(r, c) == C.One
  {
  }

  lemma {:induction false} InverseDot1(r: A.Quad, c: A.Quad)
    requires r == A.Quad(K(14), K(11), K(13), K(9)) && c == A.Quad(K(2), K(1), K(1), K(3))
    ensures A.Dot(r, Rotate(c)) == C.Zero
  {
  }

  lemma {:induction false} InverseDot2(r: A.Quad, c: A.Quad)
    requires r == A.Quad(K(14), K(11), K(13), K(9)) && c == A.Quad(K(2), K(1), K(1), K(3))
    ensures A.Dot(r, Rotate(Rotate(c))) == C.Zero
  {
  }

  lemma {:induction false} InverseDot3(r: A.Quad, c: A.Quad)
    requires r == A.Quad(K(14), K(11), K(13), K(9)) && c == A.Quad(K(2), K(1), K(1), K(3))
    ensures A.Dot(r, Rotate(Rotate(Rotate(c)))) == C.Zero
  {
  }

  /* The products of the first row of (5.6) with the columns of (5.10). */
  lemma {:induction false} MixDot0(r: A.Quad, c: A.Quad)
    requires r == A.Quad(K(2), K(3), K(1), K(1)) && c == A.Quad(K(14), K(9), K(13), K(11))
    ensures A.Dot(r, c) == C.One
  {
  }

  lemma {:induction false} MixDot1(r: A.Quad, c: A.Quad)
    requires r == A.Quad(K(2), K(3), K(1), K(1)) && c == A.Quad(K(14), K(9), K(13), K(11))
    ensures A.Dot(r, Rotate(c)) == C.Zero
  {
  }

  lemma {:induction false} MixDot2(r: A.Quad, c: A.Quad)
    requires r == A.Quad(K(2), K(3), K(1), K(1)) && c == A.Quad(K(14), K(9), K(13), K(11))
    ensures A.Dot(r, Rotate(Rotate(c))) == C.Zero
  {
  }

  lemma {:induction false} MixDot3(r: A.Quad, c: A.Quad)
    requires r == A.Quad(K(2), K(3), K(1), K(1)) && c == A.Quad(K(14), K(9), K(13), K(11))
    ensures A.Dot(r, Rotate(Rotate(Rotate(c)))) == C.Zero
  {
  }

  /* Circulant matrices: the rows of a are the rotations of p, the columns of b those
     of q. Their product is the identity when p's products with the rotations of q are. */
  lemma {:induction false} CirculantProduct(a: A.Matrix, b: A.Matrix, p: A.Quad, q: A.Quad)
    requires a.r0 == p && a.r1 == Rotate(p) && a.r2 == Rotate(Rotate(p)) && a.r3 == Rotate(Rotate(Rotate(p)))
    requires A.Column(b, 0) == q && A.Column(b, 1) == Rotate(q) && A.Column(b, 2) == Rotate(Rotate(q))
    requires A.Column(b, 3) == Rotate(Rotate(Rotate(q)))
    requires A.Dot(p, q) == C.One && A.Dot(p, Rotate(q)) == C.Zero
    requires A.Dot(p, Rotate(Rotate(q))) == C.Zero && A.Dot(p, Rotate(Rotate(Rotate(q)))) == C.Zero
    ensures A.Product(a, b) == A.Identity
  {
    assert Rotate(Rotate(Rotate(Rotate(q)))) == q;
    assert A.RowTimes(a.r1, b) == A.Identity.r1 by {
      DotRotate(p, Rotate(Rotate(Rotate(q))));
      DotRotate(p, q);
      DotRotate(p, Rotate(q));
      DotRotate(p, Rotate(Rotate(q)));
    }
    assert A.RowTimes(a.r2, b) == A.Identity.r2 by {
      DotRotate(Rotate(p), Rotate(Rotate(Rotate(q))));
      DotRotate(p, Rotate(Rotate(q)));
      DotRotate(Rotate(p), q);
      DotRotate(p, Rotate(Rotate(Rotate(q))));
      DotRotate(Rotate(p), Rotate(q));
      DotRotate(p, q);
      DotRotate(Rotate(p), Rotate(Rotate(q)));
      DotRotate(p, Rotate(q));
    }
    assert A.RowTimes(a.r3, b) == A.Identity.r3 by {
      DotRotate(Rotate(Rotate(p)), Rotate(Rotate(Rotate(q))));
      DotRotate(Rotate(p), Rotate(Rotate(q)));
      DotRotate(p, Rotate(q));
      DotRotate(Rotate(Rotate(p)), q);
      DotRotate(Rotate(p), Rotate(Rotate(Rotate(q))));
      DotRotate(p, Rotate(Rotate(q)));
      DotRotate(Rotate(Rotate(p)), Rotate(q));
      DotRotate(Rotate(p), q);
      DotRotate(p, Rotate(Rotate(Rotate(q))));
      DotRotate(Rotate(Rotate(p)), Rotate(Rotate(q)));
      DotRotate(Rotate(p), Rotate(q));
      DotRotate(p, q);
    }
  }

  /* Hence a undoes b, the first row of a and the first column of b being the generators. */
  lemma {:induction false} Circulant(a: A.Matrix, b: A.Matrix)
    requires a.r1 == Rotate(a.r0) && a.r2 == Rotate(Rotate(a.r0)) && a.r3 == Rotate(Rotate(Rotate(a.r0)))
    requires A.Column(b, 1) == Rotate(A.Column(b, 0)) && A.Column(b, 2) == Rotate(Rotate(A.Column(b, 0)))
    requires A.Column(b, 3) == Rotate(Rotate(Rotate(A.Column(b, 0))))
    requires A.Dot(a.r0, A.Column(b, 0)) == C.One && A.Dot(a.r0, Rotate(A.Column(b, 0))) == C.Zero
    requires A.Dot(a.r0, Rotate(Rotate(A.Column(b, 0)))) == C.Zero
    requires A.Dot(a.r0, Rotate(Rotate(Rotate(A.Column(b, 0))))) == C.Zero
    ensures forall d :: A.Apply(a, A.Apply(b, d)) == d
  {
    CirculantProduct(a, b, a.r0, A.Column(b, 0));
    forall d {
      A.ApplyInverse(a, b, d);
    }
  }

  /* The first row of (5.10) is orthogonal to all columns of (5.6) but the first, ... */
  lemma {:induction false} InvMixMixDots(a: A.Matrix, b: A.Matrix)
    requires a == InvMix && b == Mix
    ensures A.Dot(a.r0, A.Column(b, 0)) == C.One && A.Dot(a.r0, Rotate(A.Column(b, 0))) == C.Zero
    ensures A.Dot(a.r0, Rotate(Rotate(A.Column(b, 0)))) == C.Zero
    ensures A.Dot(a.r0, Rotate(Rotate(Rotate(A.Column(b, 0))))) == C.Zero
  {
    var p, q := a.r0, A.Column(b, 0);
    InverseDot0(p, q);
    InverseDot1(p, q);
    InverseDot2(p, q);
    InverseDot3(p, q);
  }

  /* ... and the first row of (5.6) to all columns of (5.10) but the first. */
  lemma {:induction false} MixInvMixDots(a: A.Matrix, b: A.Matrix)
    requires a == Mix && b == InvMix
    ensures A.Dot(a.r0, A.Column(b, 0)) == C.One && A.Dot(a.r0, Rotate(A.Column(b, 0))) == C.Zero
    ensures A.Dot(a.r0, Rotate(Rotate(A.Column(b, 0)))) == C.Zero
    ensures A.Dot(a.r0, Rotate(Rotate(Rotate(A.Column(b, 0))))) == C.Zero
  {
    var p, q := a.r0, A.Column(b, 0);
    MixDot0(p, q);
    MixDot1(p, q);
    MixDot2(p, q);
    MixDot3(p, q);
  }

  /* Both matrices are circulant: each row is the one above rotated, and so is each column. */
  lemma {:induction false} CirculantShape(a: A.Matrix, b: A.Matrix)
    requires (a == InvMix && b == Mix) || (a == Mix && b == InvMix)
    ensures a.r1 == Rotate(a.r0) && a.r2 == Rotate(Rotate(a.r0)) && a.r3 == Rotate(Rotate(Rotate(a.r0)))
    ensures A.Column(b, 1) == Rotate(A.Column(b, 0)) && A.Column(b, 2) == Rotate(Rotate(A.Column(b, 0)))
    ensures A.Column(b, 3) == Rotate(Rotate(Rotate(A.Column(b, 0))))
  {
  }

  /* On columns of field elements: the inverse undoes the polynomial form, ... */
  lemma {:induction false} InverseColumnUndoesMix(b: A.Quad)
    ensures InverseColumn(PolynomialColumn(b)) == b
  {
    PolynomialColumnIsMix(b);
    InverseColumnIsInvMix(A.Apply(Mix, b));
    InvMixMixDots(InvMix, Mix);
    CirculantShape(InvMix, Mix);
    Circulant(InvMix, Mix);
  }

  /* ... and the other way round. */
  lemma {:induction false} PolynomialColumnUndoesInverse(b: A.Quad)
    ensures PolynomialColumn(InverseColumn(b)) == b
  {
    InverseColumnIsInvMix(b);
    PolynomialColumnIsMix(A.Apply(InvMix, b));
    MixInvMixDots(Mix, InvMix);
    CirculantShape(Mix, InvMix);
    Circulant(Mix, InvMix);
  }

  /* aes_inverse_mix_column undoes aes_mix_column_polynomial on every column word, ... */
  lemma {:induction false} InverseMixColumnUndoesMix(value: bv32)
    ensures InverseMixColumn(MixColumnPolynomial(value)) == value
  {
    var b := Column(value);
    ColumnPack(PolynomialColumn(b), value);
    InverseColumnUndoesMix(b);
    ColumnPack(b, value);
  }

  /* ... and aes_mix_column_polynomial undoes aes_inverse_mix_column. */
  lemma {:induction false} MixColumnUndoesInverse(value: bv32)
    ensures MixColumnPolynomial(InverseMixColumn(value)) == value
  {
    var b := Column(value);
    ColumnPack(InverseColumn(b), value);
    PolynomialColumnUndoesInverse(b);
    ColumnPack(b, value);
  }

  /* aes_mix_columns: each column word of the state through aes_mix_column_polynomial
     (aes_extract_column and aes_emplace_column index the state directly). */
  function MixColumns(s: S.State): S.State
  {
    seq(4, c requires 0 <= c < 4 => MixColumnPolynomial(s[c]))
  }

  /* aes_inverse_mix_columns: each column word through aes_inverse_mix_column. */
  function InverseMixColumns(s: S.State): S.State
  {
    seq(4, c requires 0 <= c < 4 => InverseMixColumn(s[c]))
  }

  /* The two column mixes undo each other on whole states. */
  lemma {:induction false} MixColumnsInverts(s: S.State)
    ensures InverseMixColumns(MixColumns(s)) == s
    ensures MixColumns(InverseMixColumns(s)) == s
  {
    forall c | 0 <= c < 4
      ensures InverseMixColumn(MixColumnPolynomial(s[c])) == s[c]
      ensures MixColumnPolynomial(InverseMixColumn(s[c])) == s[c]
    {
      InverseMixColumnUndoesMix(s[c]);
      MixColumnUndoesInverse(s[c]);
    }
  }
}
