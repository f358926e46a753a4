/**
 The field operations on the `uint8_t` values the cipher passes around:
 aes_mix_column_multiply (gf2_8_multiplication under the AES polynomial) and
 the inverse aes_generate_sbox_value takes, with 0 mapped to 0. Both are tied
 to the algebraic field of module Field through Coefficients.FromByte.
 */
module ByteField {
  import C = Coefficients
  import F = Field
  import D = Domain
  import G = GaloisField
  import I = Inverse
  import opened Outcomes

  /* FromByte loses nothing. */
  lemma {:induction false} FromByteInjective(x: bv8, y: bv8)
    ensures C.FromByte(x) == C.FromByte(y) <==> x == y
  {
    C.ToFromByte(x);
    C.ToFromByte(y);
  }

  /* aes_mix_column_multiply(a, b): the field product of two bytes, computed
     as the eight partial products of the shift-and-add method on bit-vectors
     (TimesIsMultiplication: it is gf2_8_multiplication's result). */
  function Times(a: bv8, b: bv8): (r: bv8)
    ensures C.FromByte(r) == F.Mul(C.FromByte(a), C.FromByte(b))
  {
    D.MulExpanded(C.FromByte(a), C.FromByte(b));
    D.ByteExpandedAgrees(a, b);
    D.ByteExpanded(a, b)
  }

  /* aes_mix_column_multiply calls gf2_8_multiplication with the AES polynomial:
     on the bytes' coefficients that is the same product. */
  lemma {:induction false} TimesIsMultiplication(a: bv8, b: bv8)
    ensures C.FromByte(Times(a, b)) == G.Multiplication(C.FromByte(a), C.FromByte(b))
    ensures C.ToByte(G.Multiplication(C.FromByte(a), C.FromByte(b))) == Times(a, b)
  {
    C.ToFromByte(Times(a, b));
  }

  /* The product is the shift-and-add expansion; this is what lets constant
     products be evaluated. */
  lemma {:induction false} TimesExpanded(a: bv8, b: bv8)
    ensures Times(a, b) == D.ByteExpanded(a, b)
  {
    D.MulExpanded(C.FromByte(a), C.FromByte(b));
    D.ByteExpandedAgrees(a, b);
    FromByteInjective(Times(a, b), D.ByteExpanded(a, b));
  }

  lemma {:induction false} TimesCommutes(a: bv8, b: bv8)
    ensures Times(a, b) == Times(b, a)
  {
    F.MulComm(C.FromByte(a), C.FromByte(b));
    FromByteInjective(Times(a, b), Times(b, a));
  }

  lemma {:induction false} TimesAssociates(a: bv8, b: bv8, c: bv8)
    ensures Times(Times(a, b), c) == Times(a, Times(b, c))
  {
    F.MulAssoc(C.FromByte(a), C.FromByte(b), C.FromByte(c));
    FromByteInjective(Times(Times(a, b), c), Times(a, Times(b, c)));
  }

  /* The product distributes over exclusive or, on both sides. */
  lemma {:induction false} TimesDistributes(a: bv8, x: bv8, y: bv8)
    ensures Times(a, x ^ y) == Times(a, x) ^ Times(a, y)
    ensures Times(x ^ y, a) == Times(x, a) ^ Times(y, a)
  {
    var fa, fx, fy := C.FromByte(a), C.FromByte(x), C.FromByte(y);
    C.FromByteXor(x, y);
    C.FromByteXor(Times(a, x), Times(a, y));
    C.FromByteXor(Times(x, a), Times(y, a));
    F.MulLinearLeft(fx, fy, fa);
    F.MulComm(fa, C.Xor(fx, fy));
    F.MulComm(fa, fx);
    F.MulComm(fa, fy);
    FromByteInjective(Times(a, x ^ y), Times(a, x) ^ Times(a, y));
    FromByteInjective(Times(x ^ y, a), Times(x, a) ^ Times(y, a));
  }

  /* 1 is the identity and 0 absorbs, on either side. */
  lemma {:induction false} TimesUnits(a: bv8)
    ensures Times(1, a) == a && Times(a, 1) == a
    ensures Times(0, a) == 0 && Times(a, 0) == 0
  {
    var fa := C.FromByte(a);
    assert C.FromByte(1) == C.One;
    assert C.FromByte(0) == C.Zero;
    F.MulOneRight(fa);
    F.MulComm(fa, C.One);
    F.MulZeroRight(fa);
    F.MulComm(fa, C.Zero);
    FromByteInjective(Times(1, a), a);
    FromByteInjective(Times(a, 1), a);
    FromByteInjective(Times(0, a), 0);
    FromByteInjective(Times(a, 0), 0);
  }

  /* Multiplying by x (the byte 2) is xtime: shift left, and reduce by the
     AES polynomial when the top bit falls off. */
  lemma {:induction false} TimesTwo(b: bv8)
    ensures Times(2, b) == D.ByteXt(b)
  {
    MulByX(C.FromByte(b));
    D.ByteXtAgrees(b);
    FromByteInjective(Times(2, b), D.ByteXt(b));
  }

  /* The same on field elements: the element x times e is xtime of e. */
  lemma {:induction false} MulByX(e: C.Octet)
    ensures F.Mul(C.FromByte(2), e) == F.Xt(e)
  {
    assert C.FromByte(2) == F.Xt(C.One);
    F.MulComm(F.Xt(C.One), e);
    F.MulXtRight(e, C.One);
    F.MulOneRight(e);
  }


  /* A product of two non-zero bytes is non-zero. */
  lemma {:induction false} TimesNonZero(a: bv8, b: bv8)
    ensures Times(a, b) == 0 <==> a == 0 || b == 0
  {
    D.NoZeroDivisors(C.FromByte(a), C.FromByte(b));
    D.ByteZeroAgrees(a);
    D.ByteZeroAgrees(b);
    D.ByteZeroAgrees(Times(a, b));
  }

  /* The `inverse` of aes_generate_sbox_value: gf_2_8_get_value_inverse for a
     non-zero value, and 0 for 0 (where the program skips the call, which
     would exit with status 1). */
  function Inverse(v: bv8): (r: bv8)
    ensures v != 0 ==> Times(v, r) == 1
    ensures v == 0 ==> r == 0
  {
    if v != 0 then
      D.ByteZeroAgrees(v);
      I.InverseCorrect(C.FromByte(v));
      var inv := I.ValueInverse(C.FromByte(v)).value;
      C.FromToByte(inv);
      FromByteInjective(Times(v, C.ToByte(inv)), 1);
      C.ToByte(inv)
    else
      0
  }

  /* A byte whose product with v is 1 is the inverse of v: multiplying
     z * v * y both ways shows y == z for the inverse z. */
  lemma {:induction false} InverseUnique(v: bv8, y: bv8)
    ensures Times(v, y) == 1 ==> y == Inverse(v)
  {
    if Times(v, y) == 1 {
      var z := Inverse(v);
      assert v != 0 by { TimesUnits(y); }
      TimesCommutes(z, v);
      TimesAssociates(z, v, y);
      TimesUnits(y);
      TimesUnits(z);
    }
  }

  /* Inverting twice gives the byte back. */
  lemma {:induction false} InverseInvolutive(v: bv8)
    ensures Inverse(Inverse(v)) == v
  {
    if v != 0 {
      TimesCommutes(v, Inverse(v));
      TimesUnits(Inverse(v));
      InverseUnique(Inverse(v), v);
    }
  }
}
