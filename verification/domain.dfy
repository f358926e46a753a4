/**
 GF(2^8) has no zero divisors: a product of two non-zero elements is non-zero.
 This is what makes the AES polynomial irreducible and the extended Euclidean
 algorithm end in 1. The product is unrolled into its eight partial products
 a_k * x^k * b, and the statement is decided on the byte form of that sum.
 */
module Domain {
  import opened Coefficients
  import opened Field

  /* The byte-level counterparts of Xt, Half, Add and Pick. */
  function ByteXt(x: bv8): bv8
  {
    if x & 0x80 != 0 then (x << 1) ^ 0x1b else x << 1
  }

  function ByteHalf(x: bv8): bv8
  {
    x >> 1
  }

  function ByteAdd(x: bv8, y: bv8): bv8
  {
    x ^ y
  }

  function BytePick(a: bv8, b: bv8): bv8
  {
    if a & 1 != 0 then b else 0
  }

  /* The product a * b as the sum of a_k * (x^k * b), k = 0 .. 7. */
  function Expanded(a: Elem, b: Elem): Elem
  {
    var a1 := Half(a);
    var a2 := Half(a1);
    var a3 := Half(a2);
    var a4 := Half(a3);
    var a5 := Half(a4);
    var a6 := Half(a5);
    var a7 := Half(a6);
    var b1 := Xt(b);
    var b2 := Xt(b1);
    var b3 := Xt(b2);
    var b4 := Xt(b3);
    var b5 := Xt(b4);
    var b6 := Xt(b5);
    var b7 := Xt(b6);
    Add(Pick(a, b), Add(Pick(a1, b1), Add(Pick(a2, b2), Add(Pick(a3, b3),
    Add(Pick(a4, b4), Add(Pick(a5, b5), Add(Pick(a6, b6), Pick(a7, b7))))))))
  }

  /* The same sum on bytes. */
  function ByteExpanded(a: bv8, b: bv8): bv8
  {
    var a1 := ByteHalf(a);
    var a2 := ByteHalf(a1);
    var a3 := ByteHalf(a2);
    var a4 := ByteHalf(a3);
    var a5 := ByteHalf(a4);
    var a6 := ByteHalf(a5);
    var a7 := ByteHalf(a6);
    var b1 := ByteXt(b);
    var b2 := ByteXt(b1);
    var b3 := ByteXt(b2);
    var b4 := ByteXt(b3);
    var b5 := ByteXt(b4);
    var b6 := ByteXt(b5);
    var b7 := ByteXt(b6);
    ByteAdd(BytePick(a, b), ByteAdd(BytePick(a1, b1), ByteAdd(BytePick(a2, b2), ByteAdd(BytePick(a3, b3),
    ByteAdd(BytePick(a4, b4), ByteAdd(BytePick(a5, b5), ByteAdd(BytePick(a6, b6), BytePick(a7, b7))))))))
  }

  /* One step of the shift-and-add form: a * b = a0 * b + ((a - a0) / x) * (x * b). */
  lemma {:induction false} MulPeasant(a: Elem, b: Elem)
    ensures Mul(a, b) == Add(Pick(a, b), Mul(Half(a), Xt(b)))
  {
    MulUnfold(a, b);
    MulXtRight(Half(a), b);
  }

  lemma {:induction false} MulExpanded(a: Elem, b: Elem)
    ensures Mul(a, b) == Expanded(a, b)
  {
    var a1 := Half(a);
    var a2 := Half(a1);
    var a3 := Half(a2);
    var a4 := Half(a3);
    var a5 := Half(a4);
    var a6 := Half(a5);
    var a7 := Half(a6);
    var b1 := Xt(b);
    var b2 := Xt(b1);
    var b3 := Xt(b2);
    var b4 := Xt(b3);
    var b5 := Xt(b4);
    var b6 := Xt(b5);
    var b7 := Xt(b6);
    MulPeasant(a, b);
    MulPeasant(a1, b1);
    MulPeasant(a2, b2);
    MulPeasant(a3, b3);
    MulPeasant(a4, b4);
    MulPeasant(a5, b5);
    MulPeasant(a6, b6);
    MulPeasant(a7, b7);
    Ext(Half(a7), Zero);
    MulUnfold(Zero, Xt(b7));
    XorZero(Pick(a7, b7));
  }

  lemma {:induction false} ByteXtAgrees(x: bv8)
    ensures FromByte(ByteXt(x)) == Xt(FromByte(x))
  {
    Ext(FromByte(ByteXt(x)), Xt(FromByte(x)));
  }

  lemma {:induction false} ByteHalfAgrees(x: bv8)
    ensures FromByte(ByteHalf(x)) == Half(FromByte(x))
  {
    Ext(FromByte(ByteHalf(x)), Half(FromByte(x)));
  }

  lemma {:induction false} BytePickAgrees(a: bv8, b: bv8)
    ensures FromByte(BytePick(a, b)) == Pick(FromByte(a), FromByte(b))
  {
  }

  lemma {:induction false} ByteAddAgrees(a: bv8, b: bv8)
    ensures FromByte(ByteAdd(a, b)) == Add(FromByte(a), FromByte(b))
  {
    FromByteXor(a, b);
  }

  lemma {:induction false} ByteZeroAgrees(a: bv8)
    ensures FromByte(a) == Zero <==> a == 0
  {
    Ext(FromByte(a), Zero);
  }

  lemma {:induction false} ByteExpandedAgrees(a: bv8, b: bv8)
    ensures FromByte(ByteExpanded(a, b)) == Expanded(FromByte(a), FromByte(b))
  {
    var a1 := ByteHalf(a);
    var a2 := ByteHalf(a1);
    var a3 := ByteHalf(a2);
    var a4 := ByteHalf(a3);
    var a5 := ByteHalf(a4);
    var a6 := ByteHalf(a5);
    var a7 := ByteHalf(a6);
    var b1 := ByteXt(b);
    var b2 := ByteXt(b1);
    var b3 := ByteXt(b2);
    var b4 := ByteXt(b3);
    var b5 := ByteXt(b4);
    var b6 := ByteXt(b5);
    var b7 := ByteXt(b6);
    ByteHalfAgrees(a);
    ByteHalfAgrees(a1);
    ByteHalfAgrees(a2);
    ByteHalfAgrees(a3);
    ByteHalfAgrees(a4);
    ByteHalfAgrees(a5);
    ByteHalfAgrees(a6);
    ByteXtAgrees(b);
    ByteXtAgrees(b1);
    ByteXtAgrees(b2);
    ByteXtAgrees(b3);
    ByteXtAgrees(b4);
    ByteXtAgrees(b5);
    ByteXtAgrees(b6);
    BytePickAgrees(a, b);
    BytePickAgrees(a1, b1);
    BytePickAgrees(a2, b2);
    BytePickAgrees(a3, b3);
    BytePickAgrees(a4, b4);
    BytePickAgrees(a5, b5);
    BytePickAgrees(a6, b6);
    BytePickAgrees(a7, b7);
    var s6 := ByteAdd(BytePick(a6, b6), BytePick(a7, b7));
    var s5 := ByteAdd(BytePick(a5, b5), s6);
    var s4 := ByteAdd(BytePick(a4, b4), s5);
    var s3 := ByteAdd(BytePick(a3, b3), s4);
    var s2 := ByteAdd(BytePick(a2, b2), s3);
    var s1 := ByteAdd(BytePick(a1, b1), s2);
    ByteAddAgrees(BytePick(a6, b6), BytePick(a7, b7));
    ByteAddAgrees(BytePick(a5, b5), s6);
    ByteAddAgrees(BytePick(a4, b4), s5);
    ByteAddAgrees(BytePick(a3, b3), s4);
    ByteAddAgrees(BytePick(a2, b2), s3);
    ByteAddAgrees(BytePick(a1, b1), s2);
    ByteAddAgrees(BytePick(a, b), s1);
  }

  /* Decided on the bits of the two bytes. */
  lemma {:induction false} ByteNoZeroDivisors(a: bv8, b: bv8)
    ensures ByteExpanded(a, b) == 0 ==> a == 0 || b == 0
  {
  }

  lemma {:induction false} ByteDomain(a: bv8, b: bv8)
    ensures Expanded(FromByte(a), FromByte(b)) == Zero ==> a == 0 || b == 0
  {
    ByteExpandedAgrees(a, b);
    ByteNoZeroDivisors(a, b);
    ByteZeroAgrees(ByteExpanded(a, b));
  }

  lemma {:induction false} ExpandedDomain(x: Elem, y: Elem)
    ensures Expanded(x, y) == Zero ==> x == Zero || y == Zero
  {
    var a := ToByte(x);
    var b := ToByte(y);
    FromToByte(x);
    FromToByte(y);
    ByteDomain(a, b);
    ByteZeroAgrees(a);
    ByteZeroAgrees(b);
  }

  lemma {:induction false} NoZeroDivisors(x: Elem, y: Elem)
    ensures Mul(x, y) == Zero <==> x == Zero || y == Zero
  {
    MulExpanded(x, y);
    ExpandedDomain(x, y);
    MulZeroRight(x);
    MulComm(x, y);
    MulZeroRight(y);
  }
}
