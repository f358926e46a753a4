/**
 The field GF(2^8) of section 4 of FIPS 197, as an algebraic reference.
 An element is a polynomial over GF(2) of degree below 8, kept as its eight
 coefficients; sums are exclusive or and products are taken modulo the AES
 polynomial m(x) = x^8 + x^4 + x^3 + x + 1. Multiplication is defined in Horner
 form, a * b = a0 * b + x * (((a - a0) / x) * b), so that every algebraic law is
 a short induction on the left factor.
 */
module Field {
  import opened Coefficients

  type Elem = Octet

  function Add(x: Elem, y: Elem): Elem
  {
    Xor(x, y)
  }

  /* Multiplication by x (FIPS 197 section 4.2.1, xtime): shift up, and fold the
     overflowing x^8 back as x^4 + x^3 + x + 1. */
  function Xt(x: Elem): Elem
  {
    Octet(x.c7, x.c0 != x.c7, x.c1, x.c2 != x.c7, x.c3 != x.c7, x.c4, x.c5, x.c6)
  }

  /* (a - a0) / x: drop the constant coefficient and shift down. */
  function Half(a: Elem): Elem
  {
    ShiftDown(a, false)
  }

  /* a0 * b, for the constant coefficient a0 of a. */
  function Pick(a: Elem, b: Elem): Elem
  {
    if a.c0 then b else Zero
  }

  lemma {:induction false} HalfSmaller(a: Elem)
    ensures a != Zero ==> Value(Half(a)) < Value(a)
  {
  }

  function Mul(a: Elem, b: Elem): Elem
    decreases Value(a)
  {
    if a == Zero then Zero else HalfSmaller(a); Add(Pick(a, b), Xt(Mul(Half(a), b)))
  }

  /* Small facts about the building blocks. */

  lemma {:induction false} XtLinear(x: Elem, y: Elem)
    ensures Xt(Add(x, y)) == Add(Xt(x), Xt(y))
  {
  }

  lemma {:induction false} PickLinear(a: Elem, b: Elem, c: Elem)
    ensures Pick(a, Add(b, c)) == Add(Pick(a, b), Pick(a, c))
  {
  }

  /* Every element is a0 + x * ((a - a0) / x); no reduction happens there. */
  lemma {:induction false} Recompose(a: Elem)
    ensures a == Add(Pick(a, One), Xt(Half(a)))
  {
    Ext(a, Add(Pick(a, One), Xt(Half(a))));
  }

  /* The Horner equation holds for the zero element too. */
  lemma {:induction false} MulUnfold(a: Elem, b: Elem)
    ensures Mul(a, b) == Add(Pick(a, b), Xt(Mul(Half(a), b)))
  {
  }

  lemma {:induction false} SplitStep(l: Elem, p: Elem, q: Elem, p1: Elem, p2: Elem, q1: Elem, q2: Elem, r1: Elem, r2: Elem)
    ensures (l == Add(p, Xt(q)) && p == Add(p1, p2) && q == Add(q1, q2)
             && r1 == Add(p1, Xt(q1)) && r2 == Add(p2, Xt(q2))) ==> l == Add(r1, r2)
  {
    XtLinear(q1, q2);
    XorRegroup(p1, p2, Xt(q1), Xt(q2));
  }

  /* a * (b + c) == a * b + a * c */
  lemma {:induction false} MulLinearRight(a: Elem, b: Elem, c: Elem)
    ensures Mul(a, Add(b, c)) == Add(Mul(a, b), Mul(a, c))
    decreases Value(a)
  {
    HalfSmaller(a);
    if a != Zero {
      MulLinearRight(Half(a), b, c);
      PickLinear(a, b, c);
      MulUnfold(a, Add(b, c));
      MulUnfold(a, b);
      MulUnfold(a, c);
      SplitStep(Mul(a, Add(b, c)), Pick(a, Add(b, c)), Mul(Half(a), Add(b, c)), Pick(a, b), Pick(a, c),
                Mul(Half(a), b), Mul(Half(a), c), Mul(a, b), Mul(a, c));
    }
  }

  lemma {:induction false} XtStep(l: Elem, p: Elem, q: Elem, r: Elem)
    ensures l == Add(Xt(p), Xt(q)) && r == Add(p, q) ==> l == Xt(r)
  {
    XtLinear(p, q);
  }

  lemma {:induction false} PickXt(a: Elem, b: Elem)
    ensures Pick(a, Xt(b)) == Xt(Pick(a, b))
  {
  }

  /* a * (x * b) == x * (a * b) */
  lemma {:induction false} MulXtRight(a: Elem, b: Elem)
    ensures Mul(a, Xt(b)) == Xt(Mul(a, b))
    decreases Value(a)
  {
    HalfSmaller(a);
    if a != Zero {
      MulXtRight(Half(a), b);
      MulUnfold(a, Xt(b));
      MulUnfold(a, b);
      PickXt(a, b);
      XtStep(Mul(a, Xt(b)), Pick(a, b), Xt(Mul(Half(a), b)), Mul(a, b));
    }
  }

  /* a * 0 == 0 */
  lemma {:induction false} MulZeroRight(a: Elem)
    ensures Mul(a, Zero) == Zero
    decreases Value(a)
  {
    HalfSmaller(a);
    if a != Zero {
      MulZeroRight(Half(a));
      MulUnfold(a, Zero);
    }
  }

  /* a * 1 == a */
  lemma {:induction false} MulOneRight(a: Elem)
    ensures Mul(a, One) == a
    decreases Value(a)
  {
    HalfSmaller(a);
    if a != Zero {
      MulOneRight(Half(a));
      MulUnfold(a, One);
      Recompose(a);
    }
  }

  /* b * a0 == a0 * b */
  lemma {:induction false} MulPickRight(a: Elem, b: Elem)
    ensures Mul(b, Pick(a, One)) == Pick(a, b)
  {
    if a.c0 {
      MulOneRight(b);
    } else {
      MulZeroRight(b);
    }
  }

  /* Multiplication is commutative. */
  lemma {:induction false} MulComm(a: Elem, b: Elem)
    ensures Mul(a, b) == Mul(b, a)
    decreases Value(a)
  {
    HalfSmaller(a);
    if a != Zero {
      MulComm(Half(a), b);
      Recompose(a);
      MulLinearRight(b, Pick(a, One), Xt(Half(a)));
      MulPickRight(a, b);
      MulXtRight(b, Half(a));
      MulUnfold(a, b);
    } else {
      MulZeroRight(b);
    }
  }

  /* (a + b) * c == a * c + b * c */
  lemma {:induction false} MulLinearLeft(a: Elem, b: Elem, c: Elem)
    ensures Mul(Add(a, b), c) == Add(Mul(a, c), Mul(b, c))
  {
    MulComm(Add(a, b), c);
    MulLinearRight(c, a, b);
    MulComm(a, c);
    MulComm(b, c);
  }

  /* (x * a) * b == x * (a * b) */
  lemma {:induction false} MulXtLeft(a: Elem, b: Elem)
    ensures Mul(Xt(a), b) == Xt(Mul(a, b))
  {
    MulComm(Xt(a), b);
    MulXtRight(b, a);
    MulComm(a, b);
  }

  /* (a0 * b) * c == a0 * (b * c) */
  lemma {:induction false} MulPickLeft(a: Elem, b: Elem, c: Elem)
    ensures Mul(Pick(a, b), c) == Pick(a, Mul(b, c))
  {
  }

  /* Multiplication is associative. */
  lemma {:induction false} MulAssoc(a: Elem, b: Elem, c: Elem)
    ensures Mul(Mul(a, b), c) == Mul(a, Mul(b, c))
    decreases Value(a)
  {
    HalfSmaller(a);
    if a != Zero {
      MulAssoc(Half(a), b, c);
      MulUnfold(a, b);
      MulLinearLeft(Pick(a, b), Xt(Mul(Half(a), b)), c);
      MulPickLeft(a, b, c);
      MulXtLeft(Mul(Half(a), b), c);
      MulUnfold(a, Mul(b, c));
    }
  }
}
