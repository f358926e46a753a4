/**
 Polynomials over GF(2) of degree below 16: the `uint16_t` values that the
 division, reduction and inverse code of main.cpp works on. A value is kept as
 its low and high octet (bits 0-7 and 8-15). Addition is exclusive or, `Shift`
 is `<< 1` and `Mul` is the carry-less product cut to 16 bits, that is,
 multiplication in the ring GF(2)[x] / (x^16). The ring laws are proved here,
 in the same Horner style as for the field.
 */
module Polynomial {
  import C = Coefficients

  datatype Poly = Poly(lo: C.Octet, hi: C.Octet)

  const Zero := Poly(C.Zero, C.Zero)
  const One := Poly(C.One, C.Zero)

  /* A `uint8_t` widened to `uint16_t`. */
  function Widen(e: C.Octet): Poly
  {
    Poly(e, C.Zero)
  }

  /* `x ^ y` */
  function Add(x: Poly, y: Poly): Poly
  {
    Poly(C.Xor(x.lo, y.lo), C.Xor(x.hi, y.hi))
  }

  /* `x << 1` on 16 bits: multiplication by x, dropping x^16. */
  function Shift(x: Poly): Poly
  {
    Poly(C.ShiftUp(x.lo, false), C.ShiftUp(x.hi, x.lo.c7))
  }

  /* `a >> 1`: (a - a0) / x. */
  function Half(a: Poly): Poly
  {
    Poly(C.ShiftDown(a.lo, a.hi.c0), C.ShiftDown(a.hi, false))
  }

  /* a0 * b, for the constant coefficient a0 of a. */
  function Pick(a: Poly, b: Poly): Poly
  {
    if a.lo.c0 then b else Zero
  }

  /* The number the `uint16_t` holds. */
  function Value(a: Poly): nat
  {
    C.Value(a.lo) + 256 * C.Value(a.hi)
  }

  lemma {:induction false} HalfSmaller(a: Poly)
    ensures a != Zero ==> Value(Half(a)) < Value(a)
  {
    C.ValueShiftDown(a.lo, a.hi.c0);
    C.ValueShiftDown(a.hi, false);
    C.ValueZero(a.lo);
    C.ValueZero(a.hi);
  }

  function Mul(a: Poly, b: Poly): Poly
    decreases Value(a)
  {
    if a == Zero then Zero else HalfSmaller(a); Add(Pick(a, b), Shift(Mul(Half(a), b)))
  }

  /* Small facts about the building blocks. */

  lemma {:induction false} ShiftLinear(x: Poly, y: Poly)
    ensures Shift(Add(x, y)) == Add(Shift(x), Shift(y))
  {
    C.ShiftUpLinear(x.lo, y.lo, false, false);
    C.ShiftUpLinear(x.hi, y.hi, x.lo.c7, y.lo.c7);
  }

  lemma {:induction false} PickLinear(a: Poly, b: Poly, c: Poly)
    ensures Pick(a, Add(b, c)) == Add(Pick(a, b), Pick(a, c))
  {
  }

  lemma {:induction false} Regroup(w: Poly, x: Poly, y: Poly, z: Poly)
    ensures Add(Add(w, x), Add(y, z)) == Add(Add(w, y), Add(x, z))
  {
    C.XorRegroup(w.lo, x.lo, y.lo, z.lo);
    C.XorRegroup(w.hi, x.hi, y.hi, z.hi);
  }

  /* Every polynomial is a0 + x * ((a - a0) / x); nothing is cut off there. */
  lemma {:induction false} Recompose(a: Poly)
    ensures a == Add(Pick(a, One), Shift(Half(a)))
  {
    C.RecomposeLow(a.lo, a.hi.c0);
    C.RecomposeHigh(a.hi);
  }

  /* The Horner equation holds for the zero polynomial too. */
  lemma {:induction false} MulUnfold(a: Poly, b: Poly)
    ensures Mul(a, b) == Add(Pick(a, b), Shift(Mul(Half(a), b)))
  {
  }

  lemma {:induction false} SplitStep(l: Poly, p: Poly, q: Poly, p1: Poly, p2: Poly, q1: Poly, q2: Poly, r1: Poly, r2: Poly)
    ensures (l == Add(p, Shift(q)) && p == Add(p1, p2) && q == Add(q1, q2)
             && r1 == Add(p1, Shift(q1)) && r2 == Add(p2, Shift(q2))) ==> l == Add(r1, r2)
  {
    ShiftLinear(q1, q2);
    Regroup(p1, p2, Shift(q1), Shift(q2));
  }

  /* a * (b + c) == a * b + a * c */
  lemma {:induction false} MulLinearRight(a: Poly, b: Poly, c: Poly)
    ensures Mul(a, Add(b, c)) == Add(Mul(a, b), Mul(a, c))
    decreases Value(a)
  {
    HalfSmaller(a);
    if a != Zero {
      MulLinearRight(Half(a), b, c);
      PickLinear(a, b, c);
      MulUnfold(a, Add(b, c));
      MulUnfold(a, b);
      MulUnfold(a, c);
      SplitStep(Mul(a, Add(b, c)), Pick(a, Add(b, c)), Mul(Half(a), Add(b, c)), Pick(a, b), Pick(a, c),
                Mul(Half(a), b), Mul(Half(a), c), Mul(a, b), Mul(a, c));
    }
  }

  lemma {:induction false} ShiftStep(l: Poly, p: Poly, q: Poly, r: Poly)
    ensures l == Add(Shift(p), Shift(q)) && r == Add(p, q) ==> l == Shift(r)
  {
    ShiftLinear(p, q);
  }

  lemma {:induction false} PickShift(a: Poly, b: Poly)
    ensures Pick(a, Shift(b)) == Shift(Pick(a, b))
  {
  }

  /* a * (x * b) == x * (a * b) */
  lemma {:induction false} MulShiftRight(a: Poly, b: Poly)
    ensures Mul(a, Shift(b)) == Shift(Mul(a, b))
    decreases Value(a)
  {
    HalfSmaller(a);
    if a != Zero {
      MulShiftRight(Half(a), b);
      MulUnfold(a, Shift(b));
      MulUnfold(a, b);
      PickShift(a, b);
      ShiftStep(Mul(a, Shift(b)), Pick(a, b), Shift(Mul(Half(a), b)), Mul(a, b));
    }
  }

  /* a * 0 == 0 */
  lemma {:induction false} MulZeroRight(a: Poly)
    ensures Mul(a, Zero) == Zero
    decreases Value(a)
  {
    HalfSmaller(a);
    if a != Zero {
      MulZeroRight(Half(a));
      MulUnfold(a, Zero);
    }
  }

  /* a * 1 == a */
  lemma {:induction false} MulOneRight(a: Poly)
    ensures Mul(a, One) == a
    decreases Value(a)
  {
    HalfSmaller(a);
    if a != Zero {
      MulOneRight(Half(a));
      MulUnfold(a, One);
      Recompose(a);
    }
  }

  /* b * a0 == a0 * b */
  lemma {:induction false} MulPickRight(a: Poly, b: Poly)
    ensures Mul(b, Pick(a, One)) == Pick(a, b)
  {
    if a.lo.c0 {
      MulOneRight(b);
    } else {
      MulZeroRight(b);
    }
  }

  /* Multiplication is commutative. */
  lemma {:induction false} MulComm(a: Poly, b: Poly)
    ensures Mul(a, b) == Mul(b, a)
    decreases Value(a)
  {
    HalfSmaller(a);
    if a != Zero {
      MulComm(Half(a), b);
      Recompose(a);
      MulLinearRight(b, Pick(a, One), Shift(Half(a)));
      MulPickRight(a, b);
      MulShiftRight(b, Half(a));
      MulUnfold(a, b);
    } else {
      MulZeroRight(b);
    }
  }

  /* (a + b) * c == a * c + b * c */
  lemma {:induction false} MulLinearLeft(a: Poly, b: Poly, c: Poly)
    ensures Mul(Add(a, b), c) == Add(Mul(a, c), Mul(b, c))
  {
    MulComm(Add(a, b), c);
    MulLinearRight(c, a, b);
    MulComm(a, c);
    MulComm(b, c);
  }

  /* (x * a) * b == x * (a * b) */
  lemma {:induction false} MulShiftLeft(a: Poly, b: Poly)
    ensures Mul(Shift(a), b) == Shift(Mul(a, b))
  {
    MulComm(Shift(a), b);
    MulShiftRight(b, a);
    MulComm(a, b);
  }

  /* (a0 * b) * c == a0 * (b * c) */
  lemma {:induction false} MulPickLeft(a: Poly, b: Poly, c: Poly)
    ensures Mul(Pick(a, b), c) == Pick(a, Mul(b, c))
  {
  }

  /* Multiplication is associative. */
  lemma {:induction false} MulAssoc(a: Poly, b: Poly, c: Poly)
    ensures Mul(Mul(a, b), c) == Mul(a, Mul(b, c))
    decreases Value(a)
  {
    HalfSmaller(a);
    if a != Zero {
      MulAssoc(Half(a), b, c);
      MulUnfold(a, b);
      MulLinearLeft(Pick(a, b), Shift(Mul(Half(a), b)), c);
      MulPickLeft(a, b, c);
      MulShiftLeft(Mul(Half(a), b), c);
      MulUnfold(a, Mul(b, c));
    }
  }

  /* Degree bounds: all coefficients from i = n on are zero, i.e. a < 2^n. */
  predicate Below(a: Poly, n: int)
  {
    C.Below(a.lo, n) && C.Below(a.hi, n - 8)
  }

  lemma {:induction false} BelowMono(a: Poly, n: int, m: int)
    ensures Below(a, n) && n <= m ==> Below(a, m)
  {
  }

  lemma {:induction false} BelowAdd(x: Poly, y: Poly, n: int)
    ensures Below(x, n) && Below(y, n) ==> Below(Add(x, y), n)
  {
  }

  lemma {:induction false} BelowShift(x: Poly, n: int)
    ensures Below(x, n) ==> Below(Shift(x), n + 1)
  {
  }

  lemma {:induction false} BelowHalf(a: Poly, n: int)
    ensures Below(a, n) ==> Below(Half(a), n - 1)
    ensures n >= 1 ==> (Below(Half(a), n - 1) <==> Below(a, n))
  {
  }

  lemma {:induction false} BelowZero(a: Poly, n: int)
    ensures (Below(a, n) && n <= 0 ==> a == Zero) && Below(Zero, n)
  {
    C.BelowZero(a.lo, n);
    C.BelowZero(a.hi, n - 8);
  }

  lemma {:induction false} TopCancel(x: Poly, y: Poly, n: int)
    ensures (Below(x, n + 1) && Below(y, n + 1) && !Below(x, n) && !Below(y, n)) ==> Below(Add(x, y), n)
  {
    C.TopCancel(x.lo, y.lo, n);
    C.TopCancel(x.hi, y.hi, n - 8);
  }

  lemma {:induction false} MulBelowStep(a: Poly, b: Poly, h: Poly, m: Poly, i: int, j: int)
    ensures ((Below(Half(a), i - 1) && Below(b, j) ==> Below(h, i + j - 2)) && m == Add(Pick(a, b), Shift(h))
             && Below(a, i) && Below(b, j) && a != Zero) ==> Below(m, i + j - 1)
  {
    BelowHalf(a, i);
    BelowShift(h, i + j - 2);
    BelowZero(a, i);
    BelowZero(Zero, i + j - 1);
    BelowMono(b, j, i + j - 1);
    BelowAdd(Pick(a, b), Shift(h), i + j - 1);
  }

  /* Degrees add up under multiplication: deg(a * b) <= deg a + deg b. */
  lemma {:induction false} MulBelow(a: Poly, b: Poly, i: int, j: int)
    ensures Below(a, i) && Below(b, j) ==> Below(Mul(a, b), i + j - 1)
    decreases Value(a)
  {
    HalfSmaller(a);
    if a != Zero {
      MulBelow(Half(a), b, i - 1, j);
      MulUnfold(a, b);
      MulBelowStep(a, b, Mul(Half(a), b), Mul(a, b), i, j);
    } else {
      BelowZero(Zero, i + j - 1);
    }
  }

  /* `x >> n` */
  function ShiftRight(x: Poly, n: nat): Poly
    decreases n
  {
    if n == 0 then x else ShiftRight(Half(x), n - 1)
  }

  /* `x << n` on 16 bits. */
  function ShiftBy(x: Poly, n: nat): Poly
  {
    if n == 0 then x else Shift(ShiftBy(x, n - 1))
  }

  function Pow2(n: nat): nat
  {
    if n == 0 then 1 else 2 * Pow2(n - 1)
  }

  /* `x >> n` is zero exactly when x has no coefficient from n on. */
  lemma {:induction false} ShiftRightZero(x: Poly, n: nat)
    ensures ShiftRight(x, n) == Zero <==> Below(x, n)
    decreases n
  {
    BelowZero(x, n);
    if n > 0 {
      ShiftRightZero(Half(x), n - 1);
      BelowHalf(x, n);
    }
  }

  lemma {:induction false} ValueHalf(a: Poly)
    ensures Value(a) == 2 * Value(Half(a)) + (if a.lo.c0 then 1 else 0)
  {
    C.ValueShiftDown(a.lo, a.hi.c0);
    C.ValueShiftDown(a.hi, false);
  }

  lemma {:induction false} ValueShift(x: Poly)
    ensures Below(x, 15) ==> Value(Shift(x)) == 2 * Value(x)
  {
    C.ValueShiftUp(x.lo, false);
    C.ValueShiftUp(x.hi, x.lo.c7);
  }

  lemma {:induction false} ValueZero(a: Poly)
    ensures Value(a) == 0 <==> a == Zero
  {
    C.ValueZero(a.lo);
    C.ValueZero(a.hi);
  }

  /* Below(a, n) is the comparison a < 2^n. */
  lemma {:induction false} BelowValue(a: Poly, n: nat)
    ensures Below(a, n) <==> Value(a) < Pow2(n)
    decreases n
  {
    if n == 0 {
      ValueZero(a);
      BelowZero(a, 0);
    } else {
      BelowValue(Half(a), n - 1);
      BelowHalf(a, n);
      ValueHalf(a);
    }
  }

  /* Shifting moves the degree bound. */
  lemma {:induction false} ShiftByBelow(x: Poly, n: int, k: nat)
    ensures Below(x, n) ==> Below(ShiftBy(x, k), n + k)
  {
    if k > 0 {
      ShiftByBelow(x, n, k - 1);
      BelowShift(ShiftBy(x, k - 1), n + k - 1);
    }
  }

  /* `1 << n` is 2^n. */
  lemma {:induction false} ValueShiftByOne(n: nat)
    ensures n <= 15 ==> Value(ShiftBy(One, n)) == Pow2(n)
  {
    if 0 < n <= 15 {
      ValueShiftByOne(n - 1);
      ShiftByBelow(One, 1, n - 1);
      BelowMono(ShiftBy(One, n - 1), n, 15);
      ValueShift(ShiftBy(One, n - 1));
    }
  }

  /* All coefficients below n are zero. */
  predicate Clear(a: Poly, n: int)
  {
    C.Clear(a.lo, n) && C.Clear(a.hi, n - 8)
  }

  lemma {:induction false} BelowFull(x: Poly, n: int)
    ensures n >= 16 ==> Below(x, n)
  {
  }

  lemma {:induction false} ClearShift(x: Poly, n: int)
    ensures Clear(x, n) ==> Clear(Shift(x), n + 1)
  {
  }

  /* A leading coefficient at n moves to n + 1 while it stays inside 16 bits. */
  lemma {:induction false} ShiftExact(x: Poly, n: int)
    ensures !Below(x, n) && Below(x, 15) ==> !Below(Shift(x), n + 1)
  {
  }

  lemma {:induction false} ShiftByExact(x: Poly, n: int, k: nat)
    ensures Below(x, n + 1) && !Below(x, n) && n + k <= 15 ==> !Below(ShiftBy(x, k), n + k)
  {
    if k > 0 {
      ShiftByExact(x, n, k - 1);
      ShiftByBelow(x, n + 1, k - 1);
      BelowMono(ShiftBy(x, k - 1), n + k, 15);
      ShiftExact(ShiftBy(x, k - 1), n + k - 1);
    }
  }

  lemma {:induction false} ShiftByClear(x: Poly, n: int, k: nat)
    ensures Clear(x, n) ==> Clear(ShiftBy(x, k), n + k)
  {
    if k > 0 {
      ShiftByClear(x, n, k - 1);
      ClearShift(ShiftBy(x, k - 1), n + k - 1);
    }
  }

  lemma {:induction false} ShiftByLinear(x: Poly, y: Poly, k: nat)
    ensures ShiftBy(Add(x, y), k) == Add(ShiftBy(x, k), ShiftBy(y, k))
  {
    if k > 0 {
      ShiftByLinear(x, y, k - 1);
      ShiftLinear(ShiftBy(x, k - 1), ShiftBy(y, k - 1));
    }
  }

  lemma {:induction false} ShiftByZero(k: nat)
    ensures ShiftBy(Zero, k) == Zero
  {
    if k > 0 {
      ShiftByZero(k - 1);
    }
  }

  /* `b << k` is the product x^k * b. */
  lemma {:induction false} ShiftByMul(b: Poly, k: nat)
    ensures ShiftBy(b, k) == Mul(ShiftBy(One, k), b)
  {
    if k == 0 {
      MulComm(One, b);
      MulOneRight(b);
    } else {
      ShiftByMul(b, k - 1);
      MulShiftLeft(ShiftBy(One, k - 1), b);
    }
  }

  lemma {:induction false} AddZero(x: Poly)
    ensures Add(x, Zero) == x && Add(Zero, x) == x && Add(x, x) == Zero
  {
    C.XorZero(x.lo);
    C.XorZero(x.hi);
    C.Ext(C.Xor(x.lo, x.lo), C.Zero);
    C.Ext(C.Xor(x.hi, x.hi), C.Zero);
  }

  lemma {:induction false} AddAssoc(x: Poly, y: Poly, z: Poly)
    ensures Add(Add(x, y), z) == Add(x, Add(y, z))
  {
    C.XorAssoc(x.lo, y.lo, z.lo);
    C.XorAssoc(x.hi, y.hi, z.hi);
  }

  lemma {:induction false} AddComm(x: Poly, y: Poly)
    ensures Add(x, y) == Add(y, x)
  {
    C.XorComm(x.lo, y.lo);
    C.XorComm(x.hi, y.hi);
  }

  lemma {:induction false} ShiftRightHalf(x: Poly, n: nat)
    ensures ShiftRight(x, n + 1) == Half(ShiftRight(x, n))
    decreases n
  {
    if n > 0 {
      ShiftRightHalf(Half(x), n - 1);
    }
  }

  lemma {:induction false} ShiftByShift(x: Poly, k: nat)
    ensures ShiftBy(Shift(x), k) == ShiftBy(x, k + 1)
  {
    if k > 0 {
      ShiftByShift(x, k - 1);
    }
  }
}
