/**
 Reduction of a 16-bit polynomial modulo the AES polynomial m(x): the residue
 of lo + x^8 * hi is lo + x^8 * hi computed in the field, where multiplying by
 x^8 is eight applications of xtime. `Mod` is the reference against which the
 source's reduction loop is proved; its key property is that it turns the
 carry-less product of two bytes into the field product (`ModMul`).
 */
module Residue {
  import C = Coefficients
  import opened Field
  import P = Polynomial

  /* m(x) = x^8 + x^4 + x^3 + x + 1 as a 16-bit value, 0x11B. */
  const Modulus := P.Poly(C.Octet(true, true, false, true, true, false, false, false), C.One)

  /* x^8 mod m(x) = x^4 + x^3 + x + 1, 0x1B. */
  const M8 := C.Octet(true, true, false, true, true, false, false, false)

  /* x^8 * h in the field. */
  function Xt8(h: Elem): Elem
  {
    Xt(Xt(Xt(Xt(Xt(Xt(Xt(Xt(h))))))))
  }

  function Mod(a: P.Poly): (r: Elem)
  {
    Add(a.lo, Xt8(a.hi))
  }

  lemma {:induction false} Xt8Linear(x: Elem, y: Elem)
    ensures Xt8(Add(x, y)) == Add(Xt8(x), Xt8(y))
  {
    XtLinear(x, y);
    XtLinear(Xt(x), Xt(y));
    XtLinear(Xt(Xt(x)), Xt(Xt(y)));
    XtLinear(Xt(Xt(Xt(x))), Xt(Xt(Xt(y))));
    XtLinear(Xt(Xt(Xt(Xt(x)))), Xt(Xt(Xt(Xt(y)))));
    XtLinear(Xt(Xt(Xt(Xt(Xt(x))))), Xt(Xt(Xt(Xt(Xt(y))))));
    XtLinear(Xt(Xt(Xt(Xt(Xt(Xt(x)))))), Xt(Xt(Xt(Xt(Xt(Xt(y)))))));
    XtLinear(Xt(Xt(Xt(Xt(Xt(Xt(Xt(x))))))), Xt(Xt(Xt(Xt(Xt(Xt(Xt(y))))))));
  }

  lemma {:induction false} Xt8Basics()
    ensures Xt8(C.One) == M8 && Xt8(C.Zero) == C.Zero
  {
  }

  /* Mod is linear. */
  lemma {:induction false} ModLinear(x: P.Poly, y: P.Poly)
    ensures Mod(P.Add(x, y)) == Add(Mod(x), Mod(y))
  {
    Xt8Linear(x.hi, y.hi);
    C.XorRegroup(x.lo, y.lo, Xt8(x.hi), Xt8(y.hi));
  }

  /* A byte is its own residue. */
  lemma {:induction false} ModWiden(e: Elem)
    ensures Mod(P.Widen(e)) == e
  {
    Xt8Basics();
  }

  /* xtime as a shift plus a conditional m(x) - x^8. */
  lemma {:induction false} XtSplit(x: Elem)
    ensures Xt(x) == Add(C.ShiftUp(x, false), if x.c7 then M8 else C.Zero)
  {
  }

  /* Shifting a polynomial whose top coefficient is clear multiplies its residue by x. */
  lemma {:induction false} ModShift(a: P.Poly)
    ensures !a.hi.c7 ==> Mod(P.Shift(a)) == Xt(Mod(a))
  {
    if !a.hi.c7 {
      var lo, hi := a.lo, a.hi;
      var t := if lo.c7 then M8 else C.Zero;
      var sl, sh := C.ShiftUp(lo, false), C.ShiftUp(hi, false);
      calc {
        Mod(P.Shift(a));
        Add(sl, Xt8(C.ShiftUp(hi, lo.c7)));
        { C.ShiftUpSplit(hi, lo.c7); }
        Add(sl, Xt8(Add(sh, if lo.c7 then C.One else C.Zero)));
        { Xt8Linear(sh, if lo.c7 then C.One else C.Zero); Xt8Basics(); }
        Add(sl, Add(Xt8(sh), t));
        { C.XorSwap(sl, Xt8(sh), t); }
        Add(Add(sl, t), Xt8(sh));
        { XtSplit(lo); XtSplit(hi); C.XorZero(sh); }
        Add(Xt(lo), Xt8(Xt(hi)));
        { XtLinear(lo, Xt8(hi)); }
        Xt(Mod(a));
      }
    }
  }

  lemma {:induction false} WidenHalf(a: Elem)
    ensures P.Half(P.Widen(a)) == P.Widen(Half(a)) && (P.Widen(a) == P.Zero <==> a == C.Zero)
    ensures P.Below(P.Widen(a), 8) && P.Below(P.Widen(Half(a)), 7)
  {
  }

  lemma {:induction false} ModPick(a: Elem, b: Elem)
    ensures Mod(P.Pick(P.Widen(a), P.Widen(b))) == Pick(a, b)
  {
    ModWiden(b);
    ModWiden(C.Zero);
  }

  lemma {:induction false} ModMulStep(a: Elem, b: Elem, h: P.Poly, m: P.Poly)
    ensures (m == P.Add(P.Pick(P.Widen(a), P.Widen(b)), P.Shift(h)) && P.Below(h, 14)
             && Mod(h) == Mul(Half(a), b)) ==> Mod(m) == Mul(a, b)
  {
    ModLinear(P.Pick(P.Widen(a), P.Widen(b)), P.Shift(h));
    ModShift(h);
    ModPick(a, b);
    MulUnfold(a, b);
  }

  /* One halving step of `ModMul`: the claim for `Half(a)` gives it for `a`. */
  lemma {:induction false} ModMulInduct(a: Elem, b: Elem)
    requires Mod(P.Mul(P.Widen(Half(a)), P.Widen(b))) == Mul(Half(a), b)
    ensures Mod(P.Mul(P.Widen(a), P.Widen(b))) == Mul(a, b)
  {
    WidenHalf(a);
    WidenHalf(b);
    P.MulBelow(P.Widen(Half(a)), P.Widen(b), 7, 8);
    P.MulUnfold(P.Widen(a), P.Widen(b));
    ModMulStep(a, b, P.Mul(P.Widen(Half(a)), P.Widen(b)), P.Mul(P.Widen(a), P.Widen(b)));
  }

  /* The residue of the carry-less product of two bytes is their field product. */
  lemma {:induction false} ModMul(a: Elem, b: Elem)
    ensures Mod(P.Mul(P.Widen(a), P.Widen(b))) == Mul(a, b)
    decreases C.Value(a)
  {
    HalfSmaller(a);
    if a != C.Zero {
      ModMul(Half(a), b);
      ModMulInduct(a, b);
    } else {
      WidenHalf(a);
      Xt8Basics();
    }
  }

  /* Multiples x^k * m(x) that fit in 16 bits reduce to zero. */
  lemma {:induction false} ModulusVanishes(k: nat)
    ensures k <= 7 ==> Mod(P.ShiftBy(Modulus, k)) == C.Zero
  {
    if k == 0 {
      Xt8Basics();
      C.Ext(Add(M8, M8), C.Zero);
    } else if k <= 7 {
      ModulusVanishes(k - 1);
      P.ShiftByBelow(Modulus, 9, k - 1);
      P.BelowMono(P.ShiftBy(Modulus, k - 1), 8 + k, 15);
      ModShift(P.ShiftBy(Modulus, k - 1));
      C.Ext(Xt(C.Zero), C.Zero);
    }
  }
}
