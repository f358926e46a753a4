/**
 gf_2_8_get_value_inverse of main.cpp: the extended Euclidean algorithm run on
 the AES polynomial and a byte, with gf2_8_division as its step and the Bezout
 coefficients accumulated in the aux array with gf2_8_multiplication.
 */
module Inverse {
  import C = Coefficients
  import F = Field
  import P = Polynomial
  import R = Residue
  import D = Domain
  import G = GaloisField
  import opened Outcomes

  /* A non-zero divisor leaves a remainder with fewer coefficients than itself. */
  lemma {:induction false} RemainderShrinks(x: P.Poly, y: P.Poly)
    ensures y != P.Zero ==>
      G.Division(x, y).Ok? && G.Size(P.Widen(G.Division(x, y).value.lo)) < G.Size(y)
  {
    if y != P.Zero {
      var res := G.DivisionLoop(x, y, C.Zero);
      G.DegreeExact(y);
      G.SizeAbove(y, G.Degree(y));
      G.SizeBelow(P.Widen(res.1.lo), G.Degree(y));
    }
  }

  /* One pass of the loop: gf2_8_division(x, y) split into the quotient
     `(result >> 8) & 0xff` and the remainder `result & 0xff`. */
  function Step(x: P.Poly, y: P.Poly): (s: (C.Octet, P.Poly))
    requires y != P.Zero
    ensures G.Size(s.1) < G.Size(y)
  {
    RemainderShrinks(x, y);
    var d := G.Division(x, y).value;
    (d.hi, P.Widen(d.lo))
  }

  /* The quotients and remainders the loop pushes after the pair (x, y), up to
     and including the first zero remainder. */
  function Euclid(x: P.Poly, y: P.Poly): (e: (seq<C.Octet>, seq<P.Poly>))
    ensures |e.0| == |e.1|
    decreases G.Size(y)
  {
    if y == P.Zero then
      ([], [])
    else
      var s := Step(x, y);
      var rest := Euclid(y, s.1);
      ([s.0] + rest.0, [s.1] + rest.1)
  }

  /* The last non-zero remainder of the chain started at (x, y): the greatest
     common divisor. */
  function Last(x: P.Poly, y: P.Poly): P.Poly
    decreases G.Size(y)
  {
    if y == P.Zero then x else Last(y, Step(x, y).1)
  }

  /* aux[n] over the quotient list qs: aux[0] = 0, aux[1] = 1 and
     aux[n] = aux[n - 2] ^ gf2_8_multiplication(qs[n - 1], aux[n - 1]). */
  function Aux(qs: seq<C.Octet>, n: nat): C.Octet
    requires n <= |qs|
  {
    if n == 0 then C.Zero
    else if n == 1 then C.One
    else C.Xor(Aux(qs, n - 2), G.Multiplication(qs[n - 1], Aux(qs, n - 1)))
  }

  /* The quotient list of gf_2_8_get_value_inverse: the placeholder 0, then one
     quotient per division. */
  function Quotients(v: C.Octet): seq<C.Octet>
  {
    [C.Zero] + Euclid(G.Irreducible, P.Widen(v)).0
  }

  /* gf_2_8_get_value_inverse(value, AES_IRREDUCIBLE_POLYNOMIAL): the first
     division exits with status 1 for value 0; otherwise the result is
     aux[quotients.size() - 1]. */
  function ValueInverse(v: C.Octet): (r: Outcome<C.Octet>)
    ensures r.Exit? <==> v == C.Zero
    ensures r.Exit? ==> r.code == 1
  {
    var first := G.Division(G.Irreducible, P.Widen(v));
    if first.Exit? then
      Exit(first.code)
    else
      var qs := Quotients(v);
      Ok(Aux(qs, |qs| - 1))
  }

  /* The shape every pair (remainders[n - 1], remainders[n]) of the loop has:
     y is a byte, has no more coefficients than x, and the quotient of x by y
     fits in the uint8_t the program keeps it in. */
  predicate Chained(x: P.Poly, y: P.Poly)
  {
    P.Below(y, 8) && G.Size(y) <= G.Size(x) && G.Size(x) <= G.Degree(y) + 8
  }

  /* Each step is an exact division: x = q * y + r. */
  lemma {:induction false} StepExact(x: P.Poly, y: P.Poly)
    ensures Chained(x, y) && y != P.Zero ==>
      x == P.Add(Step(x, y).1, P.Mul(P.Widen(Step(x, y).0), y))
  {
    if Chained(x, y) && y != P.Zero {
      G.RemainderByte(y, 8);
      G.DivisionSpec(x, y.lo);
    }
  }

  /* The remainder has lower degree than y, the quotient is below
     x^(Size(x) - deg y), and the next pair is again chained. */
  lemma {:induction false} StepBounds(x: P.Poly, y: P.Poly)
    ensures Chained(x, y) && y != P.Zero ==>
      var s := Step(x, y);
      && P.Below(s.1, G.Degree(y))
      && C.Below(s.0, G.Size(x) - G.Degree(y))
      && Chained(y, s.1)
  {
    if Chained(x, y) && y != P.Zero {
      G.RemainderByte(y, 8);
      G.DivisionSpec(x, y.lo);
      G.ByteDegree(y.lo);
      var s := Step(x, y);
      P.BelowMono(s.1, G.Degree(y), 8);
      G.SizeBelow(y, 8);
    }
  }

  /* Residues follow the Bezout coefficients: if x and y are a0 * v and a1 * v
     modulo m(x), the remainder r = x - q * y is (a0 - q * a1) * v. */
  lemma {:induction false} ModStep(x: P.Poly, y: P.Poly, q: C.Octet, r: P.Poly, a0: C.Octet, a1: C.Octet, v: C.Octet)
    ensures x == P.Add(r, P.Mul(P.Widen(q), y)) && y == P.Widen(y.lo)
            && R.Mod(x) == F.Mul(a0, v) && R.Mod(y) == F.Mul(a1, v) ==>
      R.Mod(r) == F.Mul(C.Xor(a0, F.Mul(q, a1)), v)
  {
    R.ModLinear(r, P.Mul(P.Widen(q), P.Widen(y.lo)));
    R.ModMul(q, y.lo);
    R.ModWiden(y.lo);
    F.MulAssoc(q, a1, v);
    F.MulLinearLeft(a0, F.Mul(q, a1), v);
    C.XorCancel(R.Mod(r), F.Mul(q, y.lo));
  }

  /* The Bezout coefficient of the last non-zero remainder, carried forward
     from the coefficients a0 of x and a1 of y. */
  ghost function Forward(x: P.Poly, y: P.Poly, a0: C.Octet, a1: C.Octet): C.Octet
    decreases G.Size(y)
  {
    if y == P.Zero then a0
    else var s := Step(x, y); Forward(y, s.1, a1, C.Xor(a0, F.Mul(s.0, a1)))
  }

  /* The forward half of the extended algorithm: if x = a0 * v and y = a1 * v
     modulo m(x), the last non-zero remainder is Forward(x, y, a0, a1) * v. */
  lemma {:induction false} ModChain(x: P.Poly, y: P.Poly, v: C.Octet, a0: C.Octet, a1: C.Octet)
    requires Chained(x, y) && R.Mod(x) == F.Mul(a0, v) && R.Mod(y) == F.Mul(a1, v)
    ensures R.Mod(Last(x, y)) == F.Mul(Forward(x, y, a0, a1), v)
    decreases G.Size(y)
  {
    if y != P.Zero {
      var s := Step(x, y);
      StepExact(x, y);
      StepBounds(x, y);
      G.RemainderByte(y, 8);
      ModStep(x, y, s.0, s.1, a0, a1, v);
      ModChain(y, s.1, v, a1, C.Xor(a0, F.Mul(s.0, a1)));
    }
  }

  /* Peeling one quotient off the list still to come. */
  lemma {:induction false} EuclidSlice(x: P.Poly, y: P.Poly, qs: seq<C.Octet>, i: nat)
    ensures i < |qs| && qs[i + 1..] == Euclid(x, y).0 && y != P.Zero ==>
      i + 1 < |qs| && qs[i + 1] == Step(x, y).0 && qs[i + 2..] == Euclid(y, Step(x, y).1).0
  {
    if i < |qs| && qs[i + 1..] == Euclid(x, y).0 && y != P.Zero {
      var s := Step(x, y);
      var rest := Euclid(y, s.1);
      assert qs[i + 1..] == [s.0] + rest.0;
      assert qs[i + 1] == qs[i + 1..][0];
      assert qs[i + 2..] == qs[i + 1..][1..];
    }
  }

  /* The recurrence of aux, read in the field, with its two previous entries
     named. */
  lemma {:induction false} AuxNext(qs: seq<C.Octet>, i: nat, a0: C.Octet, a1: C.Octet)
    ensures i + 2 <= |qs| && a0 == Aux(qs, i) && a1 == Aux(qs, i + 1) ==>
      C.Xor(a0, F.Mul(qs[i + 1], a1)) == Aux(qs, i + 2)
  {
  }

  /* A zero remainder ends the quotient list. */
  lemma {:induction false} EuclidEnd(x: P.Poly, y: P.Poly, qs: seq<C.Octet>, i: nat, k: nat)
    ensures i < |qs| == k + 1 && qs[i + 1..] == Euclid(x, y).0 && y == P.Zero ==> i == k
  {
  }

  /* One step of Forward moves one place along the aux array. */
  lemma {:induction false} ForwardNext(x: P.Poly, y: P.Poly, qs: seq<C.Octet>, i: nat)
    ensures i < |qs| && qs[i + 1..] == Euclid(x, y).0 && y != P.Zero ==>
      i + 2 <= |qs| && qs[i + 2..] == Euclid(y, Step(x, y).1).0
      && Forward(x, y, Aux(qs, i), Aux(qs, i + 1)) == Forward(y, Step(x, y).1, Aux(qs, i + 1), Aux(qs, i + 2))
  {
    if i < |qs| && qs[i + 1..] == Euclid(x, y).0 && y != P.Zero {
      EuclidSlice(x, y, qs, i);
      AuxNext(qs, i, Aux(qs, i), Aux(qs, i + 1));
    }
  }

  /* Forward computes the aux array: started at aux[i], aux[i + 1] with
     qs[i + 1..] the quotients still to come, it ends at aux[k], k = |qs| - 1. */
  lemma {:induction false} ForwardAux(x: P.Poly, y: P.Poly, qs: seq<C.Octet>, i: nat, k: nat)
    requires i < |qs| == k + 1 && qs[i + 1..] == Euclid(x, y).0
    ensures Forward(x, y, Aux(qs, i), Aux(qs, i + 1)) == Aux(qs, k)
    decreases G.Size(y)
  {
    if y != P.Zero {
      ForwardNext(x, y, qs, i);
      ForwardAux(y, Step(x, y).1, qs, i + 1, k);
    } else {
      EuclidEnd(x, y, qs, i, k);
    }
  }

  /* A non-zero polynomial has exactly Degree + 1 coefficients. */
  lemma {:induction false} SizeDegree(x: P.Poly)
    ensures x != P.Zero ==> G.Size(x) == G.Degree(x) + 1
  {
    if x != P.Zero {
      G.DegreeExact(x);
      G.SizeBelow(x, G.Degree(x) + 1);
      G.SizeAbove(x, G.Degree(x));
    }
  }

  /* One step back: x = q * y + r with y = cy * g and r = cr * g gives
     x = (q * cy + cr) * g. */
  lemma {:induction false} CofactorStep(x: P.Poly, y: P.Poly, q: P.Poly, r: P.Poly, g: P.Poly, cy: P.Poly, cr: P.Poly)
    requires x == P.Add(r, P.Mul(q, y)) && y == P.Mul(cy, g) && r == P.Mul(cr, g)
    ensures x == P.Mul(P.Add(P.Mul(q, cy), cr), g)
  {
    P.MulAssoc(q, cy, g);
    P.MulLinearLeft(P.Mul(q, cy), cr, g);
    P.AddComm(r, P.Mul(q, y));
  }

  /* Degree bookkeeping for one step back: with q below x^i, cy below x^j and
     cr below x^m, m = i + j - 1, the sum q * cy + cr stays below x^m. */
  lemma {:induction false} BoundStep(q: C.Octet, cy: P.Poly, cr: P.Poly, i: int, j: int, m: int)
    requires C.Below(q, i) && P.Below(cy, j) && P.Below(cr, m) && m == i + j - 1
    ensures P.Below(P.Add(P.Mul(P.Widen(q), cy), cr), m)
  {
    P.MulBelow(P.Widen(q), cy, i, j);
    P.BelowAdd(P.Mul(P.Widen(q), cy), cr, m);
  }

  /* Size(c) <= n says that c is below x^n. */
  lemma {:induction false} SizeIsBelow(c: P.Poly, n: int)
    ensures G.Size(c) <= n ==> P.Below(c, n)
  {
    G.SizeFromBounds(c, 0);
    P.BelowMono(c, G.Size(c), n);
  }

  /* The cofactor q * cy + cr of x, one step back from the cofactors cy of y
     and cr of r. */
  ghost function Combine(q: C.Octet, cy: P.Poly, cr: P.Poly): P.Poly
  {
    P.Add(P.Mul(P.Widen(q), cy), cr)
  }

  /* Its size: q below x^i and Size(cy) <= j put Combine below
     x^(i + j - 1) whenever cr is. */
  lemma {:induction false} CombineSize(q: C.Octet, cy: P.Poly, cr: P.Poly, i: int, j: int, m: nat)
    requires C.Below(q, i) && G.Size(cy) <= j && G.Size(cr) <= m == i + j - 1
    ensures G.Size(Combine(q, cy, cr)) <= m
  {
    SizeIsBelow(cy, j);
    SizeIsBelow(cr, m);
    BoundStep(q, cy, cr, i, j, m);
    G.SizeBelow(Combine(q, cy, cr), m);
  }

  /* At the end of the chain x is one times itself. */
  lemma {:induction false} SizeBase(x: P.Poly)
    ensures x != P.Zero ==> G.Size(P.One) + G.Degree(x) <= G.Size(x) && G.Degree(x) < G.Size(x)
  {
    SizeDegree(x);
    G.SizeBelow(P.One, 1);
  }

  /* The backward half: the last non-zero remainder g of the chain with the
     cofactors of x and y over it, each of the degree the chain allows
     (CofactorChain shows x = cx * g and y = cy * g). */
  ghost function Cofactors(x: P.Poly, y: P.Poly): (c: (P.Poly, P.Poly, P.Poly))
    requires Chained(x, y) && x != P.Zero
    ensures c.2 == Last(x, y) && c.2 != P.Zero && G.Degree(c.2) < G.Size(x)
    ensures G.Size(c.0) + G.Degree(c.2) <= G.Size(x)
    ensures c.1 == P.Zero || G.Size(c.1) + G.Degree(c.2) <= G.Size(y)
    decreases G.Size(y)
  {
    if y == P.Zero then
      SizeBase(x);
      (P.One, P.Zero, x)
    else
      var s := Step(x, y);
      StepBounds(x, y);
      var rest := Cofactors(y, s.1);
      var dg := G.Degree(rest.2);
      SizeDegree(y);
      G.SizeBelow(P.Zero, 0);
      CombineSize(s.0, rest.0, rest.1, G.Size(x) - G.Degree(y), G.Size(y) - dg, G.Size(x) - dg);
      (Combine(s.0, rest.0, rest.1), rest.0, rest.2)
  }

  /* The last non-zero remainder divides both ends of the chain. */
  lemma {:induction false} CofactorChain(x: P.Poly, y: P.Poly)
    requires Chained(x, y) && x != P.Zero
    ensures x == P.Mul(Cofactors(x, y).0, Cofactors(x, y).2)
    ensures y == P.Mul(Cofactors(x, y).1, Cofactors(x, y).2)
    decreases G.Size(y)
  {
    if y != P.Zero {
      var s := Step(x, y);
      StepExact(x, y);
      StepBounds(x, y);
      CofactorChain(y, s.1);
      var c := Cofactors(y, s.1);
      SizeDegree(y);
      CofactorStep(x, y, P.Widen(s.0), s.1, c.2, c.0, c.1);
    } else {
      P.MulComm(P.One, x);
      P.MulOneRight(x);
    }
  }

  /* m(x) is irreducible: it is not the product of two polynomials of degree
     below 8. */
  lemma {:induction false} NoByteFactors(c: P.Poly, g: P.Poly)
    ensures P.Below(c, 8) && P.Below(g, 8) ==> P.Mul(c, g) != G.Irreducible
  {
    if P.Below(c, 8) && P.Below(g, 8) && P.Mul(c, g) == G.Irreducible {
      G.RemainderByte(c, 8);
      G.RemainderByte(g, 8);
      R.ModMul(c.lo, g.lo);
      R.ModulusVanishes(0);
      D.NoZeroDivisors(c.lo, g.lo);
      P.MulComm(c, g);
      P.MulZeroRight(c);
      assert false;
    }
  }

  /* The chain started at (m(x), v) for a byte v other than 0 and 1 is
     chained, and m(x) has nine coefficients. */
  lemma {:induction false} StartChained(v: C.Octet)
    ensures v != C.Zero && v != C.One ==>
      Chained(G.Irreducible, P.Widen(v)) && G.Size(G.Irreducible) == 9 && P.Widen(v) != P.Zero
  {
    G.SizeBelow(G.Irreducible, 9);
    G.SizeAbove(G.Irreducible, 8);
    G.SizeBelow(P.Widen(v), 8);
    if v != C.Zero && v != C.One {
      G.DegreeExact(P.Widen(v));
      if G.Degree(P.Widen(v)) == 0 {
        C.Ext(v, C.One);
      }
    }
  }

  /* A divisor g of m(x) whose cofactor c0 fits the degree bound Size(c0) +
     deg g <= 9, and which leaves room for a non-zero cofactor c1 of a byte,
     has degree 0. */
  lemma {:induction false} FactorDegree(c0: P.Poly, c1: P.Poly, g: P.Poly)
    ensures (P.Mul(c0, g) == G.Irreducible && g != P.Zero && c1 != P.Zero
             && G.Size(c1) + G.Degree(g) <= 8 && G.Size(c0) + G.Degree(g) <= 9) ==> G.Degree(g) == 0
  {
    if g != P.Zero {
      G.DegreeExact(g);
      G.SizeAbove(c1, 0);
      P.BelowMono(g, G.Degree(g) + 1, 8);
      SizeIsBelow(c0, 9 - G.Degree(g));
      P.BelowMono(c0, 9 - G.Degree(g), 8);
      NoByteFactors(c0, g);
    }
  }

  /* The only non-zero polynomial of degree 0 is 1. */
  lemma {:induction false} DegreeZero(g: P.Poly)
    ensures g != P.Zero && G.Degree(g) == 0 ==> g == P.One
  {
    if g != P.Zero && G.Degree(g) == 0 {
      G.DegreeExact(g);
      G.RemainderByte(g, 1);
      C.Ext(g.lo, C.One);
    }
  }

  /* The last non-zero remainder of the chain from (m(x), v) is 1: m(x) and v
     are coprime. */
  lemma {:induction false} CoprimeStart(v: C.Octet)
    ensures v != C.Zero && v != C.One ==> Last(G.Irreducible, P.Widen(v)) == P.One
  {
    if v != C.Zero && v != C.One {
      var x := G.Irreducible;
      var y := P.Widen(v);
      StartChained(v);
      var c := Cofactors(x, y);
      CofactorChain(x, y);
      G.SizeBelow(y, 8);
      P.MulComm(P.Zero, c.2);
      P.MulZeroRight(c.2);
      FactorDegree(c.0, c.1, c.2);
      DegreeZero(c.2);
    }
  }

  /* A polynomial with no coefficients is zero. */
  lemma {:induction false} SizeZero(x: P.Poly)
    ensures G.Size(x) == 0 ==> x == P.Zero
  {
    G.SizeFromBounds(x, 0);
    P.BelowZero(x, 0);
  }

  /* For value 1 the first division leaves remainder 0, the loop does not run
     and the result is aux[1] = 1. */
  lemma {:induction false} InverseOfOne()
    ensures ValueInverse(C.One) == Ok(C.One)
  {
    var y := P.Widen(C.One);
    var s := Step(G.Irreducible, y);
    G.SizeBelow(y, 1);
    SizeZero(s.1);
    assert Euclid(G.Irreducible, y).0 == [s.0];
  }

  /* The forward half from the start (m(x), v): m(x) = 0 * v and v = 1 * v. */
  lemma {:induction false} ModStart(v: C.Octet)
    requires v != C.Zero && v != C.One
    ensures R.Mod(Last(G.Irreducible, P.Widen(v))) == F.Mul(Forward(G.Irreducible, P.Widen(v), C.Zero, C.One), v)
  {
    StartChained(v);
    R.ModulusVanishes(0);
    R.ModWiden(v);
    F.MulComm(C.One, v);
    F.MulOneRight(v);
    ModChain(G.Irreducible, P.Widen(v), v, C.Zero, C.One);
  }

  /* ... and Forward from aux[0] = 0, aux[1] = 1 is the returned aux entry. */
  lemma {:induction false} ForwardStart(v: C.Octet)
    ensures Forward(G.Irreducible, P.Widen(v), C.Zero, C.One) == Aux(Quotients(v), |Quotients(v)| - 1)
  {
    var qs := Quotients(v);
    assert qs[1..] == Euclid(G.Irreducible, P.Widen(v)).0;
    ForwardAux(G.Irreducible, P.Widen(v), qs, 0, |qs| - 1);
  }

  /* For every byte other than 0 and 1 the returned aux entry is the inverse. */
  lemma {:induction false} InverseGeneral(v: C.Octet)
    requires v != C.Zero && v != C.One
    ensures F.Mul(v, Aux(Quotients(v), |Quotients(v)| - 1)) == C.One
  {
    ModStart(v);
    ForwardStart(v);
    CoprimeStart(v);
    R.ModWiden(C.One);
    F.MulComm(Aux(Quotients(v), |Quotients(v)| - 1), v);
  }

  /* gf_2_8_get_value_inverse returns the multiplicative inverse of every
     non-zero byte, and exits with status 1 for 0. */
  lemma {:induction false} InverseCorrect(v: C.Octet)
    ensures v == C.Zero ==> ValueInverse(v) == Exit(1)
    ensures v != C.Zero ==> ValueInverse(v).Ok? && F.Mul(v, ValueInverse(v).value) == C.One
  {
    if v == C.One {
      InverseOfOne();
      F.MulOneRight(C.One);
    } else if v != C.Zero {
      InverseGeneral(v);
    }
  }
}
