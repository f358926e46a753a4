/**
 The GF(2^8) routines of main.cpp (reduction, multiplication, long division and
 the extended Euclidean inverse) on the integer widths the program uses: a
 uint16_t is a Polynomial.Poly, a uint8_t a Coefficients.Octet. Shifts and
 comparisons are written as the program writes them; each routine is tied to
 the algebraic reference of Field and Residue.
 */
module GaloisField {
  import C = Coefficients
  import F = Field
  import P = Polynomial
  import R = Residue
  import opened Outcomes

  /* AES_IRREDUCIBLE_POLYNOMIAL, 0b100011011. */
  const Irreducible: P.Poly := R.Modulus

  /* `1 << d` */
  function Lead(d: nat): P.Poly
  {
    P.ShiftBy(P.One, d)
  }

  /* The degree loop `for (; x >> (d + 1); d++)` entered at d: it stops at the
     first d from which x has no higher coefficient, which is the degree of x
     whenever that is above the starting point. */
  function DegreeFrom(x: P.Poly, d: nat): (r: nat)
    ensures d <= r
    decreases 16 - d
  {
    P.ShiftRightZero(x, d + 1);
    P.BelowFull(x, d + 1);
    if P.ShiftRight(x, d + 1) == P.Zero then d else DegreeFrom(x, d + 1)
  }

  /* The loop stops at the first d from which x has no higher coefficient:
     that is the degree of x whenever it is above the starting point. */
  lemma {:induction false} DegreeBounds(x: P.Poly, d: nat)
    ensures var r := DegreeFrom(x, d);
      P.Below(x, r + 1) && (d < r ==> !P.Below(x, r)) && (d <= 15 ==> r <= 15)
    decreases 16 - d
  {
    P.ShiftRightZero(x, d + 1);
    P.BelowFull(x, d + 1);
    if P.ShiftRight(x, d + 1) != P.Zero {
      DegreeBounds(x, d + 1);
    }
  }

  /* `for (; x >> (d + 1); d++)` with d starting at 0, the degree loop of
     gf2_8_division. */
  function Degree(x: P.Poly): nat
  {
    DegreeFrom(x, 0)
  }

  /* `for (; x >> (++d + 1););` with d starting at 0, the degree loop of
     gf2_8_reduce_product: its first test is at d = 1. */
  function ReduceDegree(x: P.Poly): nat
  {
    DegreeFrom(x, 1)
  }

  /* A comparison with `1 << d` is a degree test. */
  lemma {:induction false} LeadCompare(x: P.Poly, d: nat)
    ensures d <= 15 ==> (P.Value(x) >= P.Value(Lead(d)) <==> !P.Below(x, d))
  {
    P.ValueShiftByOne(d);
    P.BelowValue(x, d);
  }

  /* The number of coefficients up to and including the leading one: the
     least n >= start with x below x^n. The loops below terminate because each
     pass shrinks it. */
  function SizeFrom(x: P.Poly, start: nat): nat
    decreases 16 - start
  {
    if 16 <= start || P.Below(x, start) then start else SizeFrom(x, start + 1)
  }

  function Size(x: P.Poly): nat
  {
    SizeFrom(x, 0)
  }

  lemma {:induction false} SizeFromBounds(x: P.Poly, start: nat)
    ensures var r := SizeFrom(x, start); start <= r && P.Below(x, r) && (start < r ==> !P.Below(x, r - 1))
    decreases 16 - start
  {
    P.BelowFull(x, start);
    if !(16 <= start || P.Below(x, start)) {
      SizeFromBounds(x, start + 1);
    }
  }

  lemma {:induction false} SizeBelow(x: P.Poly, n: nat)
    ensures P.Below(x, n) ==> Size(x) <= n
  {
    SizeFromBounds(x, 0);
    P.BelowMono(x, n, Size(x) - 1);
  }

  lemma {:induction false} SizeAbove(x: P.Poly, n: nat)
    ensures !P.Below(x, n) ==> n < Size(x)
  {
    SizeFromBounds(x, 0);
    P.BelowMono(x, Size(x), n);
  }

  /* The pre-increment loop `for (; copy >> (++d + 1););` of the reduction finds
     degree 8 for the AES polynomial. */
  lemma {:induction false} PolynomialDegree()
    ensures ReduceDegree(Irreducible) == 8
  {
    var r := ReduceDegree(Irreducible);
    DegreeBounds(Irreducible, 1);
    P.BelowMono(Irreducible, r + 1, 8);
    P.BelowMono(Irreducible, 9, r);
  }

  /* The degree found by the reduction's loop for a value of at least 2^8. */
  lemma {:induction false} ReduceDegreeBounds(value: P.Poly)
    ensures !P.Below(value, 8) ==>
      var od := ReduceDegree(value); 8 <= od <= 15 && !P.Below(value, od) && P.Below(value, od + 1)
  {
    var od := ReduceDegree(value);
    DegreeBounds(value, 1);
    P.BelowMono(value, od + 1, 8);
    P.BelowFull(value, od);
  }

  /* One pass of the reduction loop: xor-ing m(x) aligned under the leading
     coefficient od (k = od - 8) clears that coefficient ... */
  lemma {:induction false} ReduceClears(value: P.Poly, od: nat, k: nat)
    ensures k + 8 == od <= 15 && !P.Below(value, od) && P.Below(value, od + 1) ==>
      P.Below(P.Add(value, P.ShiftBy(Irreducible, k)), od)
  {
    P.ShiftByBelow(Irreducible, 9, k);
    P.ShiftByExact(Irreducible, 8, k);
    P.TopCancel(value, P.ShiftBy(Irreducible, k), od);
  }

  /* ... and keeps the residue. */
  lemma {:induction false} ReduceKeepsResidue(value: P.Poly, k: nat)
    ensures k <= 7 ==> R.Mod(P.Add(value, P.ShiftBy(Irreducible, k))) == R.Mod(value)
  {
    R.ModLinear(value, P.ShiftBy(Irreducible, k));
    R.ModulusVanishes(k);
    C.XorZero(R.Mod(value));
  }

  /* So a pass shrinks the value ... */
  lemma {:induction false} ReduceClearsAt(value: P.Poly, od: nat, k: nat)
    ensures !P.Below(value, 8) && od == ReduceDegree(value) && k + 8 == od ==>
      P.Below(P.Add(value, P.ShiftBy(Irreducible, k)), od) && !P.Below(value, od)
  {
    ReduceDegreeBounds(value);
    ReduceClears(value, od, k);
  }

  lemma {:induction false} ReduceShrinks(value: P.Poly, od: nat, k: nat)
    ensures !P.Below(value, 8) && od == ReduceDegree(value) && k + 8 == od ==>
      Size(P.Add(value, P.ShiftBy(Irreducible, k))) < Size(value)
  {
    ReduceClearsAt(value, od, k);
    SizeBelow(P.Add(value, P.ShiftBy(Irreducible, k)), od);
    SizeAbove(value, od);
  }

  /* ... and keeps its residue. */
  lemma {:induction false} ReducePass(value: P.Poly, od: nat, k: nat)
    ensures !P.Below(value, 8) && od == ReduceDegree(value) && k + 8 == od ==>
      var next := P.Add(value, P.ShiftBy(Irreducible, k));
      Size(next) < Size(value) && R.Mod(next) == R.Mod(value)
  {
    ReduceShrinks(value, od, k);
    ReduceDegreeBounds(value);
    ReduceKeepsResidue(value, k);
  }

  /* The while loop of gf2_8_reduce_product for the AES polynomial; the test
     `value >= polynomial_leading_coefficient` is a degree test (LeadCompare). */
  function ReduceLoop(value: P.Poly): (r: P.Poly)
    ensures R.Mod(r) == R.Mod(value) && P.Below(r, 8)
    decreases Size(value)
  {
    PolynomialDegree();
    var pd := ReduceDegree(Irreducible);
    if !P.Below(value, pd) then
      var od := ReduceDegree(value);
      ReduceDegreeBounds(value);
      var k := od - pd;
      ReducePass(value, od, k);
      ReduceLoop(P.Add(value, P.ShiftBy(Irreducible, k)))
    else
      value
  }

  /* gf2_8_reduce_product(value, AES_IRREDUCIBLE_POLYNOMIAL): the residue of
     value modulo m(x); the uint8_t return keeps the low byte. */
  function ReduceProduct(value: P.Poly): (r: C.Octet)
    ensures r == R.Mod(value)
  {
    var v := ReduceLoop(value);
    R.Xt8Basics();
    C.XorZero(v.lo);
    v.lo
  }

  /* The loop `for (bit = 0; bit < 8; bit++) if ((a >> bit) & 1) output ^= b_copy << bit;`
     of gf2_8_multiplication, from `bit` on. */
  function ProductLoop(a: C.Octet, b: P.Poly, bit: nat, output: P.Poly): P.Poly
    decreases 8 - bit
  {
    if bit < 8 then
      var next := if P.ShiftRight(P.Widen(a), bit).lo.c0 then P.Add(output, P.ShiftBy(b, bit)) else output;
      ProductLoop(a, b, bit + 1, next)
    else
      output
  }

  lemma {:induction false} ProductStep(a: P.Poly, b: P.Poly, bit: nat, output: P.Poly, next: P.Poly)
    ensures next == (if a.lo.c0 then P.Add(output, P.ShiftBy(b, bit)) else output) ==>
      P.Add(output, P.ShiftBy(P.Mul(a, b), bit)) == P.Add(next, P.ShiftBy(P.Mul(P.Half(a), b), bit + 1))
  {
    var h := P.Mul(P.Half(a), b);
    P.MulUnfold(a, b);
    P.ShiftByLinear(P.Pick(a, b), P.Shift(h), bit);
    P.ShiftByShift(h, bit);
    P.ShiftByZero(bit);
    P.AddZero(output);
    P.AddZero(P.ShiftBy(h, bit + 1));
    P.AddAssoc(output, P.ShiftBy(P.Pick(a, b), bit), P.ShiftBy(h, bit + 1));
  }

  /* What the remaining passes of the loop add: the carry-less product of the
     unprocessed bits of a with b, shifted into place. */
  lemma {:induction false} ProductLoopSum(a: C.Octet, b: P.Poly, bit: nat, output: P.Poly)
    ensures bit <= 8 ==>
      ProductLoop(a, b, bit, output) == P.Add(output, P.ShiftBy(P.Mul(P.ShiftRight(P.Widen(a), bit), b), bit))
    decreases 8 - bit
  {
    var rest := P.ShiftRight(P.Widen(a), bit);
    if bit < 8 {
      var next := if rest.lo.c0 then P.Add(output, P.ShiftBy(b, bit)) else output;
      ProductLoopSum(a, b, bit + 1, next);
      P.ShiftRightHalf(P.Widen(a), bit);
      ProductStep(rest, b, bit, output, next);
    } else if bit == 8 {
      R.WidenHalf(a);
      P.ShiftRightZero(P.Widen(a), 8);
      P.ShiftByZero(8);
      P.AddZero(output);
    }
  }

  /* gf2_8_multiplication(a, b, AES_IRREDUCIBLE_POLYNOMIAL) is the product in GF(2^8). */
  function Multiplication(a: C.Octet, b: C.Octet): (r: C.Octet)
    ensures r == F.Mul(a, b)
  {
    PolynomialDegree();
    var output := ProductLoop(a, P.Widen(b), 0, P.Zero);
    ProductLoopSum(a, P.Widen(b), 0, P.Zero);
    P.AddZero(P.Mul(P.Widen(a), P.Widen(b)));
    R.ModMul(a, b);
    if P.Value(output) < P.Value(Lead(ReduceDegree(Irreducible))) then
      LeadCompare(output, 8);
      R.Xt8Basics();
      C.XorZero(output.lo);
      output.lo
    else
      ReduceProduct(output)
  }

  /* A non-zero value has its exact degree found by the loop started at 0. */
  lemma {:induction false} DegreeExact(x: P.Poly)
    requires x != P.Zero
    ensures var d := Degree(x); !P.Below(x, d) && P.Below(x, d + 1) && d <= 15
  {
    DegreeBounds(x, 0);
    P.BelowZero(x, 0);
  }

  /* In the division loop a has at least the degree of b. */
  lemma {:induction false} DivisionDegree(a: P.Poly, b: P.Poly)
    requires b != P.Zero && !P.Below(a, Degree(b))
    ensures var ad := Degree(a); var bd := Degree(b);
      bd <= ad <= 15 && !P.Below(a, ad) && P.Below(a, ad + 1) && !P.Below(b, bd) && P.Below(b, bd + 1)
  {
    P.BelowZero(a, Degree(b));
    DegreeExact(a);
    DegreeExact(b);
    P.BelowMono(a, Degree(a) + 1, Degree(b));
  }

  /* One pass of the division loop, for a of degree ad and b of degree bd:
     xor-ing b aligned under the leading coefficient of a clears it ... */
  lemma {:induction false} DivisionClears(a: P.Poly, b: P.Poly, ad: nat, bd: nat, diff: nat)
    ensures ad == bd + diff <= 15 && !P.Below(a, ad) && P.Below(a, ad + 1) && !P.Below(b, bd) && P.Below(b, bd + 1) ==>
      P.Below(P.Add(a, P.ShiftBy(b, diff)), ad)
  {
    P.ShiftByBelow(b, bd + 1, diff);
    P.ShiftByExact(b, bd, diff);
    P.TopCancel(a, P.ShiftBy(b, diff), ad);
  }

  /* The same, with the degrees found by the loop. */
  lemma {:induction false} DivisionClearsAt(a: P.Poly, b: P.Poly, ad: nat, bd: nat, diff: nat)
    ensures b != P.Zero && !P.Below(a, bd) && ad == Degree(a) && bd == Degree(b) && ad == bd + diff ==>
      P.Below(P.Add(a, P.ShiftBy(b, diff)), ad) && !P.Below(a, ad) && ad <= 15
  {
    if b != P.Zero && !P.Below(a, bd) && ad == Degree(a) && bd == Degree(b) && ad == bd + diff {
      DivisionDegree(a, b);
      DivisionClears(a, b, ad, bd, diff);
    }
  }

  /* ... so a pass shrinks a. */
  lemma {:induction false} DivisionShrinks(a: P.Poly, b: P.Poly, ad: nat, bd: nat, diff: nat)
    ensures b != P.Zero && !P.Below(a, bd) && ad == Degree(a) && bd == Degree(b) && ad == bd + diff ==>
      Size(P.Add(a, P.ShiftBy(b, diff))) < Size(a)
  {
    DivisionClearsAt(a, b, ad, bd, diff);
    SizeBelow(P.Add(a, P.ShiftBy(b, diff)), ad);
    SizeAbove(a, ad);
  }

  /* The degree difference is not negative inside the loop. */
  lemma {:induction false} DivisionOrder(a: P.Poly, b: P.Poly)
    ensures b != P.Zero && !P.Below(a, Degree(b)) ==> Degree(b) <= Degree(a)
  {
    if b != P.Zero && !P.Below(a, Degree(b)) {
      DivisionDegree(a, b);
    }
  }

  /* A pass takes a from ad + 1 coefficients to at most ad. */
  lemma {:induction false} DivisionSizes(a: P.Poly, b: P.Poly, ad: nat, bd: nat, diff: nat)
    ensures b != P.Zero && !P.Below(a, bd) && ad == Degree(a) && bd == Degree(b) && ad == bd + diff ==>
      Size(a) == ad + 1 && Size(P.Add(a, P.ShiftBy(b, diff))) <= ad
  {
    DivisionClearsAt(a, b, ad, bd, diff);
    if b != P.Zero && !P.Below(a, bd) && ad == Degree(a) && bd == Degree(b) {
      DivisionDegree(a, b);
    }
    SizeBelow(P.Add(a, P.ShiftBy(b, diff)), ad);
    SizeBelow(a, ad + 1);
    SizeAbove(a, ad);
  }

  /* Quotient bits: if the rest of the loop changes q' = q | x^d only below m <= d + 1,
     the whole loop changes q only below d + 1. */
  lemma {:induction false} QuotientBits(q: C.Octet, r: C.Octet, m: int, d: nat)
    ensures C.Below(C.Xor(r, C.Or(q, Lead(d).lo)), m) && m <= d + 1 ==> C.Below(C.Xor(r, q), d + 1)
  {
    var q' := C.Or(q, Lead(d).lo);
    P.ShiftByBelow(P.One, 1, d);
    C.OrChange(q, Lead(d).lo, d + 1);
    C.BelowMono(C.Xor(r, q'), m, d + 1);
    C.XorVia(r, q', q);
    C.XorBelow(C.Xor(r, q'), C.Xor(q', q), d + 1);
  }

  /* The loop's quotient contract carries over one pass. */
  lemma {:induction false} QuotientStep(a: P.Poly, b: P.Poly, q: C.Octet, ad: nat, bd: nat, diff: nat, rest: (C.Octet, P.Poly))
    ensures b != P.Zero && !P.Below(a, bd) && ad == Degree(a) && bd == Degree(b) && ad == bd + diff
            && C.Below(C.Xor(rest.0, C.Or(q, Lead(diff).lo)), Size(P.Add(a, P.ShiftBy(b, diff))) - bd) ==>
      C.Below(C.Xor(rest.0, q), Size(a) - bd)
  {
    DivisionSizes(a, b, ad, bd, diff);
    QuotientBits(q, rest.0, Size(P.Add(a, P.ShiftBy(b, diff))) - bd, diff);
  }

  /* The loop's exactness contract carries over one pass. */
  lemma {:induction false} ExactStep(a: P.Poly, b: P.Poly, q: C.Octet, ad: nat, bd: nat, diff: nat, rest: (C.Octet, P.Poly))
    ensures b != P.Zero && !P.Below(a, bd) && ad == Degree(a) && bd == Degree(b) && ad == bd + diff
            && (var next := P.Add(a, P.ShiftBy(b, diff)); var q' := C.Or(q, Lead(diff).lo);
                Size(next) - bd <= 8 && C.Clear(q', Size(next) - bd) ==>
                P.Add(next, P.Mul(P.Widen(q'), b)) == P.Add(rest.1, P.Mul(P.Widen(rest.0), b)))
            && Size(a) - bd <= 8 && C.Clear(q, Size(a) - bd) ==>
      P.Add(a, P.Mul(P.Widen(q), b)) == P.Add(rest.1, P.Mul(P.Widen(rest.0), b))
  {
    var next := P.Add(a, P.ShiftBy(b, diff));
    var u := Lead(diff).lo;
    DivisionSizes(a, b, ad, bd, diff);
    QuotientBit(q, diff + 1, diff);
    C.ClearMono(C.Or(q, u), diff, Size(next) - bd);
    DivisionStepAlgebra(a, b, q, u, diff);
  }

  /* The while loop of gf2_8_division, returning (quotient, a). The test
     `a >= b_leading_coefficient` is a degree test (LeadCompare), so the
     uint8_t degree difference cannot wrap. The loop leaves a remainder below
     the degree of b, sets quotient bits only below Size(a) - deg b, and, when
     those bits fit the uint8_t and start clear, keeps a + q * b. */
  function DivisionLoop(a: P.Poly, b: P.Poly, q: C.Octet): (res: (C.Octet, P.Poly))
    requires b != P.Zero
    ensures P.Below(res.1, Degree(b))
    ensures C.Below(C.Xor(res.0, q), Size(a) - Degree(b))
    ensures Size(a) - Degree(b) <= 8 && C.Clear(q, Size(a) - Degree(b)) ==>
      P.Add(a, P.Mul(P.Widen(q), b)) == P.Add(res.1, P.Mul(P.Widen(res.0), b))
    decreases Size(a)
  {
    if !P.Below(a, Degree(b)) then
      DivisionOrder(a, b);
      var diff := Degree(a) - Degree(b);
      DivisionShrinks(a, b, Degree(a), Degree(b), diff);
      var rest := DivisionLoop(P.Add(a, P.ShiftBy(b, diff)), b, C.Or(q, Lead(diff).lo));
      QuotientStep(a, b, q, Degree(a), Degree(b), diff, rest);
      ExactStep(a, b, q, Degree(a), Degree(b), diff, rest);
      rest
    else
      C.XorSelfBelow(q, Size(a) - Degree(b));
      (q, a)
  }

  /* `(quotient << 8) | a` */
  function Pack(q: C.Octet, r: P.Poly): P.Poly
  {
    P.Poly(r.lo, C.Or(q, r.hi))
  }

  /* gf2_8_division(a, b): exits with status 1 when b is zero, else packs the
     quotient into the high byte and the remainder into the low byte. */
  function Division(a: P.Poly, b: P.Poly): (r: Outcome<P.Poly>)
    ensures r.Exit? <==> b == P.Zero
    ensures r.Exit? ==> r.code == 1
  {
    if b == P.Zero then
      Exit(1)
    else
      var res := DivisionLoop(a, b, C.Zero);
      Ok(Pack(res.0, res.1))
  }

  /* A non-zero byte has degree at most 7. */
  lemma {:induction false} ByteDegree(v: C.Octet)
    ensures v != C.Zero ==> P.Widen(v) != P.Zero && Degree(P.Widen(v)) <= 7
  {
    if v != C.Zero {
      DegreeExact(P.Widen(v));
      P.BelowMono(P.Widen(v), 8, Degree(P.Widen(v)));
    }
  }

  /* A polynomial below x^n, n <= 8, is a widened byte. */
  lemma {:induction false} RemainderByte(r: P.Poly, n: int)
    ensures P.Below(r, n) && n <= 8 ==> r == P.Widen(r.lo)
  {
    C.BelowZero(r.hi, n - 8);
  }

  /* What gf2_8_division computes for a byte divisor v and a dividend whose
     quotient fits the uint8_t: the result packs a quotient q (high byte) and
     a remainder (low byte) with a = q * v + remainder, the remainder of lower
     degree than v and q of degree below Size(a) - deg v. */
  lemma {:induction false} DivisionSpec(a: P.Poly, v: C.Octet)
    requires v != C.Zero && Size(a) <= Degree(P.Widen(v)) + 8
    ensures var r := Division(a, P.Widen(v));
      r.Ok?
      && a == P.Add(P.Widen(r.value.lo), P.Mul(P.Widen(r.value.hi), P.Widen(v)))
      && P.Below(P.Widen(r.value.lo), Degree(P.Widen(v)))
      && C.Below(r.value.hi, Size(a) - Degree(P.Widen(v)))
  {
    var b := P.Widen(v);
    ByteDegree(v);
    var res := DivisionLoop(a, b, C.Zero);
    RemainderByte(res.1, Degree(b));
    C.OrBelow(res.0, C.Zero, 0);
    C.XorZero(res.0);
    P.AddZero(a);
    P.AddComm(res.1, P.Mul(P.Widen(res.0), b));
  }

  /* `1 << d` for d < 8 is the byte x^d. */
  lemma {:induction false} LeadByte(d: nat)
    ensures d <= 7 ==> Lead(d) == P.Widen(Lead(d).lo) && C.Below(Lead(d).lo, d + 1) && C.Clear(Lead(d).lo, d)
  {
    P.ShiftByBelow(P.One, 1, d);
    P.ShiftByClear(P.One, 0, d);
    C.BelowZero(Lead(d).hi, d - 7);
  }

  /* The algebra of one pass: a + q * b = (a + x^d * b) + (q + x^d) * b. */
  lemma {:induction false} DivisionStepAlgebra(a: P.Poly, b: P.Poly, q: C.Octet, u: C.Octet, d: nat)
    ensures Lead(d) == P.Widen(u) ==>
      P.Add(a, P.Mul(P.Widen(q), b)) == P.Add(P.Add(a, P.ShiftBy(b, d)), P.Mul(P.Widen(C.Xor(q, u)), b))
  {
    var s := P.ShiftBy(b, d);
    var m := P.Mul(P.Widen(q), b);
    P.ShiftByMul(b, d);
    C.XorZero(C.Zero);
    assert P.Widen(C.Xor(q, u)) == P.Add(P.Widen(q), P.Widen(u));
    P.MulLinearLeft(P.Widen(q), P.Widen(u), b);
    P.AddComm(m, s);
    P.Regroup(a, s, m, s);
    P.AddZero(s);
    P.AddZero(P.Add(a, m));
  }

  /* Setting quotient bit d < n while the bits below n are free is an xor
     that leaves the bits below d free. */
  lemma {:induction false} QuotientBit(q: C.Octet, n: int, d: nat)
    ensures d < n <= 8 && C.Clear(q, n) ==>
      var u := Lead(d).lo;
      C.Or(q, u) == C.Xor(q, u) && C.Clear(C.Or(q, u), d) && Lead(d) == P.Widen(u)
  {
    if d < n <= 8 && C.Clear(q, n) {
      var u := Lead(d).lo;
      LeadByte(d);
      C.ClearMono(q, n, d + 1);
      C.OrDisjoint(q, u, d);
      C.ClearMono(q, n, d);
      C.ClearXor(q, u, d);
    }
  }

  /* The value gf2_8_reduce_product leaves is below 256, so its uint8_t return
     loses nothing. */
  lemma {:induction false} ReduceFits(value: P.Poly)
    ensures P.Value(ReduceLoop(value)) < 256
    ensures ReduceProduct(value) == ReduceLoop(value).lo
  {
    var r := ReduceLoop(value);
    P.BelowValue(r, 8);
    C.BelowZero(r.hi, 0);
    R.Xt8Basics();
    C.XorZero(r.lo);
  }

  /* gf2_8_multiplication is commutative. */
  lemma {:induction false} MultiplicationCommutes(a: C.Octet, b: C.Octet)
    ensures Multiplication(a, b) == Multiplication(b, a)
  {
    F.MulComm(a, b);
  }

  /* 1 is the identity of gf2_8_multiplication, on either side. */
  lemma {:induction false} MultiplicationIdentity(a: C.Octet)
    ensures Multiplication(C.One, a) == a && Multiplication(a, C.One) == a
  {
    F.MulOneRight(a);
    F.MulComm(a, C.One);
  }

  /* 0 absorbs in gf2_8_multiplication, on either side. */
  lemma {:induction false} MultiplicationAbsorbs(a: C.Octet)
    ensures Multiplication(C.Zero, a) == C.Zero && Multiplication(a, C.Zero) == C.Zero
  {
    F.MulZeroRight(a);
    F.MulComm(a, C.Zero);
  }
}
