/**
 Eight coefficients over GF(2): the bits of a `uint8_t`, bit i being the
 coefficient of x^i. This is the common representation below the field
 GF(2^8) (module Field) and the 16-bit polynomials of the division code
 (module Polynomial, a pair of octets). Sums are coefficient-wise exclusive or.
 */
module Coefficients {

  datatype Octet = Octet(c0: bool, c1: bool, c2: bool, c3: bool, c4: bool, c5: bool, c6: bool, c7: bool)

  const Zero := Octet(false, false, false, false, false, false, false, false)
  const One := Octet(true, false, false, false, false, false, false, false)

  /* Two octets with the same coefficients are equal. */
  lemma {:induction false} Ext(x: Octet, y: Octet)
    ensures (x.c0 == y.c0 && x.c1 == y.c1 && x.c2 == y.c2 && x.c3 == y.c3
             && x.c4 == y.c4 && x.c5 == y.c5 && x.c6 == y.c6 && x.c7 == y.c7) ==> x == y
  {
  }

  /* Coefficient-wise exclusive or (`^`). */
  function Xor(x: Octet, y: Octet): Octet
  {
    Octet(x.c0 != y.c0, x.c1 != y.c1, x.c2 != y.c2, x.c3 != y.c3,
          x.c4 != y.c4, x.c5 != y.c5, x.c6 != y.c6, x.c7 != y.c7)
  }

  /* Coefficient-wise or (`|`). */
  function Or(x: Octet, y: Octet): Octet
  {
    Octet(x.c0 || y.c0, x.c1 || y.c1, x.c2 || y.c2, x.c3 || y.c3,
          x.c4 || y.c4, x.c5 || y.c5, x.c6 || y.c6, x.c7 || y.c7)
  }

  /* `x << 1` with `c` shifted in at the bottom; the top coefficient falls off. */
  function ShiftUp(x: Octet, c: bool): Octet
  {
    Octet(c, x.c0, x.c1, x.c2, x.c3, x.c4, x.c5, x.c6)
  }

  /* `x >> 1` with `c` shifted in at the top; the bottom coefficient falls off. */
  function ShiftDown(x: Octet, c: bool): Octet
  {
    Octet(x.c1, x.c2, x.c3, x.c4, x.c5, x.c6, x.c7, c)
  }

  /* The octet read as a binary number, the value of the `uint8_t`. */
  function Value(x: Octet): nat
  {
    (if x.c0 then 1 else 0) + (if x.c1 then 2 else 0) + (if x.c2 then 4 else 0) + (if x.c3 then 8 else 0)
    + (if x.c4 then 16 else 0) + (if x.c5 then 32 else 0) + (if x.c6 then 64 else 0) + (if x.c7 then 128 else 0)
  }

  /* All coefficients from i = n on are zero: x < 2^n (for n <= 0, x is zero). */
  predicate Below(x: Octet, n: int)
  {
    (n <= 0 ==> !x.c0) && (n <= 1 ==> !x.c1) && (n <= 2 ==> !x.c2) && (n <= 3 ==> !x.c3)
    && (n <= 4 ==> !x.c4) && (n <= 5 ==> !x.c5) && (n <= 6 ==> !x.c6) && (n <= 7 ==> !x.c7)
  }

  /* All coefficients below i = n are zero: x is a multiple of 2^n. */
  predicate Clear(x: Octet, n: int)
  {
    (0 < n ==> !x.c0) && (1 < n ==> !x.c1) && (2 < n ==> !x.c2) && (3 < n ==> !x.c3)
    && (4 < n ==> !x.c4) && (5 < n ==> !x.c5) && (6 < n ==> !x.c6) && (7 < n ==> !x.c7)
  }

  /* Or-ing in a value below 2^(d + 1) into a multiple of 2^(d + 1) is adding it. */
  lemma {:induction false} OrDisjoint(q: Octet, u: Octet, d: int)
    ensures Clear(q, d + 1) && Below(u, d + 1) ==> Or(q, u) == Xor(q, u)
  {
    Ext(Or(q, u), Xor(q, u));
  }

  lemma {:induction false} OrBelow(x: Octet, y: Octet, n: int)
    ensures Below(x, n) && Below(y, n) ==> Below(Or(x, y), n)
    ensures Or(x, Zero) == x
  {
    Ext(Or(x, Zero), x);
  }

  lemma {:induction false} XorBelow(x: Octet, y: Octet, n: int)
    ensures Below(x, n) && Below(y, n) ==> Below(Xor(x, y), n)
  {
  }

  /* Or-ing in u changes only coefficients where u has one. */
  lemma {:induction false} OrChange(q: Octet, u: Octet, n: int)
    ensures Below(u, n) ==> Below(Xor(Or(q, u), q), n)
  {
  }

  lemma {:induction false} XorSelfBelow(x: Octet, n: int)
    ensures Below(Xor(x, x), n)
  {
  }

  lemma {:induction false} XorCancel(x: Octet, y: Octet)
    ensures Xor(Xor(x, y), y) == x
  {
  }

  lemma {:induction false} XorVia(x: Octet, y: Octet, z: Octet)
    ensures Xor(x, z) == Xor(Xor(x, y), Xor(y, z))
  {
    Ext(Xor(x, z), Xor(Xor(x, y), Xor(y, z)));
  }

  lemma {:induction false} BelowMono(x: Octet, n: int, m: int)
    ensures Below(x, n) && n <= m ==> Below(x, m)
  {
  }

  lemma {:induction false} ClearMono(x: Octet, n: int, m: int)
    ensures Clear(x, n) && m <= n ==> Clear(x, m)
  {
  }

  lemma {:induction false} ClearXor(x: Octet, y: Octet, n: int)
    ensures Clear(x, n) && Clear(y, n) ==> Clear(Xor(x, y), n)
  {
  }

  lemma {:induction false} BelowZero(x: Octet, n: int)
    ensures Below(x, n) && n <= 0 ==> x == Zero
  {
  }

  /* If x and y both have their leading coefficient at n, their sum is below n. */
  lemma {:induction false} TopCancel(x: Octet, y: Octet, n: int)
    ensures (Below(x, n + 1) && Below(y, n + 1) && !Below(x, n) && !Below(y, n)) ==> Below(Xor(x, y), n)
  {
  }

  lemma {:induction false} XorComm(x: Octet, y: Octet)
    ensures Xor(x, y) == Xor(y, x)
  {
  }

  lemma {:induction false} XorAssoc(x: Octet, y: Octet, z: Octet)
    ensures Xor(Xor(x, y), z) == Xor(x, Xor(y, z))
  {
  }

  lemma {:induction false} XorZero(x: Octet)
    ensures Xor(x, Zero) == x && Xor(Zero, x) == x
  {
  }

  lemma {:induction false} XorSwap(x: Octet, y: Octet, z: Octet)
    ensures Xor(x, Xor(y, z)) == Xor(Xor(x, z), y)
  {
  }

  lemma {:induction false} XorRegroup(w: Octet, x: Octet, y: Octet, z: Octet)
    ensures Xor(Xor(w, x), Xor(y, z)) == Xor(Xor(w, y), Xor(x, z))
  {
  }

  lemma {:induction false} ShiftUpLinear(x: Octet, y: Octet, c: bool, d: bool)
    ensures ShiftUp(Xor(x, y), c != d) == Xor(ShiftUp(x, c), ShiftUp(y, d))
  {
  }

  /* The value of `x >> 1`, with `c` shifted in at the top. */
  lemma {:induction false} ValueShiftDown(x: Octet, c: bool)
    ensures 2 * Value(ShiftDown(x, c)) + (if x.c0 then 1 else 0) == Value(x) + (if c then 256 else 0)
  {
  }

  /* The value of `x << 1`, with `c` shifted in at the bottom. */
  lemma {:induction false} ValueShiftUp(x: Octet, c: bool)
    ensures Value(ShiftUp(x, c)) + (if x.c7 then 256 else 0) == 2 * Value(x) + (if c then 1 else 0)
  {
  }

  lemma {:induction false} ValueZero(x: Octet)
    ensures Value(x) == 0 <==> x == Zero
  {
  }

  /* x == x0 + ((x >> 1) << 1), whatever is shifted in and out. */
  lemma {:induction false} RecomposeLow(x: Octet, c: bool)
    ensures Xor(if x.c0 then One else Zero, ShiftUp(ShiftDown(x, c), false)) == x
  {
    Ext(Xor(if x.c0 then One else Zero, ShiftUp(ShiftDown(x, c), false)), x);
  }

  lemma {:induction false} RecomposeHigh(x: Octet)
    ensures Xor(Zero, ShiftUp(ShiftDown(x, false), x.c0)) == x
  {
    Ext(Xor(Zero, ShiftUp(ShiftDown(x, false), x.c0)), x);
  }

  /* `x << 1` with c shifted in is `x << 1` plus c. */
  lemma {:induction false} ShiftUpSplit(x: Octet, c: bool)
    ensures ShiftUp(x, c) == Xor(ShiftUp(x, false), if c then One else Zero)
  {
  }

  /* Conversion from and to Dafny's bit-vectors, used where bytes sit in words. */

  function FromByte(b: bv8): Octet
  {
    Octet(b & 1 != 0, b & 2 != 0, b & 4 != 0, b & 8 != 0, b & 0x10 != 0, b & 0x20 != 0, b & 0x40 != 0, b & 0x80 != 0)
  }

  function Bit(c: bool, m: bv8): bv8
  {
    if c then m else 0
  }

  function ToByte(x: Octet): bv8
  {
    Bit(x.c0, 1) | Bit(x.c1, 2) | Bit(x.c2, 4) | Bit(x.c3, 8)
    | Bit(x.c4, 0x10) | Bit(x.c5, 0x20) | Bit(x.c6, 0x40) | Bit(x.c7, 0x80)
  }

  lemma {:induction false} ToFromByte(b: bv8)
    ensures ToByte(FromByte(b)) == b
  {
  }

  lemma {:induction false} FromToByte(x: Octet)
    ensures FromByte(ToByte(x)) == x
  {
  }

  lemma {:induction false} FromByteXor(a: bv8, b: bv8)
    ensures FromByte(a ^ b) == Xor(FromByte(a), FromByte(b))
  {
    Ext(FromByte(a ^ b), Xor(FromByte(a), FromByte(b)));
  }
}
