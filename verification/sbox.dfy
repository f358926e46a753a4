/**
 The AES S-box (section 5.1.1 of FIPS 197) as main.cpp generates it: the
 field inverse of a byte (0 for 0), then the affine transform given by
 sbox_matrix and sbox_vector, computed one output bit at a time. The inverse
 S-box is the scatter of aes_generate_inverse_sbox over the forward table.
 Both tables are values here rather than lazily allocated globals.
 */
module SBox {
  import opened ByteField

  /* sbox_matrix: row `bit` selects the input bits of output bit `bit`. */
  const Matrix: seq<seq<bv8>> :=
    [[1, 0, 0, 0, 1, 1, 1, 1],
     [1, 1, 0, 0, 0, 1, 1, 1],
     [1, 1, 1, 0, 0, 0, 1, 1],
     [1, 1, 1, 1, 0, 0, 0, 1],
     [1, 1, 1, 1, 1, 0, 0, 0],
     [0, 1, 1, 1, 1, 1, 0, 0],
     [0, 0, 1, 1, 1, 1, 1, 0],
     [0, 0, 0, 1, 1, 1, 1, 1]]

  /* sbox_vector: the constant 0x63, least significant bit first. */
  const Vector: seq<bv8> := [1, 1, 0, 0, 0, 1, 1, 0]

  /* The affine transform of section 5.1.1 of FIPS 197, equation (5.1):
     b ^ (b <<< 1) ^ (b <<< 2) ^ (b <<< 3) ^ (b <<< 4) ^ 0x63. */
  function Affine(b: bv8): bv8
  {
    b ^ b.RotateLeft(1) ^ b.RotateLeft(2) ^ b.RotateLeft(3) ^ b.RotateLeft(4) ^ 0x63
  }

  /* The inverse affine transform of section 5.3.2 of FIPS 197:
     (b <<< 1) ^ (b <<< 3) ^ (b <<< 6) ^ 0x05. */
  function InverseAffine(b: bv8): bv8
  {
    b.RotateLeft(1) ^ b.RotateLeft(3) ^ b.RotateLeft(6) ^ 0x05
  }

  /* The two affine transforms undo each other. */
  lemma {:induction false} AffineInverts(b: bv8)
    ensures InverseAffine(Affine(b)) == b
    ensures Affine(InverseAffine(b)) == b
  {
  }

  /* `current_bit` of aes_generate_sbox_value: row `bit` of sbox_matrix times
     the bits of `inverse`, plus bit `bit` of sbox_vector. */
  function AffineBit(inverse: bv8, bit: nat): bv8
    requires bit < 8
  {
    var m := Matrix[bit];
    ((m[0] * (inverse & 0x01)) ^
     (m[1] * ((inverse & 0x02) >> 1)) ^
     (m[2] * ((inverse & 0x04) >> 2)) ^
     (m[3] * ((inverse & 0x08) >> 3)) ^
     (m[4] * ((inverse & 0x10) >> 4)) ^
     (m[5] * ((inverse & 0x20) >> 5)) ^
     (m[6] * ((inverse & 0x40) >> 6)) ^
     (m[7] * ((inverse & 0x80) >> 7))) ^ Vector[bit]
  }

  /* `c << bit`, written out for each bit position. */
  function ShiftBit(c: bv8, bit: nat): bv8
    requires bit < 8
  {
    if bit == 0 then c else if bit == 1 then c << 1 else if bit == 2 then c << 2
    else if bit == 3 then c << 3 else if bit == 4 then c << 4 else if bit == 5 then c << 5
    else if bit == 6 then c << 6 else c << 7
  }

  /* The mask of the n lowest bits, (1 << n) - 1. */
  function LowBits(n: nat): bv8
    requires n <= 8
  {
    if n == 0 then 0x00 else if n == 1 then 0x01 else if n == 2 then 0x03 else if n == 3 then 0x07
    else if n == 4 then 0x0f else if n == 5 then 0x1f else if n == 6 then 0x3f else if n == 7 then 0x7f
    else 0xff
  }

  /* One pass of the bit loop adds the next bit of the affine transform; the
     eight positions are proved two at a time. */
  lemma {:induction false} AffineStepLow(inverse: bv8, bit: nat, result: bv8)
    requires bit < 2 && result == Affine(inverse) & LowBits(bit)
    ensures result | ShiftBit(AffineBit(inverse, bit), bit) == Affine(inverse) & LowBits(bit + 1)
  {
    if bit == 0 {} else {}
  }

  lemma {:induction false} AffineStepLowMid(inverse: bv8, bit: nat, result: bv8)
    requires 2 <= bit < 4 && result == Affine(inverse) & LowBits(bit)
    ensures result | ShiftBit(AffineBit(inverse, bit), bit) == Affine(inverse) & LowBits(bit + 1)
  {
    if bit == 2 {} else {}
  }

  lemma {:induction false} AffineStepHighMid(inverse: bv8, bit: nat, result: bv8)
    requires 4 <= bit < 6 && result == Affine(inverse) & LowBits(bit)
    ensures result | ShiftBit(AffineBit(inverse, bit), bit) == Affine(inverse) & LowBits(bit + 1)
  {
    if bit == 4 {} else {}
  }

  lemma {:induction false} AffineStepHigh(inverse: bv8, bit: nat, result: bv8)
    requires 6 <= bit < 8 && result == Affine(inverse) & LowBits(bit)
    ensures result | ShiftBit(AffineBit(inverse, bit), bit) == Affine(inverse) & LowBits(bit + 1)
  {
    if bit == 6 {} else {}
  }

  lemma {:induction false} AffineStep(inverse: bv8, bit: nat, result: bv8)
    requires bit < 8 && result == Affine(inverse) & LowBits(bit)
    ensures result | ShiftBit(AffineBit(inverse, bit), bit) == Affine(inverse) & LowBits(bit + 1)
  {
    if bit < 2 {
      AffineStepLow(inverse, bit, result);
    } else if bit < 4 {
      AffineStepLowMid(inverse, bit, result);
    } else if bit < 6 {
      AffineStepHighMid(inverse, bit, result);
    } else {
      AffineStepHigh(inverse, bit, result);
    }
  }

  /* The S-box entry of a byte: the affine transform of its inverse. */
  function SubByte(value: bv8): bv8
  {
    Affine(Inverse(value))
  }

  /* The inverse S-box entry: the inverse of the inverse affine transform. */
  function InvSubByte(value: bv8): bv8
  {
    Inverse(InverseAffine(value))
  }

  /* The bit loop of aes_generate_sbox_value: output bit `bit` is
     `current_bit`, or-ed in at position `bit`. */
  method AffineTransform(inverse: bv8) returns (result: bv8)
    ensures result == Affine(inverse)
  {
    result := 0;
    for bit := 0 to 8
      invariant result == Affine(inverse) & LowBits(bit)
    {
      AffineStep(inverse, bit, result);
      result := result | ShiftBit(AffineBit(inverse, bit), bit);
    }
  }

  /* aes_generate_sbox_value: the inverse, skipped for 0, then the loop. */
  method GenerateSboxValue(value: bv8) returns (result: bv8)
    ensures result == SubByte(value)
  {
    var inverse: bv8 := 0;
    if value != 0 {
      inverse := Inverse(value);
    }
    result := AffineTransform(inverse);
  }

  /* The S-box sends 0 to 0x63. */
  lemma {:induction false} SubByteZero()
    ensures SubByte(0) == 0x63
  {
  }

  /* The inverse S-box undoes the S-box and the other way round. */
  lemma {:induction false} SubBytesInvert(b: bv8)
    ensures InvSubByte(SubByte(b)) == b
    ensures SubByte(InvSubByte(b)) == b
  {
    AffineInverts(Inverse(b));
    InverseInvolutive(b);
    AffineInverts(b);
    InverseInvolutive(InverseAffine(b));
  }

  /* Distinct bytes have distinct S-box entries. */
  lemma {:induction false} SubByteInjective(a: bv8, b: bv8)
    ensures SubByte(a) == SubByte(b) <==> a == b
  {
    SubBytesInvert(a);
    SubBytesInvert(b);
  }

  /* aes_generate_sbox: entry `value` is aes_generate_sbox_value(value). */
  function SboxTable(): (r: seq<bv8>)
    ensures |r| == 256
  {
    seq(256, value requires 0 <= value < 256 => SubByte(value as bv8))
  }

  /* `table[b]`: entry b of a 256-entry table. */
  function Lookup(table: seq<bv8>, b: bv8): bv8
    requires |table| == 256
  {
    table[b as int]
  }

  /* Looking up byte b in the generated table gives its S-box entry. */
  lemma {:induction false} SboxTableEntry(b: bv8)
    ensures Lookup(SboxTable(), b) == SubByte(b)
  {
    assert (b as int) as bv8 == b;
  }

  /* Distinct bytes have distinct entries in the generated table. */
  lemma {:induction false} SboxTableInjective()
    ensures forall b: bv8, c: bv8 :: b != c ==> Lookup(SboxTable(), b) != Lookup(SboxTable(), c)
  {
    forall b: bv8, c: bv8 | b != c
      ensures Lookup(SboxTable(), b) != Lookup(SboxTable(), c)
    {
      SboxTableEntry(b);
      SboxTableEntry(c);
      SubByteInjective(b, c);
    }
  }

  /* The loop of aes_generate_inverse_sbox from `index` on,
     `inverse_sbox[sbox[index]] = index`; the counter takes the 256 byte
     values in increasing order. */
  function ScatterFrom(table: seq<bv8>, index: bv8, inverse: seq<bv8>): (r: seq<bv8>)
    requires |table| == 256 && |inverse| == 256
    ensures |r| == 256
    decreases 255 - index as int
  {
    var next := inverse[Lookup(table, index) as int := index];
    if index == 255 then next else ScatterFrom(table, index + 1, next)
  }

  /* One store `inverse_sbox[sbox[index]] = index`, read at the slot of entry p. */
  lemma {:induction false} ScatterStore(table: seq<bv8>, index: bv8, inverse: seq<bv8>, p: bv8)
    requires |table| == 256 && |inverse| == 256
    requires Lookup(table, index) == Lookup(table, p) ==> index == p
    ensures Lookup(inverse[Lookup(table, index) as int := index], Lookup(table, p))
            == if index == p then index else Lookup(inverse, Lookup(table, p))
  {
  }

  lemma {:induction false} CounterStep(index: bv8, p: bv8)
    requires index != 255
    ensures index <= p <==> index == p || index + 1 <= p
  {
  }

  /* For a table with distinct entries, after the loop from `index` on, the
     slot of entry p holds p if p was still to come, and what it held before
     otherwise. */
  lemma {:induction false} ScatterEntry(table: seq<bv8>, index: bv8, inverse: seq<bv8>, p: bv8)
    requires |table| == 256 && |inverse| == 256
    requires forall b: bv8, c: bv8 :: b != c ==> Lookup(table, b) != Lookup(table, c)
    ensures Lookup(ScatterFrom(table, index, inverse), Lookup(table, p))
            == if index <= p then p else Lookup(inverse, Lookup(table, p))
    decreases 255 - index as int
  {
    var next := inverse[Lookup(table, index) as int := index];
    ScatterStore(table, index, inverse, p);
    if index != 255 {
      ScatterEntry(table, index + 1, next, p);
      CounterStep(index, p);
    }
  }

  /* aes_generate_inverse_sbox, run over the generated table. The array it
     fills starts with arbitrary contents. */
  function InverseSboxTable(initial: seq<bv8>): (r: seq<bv8>)
    requires |initial| == 256
    ensures |r| == 256
  {
    ScatterFrom(SboxTable(), 0, initial)
  }

  /* Whatever the array held before, the inverse table holds the inverse
     S-box, and the two tables are inverse permutations of the bytes. */
  lemma {:induction false} InverseSboxTableInverts(initial: seq<bv8>, b: bv8)
    requires |initial| == 256
    ensures Lookup(InverseSboxTable(initial), b) == InvSubByte(b)
    ensures Lookup(InverseSboxTable(initial), Lookup(SboxTable(), b)) == b
    ensures Lookup(SboxTable(), Lookup(InverseSboxTable(initial), b)) == b
  {
    SboxTableInjective();
    SubBytesInvert(b);
    ScatterEntry(SboxTable(), 0, initial, b);
    ScatterEntry(SboxTable(), 0, initial, InvSubByte(b));
    SboxTableEntry(b);
    SboxTableEntry(InvSubByte(b));
  }
}
