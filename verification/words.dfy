/**
 32-bit words as the program packs them: four bytes, byte 0 in the most
 significant position (`word >> 24`). The shifts and masks of main.cpp are
 kept as written; the lemmas read them back as byte positions.
 */
module Words {

  /* `(w >> (24 - 8 * k)) & 0xff`: byte k of w, counting from the top. */
  function ByteAt(w: bv32, k: nat): bv8
    requires k < 4
  {
    if k == 0 then (w >> 24) as bv8
    else if k == 1 then ((w >> 16) & 0xff) as bv8
    else if k == 2 then ((w >> 8) & 0xff) as bv8
    else (w & 0xff) as bv8
  }

  /* `(b0 << 24) | (b1 << 16) | (b2 << 8) | b3`. */
  function Word(b0: bv8, b1: bv8, b2: bv8, b3: bv8): bv32
  {
    ((b0 as bv32) << 24) | ((b1 as bv32) << 16) | ((b2 as bv32) << 8) | (b3 as bv32)
  }

  /* Packing four bytes and reading them back gives them back. */
  lemma {:induction false} BytesOfWord(b0: bv8, b1: bv8, b2: bv8, b3: bv8)
    ensures var w := Word(b0, b1, b2, b3);
      ByteAt(w, 0) == b0 && ByteAt(w, 1) == b1 && ByteAt(w, 2) == b2 && ByteAt(w, 3) == b3
  {
  }

  /* A word is the packing of its four bytes. */
  lemma {:induction false} WordOfBytes(w: bv32)
    ensures Word(ByteAt(w, 0), ByteAt(w, 1), ByteAt(w, 2), ByteAt(w, 3)) == w
  {
  }

  /* Two words with the same four bytes are equal. */
  lemma {:induction false} WordExt(w: bv32, v: bv32)
    requires ByteAt(w, 0) == ByteAt(v, 0) && ByteAt(w, 1) == ByteAt(v, 1)
    requires ByteAt(w, 2) == ByteAt(v, 2) && ByteAt(w, 3) == ByteAt(v, 3)
    ensures w == v
  {
    WordOfBytes(w);
    WordOfBytes(v);
  }

  /* Exclusive or of words is exclusive or of their bytes. */
  lemma {:induction false} XorBytes(w: bv32, v: bv32, k: nat)
    requires k < 4
    ensures ByteAt(w ^ v, k) == ByteAt(w, k) ^ ByteAt(v, k)
  {
    if k == 0 {} else if k == 1 {} else if k == 2 {} else {}
  }

  /* `w &= ~(0xff << (24 - 8 * k)); w |= b << (24 - 8 * k)`, the byte update
     of aes_emplace_row, with the mask and the shift written out for each k. */
  function SetByte(w: bv32, k: nat, b: bv8): bv32
    requires k < 4
  {
    var c := b as bv32;
    if k == 0 then (w & 0x00ff_ffff) | (c << 24)
    else if k == 1 then (w & 0xff00_ffff) | (c << 16)
    else if k == 2 then (w & 0xffff_00ff) | (c << 8)
    else (w & 0xffff_ff00) | c
  }

  lemma {:induction false} SetByteBytes(w: bv32, k: nat, b: bv8, j: nat)
    requires k < 4 && j < 4
    ensures ByteAt(SetByte(w, k, b), j) == if j == k then b else ByteAt(w, j)
  {
    if k == 0 {
      if j == 0 {} else if j == 1 {} else if j == 2 {} else {}
    } else if k == 1 {
      if j == 0 {} else if j == 1 {} else if j == 2 {} else {}
    } else if k == 2 {
      if j == 0 {} else if j == 1 {} else if j == 2 {} else {}
    } else {
      if j == 0 {} else if j == 1 {} else if j == 2 {} else {}
    }
  }

  /* `(w << (8 * i)) | (w >> (32 - 8 * i))` for i < 4: rotation left by i
     bytes, written out for each i; for i = 0 it is the word itself. */
  function RotateBytesLeft(w: bv32, i: nat): bv32
    requires i < 4
  {
    if i == 0 then w
    else if i == 1 then (w << 8) | (w >> 24)
    else if i == 2 then (w << 16) | (w >> 16)
    else (w << 24) | (w >> 8)
  }

  /* `(w >> (8 * i)) | (w << (32 - 8 * i))` for i < 4: rotation right by i
     bytes; for i = 0 it is the word itself. */
  function RotateBytesRight(w: bv32, i: nat): bv32
    requires i < 4
  {
    if i == 0 then w
    else if i == 1 then (w >> 8) | (w << 24)
    else if i == 2 then (w >> 16) | (w << 16)
    else (w >> 24) | (w << 8)
  }

  /* Rotating left by i bytes moves byte (k + i) mod 4 to position k. */
  lemma {:induction false} RotateLeftBytes(w: bv32, i: nat, k: nat)
    requires i < 4 && k < 4
    ensures ByteAt(RotateBytesLeft(w, i), k) == ByteAt(w, (k + i) % 4)
  {
    if k == 0 {
      if i == 0 {} else if i == 1 {} else if i == 2 {} else {}
    } else if k == 1 {
      if i == 0 {} else if i == 1 {} else if i == 2 {} else {}
    } else if k == 2 {
      if i == 0 {} else if i == 1 {} else if i == 2 {} else {}
    } else {
      if i == 0 {} else if i == 1 {} else if i == 2 {} else {}
    }
  }

  /* Rotating right by i bytes moves byte (k + 4 - i) mod 4 to position k. */
  lemma {:induction false} RotateRightBytes(w: bv32, i: nat, k: nat)
    requires i < 4 && k < 4
    ensures ByteAt(RotateBytesRight(w, i), k) == ByteAt(w, (k + 4 - i) % 4)
  {
    if k == 0 {
      if i == 0 {} else if i == 1 {} else if i == 2 {} else {}
    } else if k == 1 {
      if i == 0 {} else if i == 1 {} else if i == 2 {} else {}
    } else if k == 2 {
      if i == 0 {} else if i == 1 {} else if i == 2 {} else {}
    } else {
      if i == 0 {} else if i == 1 {} else if i == 2 {} else {}
    }
  }

  /* Rotating right undoes rotating left by the same number of bytes, ... */
  lemma {:induction false} RotateRightUndoesLeft(w: bv32, i: nat)
    requires i < 4
    ensures RotateBytesRight(RotateBytesLeft(w, i), i) == w
  {
    if i == 0 {
    } else if i == 1 {
      assert RotateBytesLeft(w, 1) == (w << 8) | (w >> 24);
    } else if i == 2 {
      assert RotateBytesLeft(w, 2) == (w << 16) | (w >> 16);
    } else {
      assert RotateBytesLeft(w, 3) == (w << 24) | (w >> 8);
    }
  }

  /* ... and the other way round. */
  lemma {:induction false} RotateLeftUndoesRight(w: bv32, i: nat)
    requires i < 4
    ensures RotateBytesLeft(RotateBytesRight(w, i), i) == w
  {
    if i == 0 {
    } else if i == 1 {
      assert RotateBytesRight(w, 1) == (w >> 8) | (w << 24);
    } else if i == 2 {
      assert RotateBytesRight(w, 2) == (w >> 16) | (w << 16);
    } else {
      assert RotateBytesRight(w, 3) == (w >> 24) | (w << 8);
    }
  }
}
