/**
 The cipher state of main.cpp: a vector of four 32-bit column words, row 0 of
 each column in the most significant byte. Byte (row r, column c) is
 `ByteAt(state[c], r)`. This module holds AddRoundKey, the row gather and
 scatter, and ShiftRows with its inverse.
 */
module State {
  import opened Words

  type State = s: seq<bv32> | |s| == 4 witness [0, 0, 0, 0]

  /* The byte in row r, column c. */
  function Cell(s: State, r: nat, c: nat): bv8
    requires r < 4 && c < 4
  {
    ByteAt(s[c], r)
  }

  /* Two states with the same sixteen bytes are equal. */
  lemma {:induction false} CellExt(s: State, t: State)
    requires forall r: nat, c: nat :: r < 4 && c < 4 ==> Cell(s, r, c) == Cell(t, r, c)
    ensures s == t
  {
    forall c: nat | c < 4
      ensures s[c] == t[c]
    {
      assert Cell(s, 0, c) == Cell(t, 0, c) && Cell(s, 1, c) == Cell(t, 1, c);
      assert Cell(s, 2, c) == Cell(t, 2, c) && Cell(s, 3, c) == Cell(t, 3, c);
      WordExt(s[c], t[c]);
    }
  }

  /* aes_add_round_key: `state[i] ^= round_key[i]` for i = 0 .. 3, where the
     round key is the four words the iterator points at. */
  function AddRoundKey(s: State, key: State): State
  {
    seq(4, i requires 0 <= i < 4 => s[i] ^ key[i])
  }

  /* Adding the same round key twice gives the state back. */
  lemma {:induction false} AddRoundKeyInvolutive(s: State, key: State)
    ensures AddRoundKey(AddRoundKey(s, key), key) == s
  {
  }

  /* aes_extract_row: byte r of each column c, placed at byte c of the row. */
  function ExtractRow(s: State, r: nat): bv32
    requires r < 4
  {
    Word(ByteAt(s[0], r), ByteAt(s[1], r), ByteAt(s[2], r), ByteAt(s[3], r))
  }

  /* aes_emplace_row: byte c of the row written into byte r of column c. */
  function EmplaceRow(s: State, row: bv32, r: nat): State
    requires r < 4
  {
    seq(4, c requires 0 <= c < 4 => SetByte(s[c], r, ByteAt(row, c)))
  }

  /* Byte c of an extracted row is the byte of row r in column c. */
  lemma {:induction false} ExtractRowBytes(s: State, r: nat, c: nat)
    requires r < 4 && c < 4
    ensures ByteAt(ExtractRow(s, r), c) == Cell(s, r, c)
  {
    BytesOfWord(ByteAt(s[0], r), ByteAt(s[1], r), ByteAt(s[2], r), ByteAt(s[3], r));
  }

  /* Emplacing a row writes byte c of it in row r, column c, and leaves the
     bytes of the other rows as they were. */
  lemma {:induction false} EmplaceRowCell(s: State, row: bv32, k: nat, r: nat, c: nat)
    requires k < 4 && r < 4 && c < 4
    ensures Cell(EmplaceRow(s, row, k), r, c) == if r == k then ByteAt(row, c) else Cell(s, r, c)
  {
    SetByteBytes(s[c], k, ByteAt(row, c), r);
  }

  /* Extracting the row just emplaced gives it back ... */
  lemma {:induction false} ExtractEmplaceRow(s: State, row: bv32, r: nat)
    requires r < 4
    ensures ExtractRow(EmplaceRow(s, row, r), r) == row
  {
    var t := EmplaceRow(s, row, r);
    forall c: nat | c < 4
      ensures ByteAt(ExtractRow(t, r), c) == ByteAt(row, c)
    {
      ExtractRowBytes(t, r, c);
      EmplaceRowCell(s, row, r, r, c);
    }
    WordExt(ExtractRow(t, r), row);
  }

  /* ... while the other three rows are untouched ... */
  lemma {:induction false} EmplaceRowOthers(s: State, row: bv32, r: nat, k: nat)
    requires r < 4 && k < 4 && k != r
    ensures ExtractRow(EmplaceRow(s, row, r), k) == ExtractRow(s, k)
  {
    var t := EmplaceRow(s, row, r);
    forall c: nat | c < 4
      ensures ByteAt(ExtractRow(t, k), c) == ByteAt(ExtractRow(s, k), c)
    {
      ExtractRowBytes(t, k, c);
      ExtractRowBytes(s, k, c);
      EmplaceRowCell(s, row, r, k, c);
    }
    WordExt(ExtractRow(t, k), ExtractRow(s, k));
  }

  /* ... and emplacing a row extracted from the state changes nothing. */
  lemma {:induction false} EmplaceExtractRow(s: State, r: nat)
    requires r < 4
    ensures EmplaceRow(s, ExtractRow(s, r), r) == s
  {
    var t := EmplaceRow(s, ExtractRow(s, r), r);
    forall k: nat, c: nat | k < 4 && c < 4
      ensures Cell(t, k, c) == Cell(s, k, c)
    {
      EmplaceRowCell(s, ExtractRow(s, r), r, k, c);
      ExtractRowBytes(s, r, c);
    }
    CellExt(t, s);
  }

  /* The state whose row r is rows[r]: the four aes_emplace_row calls that
     end aes_shift_rows and aes_reverse_shift_rows. */
  function EmplaceRows(s: State, rows: State): State
  {
    EmplaceRow(EmplaceRow(EmplaceRow(EmplaceRow(s, rows[0], 0), rows[1], 1), rows[2], 2), rows[3], 3)
  }

  /* Row r, column c of the result is byte c of rows[r]. */
  lemma {:induction false} EmplaceRowsCell(s: State, rows: State, r: nat, c: nat)
    requires r < 4 && c < 4
    ensures Cell(EmplaceRows(s, rows), r, c) == ByteAt(rows[r], c)
  {
    var s0 := EmplaceRow(s, rows[0], 0);
    var s1 := EmplaceRow(s0, rows[1], 1);
    var s2 := EmplaceRow(s1, rows[2], 2);
    EmplaceRowCell(s, rows[0], 0, r, c);
    EmplaceRowCell(s0, rows[1], 1, r, c);
    EmplaceRowCell(s1, rows[2], 2, r, c);
    EmplaceRowCell(s2, rows[3], 3, r, c);
  }

  /* aes_shift_rows: row r rotated left by r bytes,
     `row << (8 * r) | row >> (32 - 8 * r)`. For row 0 the program shifts a
     32-bit value by 32 (undefined in C++, a shift by 0 in JavaScript); the
     intended rotation by 0 leaves the row as it is. */
  function ShiftRows(s: State): State
  {
    EmplaceRows(s, seq(4, r requires 0 <= r < 4 => RotateBytesLeft(ExtractRow(s, r), r)))
  }

  /* aes_reverse_shift_rows: row r rotated right by r bytes. */
  function ReverseShiftRows(s: State): State
  {
    EmplaceRows(s, seq(4, r requires 0 <= r < 4 => RotateBytesRight(ExtractRow(s, r), r)))
  }

  /* ShiftRows moves the byte in row r, column (c + r) mod 4 to column c
     (section 5.1.2 of FIPS 197); in particular row 0 stays in place. */
  lemma {:induction false} ShiftRowsCell(s: State, r: nat, c: nat)
    requires r < 4 && c < 4
    ensures Cell(ShiftRows(s), r, c) == Cell(s, r, (c + r) % 4)
  {
    var rows: State := seq(4, k requires 0 <= k < 4 => RotateBytesLeft(ExtractRow(s, k), k));
    EmplaceRowsCell(s, rows, r, c);
    assert rows[r] == RotateBytesLeft(ExtractRow(s, r), r);
    RotateLeftBytes(ExtractRow(s, r), r, c);
    ExtractRowBytes(s, r, (c + r) % 4);
  }

  /* ReverseShiftRows moves the byte in row r, column (c + 4 - r) mod 4 to
     column c (section 5.3.1 of FIPS 197). */
  lemma {:induction false} ReverseShiftRowsCell(s: State, r: nat, c: nat)
    requires r < 4 && c < 4
    ensures Cell(ReverseShiftRows(s), r, c) == Cell(s, r, (c + 4 - r) % 4)
  {
    var rows: State := seq(4, k requires 0 <= k < 4 => RotateBytesRight(ExtractRow(s, k), k));
    EmplaceRowsCell(s, rows, r, c);
    assert rows[r] == RotateBytesRight(ExtractRow(s, r), r);
    RotateRightBytes(ExtractRow(s, r), r, c);
    ExtractRowBytes(s, r, (c + 4 - r) % 4);
  }

  /* Row k of the state built by EmplaceRows is rows[k]. */
  lemma {:induction false} EmplaceRowsRow(s: State, rows: State, k: nat)
    requires k < 4
    ensures ExtractRow(EmplaceRows(s, rows), k) == rows[k]
  {
    var t := EmplaceRows(s, rows);
    forall c: nat | c < 4
      ensures ByteAt(ExtractRow(t, k), c) == ByteAt(rows[k], c)
    {
      ExtractRowBytes(t, k, c);
      EmplaceRowsCell(s, rows, k, c);
    }
    WordExt(ExtractRow(t, k), rows[k]);
  }

  /* Two states with the same four rows are equal. */
  lemma {:induction false} RowExt(s: State, t: State)
    requires forall k: nat :: k < 4 ==> ExtractRow(s, k) == ExtractRow(t, k)
    ensures s == t
  {
    forall r: nat, c: nat | r < 4 && c < 4
      ensures Cell(s, r, c) == Cell(t, r, c)
    {
      ExtractRowBytes(s, r, c);
      ExtractRowBytes(t, r, c);
    }
    CellExt(s, t);
  }

  /* Row k of ShiftRows(s) is row k of s rotated left by k bytes ... */
  lemma {:induction false} ShiftRowsRow(s: State, k: nat)
    requires k < 4
    ensures ExtractRow(ShiftRows(s), k) == RotateBytesLeft(ExtractRow(s, k), k)
  {
    EmplaceRowsRow(s, seq(4, r requires 0 <= r < 4 => RotateBytesLeft(ExtractRow(s, r), r)), k);
  }

  /* ... and row k of ReverseShiftRows(s) is row k of s rotated right. */
  lemma {:induction false} ReverseShiftRowsRow(s: State, k: nat)
    requires k < 4
    ensures ExtractRow(ReverseShiftRows(s), k) == RotateBytesRight(ExtractRow(s, k), k)
  {
    EmplaceRowsRow(s, seq(4, r requires 0 <= r < 4 => RotateBytesRight(ExtractRow(s, r), r)), k);
  }

  /* The two shifts undo each other. */
  lemma {:induction false} ShiftRowsInverts(s: State)
    ensures ReverseShiftRows(ShiftRows(s)) == s
    ensures ShiftRows(ReverseShiftRows(s)) == s
  {
    forall k: nat | k < 4
      ensures ExtractRow(ReverseShiftRows(ShiftRows(s)), k) == ExtractRow(s, k)
    {
      ReverseShiftRowsRow(ShiftRows(s), k);
      ShiftRowsRow(s, k);
      RotateRightUndoesLeft(ExtractRow(s, k), k);
    }
    RowExt(ReverseShiftRows(ShiftRows(s)), s);
    forall k: nat | k < 4
      ensures ExtractRow(ShiftRows(ReverseShiftRows(s)), k) == ExtractRow(s, k)
    {
      ShiftRowsRow(ReverseShiftRows(s), k);
      ReverseShiftRowsRow(s, k);
      RotateLeftUndoesRight(ExtractRow(s, k), k);
    }
    RowExt(ShiftRows(ReverseShiftRows(s)), s);
  }
}
