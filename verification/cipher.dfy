/**
 One 16-byte block through the ten rounds of AES-128, as aes_encrypt and
 aes_decrypt of main.cpp run them once the message is a single block: the
 state transforms of modules State and MixColumns, the S-box lookups of
 module SubWords, and round keys read from the expanded key w (44 words).
 The substitution tables are parameters; Driver plugs in the generated ones.
 */
module Cipher {
  import opened Words
  import opened SBox
  import opened SubWords
  import opened State
  import M = MixColumns
  import It = Iteration

  /* The inverse table undoes the forward one on every byte. */
  ghost predicate Inverts(table: seq<bv8>, inverse: seq<bv8>)
  {
    |table| == 256 && |inverse| == 256 && forall b: bv8 :: Lookup(inverse, Lookup(table, b)) == b
  }

  /* `for (auto& uint : state) uint = aes_sub_word32(uint)` (or the inverse
     word substitution), with the table as a parameter. */
  function SubState(table: seq<bv8>, s: State): State
    requires |table| == 256
  {
    seq(4, i requires 0 <= i < 4 => Substitute(table, s[i]))
  }

  /* Substituting with a table and then with its inverse gives the word back. */
  lemma {:induction false} SubstituteInverts(table: seq<bv8>, inverse: seq<bv8>, w: bv32)
    requires Inverts(table, inverse)
    ensures Substitute(inverse, Substitute(table, w)) == w
  {
    forall k: nat | k < 4
      ensures ByteAt(Substitute(inverse, Substitute(table, w)), k) == ByteAt(w, k)
    {
      SubstituteBytes(table, w, k);
      SubstituteBytes(inverse, Substitute(table, w), k);
    }
    WordExt(Substitute(inverse, Substitute(table, w)), w);
  }

  lemma {:induction false} SubStateInverts(table: seq<bv8>, inverse: seq<bv8>, s: State)
    requires Inverts(table, inverse)
    ensures SubState(inverse, SubState(table, s)) == s
  {
    forall i | 0 <= i < 4
      ensures Substitute(inverse, Substitute(table, s[i])) == s[i]
    {
      SubstituteInverts(table, inverse, s[i]);
    }
  }

  /* `round_keys.begin() + (round * 4)`: the four words of round key r. */
  function RoundKey(w: seq<bv32>, r: nat): State
    requires |w| == 44 && r <= 10
  {
    w[4 * r .. 4 * r + 4]
  }

  /* The round keys of the nine full rounds, rounds 1 to 9, in order. */
  function MiddleKeys(w: seq<bv32>): (keys: seq<State>)
    requires |w| == 44
    ensures |keys| == 9
  {
    seq(9, i requires 0 <= i < 9 => RoundKey(w, i + 1))
  }

  /* The body of the round loop of aes_encrypt: SubBytes, ShiftRows,
     MixColumns, AddRoundKey with the round's key. */
  function Round(table: seq<bv8>, key: State, s: State): State
    requires |table| == 256
  {
    AddRoundKey(M.MixColumns(ShiftRows(SubState(table, s))), key)
  }

  /* The body of the round loop of aes_decrypt: AddRoundKey with the round's
     key, InvMixColumns, InvShiftRows, InvSubBytes. */
  function InverseRound(inverse: seq<bv8>, key: State, s: State): State
    requires |inverse| == 256
  {
    SubState(inverse, ReverseShiftRows(M.InverseMixColumns(AddRoundKey(s, key))))
  }

  /* Each step of the decryption round undoes the matching step of the
     encryption round, in reverse order. */
  lemma {:induction false} InverseRoundUndoes(table: seq<bv8>, inverse: seq<bv8>, key: State, s: State)
    requires Inverts(table, inverse)
    ensures InverseRound(inverse, key, Round(table, key, s)) == s
  {
    var a := SubState(table, s);
    var b := ShiftRows(a);
    var c := M.MixColumns(b);
    AddRoundKeyInvolutive(c, key);
    M.MixColumnsInverts(b);
    ShiftRowsInverts(a);
    SubStateInverts(table, inverse, s);
  }

  /* ... and the other way round, when the tables invert each other both ways. */
  lemma {:induction false} RoundUndoesInverse(table: seq<bv8>, inverse: seq<bv8>, key: State, s: State)
    requires Inverts(inverse, table)
    ensures Round(table, key, InverseRound(inverse, key, s)) == s
  {
    var a := AddRoundKey(s, key);
    var b := M.InverseMixColumns(a);
    var c := ReverseShiftRows(b);
    SubStateInverts(inverse, table, c);
    ShiftRowsInverts(b);
    M.MixColumnsInverts(a);
    AddRoundKeyInvolutive(s, key);
  }

  /* Round and InverseRound as step functions of the round loops. */
  function RoundStep(table: seq<bv8>): (State, State) -> State
    requires |table| == 256
  {
    (key: State, s: State) => Round(table, key, s)
  }

  function InverseRoundStep(inverse: seq<bv8>): (State, State) -> State
    requires |inverse| == 256
  {
    (key: State, s: State) => InverseRound(inverse, key, s)
  }

  /* `for (int round = 1; round < rounds; round++)` of aes_encrypt, and
     `for (int round = rounds - 1; round > 0; round--)` of aes_decrypt. */
  function EncryptRounds(table: seq<bv8>, w: seq<bv32>, s: State): State
    requires |table| == 256 && |w| == 44
  {
    It.Forward(RoundStep(table), MiddleKeys(w), s)
  }

  function DecryptRounds(inverse: seq<bv8>, w: seq<bv32>, s: State): State
    requires |inverse| == 256 && |w| == 44
  {
    It.Backward(InverseRoundStep(inverse), MiddleKeys(w), s)
  }

  /* The decryption loop undoes the encryption loop, ... */
  lemma {:induction false} DecryptRoundsUndo(table: seq<bv8>, inverse: seq<bv8>, w: seq<bv32>, s: State)
    requires Inverts(table, inverse) && |w| == 44
    ensures DecryptRounds(inverse, w, EncryptRounds(table, w, s)) == s
  {
    var f, g := RoundStep(table), InverseRoundStep(inverse);
    forall key: State, x: State
      ensures g(key, f(key, x)) == x
    {
      InverseRoundUndoes(table, inverse, key, x);
    }
    It.BackwardUndoesForward(f, g, MiddleKeys(w), s);
  }

  /* ... and the encryption loop undoes the decryption loop. */
  lemma {:induction false} EncryptRoundsUndo(table: seq<bv8>, inverse: seq<bv8>, w: seq<bv32>, s: State)
    requires Inverts(inverse, table) && |w| == 44
    ensures EncryptRounds(table, w, DecryptRounds(inverse, w, s)) == s
  {
    var f, g := RoundStep(table), InverseRoundStep(inverse);
    forall key: State, x: State
      ensures f(key, g(key, x)) == x
    {
      RoundUndoesInverse(table, inverse, key, x);
    }
    It.ForwardUndoesBackward(f, g, MiddleKeys(w), s);
  }

  /* The last round of aes_encrypt: no MixColumns, round key 10. */
  function FinalRound(table: seq<bv8>, key: State, s: State): State
    requires |table| == 256
  {
    AddRoundKey(ShiftRows(SubState(table, s)), key)
  }

  /* The first steps of aes_decrypt: round key 10, InvShiftRows, InvSubBytes. */
  function InverseFinalRound(inverse: seq<bv8>, key: State, s: State): State
    requires |inverse| == 256
  {
    SubState(inverse, ReverseShiftRows(AddRoundKey(s, key)))
  }

  lemma {:induction false} InverseFinalRoundUndoes(table: seq<bv8>, inverse: seq<bv8>, key: State, s: State)
    requires Inverts(table, inverse)
    ensures InverseFinalRound(inverse, key, FinalRound(table, key, s)) == s
  {
    var a := SubState(table, s);
    var b := ShiftRows(a);
    AddRoundKeyInvolutive(b, key);
    ShiftRowsInverts(a);
    SubStateInverts(table, inverse, s);
  }

  lemma {:induction false} FinalRoundUndoesInverse(table: seq<bv8>, inverse: seq<bv8>, key: State, s: State)
    requires Inverts(inverse, table)
    ensures FinalRound(table, key, InverseFinalRound(inverse, key, s)) == s
  {
    var a := AddRoundKey(s, key);
    var b := ReverseShiftRows(a);
    SubStateInverts(inverse, table, b);
    ShiftRowsInverts(a);
    AddRoundKeyInvolutive(s, key);
  }

  /* aes_encrypt on one block: the key words added first, nine full rounds
     with round keys 1 .. 9, and the final round with round key 10. */
  function EncryptBlock(table: seq<bv8>, key: State, w: seq<bv32>, block: State): State
    requires |table| == 256 && |w| == 44
  {
    FinalRound(table, RoundKey(w, 10), EncryptRounds(table, w, AddRoundKey(block, key)))
  }

  /* aes_decrypt on one block: the same steps inverted, in reverse order. */
  function DecryptBlock(inverse: seq<bv8>, key: State, w: seq<bv32>, block: State): State
    requires |inverse| == 256 && |w| == 44
  {
    AddRoundKey(DecryptRounds(inverse, w, InverseFinalRound(inverse, RoundKey(w, 10), block)), key)
  }

  /* Decrypting an encrypted block with the same key gives it back, whatever
     the expanded key, as long as the inverse table undoes the forward one. */
  lemma {:induction false} DecryptBlockUndoesEncrypt(table: seq<bv8>, inverse: seq<bv8>, key: State, w: seq<bv32>, block: State)
    requires Inverts(table, inverse) && |w| == 44
    ensures DecryptBlock(inverse, key, w, EncryptBlock(table, key, w, block)) == block
  {
    var s := AddRoundKey(block, key);
    var t := EncryptRounds(table, w, s);
    InverseFinalRoundUndoes(table, inverse, RoundKey(w, 10), t);
    DecryptRoundsUndo(table, inverse, w, s);
    AddRoundKeyInvolutive(block, key);
  }

  /* Encrypting a decrypted block gives it back too, when the forward table
     also undoes the inverse one. */
  lemma {:induction false} EncryptBlockUndoesDecrypt(table: seq<bv8>, inverse: seq<bv8>, key: State, w: seq<bv32>, block: State)
    requires Inverts(inverse, table) && |w| == 44
    ensures EncryptBlock(table, key, w, DecryptBlock(inverse, key, w, block)) == block
  {
    var t := InverseFinalRound(inverse, RoundKey(w, 10), block);
    var s := DecryptRounds(inverse, w, t);
    AddRoundKeyInvolutive(s, key);
    EncryptRoundsUndo(table, inverse, w, t);
    FinalRoundUndoesInverse(table, inverse, RoundKey(w, 10), block);
  }
}
