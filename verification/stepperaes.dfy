/**
 The stepper of aes.ts with the AES state transformations: aes_start, and
 the comparison of its traces with the block cipher of module Cipher and
 with aes_encrypt of module Driver.
 */
module StepperAes {
  import opened State
  import opened Stepper
  import It = Iteration
  import P = Packing
  import KS = KeySchedule
  import M = MixColumns
  import C = Cipher
  import D = Driver

  /* aes_start with the key already hashed and packed into four words: the
     message padded to one block and packed, the expanded key, and every
     flag cleared. */
  function Start(table: seq<bv8>, key: State, message: seq<bv8>): (m: Machine)
    requires |table| == 256 && |message| <= 16
    ensures P.UnconvertBe(m.state) == P.Pad(message)
    ensures |m.roundKeys| == 44 && KeyAt(m.roundKeys, 0) == key
    ensures !m.firstRoundKey && m.round == 1 && m.roundStep == 0
    ensures !m.lastSub && !m.lastShift && !m.lastRoundKey && !m.done && !m.decrypt
  {
    var rk := D.ExpandKey(table, key);
    forall i | 0 <= i < 4
      ensures rk[i] == key[i]
    {
      KS.RoundKeysFromKey(key, table, i);
    }
    P.UnconvertConvert(P.Pad(message));
    Machine(P.ConvertBe(P.Pad(message)), rk, false, 1, 0, false, false, false, false, false)
  }

  /* The transformations of aes.ts, with the substitution tables as
     parameters. */
  function AesTransforms(table: seq<bv8>, inverse: seq<bv8>): Transforms
    requires |table| == 256 && |inverse| == 256
  {
    Transforms(
      s => C.SubState(table, s), s => ShiftRows(s), s => M.MixColumns(s),
      s => C.SubState(inverse, s), s => ReverseShiftRows(s), s => M.InverseMixColumns(s))
  }

  lemma {:induction false} AesTransformsUndo(table: seq<bv8>, inverse: seq<bv8>)
    requires C.Inverts(table, inverse)
    ensures Undoes(AesTransforms(table, inverse))
  {
    forall x: State
      ensures C.SubState(inverse, C.SubState(table, x)) == x
      ensures ReverseShiftRows(ShiftRows(x)) == x
      ensures M.InverseMixColumns(M.MixColumns(x)) == x
    {
      C.SubStateInverts(table, inverse, x);
      ShiftRowsInverts(x);
      M.MixColumnsInverts(x);
    }
  }

  /* With the AES transformations, a full round of the stepper is the round
     of the block cipher, and it reads the same round keys. */
  lemma {:induction false} AesRounds(table: seq<bv8>, inverse: seq<bv8>)
    requires |table| == 256 && |inverse| == 256
    ensures forall key: State, x: State :: RoundOf(AesTransforms(table, inverse))(key, x) == C.RoundStep(table)(key, x)
  {
  }

  lemma {:induction false} AesKeys(rk: seq<bv32>)
    requires |rk| == 44
    ensures MiddleKeys(rk)[..9] == C.MiddleKeys(rk)
    ensures KeyAt(rk, Rounds * 4) == C.RoundKey(rk, 10)
  {
    forall i | 0 <= i < 9
      ensures MiddleKeys(rk)[i] == C.MiddleKeys(rk)[i]
    {
      KeyAtRoundKey(rk, 4 * (i + 1));
    }
    KeyAtRoundKey(rk, 40);
  }

  /* From aes_start, 40 steps give what aes_encrypt computes for the same
     message of at most one block and the same key words. */
  lemma {:induction false} StepperEncrypts(table: seq<bv8>, inverse: seq<bv8>, key: State, message: seq<bv8>)
    requires |table| == 256 && |inverse| == 256 && |message| <= 16
    ensures Run(AesTransforms(table, inverse), Start(table, key, message), 40).state == D.EncryptSingle(table, key, message)
    ensures Run(AesTransforms(table, inverse), Start(table, key, message), 41).done
  {
    var t := AesTransforms(table, inverse);
    var m := Start(table, key, message);
    var rk, p := m.roundKeys, m.state;
    assert m == Started(rk, p);
    EncryptTrace(t, rk, p);
    AesRounds(table, inverse);
    AesKeys(rk);
    It.ForwardPointwise(RoundOf(t), C.RoundStep(table), C.MiddleKeys(rk), AddRoundKey(p, key));
  }

  /* Pressing decrypt after encryption and then 40 more steps gives back the
     padded message, which the page shows through unconvert_be; the 41st
     step leaves the machine `done`. */
  lemma {:induction false} StepperDecrypts(table: seq<bv8>, inverse: seq<bv8>, key: State, message: seq<bv8>)
    requires C.Inverts(table, inverse) && |message| <= 16
    ensures var e := Run(AesTransforms(table, inverse), Start(table, key, message), 41).(decrypt := true);
      var d := Run(AesTransforms(table, inverse), e, 40);
      d.state == P.ConvertBe(P.Pad(message)) && P.UnconvertBe(d.state) == P.Pad(message)
      && Run(AesTransforms(table, inverse), e, 41).done
  {
    var m := Start(table, key, message);
    assert m == Started(m.roundKeys, m.state);
    AesTransformsUndo(table, inverse);
    RoundTrip(AesTransforms(table, inverse), m.roundKeys, m.state);
  }
}
