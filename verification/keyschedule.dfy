/**
 The key expansion of section 5.2 of FIPS 197 as aes_get_round_keys computes
 it: round constants, RotWord, SubWord and the word recurrence, for a key of
 n words and r round keys. The program calls it with n = 4 and r = 11.
 The S-box table that aes_sub_word32 reads is a parameter here; the cipher
 passes the generated table (SubWords.SubWord is the word substitution
 with that table).
 */
module KeySchedule {
  import opened Words
  import opened SBox
  import opened SubWords
  import BF = ByteField
  import D = Domain

  /* One step of aes_get_round_constants: `2 * rc` if rc < 0x80, else
     `(2 * rc) ^ 0x11b`. The doubling is done in 16 bits; storing the result
     in a `uint8_t` requires it to fit, which the conversion checks. */
  function Double(rc: bv8): bv8
  {
    if rc < 0x80 then ((rc as bv16) * 2) as bv8
    else (((rc as bv16) * 2) ^ 0x11b) as bv8
  }

  /* That step is xtime, ... */
  lemma {:induction false} DoubleXtime(rc: bv8)
    ensures Double(rc) == D.ByteXt(rc)
  {
  }

  /* ... which is multiplication by x in GF(2^8). */
  lemma {:induction false} DoubleTimesTwo(rc: bv8)
    ensures Double(rc) == BF.Times(2, rc)
  {
    DoubleXtime(rc);
    BF.TimesTwo(rc);
  }

  /* `rc[round]` of aes_get_round_constants, round >= 1. */
  function RoundConstantByte(round: nat): bv8
    requires 1 <= round
  {
    if round == 1 then 1 else Double(RoundConstantByte(round - 1))
  }

  /* `output[round] = rc[round] << 24`. */
  function RoundConstant(round: nat): bv32
    requires 1 <= round
  {
    (RoundConstantByte(round) as bv32) << 24
  }

  /* Each round constant is the previous one times x in GF(2^8), so
     constant `round` is x^(round - 1). */
  lemma {:induction false} RoundConstantDoubles(round: nat)
    requires 1 <= round
    ensures RoundConstantByte(round + 1) == BF.Times(2, RoundConstantByte(round))
  {
    DoubleTimesTwo(RoundConstantByte(round));
  }

  /* The ten constants of AES-128, in the top byte of the word. */
  lemma {:induction false} RoundConstantValues()
    ensures RoundConstantByte(1) == 0x01 && RoundConstantByte(2) == 0x02
    ensures RoundConstantByte(3) == 0x04 && RoundConstantByte(4) == 0x08
    ensures RoundConstantByte(5) == 0x10 && RoundConstantByte(6) == 0x20
    ensures RoundConstantByte(7) == 0x40 && RoundConstantByte(8) == 0x80
    ensures RoundConstantByte(9) == 0x1b && RoundConstantByte(10) == 0x36
  {
  }

  /* The constant sits in byte 0 of its word; the other bytes are zero. */
  lemma {:induction false} RoundConstantBytes(round: nat)
    requires 1 <= round
    ensures ByteAt(RoundConstant(round), 0) == RoundConstantByte(round)
    ensures ByteAt(RoundConstant(round), 1) == 0
    ensures ByteAt(RoundConstant(round), 2) == 0 && ByteAt(RoundConstant(round), 3) == 0
  {
  }

  /* aes_rot_word: `rotateleft(w, 8)`. */
  function RotWord(w: bv32): bv32
  {
    RotateBytesLeft(w, 1)
  }

  /* RotWord moves byte k + 1 (mod 4) to position k, as [a0, a1, a2, a3]
     becomes [a1, a2, a3, a0]. */
  lemma {:induction false} RotWordBytes(w: bv32, k: nat)
    requires k < 4
    ensures ByteAt(RotWord(w), k) == ByteAt(w, (k + 1) % 4)
  {
    RotateLeftBytes(w, 1, k);
  }

  /* Word `|w|` of aes_get_round_keys for a key of n words, given the words
     before it. */
  function NextWord(n: nat, key: seq<bv32>, sbox: seq<bv8>, w: seq<bv32>): bv32
    requires 1 <= n && |key| == n && |sbox| == 256
  {
    var i := |w|;
    if i < n then key[i]
    else if i % n == 0 then (w[i - n] ^ Substitute(sbox, RotWord(w[i - 1]))) ^ RoundConstant(i / n)
    else if n > 6 && i % n == 4 then w[i - n] ^ Substitute(sbox, w[i - 1])
    else w[i - n] ^ w[i - 1]
  }

  /* The loop of aes_get_round_keys from word |w| up to word count - 1. */
  function ExpandFrom(n: nat, key: seq<bv32>, sbox: seq<bv8>, count: nat, w: seq<bv32>): (r: seq<bv32>)
    requires 1 <= n && |key| == n && |sbox| == 256 && |w| <= count
    ensures |r| == count
    decreases count - |w|
  {
    if |w| == count then w else ExpandFrom(n, key, sbox, count, w + [NextWord(n, key, sbox, w)])
  }

  /* aes_get_round_keys(n, key, r): the 4 * r words of the vector it returns.
     The program's loop runs one word further and writes past the end of the
     vector (and reads `rc[r]`); that extra word is not part of the result. */
  function RoundKeys(n: nat, key: seq<bv32>, r: nat, sbox: seq<bv8>): (w: seq<bv32>)
    requires 1 <= n && |key| == n && |sbox| == 256
    ensures |w| == 4 * r
  {
    ExpandFrom(n, key, sbox, 4 * r, [])
  }

  /* Words already computed are kept, and each new word is NextWord of the
     words before it. */
  lemma {:induction false} ExpandFromWords(n: nat, key: seq<bv32>, sbox: seq<bv8>, count: nat, w: seq<bv32>, i: nat)
    requires 1 <= n && |key| == n && |sbox| == 256 && |w| <= count && i < count
    requires forall j :: 0 <= j < |w| ==> w[j] == NextWord(n, key, sbox, w[..j])
    ensures ExpandFrom(n, key, sbox, count, w)[i] == NextWord(n, key, sbox, ExpandFrom(n, key, sbox, count, w)[..i])
    decreases count - |w|
  {
    if |w| < count {
      var next := w + [NextWord(n, key, sbox, w)];
      forall j | 0 <= j < |next|
        ensures next[j] == NextWord(n, key, sbox, next[..j])
      {
        if j < |w| {
          assert next[..j] == w[..j];
        } else {
          assert next[..j] == w;
        }
      }
      ExpandFromWords(n, key, sbox, count, next, i);
    }
  }

  /* A word that is NextWord of the words before it follows the recurrence
     of section 5.2 of FIPS 197 for a key of four words; the three lemmas
     below take its three cases. The first four words are the key. */
  lemma {:induction false} RecurrenceKey(key: seq<bv32>, sbox: seq<bv8>, w: seq<bv32>, i: nat)
    requires |key| == 4 && |sbox| == 256 && i < |w| && i < 4
    requires w[i] == NextWord(4, key, sbox, w[..i])
    ensures w[i] == key[i]
  {
  }

  /* A word at a multiple of four mixes in the substituted, rotated word
     before it and the round constant: the branch of the program for keys of
     more than six words does not apply. */
  lemma {:induction false} RecurrenceRound(key: seq<bv32>, sbox: seq<bv8>, w: seq<bv32>, i: nat)
    requires |key| == 4 && |sbox| == 256 && i < |w| && 4 <= i && i % 4 == 0
    requires w[i] == NextWord(4, key, sbox, w[..i])
    ensures w[i] == w[i - 4] ^ Substitute(sbox, RotWord(w[i - 1])) ^ RoundConstant(i / 4)
  {
    var prefix := w[..i];
    assert prefix[i - 4] == w[i - 4] && prefix[i - 1] == w[i - 1];
  }

  /* Any other word is the xor of the word four back and the word before. */
  lemma {:induction false} RecurrenceWord(key: seq<bv32>, sbox: seq<bv8>, w: seq<bv32>, i: nat)
    requires |key| == 4 && |sbox| == 256 && i < |w| && 4 <= i && i % 4 != 0
    requires w[i] == NextWord(4, key, sbox, w[..i])
    ensures w[i] == w[i - 4] ^ w[i - 1]
  {
    var prefix := w[..i];
    assert prefix[i - 4] == w[i - 4] && prefix[i - 1] == w[i - 1];
  }

  /* Word i of a key expansion is NextWord of the words before it. */
  lemma {:induction false} RoundKeysWords(n: nat, key: seq<bv32>, r: nat, sbox: seq<bv8>, i: nat)
    requires 1 <= n && |key| == n && |sbox| == 256 && i < 4 * r
    ensures var w := RoundKeys(n, key, r, sbox);
      w[i] == NextWord(n, key, sbox, w[..i])
  {
    ExpandFromWords(n, key, sbox, 4 * r, [], i);
  }

  /* The AES-128 key expansion (n = 4, 11 round keys) follows the recurrence
     on words 0 .. 43: the first four words are the key, ... */
  lemma {:induction false} RoundKeysFromKey(key: seq<bv32>, sbox: seq<bv8>, i: nat)
    requires |key| == 4 && |sbox| == 256 && i < 4
    ensures RoundKeys(4, key, 11, sbox)[i] == key[i]
  {
    RoundKeysWords(4, key, 11, sbox, i);
    RecurrenceKey(key, sbox, RoundKeys(4, key, 11, sbox), i);
  }

  /* ... a word at a multiple of four takes the substituted, rotated word
     before it and the round constant, ... */
  lemma {:induction false} RoundKeysRoundWord(key: seq<bv32>, sbox: seq<bv8>, i: nat)
    requires |key| == 4 && |sbox| == 256 && 4 <= i < 44 && i % 4 == 0
    ensures var w := RoundKeys(4, key, 11, sbox);
      w[i] == w[i - 4] ^ Substitute(sbox, RotWord(w[i - 1])) ^ RoundConstant(i / 4)
  {
    RoundKeysWords(4, key, 11, sbox, i);
    RecurrenceRound(key, sbox, RoundKeys(4, key, 11, sbox), i);
  }

  /* ... and any other word is the xor of the word four back and the word
     before it. */
  lemma {:induction false} RoundKeysOtherWord(key: seq<bv32>, sbox: seq<bv8>, i: nat)
    requires |key| == 4 && |sbox| == 256 && 4 <= i < 44 && i % 4 != 0
    ensures var w := RoundKeys(4, key, 11, sbox);
      w[i] == w[i - 4] ^ w[i - 1]
  {
    RoundKeysWords(4, key, 11, sbox, i);
    RecurrenceWord(key, sbox, RoundKeys(4, key, 11, sbox), i);
  }
}
