/**
 Bytes to words and back: convert_be packs a string four characters per
 word, the first character in the top byte, and leaves the missing bytes
 of a last partial word zero; unconvert_be of aes.ts unpacks words into
 four characters each. Also the padding aes_encrypt applies to a message
 shorter than one block: 0x80, then zero bytes up to 16.
 */
module Packing {
  import opened Words

  /* Byte j of d, or 0 past its end. */
  function ByteOrZero(d: seq<bv8>, j: nat): bv8
  {
    if j < |d| then d[j] else 0
  }

  /* The word convert_be builds from bytes 4i .. 4i + 3 of d. */
  function WordAt(d: seq<bv8>, i: nat): bv32
  {
    Word(ByteOrZero(d, 4 * i), ByteOrZero(d, 4 * i + 1), ByteOrZero(d, 4 * i + 2), ByteOrZero(d, 4 * i + 3))
  }

  /* The result of convert_be, as a whole: one word per started group of
     four bytes. */
  function ConvertBe(d: seq<bv8>): (r: seq<bv32>)
    ensures |r| == (|d| + 3) / 4
  {
    seq((|d| + 3) / 4, i requires 0 <= i < (|d| + 3) / 4 => WordAt(d, i))
  }

  /* Word i of the packing is the word of bytes 4i .. 4i + 3. */
  lemma {:induction false} ConvertBeAt(d: seq<bv8>, i: nat)
    requires i < (|d| + 3) / 4
    ensures ConvertBe(d)[i] == WordAt(d, i)
  {
  }

  /* Byte k of word i of the packing is byte 4i + k of the input, and 0 past
     its end: big-endian, nothing lost, nothing invented. */
  lemma {:induction false} ConvertBeBytes(d: seq<bv8>, i: nat, k: nat)
    requires i < (|d| + 3) / 4 && k < 4
    ensures ByteAt(ConvertBe(d)[i], k) == ByteOrZero(d, 4 * i + k)
  {
    BytesOfWord(ByteOrZero(d, 4 * i), ByteOrZero(d, 4 * i + 1), ByteOrZero(d, 4 * i + 2), ByteOrZero(d, 4 * i + 3));
  }

  /* `(ch << (24 - (bits % 32))) & (0xFF << (24 - (bits % 32)))` for the
     byte position k = (bits % 32) / 8 of the word: the character's eight
     bits moved to that position. The mask makes the sign of a `char`
     irrelevant. */
  function Place(b: bv8, k: nat): bv32
    requires k < 4
  {
    var c := b as bv32;
    if k == 0 then c << 24
    else if k == 1 then c << 16
    else if k == 2 then c << 8
    else c
  }

  /* The placed byte sits at position k, and the other bytes are zero. */
  lemma {:induction false} PlaceBytes(b: bv8, k: nat, j: nat)
    requires k < 4 && j < 4
    ensures ByteAt(Place(b, k), j) == if j == k then b else 0
  {
    if k == 0 {
      if j == 0 {} else if j == 1 {} else if j == 2 {} else {}
    } else if k == 1 {
      if j == 0 {} else if j == 1 {} else if j == 2 {} else {}
    } else if k == 2 {
      if j == 0 {} else if j == 1 {} else if j == 2 {} else {}
    } else {
      if j == 0 {} else if j == 1 {} else if j == 2 {} else {}
    }
  }

  /* Or of words is or of their bytes. */
  lemma {:induction false} OrBytes(w: bv32, v: bv32, k: nat)
    requires k < 4
    ensures ByteAt(w | v, k) == ByteAt(w, k) | ByteAt(v, k)
  {
    if k == 0 {} else if k == 1 {} else if k == 2 {} else {}
  }

  /* Byte k of WordAt(d, i) is byte 4i + k of d. */
  lemma {:induction false} WordAtBytes(d: seq<bv8>, i: nat, k: nat)
    requires k < 4
    ensures ByteAt(WordAt(d, i), k) == ByteOrZero(d, 4 * i + k)
  {
    BytesOfWord(ByteOrZero(d, 4 * i), ByteOrZero(d, 4 * i + 1), ByteOrZero(d, 4 * i + 2), ByteOrZero(d, 4 * i + 3));
  }

  /* A word whose bytes are bytes 4i .. 4i + 3 of d is WordAt(d, i). */
  lemma {:induction false} WordAtOf(d: seq<bv8>, i: nat, w: bv32)
    requires ByteOrZero(d, 4 * i) == ByteAt(w, 0) && ByteOrZero(d, 4 * i + 1) == ByteAt(w, 1)
    requires ByteOrZero(d, 4 * i + 2) == ByteAt(w, 2) && ByteOrZero(d, 4 * i + 3) == ByteAt(w, 3)
    ensures WordAt(d, i) == w
  {
    WordOfBytes(w);
  }

  /* Appending a byte to d changes byte position |d| only, from 0 to b. */
  lemma {:induction false} ByteOrZeroSnoc(d: seq<bv8>, b: bv8, j: nat)
    ensures ByteOrZero(d + [b], j) == ByteOrZero(d, j) | (if j == |d| then b else 0)
  {
  }

  /* Appending a byte changes only the word it falls into, by or-ing the
     byte into its place. */
  lemma {:induction false} WordAtSnoc(d: seq<bv8>, b: bv8)
    ensures WordAt(d + [b], |d| / 4) == WordAt(d, |d| / 4) | Place(b, |d| % 4)
  {
    var e, i, k := d + [b], |d| / 4, |d| % 4;
    var v := WordAt(d, i) | Place(b, k);
    forall j: nat | j < 4
      ensures ByteOrZero(e, 4 * i + j) == ByteAt(v, j)
    {
      ByteOrZeroSnoc(d, b, 4 * i + j);
      OrBytes(WordAt(d, i), Place(b, k), j);
      WordAtBytes(d, i, j);
      PlaceBytes(b, k, j);
    }
    WordAtOf(e, i, v);
  }

  /* One pass of the loop of convert_be: a new zero word when the byte count
     is a multiple of four, then the byte or-ed into the last word. */
  function PackStep(out: seq<bv32>, n: nat, b: bv8): seq<bv32>
    requires |out| == (n + 3) / 4
  {
    var o := if n % 4 == 0 then out + [0] else out;
    o[n / 4 := o[n / 4] | Place(b, n % 4)]
  }

  /* Appending a byte leaves the words before its word alone, ... */
  lemma {:induction false} WordAtSnocBefore(d: seq<bv8>, b: bv8, i: nat)
    requires 4 * i + 4 <= |d|
    ensures WordAt(d + [b], i) == WordAt(d, i)
  {
    assert ByteOrZero(d + [b], 4 * i + 3) == ByteOrZero(d, 4 * i + 3);
  }

  /* ... and the word a byte count that is a multiple of four starts is
     still zero. */
  lemma {:induction false} WordAtFresh(d: seq<bv8>)
    requires |d| % 4 == 0
    ensures WordAt(d, |d| / 4) == 0
  {
    WordAtOf(d, |d| / 4, 0);
  }

  /* The words after one pass: as before, except the last, which gets the
     byte or-ed in (into a new zero word when one is started). */
  lemma {:induction false} PackStepAt(out: seq<bv32>, n: nat, b: bv8, i: nat)
    requires |out| == (n + 3) / 4 && i <= n / 4
    ensures |PackStep(out, n, b)| == n / 4 + 1
    ensures i < n / 4 ==> PackStep(out, n, b)[i] == out[i]
    ensures i == n / 4 ==> PackStep(out, n, b)[i] == (if n % 4 == 0 then 0 else out[i]) | Place(b, n % 4)
  {
  }

  /* One more byte starts a new word exactly when the count was a multiple
     of four. */
  lemma {:induction false} ConvertBeSnocLength(d: seq<bv8>, b: bv8)
    ensures |ConvertBe(d + [b])| == |d| / 4 + 1
    ensures |ConvertBe(d)| == (|d| + 3) / 4
  {
  }

  /* The words before the last are unchanged by a pass, ... */
  lemma {:induction false} ConvertBeSnocBefore(d: seq<bv8>, b: bv8, i: nat)
    requires i < |d| / 4
    ensures ConvertBe(d + [b])[i] == PackStep(ConvertBe(d), |d|, b)[i]
  {
    ConvertBeSnocLength(d, b);
    PackStepAt(ConvertBe(d), |d|, b, i);
    WordAtSnocBefore(d, b, i);
  }

  /* ... and the last word gets the byte: or-ed into a new zero word when
     the byte count is a multiple of four, ... */
  lemma {:induction false} ConvertBeSnocFresh(d: seq<bv8>, b: bv8)
    requires |d| % 4 == 0
    ensures ConvertBe(d + [b])[|d| / 4] == PackStep(ConvertBe(d), |d|, b)[|d| / 4]
  {
    var n := |d|;
    ConvertBeSnocLength(d, b);
    PackStepAt(ConvertBe(d), n, b, n / 4);
    ConvertBeAt(d + [b], n / 4);
    WordAtSnoc(d, b);
    WordAtFresh(d);
  }

  /* ... or into the partial last word. */
  lemma {:induction false} ConvertBeSnocPartial(d: seq<bv8>, b: bv8)
    requires |d| % 4 != 0
    ensures ConvertBe(d + [b])[|d| / 4] == PackStep(ConvertBe(d), |d|, b)[|d| / 4]
  {
    var n := |d|;
    ConvertBeSnocLength(d, b);
    assert n / 4 < (n + 3) / 4;
    PackStepAt(ConvertBe(d), n, b, n / 4);
    ConvertBeAt(d, n / 4);
    ConvertBeAt(d + [b], n / 4);
    WordAtSnoc(d, b);
  }

  /* That pass packs one more byte. */
  lemma {:induction false} ConvertBeSnoc(d: seq<bv8>, b: bv8)
    ensures ConvertBe(d + [b]) == PackStep(ConvertBe(d), |d|, b)
  {
    var r := PackStep(ConvertBe(d), |d|, b);
    ConvertBeSnocLength(d, b);
    PackStepAt(ConvertBe(d), |d|, b, 0);
    forall i | 0 <= i < |r|
      ensures ConvertBe(d + [b])[i] == r[i]
    {
      if i < |d| / 4 {
        ConvertBeSnocBefore(d, b, i);
      } else if |d| % 4 == 0 {
        ConvertBeSnocFresh(d, b);
      } else {
        ConvertBeSnocPartial(d, b);
      }
    }
  }

  /* The same, for a prefix of the input growing by one byte. */
  lemma {:induction false} ConvertBePrefix(data: seq<bv8>, i: nat)
    requires i < |data|
    ensures ConvertBe(data[..i + 1]) == PackStep(ConvertBe(data[..i]), i, data[i])
  {
    assert data[..i + 1] == data[..i] + [data[i]];
    ConvertBeSnoc(data[..i], data[i]);
  }

  /* What `bits % 32 == 0`, `bits / 32` and `(bits % 32) / 8` are once
     i bytes have been packed. */
  lemma {:induction false} BitCount(i: nat)
    ensures (8 * i) % 32 == 8 * (i % 4) && (8 * i) / 32 == i / 4
    ensures (8 * i) % 32 == 0 <==> i % 4 == 0
    ensures ((8 * i) % 32) / 8 == i % 4
  {
  }

  /* convert_be as the program runs it: `bits` counts the bits packed so far. */
  method ConvertBeLoop(data: seq<bv8>) returns (out: seq<bv32>)
    ensures out == ConvertBe(data)
  {
    var bits: nat := 0;
    out := [];
    for i := 0 to |data|
      invariant bits == 8 * i
      invariant out == ConvertBe(data[..i])
    {
      var ch := data[i];
      ConvertBePrefix(data, i);
      BitCount(i);
      if bits % 32 == 0 {
        out := out + [0];
      }
      out := out[bits / 32 := out[bits / 32] | Place(ch, (bits % 32) / 8)];
      bits := bits + 8;
    }
    assert data[..|data|] == data;
  }

  /* unconvert_be of aes.ts: each word becomes its four bytes, top byte first. */
  function UnconvertBe(words: seq<bv32>): (r: seq<bv8>)
    ensures |r| == 4 * |words|
  {
    seq(4 * |words|, j requires 0 <= j < 4 * |words| => ByteAt(words[j / 4], j % 4))
  }

  /* Unpacking a packing gives the bytes back when they fill whole words, ... */
  lemma {:induction false} UnconvertConvert(d: seq<bv8>)
    requires |d| % 4 == 0
    ensures UnconvertBe(ConvertBe(d)) == d
  {
    var r := UnconvertBe(ConvertBe(d));
    forall j | 0 <= j < |d|
      ensures r[j] == d[j]
    {
      ConvertBeBytes(d, j / 4, j % 4);
    }
  }

  /* ... and packing an unpacking gives the words back. */
  lemma {:induction false} ConvertUnconvert(words: seq<bv32>)
    ensures ConvertBe(UnconvertBe(words)) == words
  {
    var d := UnconvertBe(words);
    forall i | 0 <= i < |words|
      ensures ConvertBe(d)[i] == words[i]
    {
      UnconvertWord(words, i);
    }
  }

  lemma {:induction false} UnconvertWord(words: seq<bv32>, i: nat)
    requires i < |words|
    ensures WordAt(UnconvertBe(words), i) == words[i]
  {
    var d := UnconvertBe(words);
    assert (4 * i + 1) / 4 == i && (4 * i + 1) % 4 == 1;
    assert (4 * i + 2) / 4 == i && (4 * i + 2) % 4 == 2;
    assert (4 * i + 3) / 4 == i && (4 * i + 3) % 4 == 3;
    WordAtOf(d, i, words[i]);
  }

  /* Packing whole words and then the rest is packing the concatenation. */
  lemma {:induction false} ConvertBeAppend(a: seq<bv8>, b: seq<bv8>)
    requires |a| % 4 == 0
    ensures ConvertBe(a + b) == ConvertBe(a) + ConvertBe(b)
  {
    var e := a + b;
    forall i | 0 <= i < |ConvertBe(e)|
      ensures ConvertBe(e)[i] == (ConvertBe(a) + ConvertBe(b))[i]
    {
      if i < |a| / 4 {
        assert WordAt(e, i) == WordAt(a, i);
      } else {
        var k := i - |a| / 4;
        assert 4 * i == |a| + 4 * k;
        assert WordAt(e, i) == WordAt(b, k);
      }
    }
  }

  /* The padding of aes_encrypt for a message of at most 16 bytes: none for
     exactly 16, otherwise 0x80 and then zero bytes up to 16. */
  function Pad(m: seq<bv8>): (r: seq<bv8>)
    requires |m| <= 16
    ensures |r| == 16 && r[..|m|] == m
    ensures |m| < 16 ==> r[|m|] == 0x80 && forall j :: |m| < j < 16 ==> r[j] == 0
  {
    if |m| == 16 then m else m + [0x80] + seq(15 - |m|, _ => 0)
  }

  /* The message is recoverable from the padding of a short message: the
     last 0x80 marks where it ends. */
  lemma {:induction false} PadInjective(a: seq<bv8>, b: seq<bv8>)
    requires |a| < 16 && |b| < 16 && Pad(a) == Pad(b)
    ensures a == b
  {
    assert a == Pad(a)[..|a|];
  }

  /* Since a full block is not padded, a 16-byte message that ends in 0x80
     and zeros encrypts like a shorter one: the padding alone cannot tell
     them apart. */
  lemma {:induction false} PadAmbiguous(m: seq<bv8>)
    requires |m| < 16
    ensures Pad(Pad(m)) == Pad(m) && |Pad(m)| != |m|
  {
  }
}
