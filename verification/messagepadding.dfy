/**
 What the chunk loop of aes_encrypt does to a whole message before the
 cipher sees it: every chunk but the last is a full block, and only the last
 chunk is padded (0x80, then zeros), unless it is itself a full block. The
 result is the same as padding the message once at its end.
 */
module MessagePadding {
  import P = Packing
  import Ch = Chunking

  /* The bytes the chunk loop adds to a message: none when it is a non-empty
     whole number of blocks, otherwise 0x80 and zeros up to the block end. */
  function Padding(length: nat): seq<bv8>
  {
    if length > 0 && length % 16 == 0 then [] else [0x80] + seq(15 - length % 16, _ => 0)
  }

  /* The padding fills the last chunk up to a whole block, one block per
     chunk; it is empty exactly for a non-empty whole number of blocks. */
  lemma {:induction false} PaddingFills(length: nat)
    ensures (length + |Padding(length)|) % 16 == 0 && (length + |Padding(length)|) / 16 == Ch.ChunkCount(length)
    ensures |Padding(length)| == 0 <==> length > 0 && length % 16 == 0
    ensures |Padding(length)| <= 16
  {
  }

  /* For a message of at most one block this is the padding of Pad, ... */
  lemma {:induction false} PadPadding(m: seq<bv8>)
    requires |m| <= 16
    ensures P.Pad(m) == m + Padding(|m|)
  {
    if |m| < 16 {
      var z := seq(15 - |m|, _ => 0);
      assert Padding(|m|) == [0x80] + z;
      assert m + [0x80] + z == m + ([0x80] + z);
    }
  }

  /* ... and the padding of a longer message is that of what follows its
     first chunk. */
  lemma {:induction false} PaddingRest(m: seq<bv8>)
    requires |m| > 16
    ensures Padding(|m| - 16) == Padding(|m|)
  {
    assert (|m| - 16) % 16 == |m| % 16;
  }

  /* What the chunk loops leave of a message once decrypted: each chunk
     packed after padding. */
  function PackChunk(): seq<bv8> --> seq<bv32>
  {
    c requires |c| <= 16 => P.ConvertBe(P.Pad(c))
  }

  /* A full first chunk is packed without padding. */
  lemma {:induction false} PackChunkStep(m: seq<bv8>)
    requires |m| > 16
    ensures Ch.ChunkMap(PackChunk(), m) == P.ConvertBe(m[..16]) + Ch.ChunkMap(PackChunk(), m[16..])
  {
    assert P.Pad(m[..16]) == m[..16];
  }

  /* If the chunks after the first pack as the rest followed by pad, then
     all chunks pack as the message followed by pad. */
  lemma {:induction false} PaddedStep(m: seq<bv8>, pad: seq<bv8>)
    requires |m| > 16
    requires Ch.ChunkMap(PackChunk(), m[16..]) == P.ConvertBe(m[16..] + pad)
    ensures Ch.ChunkMap(PackChunk(), m) == P.ConvertBe(m + pad)
  {
    var head, rest := m[..16], m[16..] + pad;
    Ch.SplitAppend(m, pad, 16);
    PackChunkStep(m);
    P.ConvertBeAppend(head, rest);
  }

  /* A message of at most one block is one chunk, padded by Pad. */
  lemma {:induction false} PaddedShort(m: seq<bv8>)
    requires |m| <= 16
    ensures Ch.ChunkMap(PackChunk(), m) == P.ConvertBe(m + Padding(|m|))
  {
    PadPadding(m);
  }

  /* A longer message: its first chunk is a full block, and the rest keeps
     the padding of the whole. */
  lemma {:induction false} PaddedLong(m: seq<bv8>)
    requires |m| > 16
    requires Ch.ChunkMap(PackChunk(), m[16..]) == P.ConvertBe(m[16..] + Padding(|m[16..]|))
    ensures Ch.ChunkMap(PackChunk(), m) == P.ConvertBe(m + Padding(|m|))
  {
    assert |m[16..]| == |m| - 16;
    PaddingRest(m);
    PaddedStep(m, Padding(|m|));
  }

  /* Padding only the last chunk is padding the whole message. */
  lemma {:induction false} PaddedChunks(m: seq<bv8>)
    ensures Ch.ChunkMap(PackChunk(), m) == P.ConvertBe(m + Padding(|m|))
    decreases |m|
  {
    if |m| <= 16 {
      PaddedShort(m);
    } else {
      PaddedChunks(m[16..]);
      PaddedLong(m);
    }
  }
}
