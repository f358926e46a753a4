/**
 aes_encrypt and aes_decrypt of main.cpp as a whole: the key check, the
 chunking of long inputs, the padding of a short last chunk, the packing of
 the key and the block with convert_be, and the key expansion, around the
 single-block cipher of module Cipher. The S-box tables are the ones the
 program generates.
 */
module Driver {
  import opened Outcomes
  import opened SBox
  import opened SubWords
  import opened State
  import P = Packing
  import KS = KeySchedule
  import C = Cipher
  import Ch = Chunking
  import MP = MessagePadding

  /* `uint16_t chunk_index`: the chunk loops end only if every chunk index
     fits in 16 bits, which bounds the input to 65535 chunks. */
  const MaxChunks := 65535

  /* The generated S-box and inverse S-box undo each other. */
  lemma {:induction false} TablesInvert()
    ensures C.Inverts(SboxTable(), InverseSbox()) && C.Inverts(InverseSbox(), SboxTable())
  {
    forall b: bv8
      ensures Lookup(InverseSbox(), Lookup(SboxTable(), b)) == b
      ensures Lookup(SboxTable(), Lookup(InverseSbox(), b)) == b
    {
      InverseSboxTableInverts(seq(256, _ => 0), b);
    }
  }

  /* `convert_be(key)` for a key of 16 bytes: its four words. */
  function KeyWords(key: seq<bv8>): State
    requires |key| == 16
  {
    P.ConvertBe(key)
  }

  /* `aes_get_round_keys(key_len, key_uint, rounds + 1)`. */
  function ExpandKey(table: seq<bv8>, key: State): (w: seq<bv32>)
    requires |table| == 256
    ensures |w| == 44
  {
    KS.RoundKeys(4, key, 11, table)
  }

  /* aes_encrypt on a message of at most 16 bytes: padded to a block,
     packed with convert_be and enciphered under the key words. */
  function EncryptSingle(table: seq<bv8>, key: State, m: seq<bv8>): State
    requires |table| == 256 && |m| <= 16
  {
    C.EncryptBlock(table, key, ExpandKey(table, key), P.ConvertBe(P.Pad(m)))
  }

  /* aes_decrypt on one block of four words. The round keys are expanded
     with the forward table; the rounds use the inverse one. */
  function DecryptSingle(table: seq<bv8>, inverse: seq<bv8>, key: State, d: State): State
    requires |table| == 256 && |inverse| == 256
  {
    C.DecryptBlock(inverse, key, ExpandKey(table, key), d)
  }

  /* Decrypting an encrypted message of at most 16 bytes gives back the
     packing of the padded message. */
  lemma {:induction false} SingleRoundTrip(table: seq<bv8>, inverse: seq<bv8>, key: State, m: seq<bv8>)
    requires C.Inverts(table, inverse) && |m| <= 16
    ensures DecryptSingle(table, inverse, key, EncryptSingle(table, key, m)) == P.ConvertBe(P.Pad(m))
  {
    C.DecryptBlockUndoesEncrypt(table, inverse, key, ExpandKey(table, key), P.ConvertBe(P.Pad(m)));
  }

  /* The per-chunk and per-block steps as the chunk loops apply them. */
  function EncryptChunk(table: seq<bv8>, key: State): seq<bv8> --> seq<bv32>
    requires |table| == 256
  {
    c requires |c| <= 16 => EncryptSingle(table, key, c)
  }

  function DecryptChunk(table: seq<bv8>, inverse: seq<bv8>, key: State): seq<bv32> --> seq<bv32>
    requires |table| == 256 && |inverse| == 256
  {
    d requires |d| == 4 => DecryptSingle(table, inverse, key, d)
  }

  /* aes_encrypt(message, key) with the S-box table as a parameter: exit
     status 5 for a key that is not 16 bytes, checked before anything else;
     otherwise four words per chunk. */
  function EncryptWith(table: seq<bv8>, message: seq<bv8>, key: seq<bv8>): (r: Outcome<seq<bv32>>)
    requires |table| == 256 && (|key| == 16 ==> |message| <= 16 * MaxChunks)
    ensures r.Exit? <==> |key| != 16
    ensures r.Exit? ==> r.code == 5
    ensures r.Ok? ==> |r.value| == 4 * Ch.ChunkCount(|message|)
    ensures r.Ok? ==> |r.value| % 4 == 0 && 4 <= |r.value| <= 4 * MaxChunks
  {
    if |key| != 16 then Exit(5)
    else
      var f := EncryptChunk(table, KeyWords(key));
      Ch.ChunkMapLength(f, message);
      Ch.ChunkCountBound(|message|, MaxChunks);
      Ok(Ch.ChunkMap(f, message))
  }

  /* aes_decrypt(data, key) with the tables as parameters: exit status 5 for
     a key that is not 16 bytes; otherwise each block of four words
     decrypted on its own. With a good key the program reads past the end
     of `data` unless it is a whole number of blocks, at least one, and its
     chunk loop ends only for at most 65535 blocks. */
  function DecryptWith(table: seq<bv8>, inverse: seq<bv8>, data: seq<bv32>, key: seq<bv8>): (r: Outcome<seq<bv32>>)
    requires |table| == 256 && |inverse| == 256
    requires |key| == 16 ==> |data| % 4 == 0 && 4 <= |data| <= 4 * MaxChunks
    ensures r.Exit? <==> |key| != 16
    ensures r.Exit? ==> r.code == 5
    ensures r.Ok? ==> |r.value| == |data|
  {
    if |key| != 16 then Exit(5)
    else
      var g := DecryptChunk(table, inverse, KeyWords(key));
      Ch.BlockMapLength(g, data);
      Ok(Ch.BlockMap(g, data))
  }

  /* aes_encrypt and aes_decrypt with the generated tables. */
  function Encrypt(message: seq<bv8>, key: seq<bv8>): (r: Outcome<seq<bv32>>)
    requires |key| == 16 ==> |message| <= 16 * MaxChunks
    ensures r.Exit? <==> |key| != 16
    ensures r.Exit? ==> r.code == 5
    ensures r.Ok? ==> |r.value| == 4 * Ch.ChunkCount(|message|)
    ensures r.Ok? ==> |r.value| % 4 == 0 && 4 <= |r.value| <= 4 * MaxChunks
  {
    EncryptWith(SboxTable(), message, key)
  }

  function Decrypt(data: seq<bv32>, key: seq<bv8>): (r: Outcome<seq<bv32>>)
    requires |key| == 16 ==> |data| % 4 == 0 && 4 <= |data| <= 4 * MaxChunks
    ensures r.Exit? <==> |key| != 16
    ensures r.Exit? ==> r.code == 5
    ensures r.Ok? ==> |r.value| == |data|
  {
    DecryptWith(SboxTable(), InverseSbox(), data, key)
  }

  /* Chunk i of the message is enciphered on its own into words 4i .. 4i + 3
     of the output: the same chunk under the same key always gives the same
     block. */
  lemma {:induction false} EncryptBlocks(table: seq<bv8>, message: seq<bv8>, key: seq<bv8>, i: nat)
    requires |table| == 256 && |key| == 16 && |message| <= 16 * MaxChunks && i < Ch.ChunkCount(|message|)
    ensures EncryptWith(table, message, key).value[4 * i .. 4 * i + 4] == EncryptSingle(table, KeyWords(key), Ch.Chunk(message, i))
  {
    Ch.ChunkMapBlocks(EncryptChunk(table, KeyWords(key)), message, i);
  }

  /* Block i of the input is deciphered on its own into words 4i .. 4i + 3. */
  lemma {:induction false} DecryptBlocks(table: seq<bv8>, inverse: seq<bv8>, data: seq<bv32>, key: seq<bv8>, i: nat)
    requires |table| == 256 && |inverse| == 256
    requires |key| == 16 && |data| % 4 == 0 && 4 <= |data| <= 4 * MaxChunks && 4 * i + 4 <= |data|
    ensures |data[4 * i .. 4 * i + 4]| == 4
    ensures DecryptWith(table, inverse, data, key).value[4 * i .. 4 * i + 4] == DecryptSingle(table, inverse, KeyWords(key), data[4 * i .. 4 * i + 4])
  {
    Ch.BlockMapBlocks(DecryptChunk(table, inverse, KeyWords(key)), data, i);
  }

  /* The per-chunk steps undo each other up to padding and packing. */
  lemma {:induction false} ChunkRoundTrip(table: seq<bv8>, inverse: seq<bv8>, k: State)
    requires C.Inverts(table, inverse)
    ensures forall c: seq<bv8> :: |c| <= 16 ==> DecryptChunk(table, inverse, k)(EncryptChunk(table, k)(c)) == MP.PackChunk()(c)
  {
    forall c: seq<bv8> | |c| <= 16
      ensures DecryptChunk(table, inverse, k)(EncryptChunk(table, k)(c)) == MP.PackChunk()(c)
    {
      SingleRoundTrip(table, inverse, k, c);
    }
  }

  /* Decrypting the encryption of a message with the same 16-byte key gives
     the packing of the message followed by its padding, for any tables that
     undo each other ... */
  lemma {:induction false} EncryptThenDecryptWith(table: seq<bv8>, inverse: seq<bv8>, message: seq<bv8>, key: seq<bv8>)
    requires C.Inverts(table, inverse) && |key| == 16 && |message| <= 16 * MaxChunks
    ensures EncryptWith(table, message, key).Ok?
    ensures DecryptWith(table, inverse, EncryptWith(table, message, key).value, key) == Ok(P.ConvertBe(message + MP.Padding(|message|)))
  {
    var k := KeyWords(key);
    ChunkRoundTrip(table, inverse, k);
    Ch.ChunkMapRoundTrip(EncryptChunk(table, k), DecryptChunk(table, inverse, k), MP.PackChunk(), message);
    MP.PaddedChunks(message);
  }

  /* ... and so for the generated tables. */
  lemma {:induction false} EncryptThenDecrypt(message: seq<bv8>, key: seq<bv8>)
    requires |key| == 16 && |message| <= 16 * MaxChunks
    ensures Encrypt(message, key).Ok?
    ensures Decrypt(Encrypt(message, key).value, key) == Ok(P.ConvertBe(message + MP.Padding(|message|)))
  {
    TablesInvert();
    EncryptThenDecryptWith(SboxTable(), InverseSbox(), message, key);
  }
}
