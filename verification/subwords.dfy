/**
 aes_sub_word32 and aes_inverse_sub_word32: the four bytes of a word looked
 up one by one in the S-box table and in the inverse S-box table, and put
 back in place.
 */
module SubWords {
  import opened Words
  import opened SBox

  /* The inverse table aes_inverse_sub_word8 reads. The array it is scattered
     into starts out zeroed here; InverseSboxTableInverts shows that its
     prior contents do not matter. */
  function InverseSbox(): (r: seq<bv8>)
    ensures |r| == 256
  {
    InverseSboxTable(seq(256, _ => 0))
  }

  /* Each byte of w replaced by its entry in a 256-entry table, the shape
     shared by aes_sub_word32 and aes_inverse_sub_word32. */
  function Substitute(table: seq<bv8>, w: bv32): bv32
    requires |table| == 256
  {
    Word(Lookup(table, ByteAt(w, 0)), Lookup(table, ByteAt(w, 1)),
         Lookup(table, ByteAt(w, 2)), Lookup(table, ByteAt(w, 3)))
  }

  /* Byte k of the substituted word is the table entry of byte k. */
  lemma {:induction false} SubstituteBytes(table: seq<bv8>, w: bv32, k: nat)
    requires |table| == 256 && k < 4
    ensures ByteAt(Substitute(table, w), k) == Lookup(table, ByteAt(w, k))
  {
    BytesOfWord(Lookup(table, ByteAt(w, 0)), Lookup(table, ByteAt(w, 1)),
                Lookup(table, ByteAt(w, 2)), Lookup(table, ByteAt(w, 3)));
  }

  /* aes_sub_word32: `sbox[(w >> 24) & 0xff] << 24 | ... | sbox[w & 0xff]`. */
  function SubWord(w: bv32): bv32
  {
    Substitute(SboxTable(), w)
  }

  /* aes_inverse_sub_word32: the same with the inverse table. */
  function InvSubWord(w: bv32): bv32
  {
    Substitute(InverseSbox(), w)
  }

  /* Byte k of SubWord(w) is the S-box entry of byte k of w. */
  lemma {:induction false} SubWordBytes(w: bv32, k: nat)
    requires k < 4
    ensures ByteAt(SubWord(w), k) == SubByte(ByteAt(w, k))
  {
    SubstituteBytes(SboxTable(), w, k);
    SboxTableEntry(ByteAt(w, k));
  }

  /* Byte k of InvSubWord(w) is the inverse S-box entry of byte k of w. */
  lemma {:induction false} InvSubWordBytes(w: bv32, k: nat)
    requires k < 4
    ensures ByteAt(InvSubWord(w), k) == InvSubByte(ByteAt(w, k))
  {
    SubstituteBytes(InverseSbox(), w, k);
    InverseSboxTableInverts(seq(256, _ => 0), ByteAt(w, k));
  }

  /* The two word substitutions undo each other. */
  lemma {:induction false} SubWordInverts(w: bv32)
    ensures InvSubWord(SubWord(w)) == w
    ensures SubWord(InvSubWord(w)) == w
  {
    forall k: nat | k < 4
      ensures ByteAt(InvSubWord(SubWord(w)), k) == ByteAt(w, k)
      ensures ByteAt(SubWord(InvSubWord(w)), k) == ByteAt(w, k)
    {
      SubWordBytes(w, k);
      InvSubWordBytes(SubWord(w), k);
      InvSubWordBytes(w, k);
      SubWordBytes(InvSubWord(w), k);
      SubBytesInvert(ByteAt(w, k));
    }
    WordExt(InvSubWord(SubWord(w)), w);
    WordExt(SubWord(InvSubWord(w)), w);
  }
}
