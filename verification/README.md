# AES-128 of mosswg/AES, modelled in Dafny

This project models the AES-128 core of the repository:
- the arithmetic in GF(2^8) that `main.cpp` builds the cipher from:
  - reduction modulo x^8 + x^4 + x^3 + x + 1 (`gf2_8_reduce_product`);
  - shift-and-add multiplication (`gf2_8_multiplication`);
  - polynomial long division (`gf2_8_division`);
  - the extended Euclidean inverse (`gf_2_8_get_value_inverse`).
- the S-box generator and its inverse table;
- word substitution and the key expansion with its round constants;
- the four state transformations: AddRoundKey, ShiftRows, both forms of MixColumns, and their inverses;
- `aes_encrypt` and `aes_decrypt`:
  - the key-length check;
  - the 16-byte chunk loop;
  - the `0x80` padding;
  - big-endian packing with `convert_be`;
  - the ten rounds.
- the step-by-step machine of `aes.ts` (`aes_start`, `aes_step`, `aes_decrypt_step`). A web page drives it one transformation per button press.

Everything is a pure function over immutable values:
- C++ in-place updates of a `std::vector<uint32_t>` become functions from state to state.
- `exit(n)` becomes the `Exit(n)` case of `Outcomes.Outcome`.
- Bytes and words are `bv8` and `bv32`, so all wrap-around is that of the machine types.

Field elements are proved about through the datatype `Coefficients.Octet`, which holds eight coefficients. Module `Field` is an independent algebraic definition of GF(2^8) in Horner form. The loops of the source are shown to compute its operations.

Module layout, bottom up:

| module | file | contents |
|---|---|---|
| Outcomes | outcome.dfy | the result type with exit status |
| Coefficients, Polynomial | coefficients.dfy, polynomial.dfy | octets of coefficients, and 16-bit polynomials as pairs of octets |
| Field, Residue, Domain | field.dfy, residue.dfy, domain.dfy | the reference field GF(2^8), reduction modulo m(x), and the field laws |
| GaloisField | gf.dfy | `gf2_8_reduce_product`, `gf2_8_multiplication`, `gf2_8_division` |
| Inverse | inverse.dfy | `gf_2_8_get_value_inverse` and its correctness |
| ByteField | bytefield.dfy | the same operations on `bv8` |
| Words | words.dfy | bytes of a 32-bit word, rotations, `rotateleft` |
| SBox, SubWords | sbox.dfy, subwords.dfy | S-box generation, the inverse table, word substitution |
| KeySchedule | keyschedule.dfy | round constants, `aes_rot_word`, `aes_get_round_keys` |
| State | state.dfy | AddRoundKey, rows, ShiftRows and its inverse |
| ColumnAlgebra, MixColumns | columnalgebra.dfy, mixcolumns.dfy | 4x4 matrices over the field, MixColumns and its inverse |
| Iteration | iteration.dfy | the round loops and repeated steps, for any step function |
| Cipher | cipher.dfy | one block through the ten rounds and back |
| Packing | packing.dfy | `convert_be`, `unconvert_be`, the padding of one block |
| Chunking, MessagePadding | chunking.dfy, messagepadding.dfy | the chunk loops and the padding of a whole message |
| Driver | driver.dfy | `aes_encrypt` and `aes_decrypt` |
| Stepper, StepperAes | stepper.dfy, stepperaes.dfy | the flag machine of `aes.ts`, on its own and with the AES transformations |

## Model

| member | source | states |
|---|---|---|
| Words.BytesOfWord | main.cpp:13-29 | packing four bytes into a word, the first in the top byte, and reading byte k back gives byte k |
| Words.WordOfBytes | main.cpp:13-29 | every word is the packing of its four bytes, so nothing is lost by the byte view |
| Words.XorBytes | main.cpp:328-332 | exclusive or of words acts byte by byte |
| Words.SetByteBytes | main.cpp:356-361 | writing byte k of a word changes byte k to the new value and leaves the other three bytes alone |
| Words.RotateLeftBytes | main.cpp:7-11 | rotating left by i bytes moves byte (k + i) mod 4 to position k |
| Words.RotateRightBytes | main.cpp:390-403 | rotating right by i bytes moves byte (k + 4 - i) mod 4 to position k |
| Words.RotateRightUndoesLeft | main.cpp:375-403 | the right rotation of aes_reverse_shift_rows undoes the left rotation of aes_shift_rows by the same count |
| Words.RotateLeftUndoesRight | main.cpp:375-403 | the left rotation undoes the right rotation |
| GaloisField.DegreeBounds | main.cpp:160-161 | the degree loop stops at the leading coefficient: no higher coefficient is set, and the one found is set |
| GaloisField.PolynomialDegree | main.cpp:91-93 | the pre-increment degree loop finds degree 8 for the AES polynomial, so the leading-coefficient test is `value >= 256` |
| GaloisField.ReduceLoop | main.cpp:95-111 | the reduction loop ends below x^8 and each pass keeps the residue modulo m(x) |
| GaloisField.ReduceProduct | main.cpp:90-114 | gf2_8_reduce_product returns the residue of its argument modulo m(x) |
| GaloisField.ReduceFits | main.cpp:90-114 | the reduced value fits the `uint8_t` the function returns |
| GaloisField.ProductLoopSum | main.cpp:125-129 | the shift-and-add loop accumulates the carry-less product of a and b |
| GaloisField.Multiplication | main.cpp:116-135 | gf2_8_multiplication is the product of the reference field GF(2^8) |
| GaloisField.MultiplicationCommutes | main.cpp:116-133 | the product does not depend on the order of the factors |
| GaloisField.MultiplicationIdentity | main.cpp:116-133 | 1 is a neutral factor on either side |
| GaloisField.MultiplicationAbsorbs | main.cpp:116-133 | 0 times anything is 0, on either side |
| GaloisField.DivisionLoop | main.cpp:155-170 | the division loop leaves a remainder of lower degree than b and keeps a + q·b invariant |
| GaloisField.Division | main.cpp:143-173 | gf2_8_division exits with status 1 exactly when the divisor is 0 |
| GaloisField.DivisionSpec | main.cpp:143-173 | for a non-zero byte divisor the packed result holds quotient and remainder with a = q·b + r and r of lower degree |
| Inverse.Step | main.cpp:194-199 | one pass of the remainder loop leaves a remainder with fewer coefficients than the divisor, so the loop ends |
| Inverse.StepExact | main.cpp:194-199 | each division of the chain is exact: previous remainder = quotient · current remainder + next remainder |
| Inverse.ValueInverse | main.cpp:184-210 | gf_2_8_get_value_inverse exits with status 1 exactly for the value 0, whose first division is by zero |
| Inverse.ForwardAux | main.cpp:201-207 | the aux recurrence computes the Bezout coefficient carried along the chain of remainders |
| Inverse.CoprimeStart | main.cpp:184-210 | for every byte other than 0 and 1 the chain started at m(x) ends with the remainder 1, since m(x) is irreducible |
| Inverse.InverseOfOne | main.cpp:184-210 | for the value 1 the function returns 1 |
| Inverse.InverseCorrect | main.cpp:184-210 | the returned aux entry times the value is 1 for every non-zero byte: the extended Euclidean algorithm is correct |
| ByteField.Times | main.cpp:405-407 | aes_mix_column_multiply on bytes is the field product of the bytes' coefficients |
| ByteField.TimesIsMultiplication | main.cpp:405-407 | the byte product is what gf2_8_multiplication returns under the AES polynomial, as aes_mix_column_multiply calls it |
| ByteField.TimesCommutes | main.cpp:405-407 | the byte product is commutative |
| ByteField.TimesAssociates | main.cpp:405-407 | the byte product is associative |
| ByteField.TimesDistributes | main.cpp:405-407 | the byte product distributes over exclusive or on both sides, which MixColumns relies on |
| ByteField.TimesTwo | main.cpp:415-425 | multiplying by 2 is xtime: shift left and reduce by 0x11b when the top bit falls off |
| ByteField.TimesNonZero | main.cpp:405-407 | a product is zero exactly when one factor is zero |
| ByteField.Inverse | main.cpp:212-216 | the inverse aes_generate_sbox_value uses is the multiplicative inverse for non-zero bytes and 0 for 0 |
| ByteField.InverseUnique | main.cpp:184-210 | any byte whose product with v is 1 is that inverse |
| ByteField.InverseInvolutive | main.cpp:184-210 | inverting twice gives the byte back |
| SBox.AffineInverts | main.cpp:212-236 | the affine transform of the S-box is invertible, with the inverse affine transform of FIPS 197 section 5.3.2 |
| SBox.AffineStep | main.cpp:221-233 | one pass of the bit loop sets output bit `bit` of the affine transform and keeps the lower bits |
| SBox.AffineTransform | main.cpp:217-235 | the bit loop over sbox_matrix and sbox_vector computes SBox.Affine, the affine transform of FIPS 197 equation (5.1) |
| SBox.GenerateSboxValue | main.cpp:212-236 | aes_generate_sbox_value is SBox.SubByte, the affine transform of the inverse, with 0 mapped through 0 |
| SBox.SubByteZero | main.cpp:212-236 | the S-box sends 0 to 0x63 |
| SBox.SubBytesInvert | main.cpp:212-255 | the inverse S-box entry undoes the S-box entry and the other way round |
| SBox.SubByteInjective | main.cpp:239-246 | distinct bytes get distinct S-box entries, so the table is a permutation |
| SBox.SboxTable | main.cpp:239-246 | aes_generate_sbox fills 256 entries |
| SBox.SboxTableEntry | main.cpp:239-246 | entry b of the generated table is the S-box value of b |
| SBox.SboxTableInjective | main.cpp:239-246 | the generated table has no two equal entries |
| SBox.ScatterEntry | main.cpp:248-255 | after the scatter loop, slot table[p] holds p for every p the loop visited |
| SBox.InverseSboxTableInverts | main.cpp:248-255 | whatever the array held before, aes_generate_inverse_sbox leaves the inverse of the S-box, undoing it on both sides |
| SubWords.SubstituteBytes | main.cpp:265-274 | substituting a word replaces each of its bytes by its table entry and keeps it in place |
| SubWords.SubWordBytes | main.cpp:257-274 | byte k of aes_sub_word32(w) (SubWords.SubWord) is the S-box entry of byte k of w |
| SubWords.InvSubWordBytes | main.cpp:277-294 | byte k of aes_inverse_sub_word32(w) (SubWords.InvSubWord) is the inverse S-box entry of byte k of w |
| SubWords.SubWordInverts | main.cpp:257-294 | the two word substitutions undo each other |
| KeySchedule.DoubleTimesTwo | main.cpp:38-42 | the round-constant step is multiplication by x in GF(2^8) |
| KeySchedule.RoundConstantDoubles | main.cpp:31-48 | each round constant is x times the previous one |
| KeySchedule.RoundConstantValues | main.cpp:31-48 | the ten constants are 01 02 04 08 10 20 40 80 1b 36 |
| KeySchedule.RoundConstantBytes | main.cpp:46-47 | the word KeySchedule.RoundConstant of a round holds its constant in the top byte, the other bytes being zero |
| KeySchedule.RotWordBytes | main.cpp:51-53 | aes_rot_word (KeySchedule.RotWord) turns the bytes [a0, a1, a2, a3] into [a1, a2, a3, a0] |
| KeySchedule.RoundKeys | main.cpp:303-325 | aes_get_round_keys returns 4r words |
| KeySchedule.RoundKeysWords | main.cpp:309-322 | each word of the expansion is KeySchedule.NextWord of the key and the words before it |
| KeySchedule.RoundKeysFromKey | main.cpp:310-312 | the first four words of the AES-128 expansion are the key |
| KeySchedule.RoundKeysRoundWord | main.cpp:313-315 | a word at a multiple of four is w[i-4] xor SubWord(RotWord(w[i-1])) xor Rcon(i/4) |
| KeySchedule.RoundKeysOtherWord | main.cpp:319-321 | any other word is w[i-4] xor w[i-1] |
| State.AddRoundKeyInvolutive | main.cpp:328-332 | aes_add_round_key (State.AddRoundKey) applied twice with the same round key gives the state back |
| State.ExtractRowBytes | main.cpp:341-347 | byte c of the row aes_extract_row (State.ExtractRow) returns is the byte of that row in column c |
| State.EmplaceRowCell | main.cpp:356-361 | aes_emplace_row (State.EmplaceRow) writes the row's bytes in that row and leaves the other rows alone |
| State.ExtractEmplaceRow | main.cpp:341-361 | extracting a row just emplaced gives it back |
| State.EmplaceExtractRow | main.cpp:341-361 | emplacing a row extracted from the state changes nothing |
| State.ShiftRowsCell | main.cpp:375-388 | aes_shift_rows (State.ShiftRows) moves the byte in row r, column (c + r) mod 4 to column c |
| State.ReverseShiftRowsCell | main.cpp:390-403 | aes_reverse_shift_rows (State.ReverseShiftRows) moves the byte in row r, column (c + 4 - r) mod 4 to column c |
| State.ShiftRowsRow | main.cpp:375-388 | row k of the shifted state is row k rotated left by k bytes |
| State.ShiftRowsInverts | main.cpp:375-403 | aes_reverse_shift_rows undoes aes_shift_rows and the other way round |
| MixColumns.ColumnPack | main.cpp:433-446 | splitting a column word into bytes and packing them back loses nothing |
| MixColumns.MatrixColumnIsMix | main.cpp:415-425 | aes_mix_column_matrix multiplies the column by the matrix of FIPS 197 equation (5.6) |
| MixColumns.PolynomialColumnIsMix | main.cpp:433-446 | aes_mix_column_polynomial, the product with 3x^3 + x^2 + x + 2 modulo x^4 + 1, is the same matrix product |
| MixColumns.PolynomialIsMatrix | main.cpp:409-446 | the two MixColumns implementations, MixColumns.MixColumnPolynomial and MixColumns.MixColumnMatrix, agree on every column word, as the source's comments claim |
| MixColumns.InverseColumnIsInvMix | main.cpp:461-491 | the rotating-coefficient loop of aes_inverse_mix_column multiplies by the matrix of FIPS 197 equation (5.10) |
| MixColumns.InverseMixColumnUndoesMix | main.cpp:433-491 | aes_inverse_mix_column (MixColumns.InverseMixColumn) undoes aes_mix_column_polynomial on every word |
| MixColumns.MixColumnUndoesInverse | main.cpp:433-491 | aes_mix_column_polynomial undoes aes_inverse_mix_column on every word |
| MixColumns.MixColumnsInverts | main.cpp:500-553 | aes_inverse_mix_columns (MixColumns.InverseMixColumns) undoes aes_mix_columns (MixColumns.MixColumns) on whole states and the other way round |
| Iteration.BackwardUndoesForward | main.cpp:668-691 | running the decryption round loop after the encryption round loop gives the start back, when each step undoes its partner |
| Iteration.ForwardUndoesBackward | main.cpp:764-786 | the encryption loop undoes the decryption loop in the same way |
| Cipher.SubStateInverts | main.cpp:671-673 | substituting every word of the state and then inverse-substituting gives it back |
| Cipher.InverseRoundUndoes | main.cpp:668-691 | the decryption round Cipher.InverseRound undoes the encryption round Cipher.Round with the same key |
| Cipher.RoundUndoesInverse | main.cpp:764-786 | the encryption round undoes the decryption round |
| Cipher.DecryptRoundsUndo | main.cpp:668-691 | the nine-round decryption loop undoes the nine-round encryption loop |
| Cipher.EncryptRoundsUndo | main.cpp:764-786 | the encryption loop undoes the decryption loop |
| Cipher.InverseFinalRoundUndoes | main.cpp:694-709 | the first decryption steps undo the last encryption round |
| Cipher.FinalRoundUndoesInverse | main.cpp:746-761 | the last encryption round undoes the first decryption steps |
| Cipher.DecryptBlockUndoesEncrypt | main.cpp:654-794 | Cipher.DecryptBlock, the block path of aes_decrypt, gives back the block Cipher.EncryptBlock, the block path of aes_encrypt, enciphered under the same key and expansion |
| Cipher.EncryptBlockUndoesDecrypt | main.cpp:654-794 | encrypting a decrypted block gives it back |
| Packing.ConvertBe | main.cpp:13-29 | convert_be yields one word per started group of four bytes |
| Packing.ConvertBeBytes | main.cpp:13-29 | byte k of word i is input byte 4i + k, or 0 past the end: big-endian, nothing lost or invented |
| Packing.PlaceBytes | main.cpp:23 | the masked shift (Packing.Place) puts the character in byte position (bits % 32) / 8 and zeros elsewhere, whatever the sign of `char` |
| Packing.ConvertBeSnoc | main.cpp:18-26 | one pass of the loop packs one more byte |
| Packing.ConvertBeLoop | main.cpp:13-29 | the bit-counting loop of convert_be computes the packing |
| Packing.UnconvertConvert | aes.ts:120-153 | unconvert_be (Packing.UnconvertBe) of convert_be gives the bytes back when they fill whole words |
| Packing.ConvertUnconvert | aes.ts:120-153 | convert_be of unconvert_be gives the words back |
| Packing.ConvertBeAppend | main.cpp:13-29 | packing whole words and then the rest is packing the concatenation |
| Packing.Pad | main.cpp:645-651 | a short message is kept as the prefix of its 16-byte block, followed by 0x80 and then zeros |
| Packing.PadInjective | main.cpp:645-651 | two messages shorter than a block have the same padding only if they are equal |
| Packing.PadAmbiguous | main.cpp:645-651 | a 16-byte block is not padded, so the padding of a short message is itself a fixed point |
| Chunking.ChunkCount | main.cpp:637-644 | a message of n > 0 bytes makes ceil(n / 16) chunks, and the empty message makes one |
| Chunking.ChunkCountBound | main.cpp:639 | at most 16n bytes make at most n chunks, so 65535 chunks cover the `uint16_t` index range |
| Chunking.ChunkMapLength | main.cpp:637-644 | with four words per chunk, the output has four words per chunk |
| Chunking.ChunkMapBlocks | main.cpp:639-642 | words 4i .. 4i+3 of the output are the encryption of chunk i alone |
| Chunking.BlockMapLength | main.cpp:728-735 | the block loop of aes_decrypt keeps the length |
| Chunking.BlockMapBlocks | main.cpp:730-732 | words 4i .. 4i+3 of the output are the decryption of input block i alone |
| Chunking.ChunkMapRoundTrip | main.cpp:637-644 | the decryption block loop after the encryption chunk loop is the per-chunk composite applied chunk by chunk |
| MessagePadding.PaddingFills | main.cpp:637-651 | the padding makes the message a whole number of blocks, one per chunk, and is empty exactly for non-empty messages of a multiple of 16 bytes |
| MessagePadding.PadPadding | main.cpp:645-651 | for a message of at most one block this is the padding of that block |
| MessagePadding.PaddingRest | main.cpp:637-651 | the padding of a long message is that of what follows its first chunk |
| MessagePadding.PaddedChunks | main.cpp:637-651 | padding only the last chunk and packing chunk by chunk is packing the whole padded message |
| Driver.TablesInvert | main.cpp:239-255 | the generated S-box and inverse S-box undo each other |
| Driver.ExpandKey | main.cpp:654-656 | the key expansion for AES-128 holds 44 words |
| Driver.SingleRoundTrip | main.cpp:624-794 | Driver.DecryptSingle of Driver.EncryptSingle, the one-chunk paths of aes_decrypt and aes_encrypt, gives back the padded block of a message of at most 16 bytes |
| Driver.EncryptWith | main.cpp:624-712 | exit status 5 exactly for a key that is not 16 bytes; otherwise four words per chunk |
| Driver.DecryptWith | main.cpp:715-794 | exit status 5 exactly for a key that is not 16 bytes; otherwise as many words out as in |
| Driver.Encrypt | main.cpp:624-712 | the same with the generated S-box |
| Driver.Decrypt | main.cpp:715-794 | the same with the generated tables |
| Driver.EncryptBlocks | main.cpp:637-644 | each output block is the single-block encryption of one chunk under the key words Driver.KeyWords packs with convert_be: electronic codebook mode |
| Driver.DecryptBlocks | main.cpp:728-735 | each output block is the single-block decryption of one input block |
| Driver.ChunkRoundTrip | main.cpp:624-794 | per chunk, decryption after encryption gives the packed padded chunk |
| Driver.EncryptThenDecryptWith | main.cpp:624-794 | aes_decrypt of aes_encrypt under the same key gives back the message with its padding, packed into words, for any tables that invert each other |
| Driver.EncryptThenDecrypt | main.cpp:796-806 | the same with the generated tables, the round trip main performs |
| Stepper.KeyAtRoundKey | aes.ts:477-482 | `round_keys.slice(start)` read four words deep is the round key inside the expansion and zeros past its end |
| Stepper.Step | aes.ts:911-914 | aes_step, which runs Stepper.EncryptStep or, with `decrypt` set, aes_decrypt_step (Stepper.DecryptStep), never changes the round keys or the direction, and `done` stays set once set |
| Stepper.RunAdd | aes.ts:911-1057 | a + b presses of the step button are a presses followed by b more |
| Stepper.ReachedNext | aes.ts:938-998 | the state entering round r + 1 is the state entering round r after SubBytes, ShiftRows, MixColumns and the key of round r |
| Stepper.FirstStep | aes.ts:926-937 | the first press adds the first round key |
| Stepper.EncryptRoundSteps | aes.ts:938-998 | four presses make one full round and move to the next |
| Stepper.EncryptRoundsSteps | aes.ts:938-998 | the rounds follow one another, four presses each |
| Stepper.EncryptLastSteps | aes.ts:1000-1046 | the last round takes three presses, one more sets `done`, and later presses change nothing |
| Stepper.EncryptTrace | aes.ts:911-1057 | from aes_start, 40 presses encrypt the block and the 41st sets `done` |
| Stepper.DecryptFirstSteps | aes.ts:1072-1114 | the first three decryption presses undo the last key, the last shift and the last substitution |
| Stepper.DecryptRoundSteps | aes.ts:1116-1173 | four decryption presses undo one full round, moving down one round |
| Stepper.DecryptRoundsSteps | aes.ts:1116-1173 | the decryption rounds follow one another down to round 0 |
| Stepper.DecryptLastStep | aes.ts:1175-1190 | the last decryption press removes the first round key, and the next one only sets `done` |
| Stepper.DecryptRounds | aes.ts:1059-1173 | 39 decryption presses bring back the state just after the first round key |
| Stepper.DecryptTrace | aes.ts:1059-1202 | after the decrypt flag is set, 40 presses give back the original block with every flag cleared and the 41st sets `done` |
| Stepper.RoundTrip | aes.ts:911-1202 | encryption to `done`, the decrypt flag, and 40 presses give back the starting block |
| StepperAes.Start | aes.ts:880-909 | aes_start packs the padded message, expands the key with the key words first, and clears every flag |
| StepperAes.AesTransformsUndo | aes.ts:911-1202 | each inverse transformation the decryption steps use undoes its forward one |
| StepperAes.AesKeys | aes.ts:983 | the slices the stepper reads are the round keys aes_encrypt reads |
| StepperAes.StepperEncrypts | aes.ts:880-1057 | for the same S-box table, 40 presses from aes_start end with exactly the block aes_encrypt of main.cpp computes for the same key words and message; with the table main.cpp generates, that is main.cpp's cipher |
| StepperAes.StepperDecrypts | aes.ts:880-1202 | encrypting with the stepper, setting the decrypt flag, and 40 presses give back the packed padded message, which unconvert_be turns into that message |

## Left out

- `sha256`, `digest_key` and `string_to_num_array` of `aes.ts`: the stepper hashes its key text. StepperAes.Start takes the four key words instead.
- Page rendering is left out: the jQuery calls, `display_*` and the `prestep_state` field.
- `aes_substep` of `aes.ts` is left out. It is a second driver of the same machine, one column per press: it writes `state.state` one word at a time (aes.ts:1224, 1247, 1315) and advances the shared flags `first_round_key`, `round_step`, `round` and `last_sub` (aes.ts:1231-1234, 1324-1325, 1332, 1353). The `substep_index` field it counts with is also reset by `aes_step` and `aes_decrypt_step` (aes.ts:925, 1071); the model leaves that field out with it. Stepper models only the whole-step driver.
- An observation on `aes_substep`: after the Add Round Key of round 9 its case 3 sets `round_step` to 0 whatever the round (aes.ts:1324). `aes_step` keeps 3 there so that decryption starts in the right state (aes.ts:989-991). On our reading, a decryption run after a substep-driven encryption would begin its rounds with the inverse substitution where the Add Round Key of round 9 belongs. This is a reading of the text and was not executed.
- Console and stream output (`aes_print_state`, the log lines, the error messages) is left out, and `main` is taken only as the round trip it performs (Driver.EncryptThenDecrypt).
- Driver.EncryptThenDecrypt shows that `main` gets its message back, but the model does not prove the known answer for `main`'s two strings (main.cpp:797-799). Encrypting "Two One Nine Two" under the key "Thats my Kung Fu" should give the published AES-128 ciphertext 29c3505f 571420f6 402299b3 1a02d73a. No lemma states that value. The run looks up 200 S-box entries, 160 in the rounds and 40 in the key expansion. The verifier cannot evaluate a field inversion at a constant directly, so each entry needs a proof of its own, and with the ten constant rounds they cost more verification time than the rest of the model.
- The literal `sbox` and `inverse_sbox` arrays of `aes.ts` (aes.ts:198-232) are left out. The model uses the tables `main.cpp` generates. Cipher and Driver take any pair of tables that invert each other. Showing that the 256 literal entries equal the generated ones needs a separate proof for each entry, because the verifier cannot evaluate a field inversion across the whole table at once, and 510 such proofs cost more verification time than the rest of the model.
- StepperAes.StepperEncrypts holds for whatever S-box table the stepper is given. It is not shown that the literal `sbox` of `aes.ts` is the table `main.cpp` generates, so it ties the stepper to `main.cpp` only for the generated table.
- StepperAes.StepperDecrypts requires tables that invert each other. It is not shown that the literal `sbox` and `inverse_sbox` of `aes.ts` do; Driver.TablesInvert shows it for the generated tables.
- The field and word functions that `aes.ts` repeats are taken to be the `main.cpp` ones: `gf2_8_reduce_product` and `gf2_8_multiplication` (aes.ts:235-280), `aes_get_round_constants`, `aes_rot_word` and `aes_get_round_keys` (aes.ts:155-180, 453-474), and `aes_sub_word32`, `aes_add_round_key`, the row functions, `aes_shift_rows`, the MixColumns functions and their inverses (aes.ts:403-711). They are the same loops. Their JavaScript numbers stay below 2^16 before `<<` and `>>>` turn them into 32-bit words, and the shift `row >>> 32` for row 0 shifts by 0, which leaves row 0 unchanged as the model does.
- The constant-table alternative of the S-box is left out: it is commented out in `main.cpp`. The commented-out alternatives of `aes_inverse_mix_column`, `aes_extract_column` and `aes_emplace_column` are left out for the same reason.
- `aes_encrypt` and `aes_decrypt` of `aes.ts` are left out; the `main.cpp` functions are the reference. Their one-block paths are Driver.EncryptSingle and Driver.DecryptSingle with three differences: the key words are the first four words of `convert_be(digest_key(key))`, the SHA-256 hash of the key text (aes.ts:806, 1472), so there is no key-length check and no exit 5; the S-box is the literal `sbox`/`inverse_sbox` of `aes.ts`, so the gap stated for StepperAes.StepperEncrypts applies here too; and the results are only logged with `console.log`.
- The chunk paths of `aes_encrypt` and `aes_decrypt` differ from `main.cpp` and are not modelled. `aes_encrypt` splits a long message as `main.cpp` does, with `message.substr(chunk_index * 16, 16)` (aes.ts:791), but `out.concat(sub_result)` returns a new array that is thrown away (aes.ts:792), so a message longer than 16 characters encrypts to `[]`. `aes_decrypt` discards its chunks in the same way (aes.ts:1467), and `data.slice(chunk_index * 16, 16)` (aes.ts:1466) takes the range from word `16 * chunk_index` to word 16, not 16 words; for chunk 0 of an input longer than 4 words that is again more than 4 words, so on our reading the call recurses without shrinking its input. This is a reading of the text and was not executed.
- Driver.EncryptWith requires at most 65535 chunks, and DecryptWith at most 65535 blocks. With a `uint16_t` chunk index the loop never ends for longer input.
- Driver.DecryptWith requires a whole number of blocks, at least one. For other lengths `aes_decrypt` reads past the end of its vector, which is undefined behaviour.
- KeySchedule.RoundKeys does not model the last pass of the expansion loop. The loop runs `round <= n * r`, which writes `w[4r]` and reads `rc[r]`, both one past the end; `aes_get_round_constants` also writes `rc[r]`. The model computes the 4r words the vector holds, and the extra accesses touch only memory outside them.
- Words.RotateBytesLeft does not model the shift by 32 for row 0 in `aes_shift_rows` and `aes_reverse_shift_rows`, which is undefined in C++. The model gives row 0 unchanged, the result wherever the shift count is reduced modulo 32 as on x86.
- Packing.Place treats each character as the byte it holds. In `convert_be` (main.cpp:13-29) the `char` is promoted to a signed `int` before `<< (24 - bits % 32)`. A negative `char` sign-extends, and a byte of 0x80 or more shifted by 24 reaches the sign bit. The mask `& (0xff << …)` that follows keeps only the eight bits of the character in place, so the result is the same as the model's.
- KeySchedule.RoundConstant gives round 8 the word 0x80000000. In `aes_get_round_constants` (main.cpp:46) the `uint8_t` constant 0x80 is promoted to a signed `int` before `<< 24`, which overflows; C++ before C++20 leaves that undefined. The model takes the bit pattern 0x80000000, which is what the rest of the code expects.
- GaloisField fixes the modulus to the AES polynomial 0x11b. The source's `gf2_8_reduce_product` and `gf2_8_multiplication` take the polynomial as a parameter, but every call passes `AES_IRREDUCIBLE_POLYNOMIAL`.
- StepperAes.Start requires a message of at most 16 bytes. For longer text `aes_start` only logs a warning and goes on with a longer state, which the page never shows.
- StepperAes.Start expands the key to 44 words. The `aes.ts` loop computes a 45th word, which no step reads.
- The stepper's `decrypt` flag is set by page code outside `aes.ts`. The model sets it on the machine once encryption has run its 41 steps.
- JavaScript numbers are modelled as 32-bit words. Every value the stepper computes is built from bytes and stays within 32 bits.
- Characters above 255 in the JavaScript strings are left out: the model works on bytes.
