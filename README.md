# RC5 and RC6 ciphers of the encryption server

This project models the two block ciphers behind the server's encryption layer:

- `Server/Encryption/RC5.py`: the class `RC5`. Its constructor aligns the key into words (`__keyAlign`) and extends the magic constants into the table `S` (`__keyExtend`). It then mixes both tables in place (`__shuffle`). The class encrypts and decrypts one block (`encryptBlock`, `decryptBlock`) and byte buffers of any length (`encryptBytes`, `decryptBytes`). The word width is 16, 32 or 64 bits.
- `Server/Encryption/RC6.py`: the class `RC6Encryption` with `w_bit = 32` and `lgw = 5`. This covers:
  - the byte/word helpers `get_blocks`, `blocks_to_data` and `enumerate_blocks`;
  - the rotations;
  - `key_generation`;
  - one-block `encrypt` and `decrypt`;
  - ECB and CBC modes with PKCS#5/#7 padding (RFC 5652, section 6.3).

Each source file is modelled twice:

- Pure specification modules (`RC5Spec`, `RC6Words`, `RC6Spec`, `Pkcs`, `RC6Modes`) define what the code computes as functions, including every exception it raises (`Results.Result`). Python's `ValueError`, `IndexError`, `OverflowError` and `ZeroDivisionError` are kept apart.
- Imperative modules (`RC5Cipher`, `RC6Cipher`) hold the classes. Their fields are updated in place by the constructor and key-schedule methods. Their methods run the same loops as the Python code and are proved to return exactly what the specification functions return.

The cipher properties are proved about the specification functions:

- the rotations invert each other;
- decryption undoes encryption block by block, in ECB and in CBC;
- padding round-trips;
- the output lengths;
- which inputs raise which exception.

Python's unbounded integers are modelled as `nat`/`int`. The code's masks (`& mask`), shifts and `% 2**w` reductions are written out (`Bits.Mask`, `Bits.Shl`, `Bits.Shr`, `% WordModulus`). Bitwise `|` and `^` are defined bit by bit (`Bits.Or`, `Bits.Xor`).

Behaviour of the code that the model keeps as written:

- `RC5.decryptBytes` always strips trailing zero bytes, whatever `strip_extra_nulls` says. So `decryptBytes(encryptBytes(m))` is `m` without its trailing zero bytes (`RC5Spec.DecryptEncryptBytes`).
- `RC5.encryptBytes` encrypts a short last chunk as it is; `ljust` pads a variable that is not used again. Reading a short block gives the same words as reading it zero-padded (`RC5Spec.EncryptShortBlock`). Empty input gives one block.
- `remove_pkcs_padding` does not check the padding bytes. It drops as many bytes as the last byte says, and gives the empty string when that byte is 0 or at least the length.
- `enumerate_blocks` is a generator. So `data_decryption_CBC` raises in the order the loop meets problems: the IV's `get_blocks`, then the first data block (`ValueError`), then `iv[3]` on an IV of 12 bytes or fewer (`IndexError`), then a later incomplete block. `RC6Modes.CbcDecryptOutcome` states the resulting conditions.
- An IV passed to `data_encryption_CBC` is repeated or cut to 16 bytes. An empty IV raises `ZeroDivisionError`.

## Model

| member | source | states |
|---|---|---|
| RC5Spec.WidthBytes | Server/Encryption/RC5.py:6-15 | for each supported width, a word is `w/8` whole bytes and a block (`w4`) is two words |
| RC5Spec.Lshift | Server/Encryption/RC5.py:22-24 | `__lshift` always yields a `w`-bit word, whatever the value and shift |
| RC5Spec.Rshift | Server/Encryption/RC5.py:26-28 | `__rshift` always yields a `w`-bit word |
| RC5Spec.LshiftRotates | Server/Encryption/RC5.py:22-24 | `__lshift(val, n)` is the `w`-bit rotation of `val & mask` left by `n % w` |
| RC5Spec.RshiftRotates | Server/Encryption/RC5.py:26-28 | `__rshift(val, n)` is the `w`-bit rotation of `val & mask` right by `n % w` |
| RC5Spec.RshiftLshift | Server/Encryption/RC5.py:22-28 | a right rotation by `n` undoes a left rotation by `n`, up to the mask |
| RC5Spec.RshiftResidue | Server/Encryption/RC5.py:26-28 | `__rshift` only sees `val` modulo 2^w, so negative differences rotate like their residues |
| RC5Spec.Const | Server/Encryption/RC5.py:30-36 | constants exist exactly for w in {16, 32, 64}; P and Q are odd `w`-bit words |
| RC5Spec.PaddedKey | Server/Encryption/RC5.py:38-46 | the key padded with fewer than `w8` zero bytes to a multiple of `w8`, keeping the key as its prefix |
| RC5Spec.WordsAt | Server/Encryption/RC5.py:47-49 | word `k` of the aligned key is the little-endian value of bytes `k*w8 .. k*w8+w8` |
| RC5Spec.WordsLength | Server/Encryption/RC5.py:44-49 | the padded key gives `b / w8` words, each a `w`-bit word |
| RC5Spec.AlignKeyShape | Server/Encryption/RC5.py:38-50 | `L` is `[0]` for an empty key, otherwise `ceil(b / w8)` little-endian words of the padded key |
| RC5Spec.ExtendKeyRecurrence | Server/Encryption/RC5.py:52-54 | `S` has `T` words, `S[0] = P`, and each word is the previous plus `Q` modulo 2^w |
| RC5Spec.Mix | Server/Encryption/RC5.py:56-62 | the mixing loop keeps both table sizes and keeps both cursors inside their tables |
| RC5Spec.MixNext | Server/Encryption/RC5.py:58-62 | one more iteration of `__shuffle` is one more step, and the state stays well formed |
| RC5Spec.MixStepBounds | Server/Encryption/RC5.py:59-60 | one step writes `w`-bit words into `S` and `L` |
| RC5Spec.MixBounds | Server/Encryption/RC5.py:56-62 | after any number of iterations, both tables hold only `w`-bit words |
| RC5Spec.KeyScheduleShape | Server/Encryption/RC5.py:11-20 | the constructor leaves `S` with `2(R+1)` words and `L` with at least one, all `w`-bit words |
| RC5Spec.EncRound | Server/Encryption/RC5.py:70-71 | a round yields two `w`-bit words |
| RC5Spec.EncRounds | Server/Encryption/RC5.py:69-71 | rounds 1..n yield two `w`-bit words |
| RC5Spec.EncRoundMod | Server/Encryption/RC5.py:70-71 | the round, written with the source's `% self.mod`, equals the round with the mask |
| RC5Spec.EncRoundsNext | Server/Encryption/RC5.py:69-71 | the rounds unfold one round at a time, in increasing order |
| RC5Spec.EncryptBlock | Server/Encryption/RC5.py:64-73 | `encryptBlock` always returns `w/4` bytes |
| RC5Spec.DecryptBlock | Server/Encryption/RC5.py:75-84 | `decryptBlock` always returns `w/4` bytes |
| RC5Spec.UnmixWord | Server/Encryption/RC5.py:70-80 | subtracting the round key and rotating right undoes rotating left and adding it |
| RC5Spec.UnmixLine | Server/Encryption/RC5.py:70-80 | each line of `decryptBlock`'s loop undoes the matching line of `encryptBlock`'s |
| RC5Spec.RoundInverse | Server/Encryption/RC5.py:69-80 | a decryption round undoes the encryption round with the same index |
| RC5Spec.DecRoundsEncRounds | Server/Encryption/RC5.py:69-80 | running rounds R..1 backwards undoes rounds 1..R |
| RC5Spec.SplitBlockJoin | Server/Encryption/RC5.py:65-73 | splitting a full block into A and B and writing them back gives the block |
| RC5Spec.SplitJoin | Server/Encryption/RC5.py:65-84 | reading back the bytes of two words gives those words |
| RC5Spec.DecryptEncryptBlock | Server/Encryption/RC5.py:64-84 | `decryptBlock(encryptBlock(block)) == block` for every full block |
| RC5Spec.SplitBlockZeros | Server/Encryption/RC5.py:65-66 | a short block reads as the same two words as the block zero-padded to `w/4` bytes |
| RC5Spec.EncryptShortBlock | Server/Encryption/RC5.py:113-117 | encrypting the short last chunk equals encrypting it zero-padded to a full block |
| RC5Spec.RStripZeros | Server/Encryption/RC5.py:133 | `rstrip(b'\x00')` keeps a prefix that is empty or ends in a non-zero byte, and removes only zero bytes |
| RC5Spec.EncryptBytesStep | Server/Encryption/RC5.py:110-121 | `encryptBytes` is the block of the first chunk followed by `encryptBytes` of the rest |
| RC5Spec.DecryptChunksStep | Server/Encryption/RC5.py:123-132 | `decryptBytes`' loop is the block of the first chunk followed by the loop on the rest |
| RC5Spec.EncryptBytesLength | Server/Encryption/RC5.py:110-121 | `encryptBytes(m)` has `(w/4) * max(1, ceil(len(m) / (w/4)))` bytes |
| RC5Spec.CipherLengthOne | Server/Encryption/RC5.py:114-120 | input of at most one chunk encrypts to one block |
| RC5Spec.CipherLengthNext | Server/Encryption/RC5.py:117-118 | each further chunk adds one block |
| RC5Spec.DecryptChunksEncrypt | Server/Encryption/RC5.py:110-132 | decrypting the chunks of `encryptBytes(m)` gives `m` followed by zero bytes |
| RC5Spec.RStripZerosAppend | Server/Encryption/RC5.py:133 | appended zero bytes make no difference to `rstrip` |
| RC5Spec.RStripZerosUnchanged | Server/Encryption/RC5.py:133 | `rstrip` leaves bytes unchanged exactly when they are empty or end in a non-zero byte |
| RC5Spec.DecryptEncryptBytes | Server/Encryption/RC5.py:110-133 | `decryptBytes(encryptBytes(m))` is `m` without trailing zero bytes, and is `m` exactly when `m` does not end in a zero byte |
| RC5Cipher.AlignStep | Server/Encryption/RC5.py:48-49 | one iteration of `__keyAlign`'s backward loop shifts byte `i` into word `i // w8` and changes no other word |
| RC5Cipher.AlignEnds | Server/Encryption/RC5.py:47-50 | before the loop every word is 0; after it word `k` is the little-endian value of its bytes |
| RC5Cipher.AlignPadding | Server/Encryption/RC5.py:39-46 | the padding appends `w8 - b % w8` zero bytes only when `b % w8 != 0`, and `c = b // w8` |
| RC5Cipher.AlignResult | Server/Encryption/RC5.py:47-50 | the words the loop builds are the aligned key `L` |
| RC5Cipher.LoadWords | Server/Encryption/RC5.py:47-49 | the loop produces `c` words: `[0]` for an empty key, otherwise each word's little-endian bytes |
| RC5Cipher.RC5.constructor | Server/Encryption/RC5.py:5-20 | a supported width gives an object whose constants, padded key and tables are those of the key schedule, all `w`-bit words |
| RC5Cipher.RC5.KeyAlign | Server/Encryption/RC5.py:38-50 | `key`, `b`, `c` and `L` become the padded key, its length, its word count and its words; `S` is unchanged |
| RC5Cipher.RC5.KeyExtend | Server/Encryption/RC5.py:52-54 | `S` becomes the arithmetic progression of P and Q modulo 2^w; nothing else changes |
| RC5Cipher.RC5.Shuffle | Server/Encryption/RC5.py:56-62 | `S` and `L` become the tables after `3 * max(c, T)` mixing iterations; the key fields are unchanged |
| RC5Cipher.RC5.EncryptBlock | Server/Encryption/RC5.py:64-73 | the loop returns `RC5Spec.EncryptBlock` of the data, `w4` bytes |
| RC5Cipher.RC5.DecryptBlock | Server/Encryption/RC5.py:75-84 | the loop returns `RC5Spec.DecryptBlock` of the data, `w4` bytes |
| RC5Cipher.RC5.EncryptBytes | Server/Encryption/RC5.py:110-121 | the chunk loop returns `RC5Spec.EncryptBytes`, of the length `CipherLength` gives |
| RC5Cipher.RC5.DecryptBytes | Server/Encryption/RC5.py:123-133 | the chunk loop and final strip return `RC5Spec.DecryptBytes` |
| RC5Cipher.Create | Server/Encryption/RC5.py:5-60 | construction fails exactly for an unsupported width or a negative round count, with the error the class raises: `ZeroDivisionError` for `0 <= w < 8` and `IndexError` for `w < 0` when the key is non-empty, otherwise `TypeError` for an unsupported width and `IndexError` for a negative round count; on success the object is valid and keeps its arguments |
| LittleEndian.FromLEToLE | Server/Encryption/RC5.py:72-77 | `int.from_bytes(x.to_bytes(n, 'little'), 'little') == x` for `x < 2^(8n)` |
| LittleEndian.ToLEFromLE | Server/Encryption/RC5.py:65-73 | bytes read as a little-endian integer and written back are unchanged |
| LittleEndian.FromLEZeros | Server/Encryption/RC5.py:65-66 | trailing zero bytes do not change `int.from_bytes(.., 'little')` |
| Pkcs.Pad | Server/Encryption/RC6.py:343-351 | padding succeeds exactly when `size > 0` and the pad count fits in one byte |
| Pkcs.Unpad | Server/Encryption/RC6.py:335-340 | removing padding fails only on empty data; the result is a proper prefix, `len - data[-1]` bytes long when `0 < data[-1] < len`, and empty when `data[-1] == 0` or `data[-1] >= len` |
| Pkcs.PadShape | Server/Encryption/RC6.py:343-351 | padding appends `p = size - len % size` bytes of value `p`, `1 <= p <= size`, to a multiple of `size`, and a whole block when the input is aligned |
| Pkcs.Pad16 | Server/Encryption/RC6.py:343-351 | the 16-byte padding the modes use never fails and gives whole blocks |
| Pkcs.UnpadPad | Server/Encryption/RC6.py:335-351 | `remove_pkcs_padding(pkcs5_7padding(m, size)) == m` |
| RC6Words.BinDigits | Server/Encryption/RC6.py:102 | `f"{char:0>8b}"` has exactly 8 digits |
| RC6Words.BaseTwo | Server/Encryption/RC6.py:36 | on the strings `get_blocks` builds, which hold only binary digits, `int(s, 2)` fails exactly on the empty one |
| RC6Words.BinLE | Server/Encryption/RC6.py:97-102 | a group's string has 8 digits per byte |
| RC6Words.BinDigitsValue | Server/Encryption/RC6.py:102 | the digits parse back to the byte's value |
| RC6Words.BinValueLast | Server/Encryption/RC6.py:36 | the value of a binary string is twice the value of its prefix plus its last digit |
| RC6Words.BinValueAppend | Server/Encryption/RC6.py:102 | the value of a concatenation shifts the first part left by the second's length |
| RC6Words.BinaryAppend | Server/Encryption/RC6.py:102 | concatenated binary strings are binary |
| RC6Words.BinLELast | Server/Encryption/RC6.py:97-102 | a group's string starts with the digits of its last byte |
| RC6Words.BinLEValue | Server/Encryption/RC6.py:97-105 | prepending each byte's digits and parsing base 2 gives the group's little-endian integer |
| RC6Words.BinLEBinary | Server/Encryption/RC6.py:97-102 | a group's string is made of binary digits only |
| RC6Words.BinLEPrepend | Server/Encryption/RC6.py:102 | adding a byte to a group puts its digits in front of the string |
| RC6Words.GroupCountBounds | Server/Encryption/RC6.py:97-105 | a group started at byte `4g` is counted, and it is the last when the data ends by byte `4g+4` |
| RC6Words.Group | Server/Encryption/RC6.py:97-101 | each group has one to four bytes |
| RC6Words.BinaryGroups | Server/Encryption/RC6.py:93-107 | `get_blocks` returns `ceil(len / 4)` binary strings |
| RC6Words.Groups | Server/Encryption/RC6.py:93-107 | `get_blocks` returns `ceil(len / 4)` integer words |
| RC6Words.GroupsAgree | Server/Encryption/RC6.py:97-107 | every binary string parses to its integer word, and every word fits in 32 bits |
| RC6Words.CloseGroup | Server/Encryption/RC6.py:98-105 | closing a group, after four bytes or at the end, appends its string and its parsed value |
| RC6Words.WordsToBytes | Server/Encryption/RC6.py:115-120 | `blocks_to_data` gives four bytes per word |
| RC6Words.BlocksToData | Server/Encryption/RC6.py:110-120 | `blocks_to_data` fails exactly when a word is 2^32 or more |
| RC6Words.WordsToBytesAt | Server/Encryption/RC6.py:115-120 | bytes `4k .. 4k+4` of the output are word `k`'s four little-endian bytes |
| RC6Words.WordsToBytesAppend | Server/Encryption/RC6.py:117-118 | converting two word lists one after the other concatenates their bytes |
| RC6Words.GroupsOfWordsToBytes | Server/Encryption/RC6.py:88-120 | the 32-bit words read back from `blocks_to_data(ws)` (`Groups`) are `ws`; for non-empty `ws` this is the integer list `get_blocks` returns, while `get_blocks(b"")` raises |
| RC6Words.WordsToBytesOfGroups | Server/Encryption/RC6.py:88-120 | `blocks_to_data(get_blocks(data))` gives `data` back when `len(data)` is a multiple of 4 |
| RC6Words.Quads | Server/Encryption/RC6.py:83-85 | `enumerate_blocks` yields one tuple per four words |
| RC6Words.Flatten | Server/Encryption/RC6.py:177-180 | `extend`ing with each block's list adds four words per block |
| RC6Words.FlattenAt | Server/Encryption/RC6.py:177-180 | words `4k .. 4k+3` of the extended list are block `k`'s `a, b, c, d` |
| RC6Words.QuadsFlatten | Server/Encryption/RC6.py:83-85 | regrouping the extended list four at a time gives the blocks back |
| RC6Words.FlattenQuads | Server/Encryption/RC6.py:83-85 | extending with the tuples of a word list of length `4n` gives the list back |
| RC6Words.FlattenBelow | Server/Encryption/RC6.py:177-182 | blocks of 32-bit words extend to a list of 32-bit words |
| RC6Words.EnumerateWhole | Server/Encryption/RC6.py:76-107 | non-empty data of whole 16-byte blocks enumerates into `len / 16` tuples of 32-bit words that convert back to the data |
| RC6Words.EnumerateWordsToBytes | Server/Encryption/RC6.py:76-120 | the bytes of a non-empty list of 32-bit blocks, `16` per block, enumerate back into the same blocks |
| RC6Spec.Modulus | Server/Encryption/RC6.py:52-63 | `self.modulo` is 2^32 |
| RC6Spec.RightRotationIsRotR | Server/Encryption/RC6.py:122-129 | on a 32-bit word, `right_rotation(x, n)` is the rotation right by `n`, and stays a 32-bit word |
| RC6Spec.RotationBounds | Server/Encryption/RC6.py:122-136 | both rotations keep a 32-bit word a 32-bit word |
| RC6Spec.RotationIdentity | Server/Encryption/RC6.py:122-136 | rotating by 0 or by 32 leaves a word unchanged |
| RC6Spec.RotationInverse | Server/Encryption/RC6.py:122-136 | `right_rotation(left_rotation(x, n), n) == x` and the other way round |
| RC6Spec.InitialKey | Server/Encryption/RC6.py:143-144 | the table before mixing has `2R+4` words |
| RC6Spec.InitialKeyRecurrence | Server/Encryption/RC6.py:143-144 | the table starts at `P32` and each word is the previous plus `Q32` modulo 2^32 |
| RC6Spec.KeyMix | Server/Encryption/RC6.py:153-162 | the mixing loop keeps both table sizes and both cursors inside their tables |
| RC6Spec.KeyMixNext | Server/Encryption/RC6.py:153-162 | one more mixing iteration is one more step, and the state stays well formed |
| RC6Spec.KeyStepBounds | Server/Encryption/RC6.py:154-160 | one mixing step writes 32-bit words |
| RC6Spec.KeyMixBounds | Server/Encryption/RC6.py:153-162 | after any number of iterations both tables hold only 32-bit words |
| RC6Spec.KeyScheduleShape | Server/Encryption/RC6.py:138-164 | `key_generation` leaves `2R+4` round keys and as many key words as before, all 32-bit words |
| RC6Spec.EncRoundsNext | Server/Encryption/RC6.py:280-291 | the rounds unfold one round at a time, in increasing order |
| RC6Spec.FBound | Server/Encryption/RC6.py:281-282 | `t` and `u` are 32-bit words |
| RC6Spec.UnmixWord | Server/Encryption/RC6.py:285-327 | each line of `decrypt`'s round undoes the matching line of `encrypt`'s |
| RC6Spec.RoundInverse | Server/Encryption/RC6.py:280-327 | a decryption round undoes the encryption round with the same index |
| RC6Spec.EncRoundBelow | Server/Encryption/RC6.py:285-291 | a round rotates the words and writes 32-bit words into the new `b` and `d` |
| RC6Spec.EncRoundsBelow | Server/Encryption/RC6.py:280-291 | after at least one round, or from a 32-bit block, every word is a 32-bit word |
| RC6Spec.DecRoundsEncRounds | Server/Encryption/RC6.py:280-327 | running rounds R..1 backwards undoes rounds 1..R |
| RC6Spec.EncryptBelow | Server/Encryption/RC6.py:264-296 | `encrypt` returns four 32-bit words |
| RC6Spec.DecryptEncrypt | Server/Encryption/RC6.py:264-332 | `decrypt(encrypt(block)) == block` for every block of 32-bit words |
| RC6Spec.EncryptInjective | Server/Encryption/RC6.py:264-296 | `encrypt` gives equal ciphertext blocks exactly for equal blocks of 32-bit words |
| RC6Spec.DecRoundBelow | Server/Encryption/RC6.py:311-327 | a decryption round rotates the words and writes 32-bit words into `a` and `c` |
| RC6Spec.DecRoundsBelow | Server/Encryption/RC6.py:310-327 | after at least one round every word is a 32-bit word |
| RC6Spec.DecryptBelow | Server/Encryption/RC6.py:298-332 | `decrypt` returns four 32-bit words |
| RC6Modes.UnpackBlockShape | Server/Encryption/RC6.py:273-305 | a block given as bytes is accepted exactly when it has 13 to 16 bytes (else `ValueError`), and gives 32-bit words |
| RC6Modes.EcbEncryptBlocks | Server/Encryption/RC6.py:179-180 | ECB encryption yields one block per block |
| RC6Modes.EcbDecryptBlocks | Server/Encryption/RC6.py:196-197 | ECB decryption yields one block per block |
| RC6Modes.EncryptAllBelow | Server/Encryption/RC6.py:179-182 | every ECB ciphertext word is a 32-bit word, so `blocks_to_data` cannot fail |
| RC6Modes.DecryptAllBelow | Server/Encryption/RC6.py:196-199 | every ECB plaintext word is a 32-bit word |
| RC6Modes.EnumeratedBelow | Server/Encryption/RC6.py:76-85 | every enumerated block is made of 32-bit words |
| RC6Modes.EcbEncryptLength | Server/Encryption/RC6.py:166-182 | ECB encryption never fails and returns `16 * (len // 16 + 1)` bytes, the padded length |
| RC6Modes.EcbDecryptOutcome | Server/Encryption/RC6.py:184-199 | ECB decryption fails, with `ValueError`, exactly when the data is empty or not whole blocks of four words |
| RC6Modes.EcbRoundTrip | Server/Encryption/RC6.py:166-199 | `data_decryption_ECB(data_encryption_ECB(m)) == m` |
| RC6Modes.GroupsSlice | Server/Encryption/RC6.py:88-107 | the words of a 16-byte slice are the matching four words of the whole |
| RC6Modes.WordsToBytesQuad | Server/Encryption/RC6.py:115-120 | bytes `16k .. 16k+16` of the output are the bytes of words `4k .. 4k+4` |
| RC6Modes.EnumerateAt | Server/Encryption/RC6.py:76-85 | block `k` of `enumerate_blocks` is bytes `16k .. 16k+16` unpacked alone |
| RC6Modes.FlattenQuad | Server/Encryption/RC6.py:180 | words `4k .. 4k+4` of the extended list are block `k` |
| RC6Modes.EcbBlockwise | Server/Encryption/RC6.py:166-182 | ECB ciphertext block `k` is the encryption of padded plaintext block `k` alone, so equal blocks give equal ciphertext |
| RC6Modes.UnpackBlockBytes | Server/Encryption/RC6.py:76-120 | a 16-byte block unpacks to four 32-bit words whose bytes are the block again |
| RC6Modes.EcbBlockDependence | Server/Encryption/RC6.py:166-182 | two messages have the same ECB ciphertext block `k` exactly when their padded plaintext block `k` is the same |
| RC6Modes.XorBlockProps | Server/Encryption/RC6.py:226-258 | XOR with the chain block keeps 32-bit words and XOR with it again undoes it |
| RC6Modes.XorBlockInjective | Server/Encryption/RC6.py:226-231 | XOR with a fixed block, on either side, gives equal results exactly for equal blocks |
| RC6Modes.ExpandIVShape | Server/Encryption/RC6.py:214-218 | an IV is repeated to 16 bytes, cut to its first 16 when longer; an empty IV raises `ZeroDivisionError`; expanding twice changes nothing |
| RC6Modes.CbcEncryptBlocks | Server/Encryption/RC6.py:225-233 | CBC encryption yields one block per block |
| RC6Modes.CbcDecryptBlocks | Server/Encryption/RC6.py:250-260 | CBC decryption yields one block per block |
| RC6Modes.CbcEncryptPrefix | Server/Encryption/RC6.py:225-233 | the first `k` CBC ciphertext blocks depend only on the first `k` plaintext blocks |
| RC6Modes.CbcEncryptAt | Server/Encryption/RC6.py:225-233 | ciphertext block `k` is the encryption of plaintext block `k` XORed with ciphertext block `k-1`, or the IV for `k = 0` |
| RC6Modes.CbcEncryptBelow | Server/Encryption/RC6.py:225-235 | every CBC ciphertext word is a 32-bit word |
| RC6Modes.CbcBlockDiffers | Server/Encryption/RC6.py:225-233 | when two messages differ only in block `k`, their CBC ciphertext blocks differ at every position from `k` on |
| RC6Modes.CbcAvalanche | Server/Encryption/RC6.py:225-233 | when two messages differ only in block `k`, their CBC ciphertexts agree before block `k` and, if block `k` really differs, differ in block `k` and every later block |
| RC6Modes.CbcBlocksRoundTrip | Server/Encryption/RC6.py:225-260 | CBC decryption of the CBC encryption under the same IV gives the blocks back |
| RC6Modes.IvWords | Server/Encryption/RC6.py:218-220 | the expanded 16-byte IV gives four 32-bit words |
| RC6Modes.CbcEncryptOutcome | Server/Encryption/RC6.py:201-235 | CBC encryption fails only on an empty IV, with `ZeroDivisionError`; it returns the expanded IV and a ciphertext as long as the padded message |
| RC6Modes.CbcDecryptBelow | Server/Encryption/RC6.py:250-262 | every CBC plaintext word is a 32-bit word |
| RC6Modes.CbcDecryptOutcome | Server/Encryption/RC6.py:237-262 | CBC decryption succeeds exactly for an IV over 12 bytes and data of whole four-word blocks; otherwise `IndexError` for a short IV once a first block exists, else `ValueError` |
| RC6Modes.CbcRoundTrip | Server/Encryption/RC6.py:201-262 | decrypting the ciphertext under the returned IV gives the message back, for every non-empty IV |
| RC6Cipher.RC6.GetBlocks | Server/Encryption/RC6.py:87-107 | the loop returns the two lists of `RC6Words.GetBlocks` |
| RC6Cipher.RC6.BlocksToData | Server/Encryption/RC6.py:109-120 | the loop returns `RC6Words.BlocksToData` |
| RC6Cipher.RC6.EnumerateBlocks | Server/Encryption/RC6.py:75-85 | the loop returns `RC6Words.EnumerateBlocks` |
| RC6Cipher.RC6.constructor | Server/Encryption/RC6.py:51-73 | a non-empty key gives an object holding the key's blocks and `2R+4` 32-bit round keys of the key schedule |
| RC6Cipher.RC6.KeyGeneration | Server/Encryption/RC6.py:138-164 | `rc6_key` and the key words become the tables of `KeySchedule` for the key's words |
| RC6Cipher.RC6.Encrypt | Server/Encryption/RC6.py:264-296 | the round loop returns `RC6Spec.Encrypt` under the object's round keys |
| RC6Cipher.RC6.Decrypt | Server/Encryption/RC6.py:298-332 | the round loop returns `RC6Spec.Decrypt` under the object's round keys |
| RC6Cipher.RC6.EncryptBytes | Server/Encryption/RC6.py:264-275 | a block given as bytes is encrypted exactly when it unpacks to four words; otherwise the same error |
| RC6Cipher.RC6.DecryptBytes | Server/Encryption/RC6.py:298-305 | a block given as bytes is decrypted exactly when it unpacks to four words; otherwise the same error |
| RC6Cipher.RC6.DataEncryptionECB | Server/Encryption/RC6.py:166-182 | the block loop returns `RC6Modes.EcbEncrypt` under the object's round keys |
| RC6Cipher.RC6.DataDecryptionECB | Server/Encryption/RC6.py:184-199 | the block loop returns `RC6Modes.EcbDecrypt` under the object's round keys |
| RC6Cipher.RC6.EncryptChained | Server/Encryption/RC6.py:225-233 | the chaining loop returns the words of the CBC ciphertext blocks |
| RC6Cipher.RC6.DataEncryptionCBC | Server/Encryption/RC6.py:201-235 | returns `RC6Modes.CbcEncrypt` under the object's round keys |
| RC6Cipher.RC6.DecryptChained | Server/Encryption/RC6.py:250-260 | the chaining loop returns the words of the CBC plaintext blocks |
| RC6Cipher.RC6.DataDecryptionCBC | Server/Encryption/RC6.py:237-262 | returns `RC6Modes.CbcDecrypt` under the object's round keys |
| RC6Cipher.Create | Server/Encryption/RC6.py:51-73 | construction fails with `ValueError` exactly for an empty key; otherwise the object is valid and keeps its arguments |

## Left out

- RC6 is modelled only with `w_bit = 32` and `lgw = 5`. The class hard-codes the 32-bit `P32`/`Q32` and reduces shifts mod 32 whatever `w_bit` is, so other widths do not compute RC6.
- A negative round count for RC6 is not modelled; `rounds` is a `nat`.
- `encrypt`/`decrypt` given a tuple of words of 2^32 or more is not modelled. Blocks come from `get_blocks`, whose words are always 32-bit.
- `urandom(16)`, used when `data_encryption_CBC` has no IV, is randomness. The IV is always a parameter.
- `randbytes`, the module-level `encrypt`/`decrypt`/`get_key` wrappers, the command-line interface and its base64/base85/hex encodings, and `RC5.encryptFile`/`decryptFile` are left out. They are I/O or string encoding around the modelled operations.
- The known-answer test vectors of the published ciphers are not stated: the model proves round trips and structure, not particular ciphertexts.
- `enumerate_blocks` is a lazy generator. The model computes all blocks up front and reproduces the order in which its exceptions surface in `data_decryption_CBC` with explicit checks.
- RC6Cipher.RC6.KeyGeneration: the mixing loop runs on local copies of the two tables and writes them back at the end, instead of writing `self.rc6_key[i]` each iteration; the final state is the same.
- RC6Cipher.RC6.EncryptChained and RC6Cipher.RC6.DecryptChained: the CBC chaining loops are separate methods called from `DataEncryptionCBC` and `DataDecryptionCBC`.
- RC5Cipher.RC5.constructor requires a supported width and a non-negative round count; for other arguments the class raises (`ZeroDivisionError`, `TypeError` or `IndexError`, depending on the width, the key and the round count) and `RC5Cipher.Create` maps each case to that error.
- RC6Words.BaseTwo: models `int(s, 2)` only on strings of binary digits, the only strings `get_blocks` passes it; prefixes, signs, underscores and surrounding spaces, which Python also accepts, are treated as errors.
