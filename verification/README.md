# Hedera legacy 24-word mnemonic, modelled in Dafny

This project models the mnemonic codec of the Hedera Java SDK
(`Mnemonic.java`). That codec is a legacy variant of BIP-39. It covers:

- 32 bytes of entropy plus one checksum byte (the first byte of SHA-256 of the
  entropy), cut into 24 eleven-bit indices into a 2048-word list;
- the reverse direction, from 24 words back to the 33 bytes;
- the three ordered checks of `validate`;
- the text form `toString` / `fromString`;
- the BIP-39 seed `toSeed` (PBKDF2-HMAC-SHA-512, salt `"mnemonic"` followed by
  the passphrase, 2048 iterations, 512 bits).

Unlike BIP-39, the bits are packed least significant first through a rolling
`scratch`/`offset` accumulator.

Modules:

- `Bits`: natural numbers as bit strings (`NatBits`, `BitsNat`) and their laws.
- `Words`: a Java `int` as its 32 bits and the Java operators the codec
  applies. These are `|`, `<<`, the arithmetic `>>`, the masks `& 0x7FF` and
  `& 0xFF`, and the widening `(int) b` of a `byte`. A Java `byte` is held as
  its unsigned value; it is negative in Java exactly when that value is 128 or
  more. `SignedValue` reads a word in two's complement, and the widening and
  the shift are proved against it.
- `Codec`: the two accumulator loops (`EncodeFrom`, `Drain`, `DecodeFrom`),
  their loop invariants stated against bit strings, and the round trips. The
  encoder is parametrised by how a byte is widened: `SignExtended` is the code
  as written (`(int) b`), and `ZeroExtended` is `b & 0xFF`.
- `WordLists`: Java's `String.compareTo` and the loop of
  `Collections.binarySearch`, proved against a linear reference (`Position`).
- `Crypto`: SHA-256, PBKDF2 and UTF-8 as parameters, and the `checksum`
  function.
- `Phrase`: `String.join(" ", …)` and Java's `split(" ")`, including the
  dropping of trailing empty strings.
- `Mnemonics`: `getWordIndex`, `wordsToEntropyAndChecksum`, `entropyToWords`,
  `generate`, `validate`, `toString`, `fromString` and `toSeed`.
- `Wrappers`: `Result` and `Outcome`.

The word list is a parameter. `ValidWordList` requires 2048 words in strictly
ascending `compareTo` order, which is the shape of the list the program
loads.

Two promises of the program's own comments are kept only in part:

- Line 167 calls the decoder the "reverse algorithm of `entropyToWords()`",
  and `generate` (lines 62-63) promises a mnemonic, which should then
  validate. The code as written keeps this promise when no entropy byte is
  0x80 or above, and can break it otherwise (see Findings).
- `fromString` (lines 55-56) recovers a mnemonic "splitting on spaces".
  Java's `split(" ")` drops trailing empty strings, so a mnemonic whose last
  word is empty does not survive `toString` then `fromString`;
  `Phrase.SplitJoin` states exactly when it does.

## Model

All source paths are `src/main/java/com/hedera/hashgraph/sdk/crypto/Mnemonic.java`.

| member | source | states |
|---|---|---|
| Codec.EncodeIndices | src/main/java/com/hedera/hashgraph/sdk/crypto/Mnemonic.java:194-227 | The encoder turns the 33-byte buffer into exactly 24 indices. |
| Codec.DecodeIndices | src/main/java/com/hedera/hashgraph/sdk/crypto/Mnemonic.java:160-192 | The decoder turns 24 indices into exactly 33 bytes. |
| Words.SignExtendValue | src/main/java/com/hedera/hashgraph/sdk/crypto/Mnemonic.java:212 | `(int) b` has the byte's own signed value: b for a byte below 0x80, b - 256 for one at 0x80 or above, as two's-complement widening requires. |
| Words.SarValue | src/main/java/com/hedera/hashgraph/sdk/crypto/Mnemonic.java:221 | Read as a signed 32-bit value, `scratch >> k` is the value divided by 2^k rounded toward negative infinity, which is how Java defines `>>`. |
| Codec.CleanIff | src/main/java/com/hedera/hashgraph/sdk/crypto/Mnemonic.java:212 | Under `(int) b`, a byte sets bits above bit 7 exactly when it is negative (0x80 or above); under `b & 0xFF` it never does. |
| Codec.FeedBits | src/main/java/com/hedera/hashgraph/sdk/crypto/Mnemonic.java:212-213 | OR-ing a byte in at `offset` appends its eight bits to the pending bits; the bits above stay clear exactly when the byte widened cleanly, so a negative byte under `(int) b` sets bits above them. |
| Codec.ShedIndexBits | src/main/java/com/hedera/hashgraph/sdk/crypto/Mnemonic.java:217-222 | `scratch & 0x7FF` is the number in the first eleven pending bits, and after `scratch >>= 11` the rest of the pending bits remain. |
| Codec.PutBits | src/main/java/com/hedera/hashgraph/sdk/crypto/Mnemonic.java:180-181 | OR-ing an index in at `offset` appends its eleven bits to the pending bits and leaves nothing set above them. |
| Codec.ShedByteBits | src/main/java/com/hedera/hashgraph/sdk/crypto/Mnemonic.java:185-187 | The truncating `(byte) scratch` is the number in the first eight pending bits, and after `scratch >>= 8` the rest remain. |
| Codec.EncodeFrom | src/main/java/com/hedera/hashgraph/sdk/crypto/Mnemonic.java:207-224 | Across the encoder loop `offset` stays within 0..10. |
| Codec.EncodeCounts | src/main/java/com/hedera/hashgraph/sdk/crypto/Mnemonic.java:210-224 | The encoder emits one index per eleven bits fed: 11 × indices + final offset = initial offset + 8 × bytes. |
| Codec.EncodeFinalOffset | src/main/java/com/hedera/hashgraph/sdk/crypto/Mnemonic.java:207-226 | After the 33 bytes exactly 24 indices are emitted and `offset` is back to 0. |
| Codec.EncodeKeepsBits | src/main/java/com/hedera/hashgraph/sdk/crypto/Mnemonic.java:207-224 | Loop invariant: the bits of the emitted indices followed by the pending bits are the bits fed in, when every byte but the last widens cleanly. |
| Codec.EncodeMatchesBits | src/main/java/com/hedera/hashgraph/sdk/crypto/Mnemonic.java:194-227 | The 24 indices hold exactly the 264 bits of the 33-byte buffer, least significant first, when every byte but the last widens cleanly. |
| Codec.Drain | src/main/java/com/hedera/hashgraph/sdk/crypto/Mnemonic.java:183-188 | The inner loop emits one byte per eight pending bits and leaves fewer than eight pending. |
| Codec.DrainKeepsBits | src/main/java/com/hedera/hashgraph/sdk/crypto/Mnemonic.java:183-188 | Inner loop invariant: the emitted bytes' bits followed by the pending bits are the bits that were pending. |
| Codec.DecodeFrom | src/main/java/com/hedera/hashgraph/sdk/crypto/Mnemonic.java:168-189 | Between words `offset` stays within 0..7. |
| Codec.DecodeCounts | src/main/java/com/hedera/hashgraph/sdk/crypto/Mnemonic.java:168-189 | The decoder emits one byte per eight bits put: 8 × bytes + final offset = initial offset + 11 × indices. |
| Codec.DecodeFinalOffset | src/main/java/com/hedera/hashgraph/sdk/crypto/Mnemonic.java:165-191 | 24 indices give exactly 33 bytes, so the 33-byte buffer never overflows, and `offset` ends at 0. |
| Codec.DecodeKeepsBits | src/main/java/com/hedera/hashgraph/sdk/crypto/Mnemonic.java:168-189 | Loop invariant: the emitted bytes' bits followed by the pending bits are the bits of the indices put. |
| Codec.DecodeMatchesBits | src/main/java/com/hedera/hashgraph/sdk/crypto/Mnemonic.java:160-192 | The 33 bytes hold exactly the 264 bits of the 24 indices. |
| Codec.DecodeReadsBits | src/main/java/com/hedera/hashgraph/sdk/crypto/Mnemonic.java:165-191 | Decoded byte j is the number in bits 8j..8j+7 of the indices' bits laid end to end. |
| Codec.DecodeEncode | src/main/java/com/hedera/hashgraph/sdk/crypto/Mnemonic.java:167-227 | The decoder is the reverse of the encoder on every buffer whose bytes before the last widen cleanly. |
| Codec.DecodeEncodeZeroExtended | src/main/java/com/hedera/hashgraph/sdk/crypto/Mnemonic.java:167-227 | With `b & 0xFF` the decoder reverses the encoder on every 33-byte buffer. |
| Codec.EncodeDecode | src/main/java/com/hedera/hashgraph/sdk/crypto/Mnemonic.java:167-227 | Encoding, with `b & 0xFF`, the decoding of 24 indices gives the indices back. |
| Codec.ZeroEntropyIndices | src/main/java/com/hedera/hashgraph/sdk/crypto/Mnemonic.java:194-227 | All-zero entropy with checksum byte c gives 23 zero indices followed by c·8, under either widening. |
| Codec.FloodPersists | src/main/java/com/hedera/hashgraph/sdk/crypto/Mnemonic.java:212-222 | Once every accumulator bit is set, the arithmetic shift keeps it so: every later index is 0x7FF. |
| Codec.SignExtensionFloods | src/main/java/com/hedera/hashgraph/sdk/crypto/Mnemonic.java:212-222 | As written, entropy 0x80 then zeros encodes as 0x780 followed by 23 indices 0x7FF, whatever the checksum byte. |
| Codec.FloodedDecoding | src/main/java/com/hedera/hashgraph/sdk/crypto/Mnemonic.java:160-192 | Those indices decode to 0x80 followed by 32 bytes 0xFF. |
| Codec.MaxEntropyFloods | src/main/java/com/hedera/hashgraph/sdk/crypto/Mnemonic.java:212-222 | As written, entropy of 32 bytes 0xFF floods the accumulator at its first byte, so all 24 indices are 0x7FF whatever the checksum byte. |
| Codec.MaxIndicesDecoding | src/main/java/com/hedera/hashgraph/sdk/crypto/Mnemonic.java:160-192 | 24 indices 0x7FF decode to 33 bytes 0xFF, so the checksum byte reads as 0xFF. |
| WordLists.CompareTo | src/main/java/com/hedera/hashgraph/sdk/crypto/Mnemonic.java:242 | `String.compareTo` answers 0 exactly when the two strings are equal. |
| WordLists.BeforeTransitive | src/main/java/com/hedera/hashgraph/sdk/crypto/Mnemonic.java:242 | The natural string order is transitive. |
| WordLists.Search | src/main/java/com/hedera/hashgraph/sdk/crypto/Mnemonic.java:241-243 | The loop of `Collections.binarySearch` on a range of the list answers within -(size + 1)..size - 1; what the answer means is stated by SearchHit and SearchMiss. |
| WordLists.BinarySearch | src/main/java/com/hedera/hashgraph/sdk/crypto/Mnemonic.java:241-243 | `Collections.binarySearch` on the whole list answers within -(size + 1)..size - 1, and a non-negative answer is a position holding the word. |
| WordLists.SearchHit | src/main/java/com/hedera/hashgraph/sdk/crypto/Mnemonic.java:241-243 | A non-negative answer of the binary search is a position holding the word, on any list. |
| WordLists.SearchMiss | src/main/java/com/hedera/hashgraph/sdk/crypto/Mnemonic.java:241-243 | On a sorted list the search keeps its invariant, so a negative answer is -(insertion point + 1). |
| WordLists.Position | src/main/java/com/hedera/hashgraph/sdk/crypto/Mnemonic.java:241-243 | The linear reference lookup answers the first position holding the word. |
| WordLists.BinarySearchCorrect | src/main/java/com/hedera/hashgraph/sdk/crypto/Mnemonic.java:241-243 | On a sorted list the lookup is non-negative exactly when the word is in the list; it is then the word's position, and otherwise it encodes the insertion point. |
| WordLists.SearchOfWordAt | src/main/java/com/hedera/hashgraph/sdk/crypto/Mnemonic.java:241-243 | Looking up the word at position k of a sorted list answers k. |
| Crypto.ChecksumIgnoresTail | src/main/java/com/hedera/hashgraph/sdk/crypto/Mnemonic.java:229-239 | The checksum hashes the first 32 bytes only, so the 33-byte buffer and the bare entropy give the same byte, the first of the digest. |
| Phrase.Join | src/main/java/com/hedera/hashgraph/sdk/crypto/Mnemonic.java:139 | `String.join(" ", …)` starts with the first word, followed by a space when there are more; no words give "". |
| Phrase.Split | src/main/java/com/hedera/hashgraph/sdk/crypto/Mnemonic.java:59 | Every piece of `split(" ")` is free of spaces, and the result of splitting a string with a space never ends in an empty piece. |
| Phrase.JoinPieces | src/main/java/com/hedera/hashgraph/sdk/crypto/Mnemonic.java:58-60 | Joining the pieces of a string cut at every space with single spaces gives the string back. |
| Phrase.PiecesJoin | src/main/java/com/hedera/hashgraph/sdk/crypto/Mnemonic.java:136-143 | Cutting the space-join of space-free words at every space gives the words back. |
| Phrase.SplitJoin | src/main/java/com/hedera/hashgraph/sdk/crypto/Mnemonic.java:58-60 | `split(" ")` of the joined space-free words is the words exactly when there is one word, or several with a non-empty last one. |
| Phrase.TrailingEmptyWordLost | src/main/java/com/hedera/hashgraph/sdk/crypto/Mnemonic.java:58-60 | ["a", ""] joins to "a " and reads back as ["a"]. |
| Phrase.JoinSplit | src/main/java/com/hedera/hashgraph/sdk/crypto/Mnemonic.java:58-60 | A string that does not end in a space is the space-join of its split. |
| Mnemonics.GetWordIndex | src/main/java/com/hedera/hashgraph/sdk/crypto/Mnemonic.java:241-243 | A non-negative word index is a position of the list holding the word. |
| Mnemonics.ResolveIndices | src/main/java/com/hedera/hashgraph/sdk/crypto/Mnemonic.java:170-178 | Resolving the words either fails, with an unknown word or an index out of bounds, or gives one index per word. |
| Mnemonics.ResolveKnown | src/main/java/com/hedera/hashgraph/sdk/crypto/Mnemonic.java:170-178 | On a sorted list of at most 2048 words, words of the list resolve to their positions. |
| Mnemonics.ResolveUnknown | src/main/java/com/hedera/hashgraph/sdk/crypto/Mnemonic.java:171-175 | A word not in the list makes decoding fail with "word not in word list", naming a word absent from the list. |
| Mnemonics.NoIndexOutOfBounds | src/main/java/com/hedera/hashgraph/sdk/crypto/Mnemonic.java:176-178 | With at most 2048 words in the list, the `(BUG) index out of bounds` error cannot be raised. |
| Mnemonics.WordsToEntropyAndChecksum | src/main/java/com/hedera/hashgraph/sdk/crypto/Mnemonic.java:160-192 | A successful decoding had 24 words and gives exactly 33 bytes; a failure is a wrong word count, an unknown word or an index out of bounds. |
| Mnemonics.WordsToEntropyReadsBits | src/main/java/com/hedera/hashgraph/sdk/crypto/Mnemonic.java:160-192 | Decoding succeeds exactly for 24 words of the list, fails with the word count otherwise when the count is wrong, and on success reads the bytes off the words' bits. |
| Mnemonics.EncodeWith | src/main/java/com/hedera/hashgraph/sdk/crypto/Mnemonic.java:194-227 | `entropyToWords` fails, with the length, exactly when the entropy is not 32 bytes; otherwise it gives 24 words, each from the list. |
| Mnemonics.EntropyToWords | src/main/java/com/hedera/hashgraph/sdk/crypto/Mnemonic.java:194-227 | `entropyToWords` as written, each byte widened with `(int) b`: fails exactly on entropy that is not 32 bytes. |
| Mnemonics.EntropyToWordsCorrected | src/main/java/com/hedera/hashgraph/sdk/crypto/Mnemonic.java:194-227 | The encoder corrected to widen with `b & 0xFF`: fails exactly on entropy that is not 32 bytes. |
| Mnemonics.GenerateCorrected | src/main/java/com/hedera/hashgraph/sdk/crypto/Mnemonic.java:65-70 | `generate` through the corrected encoder gives a 24-word mnemonic. |
| Mnemonics.ResolveWordsAt | src/main/java/com/hedera/hashgraph/sdk/crypto/Mnemonic.java:170-178 | The words at given positions of a valid list resolve to those positions. |
| Mnemonics.EncodedWordsDecode | src/main/java/com/hedera/hashgraph/sdk/crypto/Mnemonic.java:167-227 | Decoding the words of an encoded buffer gives back entropy and checksum when every entropy byte widened cleanly. |
| Mnemonics.Validate | src/main/java/com/hedera/hashgraph/sdk/crypto/Mnemonic.java:99-134 | `validate` passes only on 24 words; an unknown-words failure means 24 words, and names at least one position below 24 together with the word found there. |
| Mnemonics.UnknownFrom | src/main/java/com/hedera/hashgraph/sdk/crypto/Mnemonic.java:104-110 | The collected positions are strictly ascending, and each holds a word the lookup did not find. |
| Mnemonics.UnknownFromComplete | src/main/java/com/hedera/hashgraph/sdk/crypto/Mnemonic.java:104-110 | No position whose word the lookup did not find is missed. |
| Mnemonics.UnknownPositionsIff | src/main/java/com/hedera/hashgraph/sdk/crypto/Mnemonic.java:104-119 | `unknownIndices` holds exactly the positions of words not in the list, and is empty exactly when every word is in the list. |
| Mnemonics.ValidateOrder | src/main/java/com/hedera/hashgraph/sdk/crypto/Mnemonic.java:99-123 | A wrong word count is reported first; with 24 words, all unknown words are reported, with their positions in order, before the checksum; a checksum mismatch implies 24 known words. |
| Mnemonics.ValidateIff | src/main/java/com/hedera/hashgraph/sdk/crypto/Mnemonic.java:99-134 | `validate` passes exactly for 24 words of the list whose bits, read as 33 bytes, end with the checksum of the first 32; otherwise 24 known words fail with the expected and the given checksum byte. |
| Mnemonics.GeneratedValidates | src/main/java/com/hedera/hashgraph/sdk/crypto/Mnemonic.java:167-227 | Words encoded from entropy whose bytes widen cleanly decode to entropy and checksum, and validate. |
| Mnemonics.GenerateCorrectedValidates | src/main/java/com/hedera/hashgraph/sdk/crypto/Mnemonic.java:65-70 | With the corrected encoder, every generated mnemonic decodes to its entropy and checksum, and validates. |
| Mnemonics.GenerateValidatesNonNegative | src/main/java/com/hedera/hashgraph/sdk/crypto/Mnemonic.java:65-70 | `generate` as written gives a mnemonic that decodes to its entropy and checksum, and validates, when no entropy byte is 0x80 or above. |
| Mnemonics.Generate | src/main/java/com/hedera/hashgraph/sdk/crypto/Mnemonic.java:65-70 | `generate` as written, through `entropyToWords` with `(int) b`, gives a 24-word mnemonic. |
| Mnemonics.GenerateFloodedWords | src/main/java/com/hedera/hashgraph/sdk/crypto/Mnemonic.java:65-70 | `generate` as written, on entropy 0x80 then 31 zero bytes, gives words of the list that decode to 0x80 and 32 bytes 0xFF, not to the entropy. |
| Mnemonics.GenerateRejectsFlooded | src/main/java/com/hedera/hashgraph/sdk/crypto/Mnemonic.java:99-134 | So that mnemonic from `generate` as written fails validation with a checksum mismatch, unless SHA-256 of 0x80 and 31 bytes 0xFF starts with 0xFF. |
| Mnemonics.GenerateMaxWords | src/main/java/com/hedera/hashgraph/sdk/crypto/Mnemonic.java:65-70 | `generate` as written, on 32 bytes 0xFF, gives words of the list that decode to 33 bytes 0xFF: the entropy comes back, its checksum byte does not. |
| Mnemonics.GenerateRejectsMax | src/main/java/com/hedera/hashgraph/sdk/crypto/Mnemonic.java:99-134 | So that mnemonic fails validation with a checksum mismatch unless SHA-256 of 32 bytes 0xFF starts with 0xFF. |
| Mnemonics.ToString | src/main/java/com/hedera/hashgraph/sdk/crypto/Mnemonic.java:136-143 | `toString` starts with the first word. |
| Mnemonics.FromString | src/main/java/com/hedera/hashgraph/sdk/crypto/Mnemonic.java:58-60 | `fromString` gives words free of spaces. |
| Mnemonics.FromStringToString | src/main/java/com/hedera/hashgraph/sdk/crypto/Mnemonic.java:136-143 | `fromString(toString(m)) == m` for space-free words exactly when m has one word, or several with a non-empty last one. |
| Mnemonics.EncodedRoundTripsThroughText | src/main/java/com/hedera/hashgraph/sdk/crypto/Mnemonic.java:58-70 | Over a list of non-empty, space-free words, the words from the encoder survive `toString` then `fromString` unchanged, under either widening. |
| Mnemonics.GeneratedRoundTripsThroughText | src/main/java/com/hedera/hashgraph/sdk/crypto/Mnemonic.java:58-70 | Over a list of non-empty, space-free words, a mnemonic from `generate`, as written or corrected, survives `toString` then `fromString` unchanged. |
| Mnemonics.SeedOfString | src/main/java/com/hedera/hashgraph/sdk/crypto/Mnemonic.java:146-158 | The seed of a mnemonic read from a string not ending in a space is PBKDF2 over that string's UTF-8 bytes, salt "mnemonic" and the passphrase, 2048 iterations, 512 bits. |

## Left out

- `generate` takes its 32 random bytes as a parameter; `SecureRandom` is not modelled.
- The word list is a parameter. Loading it from `bip39-english.txt`, the `SoftReference` cache and the double-checked `synchronized` block (lines 245-272) are I/O, garbage-collector behaviour and concurrency.
- SHA-256, PBKDF2-HMAC-SHA-512 and UTF-8 encoding are function parameters. Only the digest length (32 bytes) is assumed of SHA-256; their internals are not modelled.
- `toPrivateKey` (lines 84-97) delegates to `Ed25519PrivateKey`, which is not part of this model.
- Exception messages are not modelled; errors carry only their data (count, positions and words, index, expected and given byte). The distinction between `BadMnemonicException`, `IllegalArgumentException` and `Error` is kept only as distinct error constructors.
- The lazy memoisation of `asString` is not modelled: `toString` is a pure function.
- The constructor's `Collections.unmodifiableList` is not modelled: a mnemonic is an immutable sequence of words.
- `CharSequence` words are modelled as strings.
- `String.compareTo` compares UTF-16 code units, and the model compares Dafny characters. The two agree on the ASCII words of the list.
- `Collections.binarySearch` uses a different, iterator-based loop for lists that are not random-access. The list the program loads is `Collections.unmodifiableList` over an `ArrayList` (line 268), which is random-access, and with 2048 entries it is below the size at which the iterator loop could be chosen in any case; so only the indexed loop is modelled.
- Shifts are modelled only for distances below 32, the only ones the loops use.
- Crypto.Checksum: it carries no ensures of its own. What it computes is stated by ChecksumIgnoresTail, which ValidateIff and GenerateCorrectedValidates build on.
- Mnemonics.ToSeed: only its composition is stated, through SeedOfString. Its output length of 64 bytes depends on PBKDF2's internals, which are a parameter.

## Findings

| source | as written | input that shows it | evidently intended | confidence | as-written member | corrected member |
|---|---|---|---|---|---|---|
| src/main/java/com/hedera/hashgraph/sdk/crypto/Mnemonic.java:212 | `((int) b) << offset` sign-extends a negative entropy byte. The arithmetic `scratch >>= 11` (line 221) then keeps every higher accumulator bit set, which forces every later accumulator bit to 1. Once a negative entropy byte has been fed, every later bit, the checksum byte's included, decodes as 1, and such a mnemonic validates only when SHA-256 of the decoded entropy starts with 0xFF. Entropy of 32 bytes 0xFF is affected too: it decodes back to itself, but its checksum byte reads as 0xFF. | Entropy 0x80 followed by 31 zero bytes encodes as 0x780 and then 23 indices 0x7FF. These decode to 0x80 followed by 32 bytes 0xFF, not to the entropy and its checksum. | Widen with `b & 0xFF`, so that decoding reverses encoding for every entropy (line 167 calls the decoder the reverse algorithm) and every generated mnemonic validates. | high; not executed | Mnemonics.GenerateFloodedWords | Mnemonics.GenerateCorrectedValidates |

The as-written `entropyToWords` is `Mnemonics.EntropyToWords`, and `generate`
as written is `Mnemonics.Generate`; `Mnemonics.GenerateValidatesNonNegative`
states a condition under which they are still right. The corrected
`Mnemonics.EntropyToWordsCorrected` and `Mnemonics.GenerateCorrected` sit
beside them and widen with `b & 0xFF`.
