# Breaking repeating-key XOR: a Dafny model of `decrypt.go`

`decrypt.go` breaks a Vigenère cipher whose key bytes are combined with the
plaintext by XOR. It works in two steps:

- **Key length.** It tries every key length n in a range. For each n it takes
  every n-th ciphertext byte (`everyOtherN`) and builds a byte-frequency table
  (`Frequencies`). It keeps the n whose table has the largest sum of squared
  frequencies, because natural text is far from uniform.
- **Key bytes.** For each key position i < n it decrypts the bytes at
  positions i, i + n, i + 2n, … under each of the 256 byte values. The
  decryption drops every non-printable byte, so each value yields a printable
  candidate. It keeps the value whose candidate's frequency table best matches
  a corpus table (the dot product of the two tables).

The model has four modules:

- `Bytes` and `CharacterFilter` (`charset.dfy`):
  - bytes, and XOR as a bitwise definition;
  - the printable alphabet 32..126 and the membership test `isIn`;
  - `allowedChars`, `allChars`, `isAllowed`.
- `Cipher` (`cipher.dfy`):
  - `encrypt` and the filtering `decrypt`;
  - Go's truncating `%`;
  - the stride sampler `everyOtherN`.
- `FrequencyModel` (`frequencies.dfy`):
  - the `Frequencies` record as a class, with `run`, `countChars` and
    `sumOfSquares` as methods that update its fields;
  - the module-level `sumOfSquares(f1, f2)` (a dot product).
- `Analysis` (`analysis.dfy`): the two searches `findN` and `findKey`.

The methods have the source's loops. Each method is proved against a
specification function, and the lemmas beside it state what the source
promises about that function.

Modelling choices:

- Frequencies are exact reals, not `float32`.
- Ranging over a Go map, whose order is unspecified, is modelled by picking
  an arbitrary remaining key at each step. The results are proved whatever
  order is taken.
- The corpus table, which the source reads from `./corpus.txt`, is a
  parameter of `FindKey`.

Some of the code's behaviour is easy to misread; the model states what the
code does:

- **Key-length samples.** `findN` samples index 0, n, 2n, … and not n, 2n, …,
  because Go's `(0 - n) % n` is 0 (`Cipher.StrideOffsetN`).
- **Decoding in `findKey`.** `findKey` decodes candidates with the filtering
  `decrypt`, so its `invalidChars` check never skips a value
  (`Analysis.CandidateAlwaysValid`).
- **Empty range.** An empty key-length range (min > max) is not an error:
  `findN` returns 0 and `findKey` returns an empty key.
- **The second `countChars`.** Inside `findN`, `countChars` runs a second
  time after `run`, so it doubles the slots. It does not change the score:
  `run` has already stored the sum of squares in `ss`
  (`Analysis.ScoreKeyLength`).

## Model

| member | source | states |
|---|---|---|
| Bytes.XorByteBits | decrypt.go:127 | the byte operation is Go's `^`: each of the eight result bits is 1 exactly when the operands' bits differ |
| Bytes.XorByteInverse | decrypt.go:127 | XOR of a byte with the same key byte twice gives back the byte |
| CharacterFilter.IsIn | decrypt.go:62-69 | the early-return scan answers true exactly when x occurs in y |
| CharacterFilter.AllowedChars | decrypt.go:71-77 | the result is the 95 byte values 32..126 in ascending order, and a byte is in it exactly when 32 <= x <= 126 |
| CharacterFilter.AllChars | decrypt.go:79-86 | the result is the 256 byte values in ascending order, entry i being i |
| CharacterFilter.IsAllowed | decrypt.go:88-90 | membership in the allowed alphabet holds exactly for 32 <= x <= 126 |
| Cipher.Encrypt | decrypt.go:124-131 | when the key is non-empty or the text empty, byte i of the output is pText[i] XOR key[i mod len(key)] |
| Cipher.XorSelfInverse | decrypt.go:124-131 | encryption keeps the length, and encrypting twice with the same key gives the input back (a non-empty key, or empty data) |
| Cipher.Decrypt | decrypt.go:133-142 | the output is the encryption of cText with every byte outside the alphabet removed, in order |
| Cipher.KeepAllowedSound | decrypt.go:133-142 | every byte `decrypt` outputs is allowed, and there are at most as many as it was given |
| Cipher.KeepAllowedCounts | decrypt.go:136-139 | each allowed byte keeps its number of occurrences; each other byte occurs zero times |
| Cipher.KeepAllowedIdentity | decrypt.go:136-139 | the filter leaves a sequence unchanged exactly when all its bytes are allowed |
| Cipher.DecryptEncrypt | decrypt.go:124-142 | decrypting the encryption of printable text with the same key returns the text |
| Cipher.EveryOtherN | decrypt.go:92-100 | for a nonzero n, or an empty cText, the output is the bytes at the indices i with Go's (i - offset) % n == 0, in index order |
| Cipher.GoRemTruncated | decrypt.go:95 | the modelled `%` is Go's truncated remainder: below the divisor in magnitude, zero or of the dividend's sign, and differing from the dividend by a multiple of the divisor |
| Cipher.GoRemZero | decrypt.go:95 | Go's truncated remainder by a positive n is zero exactly when the Euclidean one is |
| Cipher.StrideIndices | decrypt.go:92-100 | for 0 <= offset < n, entry j of the sample is c[offset + j n], and every such index inside c is listed |
| Cipher.StrideLength | decrypt.go:92-100 | for 0 <= offset < n, the last sampled index lies inside c and one more step of n would leave it |
| Cipher.StrideOffsetN | decrypt.go:106 | for every nonzero n, negative ones included, sampling with offset n, as `findN` does, gives the same bytes as offset 0 |
| Cipher.StrideKeepsFirst | decrypt.go:106 | a non-empty ciphertext's sample with offset n starts with c[0] |
| FrequencyModel.Frequencies.constructor | decrypt.go:18-23 | the Go zero value: no slots, score 0, no bytes, flag down |
| FrequencyModel.Frequencies.Run | decrypt.go:25-31 | afterwards the record holds the input, the flag is up exactly when some input byte is not allowed, the table is the relative frequency of each occurring byte with no slot for the others, and ss is their sum of squares |
| FrequencyModel.Frequencies.CountChars | decrypt.go:41-48 | every byte of chars gains count/len in its slot, on top of what it held; the slots are the old ones plus the bytes of chars; the flag is raised by any disallowed byte and is never lowered |
| FrequencyModel.TallyShape | decrypt.go:42-43 | adding a unit per byte leaves in each slot its old value plus one unit per occurrence, and creates slots exactly for the new bytes |
| FrequencyModel.TimesShare | decrypt.go:43 | adding 1/len to a slot k times gives k/len |
| FrequencyModel.Frequencies.SumOfSquares | decrypt.go:33-39 | ss becomes the sum of the squared slot values, whatever order the map is ranged over |
| FrequencyModel.SquareSumRemove | decrypt.go:35-37 | the sum of squares is the same whichever key the iteration takes first |
| FrequencyModel.SquareSumNonNegative | decrypt.go:33-39 | the sum of squares is never negative |
| FrequencyModel.SelfSimilarityPositive | decrypt.go:25-48 | a non-empty sequence gets a strictly positive score |
| FrequencyModel.SelfSimilarityAtMostOne | decrypt.go:25-48 | a non-empty sequence scores at most 1 |
| FrequencyModel.SelfSimilarityOne | decrypt.go:25-48 | a non-empty sequence scores exactly 1 if and only if all its bytes are the same |
| FrequencyModel.SelfSimilarityEmpty | decrypt.go:25-48 | an empty sequence gets score 0 |
| FrequencyModel.FrequenciesSumToOne | decrypt.go:41-48 | the frequencies of a non-empty sequence add up to 1 over the 256 byte values |
| FrequencyModel.SumOfSquares | decrypt.go:167-175 | the result is the dot product of the two tables over all 256 byte values, with a missing slot read as 0 |
| FrequencyModel.DotUpToSymmetric | decrypt.go:167-175 | the cross-similarity does not depend on the order of its two arguments |
| FrequencyModel.DotUpToEmpty | decrypt.go:167-175 | against a table with no slots the cross-similarity is 0 |
| Analysis.ScoreKeyLength | decrypt.go:105-108 | the record for key length n has as score the self-similarity of the sample with offset n, after the second count each slot holds twice the relative frequency, the record holds the sample, and the flag is up exactly when the sample has a disallowed byte |
| Analysis.FindN | decrypt.go:102-122 | 0 when no length in [min, max] scores above 0 (in particular when min > max); otherwise a length in [min, max] with a positive score that no other length in range beats |
| Analysis.FindNInRange | decrypt.go:102-122 | for a non-empty ciphertext and min <= max, the chosen length lies in [min, max] |
| Analysis.FindNEmpty | decrypt.go:102-122 | on an empty ciphertext the only possible result is 0 |
| Analysis.ScoreCandidate | decrypt.go:186-192 | a candidate is flagged invalid exactly when its decryption holds a disallowed byte; a valid one scores its dot product with the corpus table |
| Analysis.BestKeyByte | decrypt.go:182-198 | the chosen byte is 0 when no candidate scores above 0, and otherwise the smallest byte value with the largest (positive) score |
| Analysis.FirstBestUnique | decrypt.go:182-198 | the first-strict-maximum rule determines the byte: two results are equal |
| Analysis.CandidateAlwaysValid | decrypt.go:186-191 | every candidate is a `decrypt` output, so all its bytes are allowed and the `continue` never runs |
| Analysis.EmptyCandidateNeverChosen | decrypt.go:192-196 | a candidate whose decryption is empty scores 0 and is chosen only as the default byte 0 |
| Analysis.EmptyCorpusZeroByte | decrypt.go:182-198 | with an empty corpus table every key byte is 0 |
| Analysis.FindKey | decrypt.go:177-202 | for some result n of `findN`, the key has n bytes when n > 0 (none otherwise), and byte i is the best key byte for the sample with stride n and offset i |
| Analysis.CorpusFrequencies | decrypt.go:161-164 | the corpus record holds the corpus bytes, their frequency table and self-similarity, and a flag that is up exactly when the corpus has a disallowed byte |

## Left out

- File and terminal I/O are left out, because they are outside the core:
  - `getCorpusFrequencies` (decrypt.go:144-165) reads a file. Only its final
    `run` is modelled, as `Analysis.CorpusFrequencies` over bytes already read.
  - `getAssignmentCipher`, `decodeFile` and `main` (decrypt.go:213-239) read
    and print.
  - `dump` (decrypt.go:50-60) sorts and prints.
  - `log.Fatal` stops the program.
- `hexStringToBytes` (decrypt.go:204-211) calls `encoding/hex`, whose code is
  not part of this model.
- `float32` arithmetic in `countChars`, both `sumOfSquares` functions and the
  comparisons is left out, because floating point is outside the model. Exact
  reals are used instead, so rounding, and any effect it has on which
  candidate wins, is not modelled.
- The order in which Go ranges over a map is not modelled. Any order is
  allowed, and the results are proved for every order.
- Cipher.StrideIndices: stated only for 0 <= offset < n, the offsets
  `findKey` uses; `StrideOffsetN` covers `findN`'s offset n.
- `decodeFile` hands the key to `decrypt`, which panics on an empty key when
  the ciphertext is non-empty. `findKey` returns an empty key in two cases:
  an empty range (min > max), where `findN` returns 0, and a range of only
  negative lengths, where `findN` returns a negative n. `decodeFile` is I/O and
  is not modelled.
- Analysis.FindN and Analysis.FindKey require a key-length range without 0
  (`NoZeroStride`). Go's `%` in `everyOtherN` panics on a zero stride only
  when there is a byte to test, so for an empty ciphertext a range holding 0
  returns 0 in Go, and the model does not cover that call. The other
  divide-by-zero panics (an empty key in `encrypt` and `decrypt`, a zero
  stride in `everyOtherN`) are preconditions that allow the empty input, as
  Go does.
- Go's 64-bit `int` is not modelled: integers are unbounded. With `max`
  equal to the largest `int`, Go's `i++` in `findN` wraps to negative
  lengths. On an empty ciphertext the loop then never stops; on a non-empty
  one it reaches stride 0 and `everyOtherN` panics. The model's loop ends.
