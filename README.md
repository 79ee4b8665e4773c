# XOR anomaly processors in Dafny

This project models the three "anomaly" scripts of the repository. Each one XORs a binary
buffer with keys, scores every result by how lopsided its contents are, and keeps the best
result.

- `Anomaly_1.py` is the variation encoder and decoder.
  - `transform_with_pattern` XORs every byte with `xor_value & 0xFF`, chunk by chunk.
  - `check_zeros_ones` weighs the `0x00` bytes of a buffer against all other bytes.
  - `encode_to_variations` tries all 256 keys. It keeps the best key on the "zeros" side and
    the best key on the "ones" side, and names each saved file
    `{stem}_chunk{chunk_size}_xor_{key:03d}.bin`.
  - `extract_xor_info` reads a chunk size and key back out of a file name with a single
    regular expression. Decoding applies the same transform again.
- `Anomaly_2.py` tries every (byte position, key) pair. For each pair it XORs one byte of a
  copy of the buffer with the key and scores the copy by `abs(zeros - ones)` over its
  **bits**. It keeps the first pair with the highest score and saves that copy compressed.
- `Anomaly_3.py` does the same with 16-bit keys. Each key is XORed into the big-endian word
  at positions `i, i+1`.

Modules:

- `Common`: bytes (`bv8`), `Option`, `Result`, the visiting order of the nested search
  loops, and an output file as a (name, contents) pair.
- `DecimalText`: decimal and hexadecimal digit strings. This covers Python's `int(s)`,
  `int(s, 16)`, `str(n)` and the zero-padded `{n:03d}` format.
- `BitBalance`: popcount, `count_zeros_ones` and the score `abs(zeros - ones)`.
- `XorPattern`: `transform_with_pattern`, as a function and as the loop it is, and
  `check_zeros_ones`.
- `FilenameKey`: `extract_xor_info`. Python's `re.search` is modelled as a leftmost-first
  scan. At each position the four alternatives are tried in order, and each digit run is
  greedy.
- `XorVariations`: the 256-key selection loop, `encode_to_variations` after the file is
  read, and the decode step of `decode_variation_file`.
- `SingleByteSearch` and `WordSearch`: the two exhaustive searches. Each is an imperative
  nested loop over a fresh array copy of the buffer, proved against "the first pair that
  attains the maximum score".

Reading files and writing files are outside the model. A saved file is returned as an
`OutputFile` value. The compressor is a function parameter that is applied only to the
selected buffer.

## Model

| member | source | states |
|---|---|---|
| BitBalance.Popcount | Anomaly_2.py:7 | `byte.bit_count()` is at most 8. It is 0 exactly for 0x00 and 8 exactly for 0xFF |
| BitBalance.OnesBound | Anomaly_2.py:7 | the sum of the per-byte popcounts is at most 8 bits per byte |
| BitBalance.OnesUpdate | Anomaly_2.py:34 | replacing one byte changes the one-bit count by the new popcount minus the old one |
| BitBalance.CountZerosOnes | Anomaly_2.py:5-9 | `zeros + ones == 8 * len(data)` |
| BitBalance.AllZeroBits | Anomaly_3.py:5-8 | there are no one bits exactly when every byte is 0x00 |
| BitBalance.AllOneBits | Anomaly_3.py:5-8 | every bit is a one exactly when every byte is 0xFF |
| BitBalance.Score | Anomaly_2.py:38 | the imbalance `abs(zeros - ones)` never exceeds the bit length of the buffer |
| BitBalance.ScoreMaximal | Anomaly_2.py:38 | the imbalance reaches 8 bits per byte exactly when all bytes are 0x00 or all are 0xFF |
| DecimalText.Dec | Anomaly_1.py:89 | `str(n)` is a non-empty string of decimal digits whose value is `n` |
| DecimalText.PadDec | Anomaly_1.py:89 | `{n:03d}` is a string of digits whose value is `n`; its length is the width or the length of `str(n)`, whichever is larger |
| DecimalText.LeadingZerosIgnored | Anomaly_1.py:22 | `int()` of a digit string ignores leading zeros |
| DecimalText.DecLength | Anomaly_1.py:89 | a number below `10^k` has at most `k` digits, so `{key:03d}` of a key below 1000 is exactly three digits |
| XorPattern.Transform | Anomaly_1.py:5-11 | a chunk size of 0 is the only error (`range` with step 0 raises); a negative chunk size yields an empty buffer |
| XorPattern.ChunkedIsXorEach | Anomaly_1.py:8-10 | XORing chunk by chunk and concatenating the chunks is XORing the whole buffer |
| XorPattern.TransformBytewise | Anomaly_1.py:5-11 | for every positive chunk size the output has the input's length, and byte `i` is `data[i] ^ (xor_value & 0xFF)`, so the chunk size does not matter |
| XorPattern.TransformInvolution | Anomaly_1.py:5-11 | transforming twice with keys that agree modulo 256 returns the input, even when the two chunk sizes differ; this is what the decode at line 39 relies on |
| XorPattern.TransformWithPattern | Anomaly_1.py:5-11 | the loop over `range(0, len(data), chunk_size)` with `extend` computes `Transform` |
| XorPattern.CheckZerosOnes | Anomaly_1.py:155-162 | zeros are the 0x00 bytes and ones are all other bytes. The label is `zeros` exactly when zeros exceed ones, `ones` exactly when ones exceed zeros, and `equal` exactly when the difference is 0. The difference is `abs(zeros - ones)` and lies in `0..len(data)` |
| XorPattern.ZeroBytesAfterXor | Anomaly_1.py:155 | after XORing with `k`, the zero bytes are exactly the bytes that were equal to `k` |
| XorPattern.DistinctCountsBounded | Anomaly_1.py:155 | two different byte values together occur at most `len(data)` times |
| FilenameKey.DigitRun | Anomaly_1.py:15 | the greedy `\d+` run starting at `i` stops at the end of the name or at a non-digit |
| FilenameKey.HexRun | Anomaly_1.py:15 | the greedy `[0-9a-fA-F]+` run starting at `i` stops at the end of the name or at a non-hex character |
| FilenameKey.ChunkXorAt | Anomaly_1.py:15 | the first alternative `_chunk(\d+)_xor([0-9a-fA-F]{2,})` matches only at an `_` |
| FilenameKey.XorUnderscoreAt | Anomaly_1.py:15 | the alternative `_xor_(\d{1,3})` matches only at an `_` |
| FilenameKey.XorDigitsAt | Anomaly_1.py:15 | the alternative `_xor(\d{2,3})` matches only at an `_` |
| FilenameKey.XorHexAt | Anomaly_1.py:15 | the alternative `_x([0-9a-fA-F]{2})` matches only at an `_` |
| FilenameKey.MatchAt | Anomaly_1.py:15 | a match at a position starts with `_` |
| FilenameKey.MatchWellFormed | Anomaly_1.py:15 | every group a match captures has the length and the digit class its alternative demands |
| FilenameKey.FirstMatch | Anomaly_1.py:15 | the first position that matches, with no match between the start and it |
| FilenameKey.Search | Anomaly_1.py:15 | `re.search` returns the leftmost position at which some alternative matches, and no earlier position matches; without a match, no position matches |
| FilenameKey.LeftmostMatch | Anomaly_1.py:15 | a match preceded by no match is the one the search returns |
| FilenameKey.ExtractXorInfo | Anomaly_1.py:13-30 | no match gives `(4, 255)`. The `_xor` and `_x` alternatives give chunk size 4 and a key of at most 999, and `_x` gives a key of at most 255. What the first alternative gives is stated by `ChunkXorNameParses` |
| FilenameKey.ChunkXorNameParses | Anomaly_1.py:17-19 | in `{stem}_chunk{c}_xor{h}...`, with no match starting in the stem, decimal digits `c`, and at least two hex digits `h` followed by no further hex digit, the chunk size is `int(c)` and the key is `int(h, 16)` |
| FilenameKey.ChunkZeroName | Anomaly_1.py:17-19 | `a_chunk0_xorff` gives chunk size 0 and key 255 |
| FilenameKey.XorDigitsName | Anomaly_1.py:23-25 | `a_xor42` is matched by the third alternative and gives `(4, 42)` |
| FilenameKey.ThreeDigitsBound | Anomaly_1.py:22 | at most three decimal digits are worth at most 999 |
| FilenameKey.TwoHexDigitsBound | Anomaly_1.py:28 | two hexadecimal digits are worth at most 255 |
| FilenameKey.SearchFindsKey | Anomaly_1.py:15 | in a saved variation name where no match starts in the stem, the search stops at the `_xor_` before the key digits |
| FilenameKey.VariationFileNameParses | Anomaly_1.py:89 | a name written as `{stem}_chunk{c}_xor_{k:03d}.bin`, with no match starting in the stem and a decimal chunk size, parses back to `(4, k)` |
| FilenameKey.CameraStemParses | Anomaly_1.py:89 | a stem with a `_` but no match, `IMG_1234`, round-trips key 7 |
| FilenameKey.HexStemHidesKey | Anomaly_1.py:15 | the saved name `img_xff_chunk4_xor_007.bin` parses to `(4, 255)`, not to key 7 |
| FilenameKey.ChunkStemHidesKey | Anomaly_1.py:15 | the saved name `a_chunk0_xorff_chunk4_xor_007.bin` parses to `(0, 255)` |
| FilenameKey.SavedKeyParses | Anomaly_1.py:97 | reading the three digits between the final `_xor_` and `.bin` gives back `(4, k)` for every stem |
| XorVariations.TakeKeepsBest | Anomaly_1.py:81-82 | taking a key whose difference is strictly larger keeps "best among the keys tried so far, smallest key on ties" |
| XorVariations.SkipKeepsBest | Anomaly_1.py:80-85 | skipping a key of the other side, of `equal`, or of a difference that is not larger keeps the same invariant |
| XorVariations.FinishedKeepsBest | Anomaly_1.py:76 | after key 255 the kept key is the best of all 256 keys |
| XorVariations.SelectBestKeys | Anomaly_1.py:76-85 | chunk size 0 raises. Otherwise each side keeps its smallest key with the largest difference among the keys classified on that side, or nothing when no key is on that side; `equal` keys are never kept |
| XorVariations.EncodeToVariations | Anomaly_1.py:60-104 | the number of saved files is the number of files, at most 2. The zeros file comes first and then the ones file, each named and filled from its selected key. A non-positive chunk size saves nothing. With a positive chunk size every saved file decodes back to the original data: through the key read from its end for any stem, and through `extract_xor_info` whenever no match starts in the stem |
| XorVariations.NegativeChunkSizeKeepsNothing | Anomaly_1.py:77-78 | with a negative chunk size every key gives an empty buffer classified `equal` |
| XorVariations.DecodeVariation | Anomaly_1.py:38-39 | decoding fails exactly when the name yields chunk size 0 |
| XorVariations.VariationFileDecodes | Anomaly_1.py:38-39 | a saved variation in whose stem no match of the pattern starts decodes to the original data |
| XorVariations.HexStemBreaksDecoding | Anomaly_1.py:38-39 | for the one-byte buffer `[7]` the zeros key is 7, so the file `img_xff_chunk4_xor_007.bin` holding `[0]` is saved, and it decodes to `[0xFF]` instead of `[7]` |
| XorVariations.ChunkStemBreaksDecoding | Anomaly_1.py:38-39 | for the buffer `[7]` the zeros key is 7, and the file saved for it under stem `a_chunk0_xorff` with chunk size 4 fails to decode whatever its contents: the name yields chunk size 0, and `range` raises |
| XorVariations.DecodeSavedVariation | Anomaly_1.py:38-39 | decoding with the key read from the end of the name fails exactly when the name yields chunk size 0 |
| XorVariations.SavedVariationDecodes | Anomaly_1.py:38-39 | every saved variation, whatever its stem, decodes to the original data with the key read from the end |
| XorVariations.OutcomeCounts | Anomaly_1.py:77-78 | for a positive chunk size, key `k` classifies by the number `n` of bytes equal to `k`: `zeros` with difference `2n - len` when `2n > len`, `ones` with `len - 2n` when `2n < len`, `equal` otherwise |
| XorVariations.ZerosKeyIsMajorityByte | Anomaly_1.py:80-82 | the zeros key is the smallest byte value that fills more than half of the buffer |
| XorVariations.MajorityByteUnique | Anomaly_1.py:80-82 | two byte values that each fill more than half of the buffer occur equally often |
| XorVariations.OnesKeyIsRarestByte | Anomaly_1.py:83-85 | the ones key is the smallest of the rarest byte values, provided it fills less than half of the buffer |
| XorVariations.ThreeCountsBounded | Anomaly_1.py:155 | three different byte values together occur at most `len(data)` times |
| XorVariations.OnesVariationExists | Anomaly_1.py:83-85 | a non-empty buffer with a positive chunk size always has a ones key, so a ones file is always saved |
| SingleByteSearch.ImprovedKeepsFirstBest | Anomaly_2.py:40-43 | taking a strictly better candidate keeps "the first best over the visited pairs" |
| SingleByteSearch.NotImprovedKeepsFirstBest | Anomaly_2.py:40 | skipping a candidate that is not better keeps the invariant |
| SingleByteSearch.NextPositionKeepsFirstBest | Anomaly_2.py:30-32 | moving on to the next position after key 255 keeps the invariant |
| SingleByteSearch.FinishedKeepsFirstBest | Anomaly_2.py:30 | after the last position the kept pair is the first best of all pairs, and nothing is kept only for an empty buffer |
| SingleByteSearch.EvaluateCandidate | Anomaly_2.py:33-38 | the mutated copy is the candidate for (position, key), and its score is its bit imbalance |
| SingleByteSearch.SearchBestSingleByte | Anomaly_2.py:23-45 | it evaluates exactly `256 * len` candidates. It keeps a pair exactly when the buffer is non-empty, and the pair is the first in (position, key) order whose score is the maximum over all pairs |
| SingleByteSearch.CreateBestZeroOneVariation | Anomaly_2.py:46-53 | an empty buffer saves nothing and returns 0. Otherwise it returns 1 and writes the compressed first-best candidate under `{base}_byte{pos:04d}_xor{key:03d}.bin` |
| SingleByteSearch.FirstBestUnique | Anomaly_2.py:40 | at most one pair meets the selection rule |
| SingleByteSearch.BestAtLeastOriginal | Anomaly_2.py:23-40 | the kept score is at least the imbalance of the unmodified buffer, because key 0 is tried |
| SingleByteSearch.CandidateInvolution | Anomaly_2.py:34 | XORing the same byte with the same key twice restores the buffer |
| SingleByteSearch.CandidateBytewise | Anomaly_2.py:33-34 | a candidate keeps the length and differs from the original only at the position, where it holds `original ^ key` |
| SingleByteSearch.AllZeroBufferKeepsFirstPair | Anomaly_2.py:40 | for three zero bytes the first pair (0, 0) already scores the maximum of 24, so it is the pair that is kept, even though later pairs score as much |
| WordSearch.ToBigEndian | Anomaly_3.py:38 | `to_bytes(2, 'big')` is two bytes long |
| WordSearch.BigEndianRoundTrip | Anomaly_3.py:33-38 | `int.from_bytes` and `to_bytes(2, 'big')` invert each other |
| WordSearch.WordXorBytewise | Anomaly_3.py:37-38 | XORing the word with a key XORs the high byte with `key >> 8` and the low byte with `key & 0xFF` |
| WordSearch.XorWordAtHigh | Anomaly_3.py:38 | byte `i` of the candidate is the original byte XOR the key's high byte |
| WordSearch.XorWordAtLow | Anomaly_3.py:38 | byte `i+1` of the candidate is the original byte XOR the key's low byte |
| WordSearch.XorWordAtBytewise | Anomaly_3.py:36-38 | a candidate equals the original except at bytes `i` and `i+1` |
| WordSearch.XorWordAtInvolution | Anomaly_3.py:37-38 | applying the same word XOR twice at the same position restores the buffer |
| WordSearch.CandidateInvolution | Anomaly_3.py:37-38 | the same for a candidate of the key loop |
| WordSearch.XorWordAtZero | Anomaly_3.py:35-38 | key 0 leaves the buffer unchanged at every position |
| WordSearch.ImprovedKeepsFirstBest | Anomaly_3.py:43-46 | taking a strictly better candidate keeps "the first best over the visited pairs" |
| WordSearch.NotImprovedKeepsFirstBest | Anomaly_3.py:43 | skipping a candidate that is not better keeps the invariant |
| WordSearch.NextPositionKeepsFirstBest | Anomaly_3.py:29-35 | moving on to the next position after key 65535 keeps the invariant |
| WordSearch.FinishedKeepsFirstBest | Anomaly_3.py:29 | after position `len - 2` the kept pair is the first best of all pairs, and nothing is kept only for buffers shorter than two bytes |
| WordSearch.EvaluateCandidate | Anomaly_3.py:36-41 | the copy with the rewritten word is the candidate for (position, key), and its score is its bit imbalance |
| WordSearch.SearchBestTwoByte | Anomaly_3.py:22-47 | it evaluates exactly `65536 * (len - 1)` candidates, or none below two bytes. It keeps a pair exactly when there are at least two bytes, and the pair is the first in (position, key) order whose score is the maximum over all pairs. A verified assertion in the loop body shows that the `len(orig_pair) < 2` guard never fires |
| WordSearch.CreateBestTwoByteVariation | Anomaly_3.py:49-57 | fewer than two bytes save nothing and return 0. Otherwise it returns 1 and writes the compressed first-best candidate under `{base}_pos{i:04d}_xor{key:05d}.bin` |
| WordSearch.FirstBestUnique | Anomaly_3.py:43 | at most one pair meets the selection rule |
| WordSearch.BestAtLeastOriginal | Anomaly_3.py:35-43 | the kept score is at least the imbalance of the unmodified buffer, because key 0 is tried |

## Left out

- File and directory I/O is not modelled. This covers reading the input, `os.makedirs`, the
  `os.path.isfile` checks, writing files, and the folder paths of the saved files. A saved
  file is an `OutputFile` name and contents.
- Printing, the interactive `main` menus and the catch-all exception handlers are not
  modelled. The one exception that the modelled code itself raises is `ValueError` from
  `range` with a step of 0, which is modelled as `Err(ZeroChunkSize)`.
- `decode_variation_file` is modelled only as "parse the name, transform again"
  (`DecodeVariation`). Its output name `decoded_{stem}_{n:04d}.jpg` and its file handling
  are I/O.
- `find_variation_folders`, `process_all_variation_folders` and `check_variations` walk
  directories. `os.listdir` order is unspecified, so they are not modelled.
- The file-path branch of `check_zeros_ones` (reading a file when given a `str`) is I/O and
  is not modelled.
- `paq.compress`, `paq.decompress` and `extract_paq_compressed_file` are foreign calls.
  Compression is a function parameter that is applied only to the selected buffer.
- `FilenameKey.DigitRun`: `\d` is modelled as the ASCII digits `0`-`9`. Python's `\d` on a
  `str` also matches other Unicode decimal digits.
- `XorVariations.VariationFileDecodes`: this is stated only for stems in which no match of
  the pattern starts. In a stem that holds a match, that match decides the chunk size and
  the key (see Findings). `SavedVariationDecodes` covers every stem.
- The encoder's own `_chunk{c}_xor_` part of a saved name never matches the first
  alternative, because `_` is not a hexadecimal digit. When no match starts in the stem, a
  saved name therefore decodes with chunk size 4. This is harmless, because the result of
  the transform does not depend on the chunk size.

## Findings

| source | as written | input that shows it | evidently intended | confidence | as-written member | corrected member |
|---|---|---|---|---|---|---|
| Anomaly_1.py:15 | `extract_xor_info` takes the leftmost match anywhere in the name. When a match of one of the four alternatives starts in the stem, that match decides the key instead of the `_xor_{key:03d}` that `encode_to_variations` wrote (line 89). The decode at line 39 can then XOR with a wrong key, or, when the stem holds `_chunk0_xor` and two hex digits, reads chunk size 0 and raises | stem `img_xff`, key 7: the name `img_xff_chunk4_xor_007.bin` parses to `(4, 255)`, and for the buffer `[7]`, whose zeros key is 7, the saved contents `[0]` decode to `[0xFF]`. Stem `a_chunk0_xorff`: the name parses to `(0, 255)` and the decode fails | read the key that the encoder wrote, so that every saved variation decodes to the original data | medium, not executed | FilenameKey.HexStemHidesKey, FilenameKey.ChunkStemHidesKey, XorVariations.HexStemBreaksDecoding, XorVariations.ChunkStemBreaksDecoding | FilenameKey.SavedKeyParses, XorVariations.SavedVariationDecodes |
