/** The two-byte exhaustive search of `create_best_two_byte_variation`: every
    position i with a following byte, every 16-bit key, the big-endian word at
    i, i+1 XOR-ed in a fresh copy of the buffer, scored by bit balance; the
    first strictly better candidate is kept. */
module WordSearch {
  import opened Common
  import opened DecimalText
  import opened BitBalance

  /** `int.from_bytes(pair, byteorder='big')` for a two-byte pair. */
  function FromBigEndian(hi: Byte, lo: Byte): bv16
  {
    (hi as bv16 << 8) | lo as bv16
  }

  /** `v.to_bytes(2, byteorder='big')`; a 16-bit value always fits in two bytes. */
  function ToBigEndian(v: bv16): (r: Bytes)
    ensures |r| == 2
  {
    [(v >> 8) as Byte, (v & 0xFF) as Byte]
  }

  /** Reading a pair as a big-endian word and writing it back gives the same pair. */
  lemma BigEndianRoundTrip(hi: Byte, lo: Byte, v: bv16)
    ensures ToBigEndian(FromBigEndian(hi, lo)) == [hi, lo]
    ensures FromBigEndian(ToBigEndian(v)[0], ToBigEndian(v)[1]) == v
  {
  }

  /** XOR-ing the word with `key` is XOR-ing its high byte with the key's high byte and its
      low byte with the key's low byte. */
  lemma WordXorBytewise(hi: Byte, lo: Byte, key: bv16)
    ensures ToBigEndian(FromBigEndian(hi, lo) ^ key)[0] == hi ^ (key >> 8) as Byte
    ensures ToBigEndian(FromBigEndian(hi, lo) ^ key)[1] == lo ^ (key & 0xFF) as Byte
  {
  }

  /** The buffer with bytes `pos`, `pos + 1` replaced by the big-endian encoding of their
      word XOR-ed with `k` (the slice assignment `modified_data[i:i+2] = ...`, which writes
      exactly two bytes since the encoding is two bytes long). */
  function XorWordAt(data: Bytes, pos: nat, k: bv16): Bytes
    requires pos + 1 < |data|
  {
    var w := ToBigEndian(FromBigEndian(data[pos], data[pos + 1]) ^ k);
    data[pos := w[0]][pos + 1 := w[1]]
  }

  /** `modified_data` for one pair of the search (a key of the loop `range(65536)`). */
  function Candidate(data: Bytes, pos: nat, key: nat): Bytes
    requires pos + 1 < |data| && key < 65536
  {
    XorWordAt(data, pos, key as bv16)
  }

  function PairScore(data: Bytes, pos: nat, key: nat): nat
    requires pos + 1 < |data| && key < 65536
  {
    Score(Candidate(data, pos, key))
  }

  /** (pos, key) is the pair the search keeps: no pair scores higher, and every pair
      visited before it scores strictly lower. */
  ghost predicate IsFirstBest(data: Bytes, pos: nat, key: nat)
  {
    && pos + 1 < |data| && key < 65536
    && (forall p: nat, k: nat :: p + 1 < |data| && k < 65536 ==> PairScore(data, p, k) <= PairScore(data, pos, key))
    && (forall p: nat, k: nat :: p + 1 < |data| && k < 65536 && Before(p, k, pos, key) ==> PairScore(data, p, k) < PairScore(data, pos, key))
  }

  /** The kept candidate (`best_score`, `best_data`, and the pair that `best_file_name` records). */
  datatype Variation = Variation(pos: nat, key: nat, score: nat, data: Bytes)

  /** `f"{base_name}_pos{i:04d}_xor{xor_val:05d}.bin"` */
  function VariationName(baseName: string, pos: nat, key: nat): string
  {
    baseName + "_pos" + PadDec(pos, 4) + "_xor" + PadDec(key, 5) + ".bin"
  }

  ghost predicate Describes(data: Bytes, v: Variation)
  {
    && v.pos + 1 < |data| && v.key < 65536
    && v.data == Candidate(data, v.pos, v.key)
    && v.score == Score(v.data)
  }

  /** `best` (with score `bestScore`, -1 while there is none) is the first best among
      the pairs visited before (nextPos, nextKey). */
  ghost predicate KeepsFirstBest(data: Bytes, nextPos: nat, nextKey: nat,
                                 best: Option<Variation>, bestScore: int)
  {
    match best
    case None => bestScore == -1 && nextPos == 0 && nextKey == 0
    case Some(v) =>
      && Describes(data, v)
      && bestScore == v.score
      && Before(v.pos, v.key, nextPos, nextKey)
      && (forall p: nat, k: nat :: p + 1 < |data| && k < 65536 && Before(p, k, nextPos, nextKey) ==> PairScore(data, p, k) <= v.score)
      && (forall p: nat, k: nat :: p + 1 < |data| && k < 65536 && Before(p, k, v.pos, v.key) ==> PairScore(data, p, k) < v.score)
  }

  /** A candidate that scores strictly higher than the kept one becomes the kept one. */
  lemma ImprovedKeepsFirstBest(data: Bytes, pos: nat, key: nat,
                               best: Option<Variation>, bestScore: int)
    requires pos + 1 < |data| && key < 65536
    requires KeepsFirstBest(data, pos, key, best, bestScore)
    requires PairScore(data, pos, key) > bestScore
    ensures KeepsFirstBest(data, pos, key + 1,
      Some(Variation(pos, key, PairScore(data, pos, key), Candidate(data, pos, key))),
      PairScore(data, pos, key))
  {
    var s := PairScore(data, pos, key);
    forall p: nat, k: nat | p + 1 < |data| && k < 65536 && Before(p, k, pos, key + 1)
      ensures PairScore(data, p, k) <= s
    {
      if Before(p, k, pos, key) {
        assert best.Some? && PairScore(data, p, k) <= bestScore;
      }
    }
  }

  /** A candidate that does not score strictly higher leaves the kept one in place. */
  lemma NotImprovedKeepsFirstBest(data: Bytes, pos: nat, key: nat,
                                  best: Option<Variation>, bestScore: int)
    requires pos + 1 < |data| && key < 65536
    requires KeepsFirstBest(data, pos, key, best, bestScore)
    requires PairScore(data, pos, key) <= bestScore
    ensures KeepsFirstBest(data, pos, key + 1, best, bestScore)
  {
  }

  /** Having tried all 65536 keys at `pos` is having visited everything before position `pos + 1`. */
  lemma NextPositionKeepsFirstBest(data: Bytes, pos: nat,
                                   best: Option<Variation>, bestScore: int)
    requires KeepsFirstBest(data, pos, 65536, best, bestScore)
    ensures KeepsFirstBest(data, pos + 1, 0, best, bestScore)
  {
  }

  /** Once every position with a following byte has been visited, the kept candidate is the
      first best pair overall. */
  lemma FinishedKeepsFirstBest(data: Bytes, lastPos: nat, best: Option<Variation>, bestScore: int)
    requires lastPos + 1 == |data| || (lastPos == 0 && |data| < 2)
    requires KeepsFirstBest(data, lastPos, 0, best, bestScore)
    ensures best.None? <==> |data| < 2
    ensures best.Some? ==> Describes(data, best.value)
    ensures best.Some? ==> IsFirstBest(data, best.value.pos, best.value.key)
  {
  }

  /** One candidate of the search: copy the buffer, overwrite bytes `i`, `i + 1` with the
      big-endian encoding of `origValue ^ xorVal`, count its bits and score it. */
  method EvaluateCandidate(originalData: Bytes, i: nat, origValue: bv16, xorVal: nat)
    returns (candidate: Bytes, score: nat)
    requires i + 1 < |originalData| && xorVal < 65536
    requires origValue == FromBigEndian(originalData[i], originalData[i + 1])
    ensures candidate == Candidate(originalData, i, xorVal)
    ensures score == Score(candidate)
  {
    var modifiedData := NewByteArray(originalData);
    var newVal := origValue ^ xorVal as bv16;
    var newBytes := ToBigEndian(newVal);
    modifiedData[i], modifiedData[i + 1] := newBytes[0], newBytes[1];
    candidate := modifiedData[..];
    var (zeros, ones) := CountZerosOnes(candidate);
    score := Abs(zeros - ones);
  }

  /** The search loop of `create_best_two_byte_variation`: positions 0 .. len - 2 ascending,
      and at each position every key 0..65535 ascending. It evaluates 65536 candidates per
      position and keeps the first one whose score is the maximum over all pairs; a buffer
      shorter than two bytes has no candidate. */
  method SearchBestTwoByte(originalData: Bytes) returns (best: Option<Variation>, evaluated: nat)
    ensures evaluated == if |originalData| < 2 then 0 else 65536 * (|originalData| - 1)
    ensures best.None? <==> |originalData| < 2
    ensures best.Some? ==> Describes(originalData, best.value)
    ensures best.Some? ==> IsFirstBest(originalData, best.value.pos, best.value.key)
  {
    var bestScore: int := -1;
    best := None;
    evaluated := 0;
    var totalBytes := |originalData|;
    var i := 0;
    while i < totalBytes - 1
      invariant i <= if totalBytes < 2 then 0 else totalBytes - 1
      invariant evaluated == 65536 * i
      invariant KeepsFirstBest(originalData, i, 0, best, bestScore)
    {
      var origPair := originalData[i..i + 2];
      // The guard `len(orig_pair) < 2` never holds: every visited position has a following byte.
      assert |origPair| == 2;
      var origValue := FromBigEndian(origPair[0], origPair[1]);
      var xorVal := 0;
      while xorVal < 65536
        invariant xorVal <= 65536
        invariant evaluated == 65536 * i + xorVal
        invariant KeepsFirstBest(originalData, i, xorVal, best, bestScore)
      {
        var candidate, score := EvaluateCandidate(originalData, i, origValue, xorVal);
        evaluated := evaluated + 1;
        if score > bestScore {
          ImprovedKeepsFirstBest(originalData, i, xorVal, best, bestScore);
          bestScore := score;
          best := Some(Variation(i, xorVal, score, candidate));
        } else {
          NotImprovedKeepsFirstBest(originalData, i, xorVal, best, bestScore);
        }
        xorVal := xorVal + 1;
      }
      NextPositionKeepsFirstBest(originalData, i, best, bestScore);
      i := i + 1;
    }
    FinishedKeepsFirstBest(originalData, i, best, bestScore);
  }

  /** `create_best_two_byte_variation` after reading the file: search, then save the
      compressed best candidate under its name. It returns the number of files saved
      (0 when the buffer has fewer than two bytes, otherwise 1) and the file written. */
  method CreateBestTwoByteVariation(originalData: Bytes, baseName: string, compress: Bytes -> Bytes)
    returns (saved: nat, written: Option<OutputFile>)
    ensures saved == (if |originalData| < 2 then 0 else 1)
    ensures written.None? <==> |originalData| < 2
    ensures written.Some? ==>
      exists pos: nat, key: nat :: IsFirstBest(originalData, pos, key)
        && written.value == OutputFile(VariationName(baseName, pos, key), compress(Candidate(originalData, pos, key)))
  {
    var best, _ := SearchBestTwoByte(originalData);
    if best.Some? && |best.value.data| > 0 {
      var bestFileName := VariationName(baseName, best.value.pos, best.value.key);
      written := Some(OutputFile(bestFileName, compress(best.value.data)));
      saved := 1;
    } else {
      written := None;
      saved := 0;
    }
  }

  /** Two pairs that both satisfy the selection rule are the same pair: the search is deterministic. */
  lemma FirstBestUnique(data: Bytes, p1: nat, k1: nat, p2: nat, k2: nat)
    requires IsFirstBest(data, p1, k1) && IsFirstBest(data, p2, k2)
    ensures p1 == p2 && k1 == k2
  {
    assert PairScore(data, p1, k1) == PairScore(data, p2, k2);
    assert !Before(p1, k1, p2, k2);
    assert !Before(p2, k2, p1, k1);
  }

  /** Key 0 leaves the buffer unchanged, so the kept score is at least the imbalance of the input. */
  lemma BestAtLeastOriginal(data: Bytes, pos: nat, key: nat)
    requires IsFirstBest(data, pos, key)
    ensures PairScore(data, pos, key) >= Score(data)
  {
    XorWordAtZero(data, 0);
    assert PairScore(data, 0, 0) <= PairScore(data, pos, key);
  }

  /** Key 0 leaves the buffer unchanged, at every position. */
  lemma XorWordAtZero(data: Bytes, pos: nat)
    requires pos + 1 < |data|
    ensures Candidate(data, pos, 0) == data
  {
    XorWordAtBytewise(data, pos, 0);
    assert KeyHighByte(0) == 0 && KeyLowByte(0) == 0;
  }

  /** The high byte of a 16-bit key. */
  function KeyHighByte(k: bv16): Byte
  {
    (k >> 8) as Byte
  }

  /** The low byte of a 16-bit key. */
  function KeyLowByte(k: bv16): Byte
  {
    (k & 0xFF) as Byte
  }

  /** XOR-ing the word at `pos` XORs byte `pos` with the key's high byte. */
  lemma XorWordAtHigh(data: Bytes, pos: nat, k: bv16)
    requires pos + 1 < |data|
    ensures XorWordAt(data, pos, k)[pos] == data[pos] ^ KeyHighByte(k)
  {
    WordXorBytewise(data[pos], data[pos + 1], k);
  }

  /** XOR-ing the word at `pos` XORs byte `pos + 1` with the key's low byte. */
  lemma XorWordAtLow(data: Bytes, pos: nat, k: bv16)
    requires pos + 1 < |data|
    ensures XorWordAt(data, pos, k)[pos + 1] == data[pos + 1] ^ KeyLowByte(k)
  {
    WordXorBytewise(data[pos], data[pos + 1], k);
  }

  /** XOR-ing a word differs from the input only at `pos` and `pos + 1`, which hold the
      bytes XOR-ed with the high and the low byte of the key. */
  lemma XorWordAtBytewise(data: Bytes, pos: nat, k: bv16)
    requires pos + 1 < |data|
    ensures XorWordAt(data, pos, k)
      == data[pos := data[pos] ^ KeyHighByte(k)][pos + 1 := data[pos + 1] ^ KeyLowByte(k)]
  {
    XorWordAtHigh(data, pos, k);
    XorWordAtLow(data, pos, k);
  }

  /** Applying the same word XOR twice at the same position restores the buffer. */
  lemma XorWordAtInvolution(data: Bytes, pos: nat, k: bv16)
    requires pos + 1 < |data|
    ensures XorWordAt(XorWordAt(data, pos, k), pos, k) == data
  {
    var c := XorWordAt(data, pos, k);
    XorWordAtBytewise(data, pos, k);
    XorWordAtBytewise(c, pos, k);
    XorTwice(data[pos], KeyHighByte(k));
    XorTwice(data[pos + 1], KeyLowByte(k));
  }

  /** Applying the search's transformation for a pair twice restores the input. */
  lemma CandidateInvolution(data: Bytes, pos: nat, key: nat)
    requires pos + 1 < |data| && key < 65536
    ensures Candidate(Candidate(data, pos, key), pos, key) == data
  {
    XorWordAtInvolution(data, pos, key as bv16);
  }
}
