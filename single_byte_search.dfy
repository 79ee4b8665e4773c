/** The single-byte exhaustive search of `create_best_zero_one_variation`:
    every position, every key 0..255, one byte XOR-ed in a fresh copy of the
    buffer, scored by bit balance; the first strictly better candidate is kept. */
module SingleByteSearch {
  import opened Common
  import opened DecimalText
  import opened BitBalance

  /** `modified_data` for one pair: a copy of the buffer whose byte at `pos` is XOR-ed with `key`. */
  function Candidate(data: Bytes, pos: nat, key: nat): Bytes
    requires pos < |data| && key < 256
  {
    data[pos := data[pos] ^ key as Byte]
  }

  function PairScore(data: Bytes, pos: nat, key: nat): nat
    requires pos < |data| && key < 256
  {
    Score(Candidate(data, pos, key))
  }

  /** (pos, key) is the pair the search keeps: no pair scores higher, and every pair
      visited before it scores strictly lower. */
  ghost predicate IsFirstBest(data: Bytes, pos: nat, key: nat)
  {
    && pos < |data| && key < 256
    && (forall p: nat, k: nat :: p < |data| && k < 256 ==> PairScore(data, p, k) <= PairScore(data, pos, key))
    && (forall p: nat, k: nat :: p < |data| && k < 256 && Before(p, k, pos, key) ==> PairScore(data, p, k) < PairScore(data, pos, key))
  }

  /** The kept candidate (`best_score`, `best_data`, and the pair that `best_file_name` records). */
  datatype Variation = Variation(pos: nat, key: nat, score: nat, data: Bytes)

  /** `f"{base_name}_byte{byte_pos:04d}_xor{xor_val:03d}.bin"` */
  function VariationName(baseName: string, pos: nat, key: nat): string
  {
    baseName + "_byte" + PadDec(pos, 4) + "_xor" + PadDec(key, 3) + ".bin"
  }

  ghost predicate Describes(data: Bytes, v: Variation)
  {
    && v.pos < |data| && v.key < 256
    && v.data == Candidate(data, v.pos, v.key)
    && v.score == Score(v.data)
  }

  /** `best` (with score `bestScore`, -1 while there is none) is the first best among
      the pairs visited before (nextPos, nextKey). */
  ghost predicate KeepsFirstBest(data: Bytes, nextPos: nat, nextKey: nat,
                                 best: Option<Variation>, bestScore: int)
  {
    match best
    case None => bestScore == -1 && nextPos == 0 && nextKey == 0
    case Some(v) =>
      && Describes(data, v)
      && bestScore == v.score
      && Before(v.pos, v.key, nextPos, nextKey)
      && (forall p: nat, k: nat :: p < |data| && k < 256 && Before(p, k, nextPos, nextKey) ==> PairScore(data, p, k) <= v.score)
      && (forall p: nat, k: nat :: p < |data| && k < 256 && Before(p, k, v.pos, v.key) ==> PairScore(data, p, k) < v.score)
  }

  /** A candidate that scores strictly higher than the kept one becomes the kept one. */
  lemma ImprovedKeepsFirstBest(data: Bytes, pos: nat, key: nat,
                               best: Option<Variation>, bestScore: int)
    requires pos < |data| && key < 256
    requires KeepsFirstBest(data, pos, key, best, bestScore)
    requires PairScore(data, pos, key) > bestScore
    ensures KeepsFirstBest(data, pos, key + 1,
      Some(Variation(pos, key, PairScore(data, pos, key), Candidate(data, pos, key))),
      PairScore(data, pos, key))
  {
    var s := PairScore(data, pos, key);
    forall p: nat, k: nat | p < |data| && k < 256 && Before(p, k, pos, key + 1)
      ensures PairScore(data, p, k) <= s
    {
      if Before(p, k, pos, key) {
        assert best.Some? && PairScore(data, p, k) <= bestScore;
      }
    }
  }

  /** A candidate that does not score strictly higher leaves the kept one in place. */
  lemma NotImprovedKeepsFirstBest(data: Bytes, pos: nat, key: nat,
                                  best: Option<Variation>, bestScore: int)
    requires pos < |data| && key < 256
    requires KeepsFirstBest(data, pos, key, best, bestScore)
    requires PairScore(data, pos, key) <= bestScore
    ensures KeepsFirstBest(data, pos, key + 1, best, bestScore)
  {
  }

  /** Having tried all 256 keys at `pos` is having visited everything before position `pos + 1`. */
  lemma NextPositionKeepsFirstBest(data: Bytes, pos: nat,
                                   best: Option<Variation>, bestScore: int)
    requires KeepsFirstBest(data, pos, 256, best, bestScore)
    ensures KeepsFirstBest(data, pos + 1, 0, best, bestScore)
  {
  }

  /** Once every position has been visited, the kept candidate is the first best pair overall. */
  lemma FinishedKeepsFirstBest(data: Bytes, best: Option<Variation>, bestScore: int)
    requires KeepsFirstBest(data, |data|, 0, best, bestScore)
    ensures best.None? <==> |data| == 0
    ensures best.Some? ==> Describes(data, best.value)
    ensures best.Some? ==> IsFirstBest(data, best.value.pos, best.value.key)
  {
  }

  /** One candidate of the search: copy the buffer, XOR the byte at `bytePos` with `xorVal`,
      count its bits and score it. */
  method EvaluateCandidate(originalData: Bytes, bytePos: nat, xorVal: nat) returns (candidate: Bytes, score: nat)
    requires bytePos < |originalData| && xorVal < 256
    ensures candidate == Candidate(originalData, bytePos, xorVal)
    ensures score == Score(candidate)
  {
    var originalByte := originalData[bytePos];
    var modifiedData := NewByteArray(originalData);
    modifiedData[bytePos] := originalByte ^ xorVal as Byte;
    candidate := modifiedData[..];
    var (zeros, ones) := CountZerosOnes(candidate);
    score := Abs(zeros - ones);
  }

  /** The search loop of `create_best_zero_one_variation`: positions ascending, and at each
      position every key 0..255 ascending. It evaluates 256 candidates per byte and keeps the
      first one whose score is the maximum over all pairs; an empty buffer has no candidate. */
  method SearchBestSingleByte(originalData: Bytes) returns (best: Option<Variation>, evaluated: nat)
    ensures evaluated == 256 * |originalData|
    ensures best.None? <==> |originalData| == 0
    ensures best.Some? ==> Describes(originalData, best.value)
    ensures best.Some? ==> IsFirstBest(originalData, best.value.pos, best.value.key)
  {
    var bestScore: int := -1;
    best := None;
    evaluated := 0;
    var totalBytes := |originalData|;
    var bytePos := 0;
    while bytePos < totalBytes
      invariant bytePos <= totalBytes
      invariant evaluated == 256 * bytePos
      invariant KeepsFirstBest(originalData, bytePos, 0, best, bestScore)
    {
      var xorVal := 0;
      while xorVal < 256
        invariant xorVal <= 256
        invariant evaluated == 256 * bytePos + xorVal
        invariant KeepsFirstBest(originalData, bytePos, xorVal, best, bestScore)
      {
        var candidate, score := EvaluateCandidate(originalData, bytePos, xorVal);
        evaluated := evaluated + 1;
        if score > bestScore {
          ImprovedKeepsFirstBest(originalData, bytePos, xorVal, best, bestScore);
          bestScore := score;
          best := Some(Variation(bytePos, xorVal, score, candidate));
        } else {
          NotImprovedKeepsFirstBest(originalData, bytePos, xorVal, best, bestScore);
        }
        xorVal := xorVal + 1;
      }
      NextPositionKeepsFirstBest(originalData, bytePos, best, bestScore);
      bytePos := bytePos + 1;
    }
    FinishedKeepsFirstBest(originalData, best, bestScore);
  }

  /** `create_best_zero_one_variation` after reading the file: search, then save the
      compressed best candidate under its name. It returns the number of files saved
      (0 for an empty buffer, otherwise 1) and the file written. */
  method CreateBestZeroOneVariation(originalData: Bytes, baseName: string, compress: Bytes -> Bytes)
    returns (saved: nat, written: Option<OutputFile>)
    ensures saved == (if |originalData| == 0 then 0 else 1)
    ensures written.None? <==> |originalData| == 0
    ensures written.Some? ==>
      exists pos: nat, key: nat :: IsFirstBest(originalData, pos, key)
        && written.value == OutputFile(VariationName(baseName, pos, key), compress(Candidate(originalData, pos, key)))
  {
    var best, _ := SearchBestSingleByte(originalData);
    if best.Some? && |best.value.data| > 0 {
      var bestFileName := VariationName(baseName, best.value.pos, best.value.key);
      written := Some(OutputFile(bestFileName, compress(best.value.data)));
      saved := 1;
    } else {
      written := None;
      saved := 0;
    }
  }

  /** Two pairs that both satisfy the selection rule are the same pair: the search is deterministic. */
  lemma FirstBestUnique(data: Bytes, p1: nat, k1: nat, p2: nat, k2: nat)
    requires IsFirstBest(data, p1, k1) && IsFirstBest(data, p2, k2)
    ensures p1 == p2 && k1 == k2
  {
    assert PairScore(data, p1, k1) == PairScore(data, p2, k2);
    assert !Before(p1, k1, p2, k2);
    assert !Before(p2, k2, p1, k1);
  }

  /** Key 0 leaves the buffer unchanged, so the kept score is at least the imbalance of the input. */
  lemma BestAtLeastOriginal(data: Bytes, pos: nat, key: nat)
    requires IsFirstBest(data, pos, key)
    ensures PairScore(data, pos, key) >= Score(data)
  {
    assert Candidate(data, 0, 0) == data;
    assert PairScore(data, 0, 0) <= PairScore(data, pos, key);
  }

  /** XOR-ing the same byte with the same key twice restores the buffer. */
  lemma CandidateInvolution(data: Bytes, pos: nat, key: nat)
    requires pos < |data| && key < 256
    ensures Candidate(Candidate(data, pos, key), pos, key) == data
  {
  }

  /** A candidate differs from the input only at `pos`, where it holds the XOR-ed byte. */
  lemma CandidateBytewise(data: Bytes, pos: nat, key: nat)
    requires pos < |data| && key < 256
    ensures |Candidate(data, pos, key)| == |data|
    ensures Candidate(data, pos, key)[pos] == data[pos] ^ key as Byte
    ensures forall i :: 0 <= i < |data| && i != pos ==> Candidate(data, pos, key)[i] == data[i]
  {
  }

  /** Three zero bytes: the imbalance 24 is already maximal, so the search keeps offset 0, key 0. */
  lemma AllZeroBufferKeepsFirstPair()
    ensures IsFirstBest([0, 0, 0], 0, 0)
    ensures PairScore([0, 0, 0], 0, 0) == 24
  {
    var data: Bytes := [0, 0, 0];
    assert Candidate(data, 0, 0) == data;
    ScoreMaximal(data);
  }
}
