/** The key selection of `encode_to_variations`: transform the buffer with every key
    0..255, classify each result with `check_zeros_ones`, keep the first key with the
    largest zero majority and the first key with the largest one majority, and save the
    two buffers under names that carry the key; `decode_variation_file` reads the key
    back from the name and applies the same transform. */
module XorVariations {
  import opened Common
  import opened DecimalText
  import opened XorPattern
  import opened FilenameKey

  /** What `check_zeros_ones` says about the buffer transformed with `key`. */
  function Outcome(data: Bytes, chunkSize: int, key: nat): (Majority, nat)
    requires chunkSize != 0
  {
    CheckZerosOnes(Transform(data, chunkSize, key).value)
  }

  /** A kept variation, `(xor_val, transformed, count_difference)`. */
  datatype Kept = Kept(key: nat, data: Bytes, diff: nat)

  /** `v` holds a key, its transformed buffer and that buffer's difference for `side`. */
  ghost predicate Describes(data: Bytes, chunkSize: int, side: Majority, v: Kept)
    requires chunkSize != 0
  {
    && v.key < 256
    && v.data == Transform(data, chunkSize, v.key).value
    && Outcome(data, chunkSize, v.key) == (side, v.diff)
  }

  /** `key` is the key the loop keeps for `side`: its transform has that side, no key's
      transform with that side has a larger difference, and every earlier key with that
      side has a strictly smaller one. */
  ghost predicate IsBestKey(data: Bytes, chunkSize: int, side: Majority, key: nat)
    requires chunkSize != 0
  {
    && key < 256
    && Outcome(data, chunkSize, key).0 == side
    && (forall k: nat :: k < 256 && Outcome(data, chunkSize, k).0 == side ==>
          Outcome(data, chunkSize, k).1 <= Outcome(data, chunkSize, key).1)
    && (forall k: nat :: k < key && Outcome(data, chunkSize, k).0 == side ==>
          Outcome(data, chunkSize, k).1 < Outcome(data, chunkSize, key).1)
  }

  /** `best` is what the loop keeps for `side` once keys 0 .. next - 1 have been tried. */
  ghost predicate KeepsBest(data: Bytes, chunkSize: int, side: Majority, next: nat, best: Option<Kept>)
    requires chunkSize != 0
  {
    match best
    case None => forall k: nat :: k < next ==> Outcome(data, chunkSize, k).0 != side
    case Some(v) =>
      && Describes(data, chunkSize, side, v)
      && v.key < next
      && (forall k: nat :: k < next && Outcome(data, chunkSize, k).0 == side ==>
            Outcome(data, chunkSize, k).1 <= v.diff)
      && (forall k: nat :: k < v.key && Outcome(data, chunkSize, k).0 == side ==>
            Outcome(data, chunkSize, k).1 < v.diff)
  }

  /** What the loop has kept for `side` after all 256 keys. */
  ghost predicate Selected(data: Bytes, chunkSize: int, side: Majority, best: Option<Kept>)
    requires chunkSize != 0
  {
    && (best.None? <==> forall k: nat :: k < 256 ==> Outcome(data, chunkSize, k).0 != side)
    && (best.Some? ==>
          Describes(data, chunkSize, side, best.value) && IsBestKey(data, chunkSize, side, best.value.key))
  }

  /** A key whose transform has the side and a strictly larger difference replaces the kept one. */
  lemma TakeKeepsBest(data: Bytes, chunkSize: int, side: Majority, key: nat, best: Option<Kept>)
    requires chunkSize != 0 && key < 256
    requires KeepsBest(data, chunkSize, side, key, best)
    requires Outcome(data, chunkSize, key).0 == side
    requires best.None? || Outcome(data, chunkSize, key).1 > best.value.diff
    ensures KeepsBest(data, chunkSize, side, key + 1,
      Some(Kept(key, Transform(data, chunkSize, key).value, Outcome(data, chunkSize, key).1)))
  {
    var d := Outcome(data, chunkSize, key).1;
    forall k: nat | k < key + 1 && Outcome(data, chunkSize, k).0 == side
      ensures Outcome(data, chunkSize, k).1 <= d
    {
      if k < key {
        assert best.Some? && Outcome(data, chunkSize, k).1 <= best.value.diff;
      }
    }
  }

  /** Any other key leaves the kept variation in place. */
  lemma SkipKeepsBest(data: Bytes, chunkSize: int, side: Majority, key: nat, best: Option<Kept>)
    requires chunkSize != 0 && key < 256
    requires KeepsBest(data, chunkSize, side, key, best)
    requires Outcome(data, chunkSize, key).0 != side
      || (best.Some? && Outcome(data, chunkSize, key).1 <= best.value.diff)
    ensures KeepsBest(data, chunkSize, side, key + 1, best)
  {
  }

  /** After key 255 the kept variation is the selected one. */
  lemma FinishedKeepsBest(data: Bytes, chunkSize: int, side: Majority, best: Option<Kept>)
    requires chunkSize != 0
    requires KeepsBest(data, chunkSize, side, 256, best)
    ensures Selected(data, chunkSize, side, best)
  {
  }

  /** The selection loop of `encode_to_variations`: every key 0..255 ascending, one
      transform and one classification per key; a `zeros` or `ones` result replaces the
      kept variation of its side when there is none yet or its difference is strictly
      larger. A chunk size of 0 raises in the first transform. */
  method SelectBestKeys(originalData: Bytes, chunkSize: int)
    returns (r: Result<(Option<Kept>, Option<Kept>), TransformError>)
    ensures r.Err? <==> chunkSize == 0
    ensures r.Ok? ==> Selected(originalData, chunkSize, Zeros, r.value.0)
    ensures r.Ok? ==> Selected(originalData, chunkSize, Ones, r.value.1)
  {
    var bestZeros: Option<Kept> := None;
    var bestOnes: Option<Kept> := None;
    var xorVal := 0;
    while xorVal < 256
      invariant xorVal <= 256
      invariant xorVal > 0 ==> chunkSize != 0
      invariant chunkSize != 0 ==> KeepsBest(originalData, chunkSize, Zeros, xorVal, bestZeros)
      invariant chunkSize != 0 ==> KeepsBest(originalData, chunkSize, Ones, xorVal, bestOnes)
    {
      var transformed := TransformWithPattern(originalData, chunkSize, xorVal);
      if transformed.Err? {
        return Err(transformed.error);
      }
      var (mostFrequent, countDifference) := CheckZerosOnes(transformed.value);
      if mostFrequent == Zeros {
        if bestZeros.None? || countDifference > bestZeros.value.diff {
          TakeKeepsBest(originalData, chunkSize, Zeros, xorVal, bestZeros);
          bestZeros := Some(Kept(xorVal, transformed.value, countDifference));
        } else {
          SkipKeepsBest(originalData, chunkSize, Zeros, xorVal, bestZeros);
        }
        SkipKeepsBest(originalData, chunkSize, Ones, xorVal, bestOnes);
      } else if mostFrequent == Ones {
        if bestOnes.None? || countDifference > bestOnes.value.diff {
          TakeKeepsBest(originalData, chunkSize, Ones, xorVal, bestOnes);
          bestOnes := Some(Kept(xorVal, transformed.value, countDifference));
        } else {
          SkipKeepsBest(originalData, chunkSize, Ones, xorVal, bestOnes);
        }
        SkipKeepsBest(originalData, chunkSize, Zeros, xorVal, bestZeros);
      } else {
        SkipKeepsBest(originalData, chunkSize, Zeros, xorVal, bestZeros);
        SkipKeepsBest(originalData, chunkSize, Ones, xorVal, bestOnes);
      }
      xorVal := xorVal + 1;
    }
    FinishedKeepsBest(originalData, chunkSize, Zeros, bestZeros);
    FinishedKeepsBest(originalData, chunkSize, Ones, bestOnes);
    r := Ok((bestZeros, bestOnes));
  }

  /** The file saved for `key`: its name and the transformed buffer it holds. */
  function VariationFile(data: Bytes, stem: string, chunkSize: int, key: nat): OutputFile
    requires chunkSize != 0
  {
    OutputFile(VariationFileName(stem, IntToString(chunkSize), key), Transform(data, chunkSize, key).value)
  }

  /** `files` are what is saved for `side`: nothing when no key has that side, otherwise
      the one file of the selected key. */
  ghost predicate SavedFor(data: Bytes, stem: string, chunkSize: int, side: Majority, files: seq<OutputFile>)
    requires chunkSize != 0
  {
    && (files == [] <==> forall k: nat :: k < 256 ==> Outcome(data, chunkSize, k).0 != side)
    && (files != [] ==> |files| == 1 && exists key: nat ::
          IsBestKey(data, chunkSize, side, key) && files[0] == VariationFile(data, stem, chunkSize, key))
  }

  /** `encode_to_variations` after reading the file: select the two keys, then save the
      `zeros` variation (if any) and the `ones` variation (if any), in that order, under
      `f"{stem}_chunk{chunk_size}_xor_{key:03d}.bin"`. It returns the number of files saved
      and the files. A chunk size of 0 is the caught `ValueError`: nothing is saved. */
  method EncodeToVariations(originalData: Bytes, stem: string, chunkSize: int)
    returns (filesSaved: nat, files: seq<OutputFile>)
    ensures filesSaved == |files| <= 2
    ensures chunkSize <= 0 ==> files == []
    ensures chunkSize != 0 ==>
      exists n :: 0 <= n <= |files|
        && SavedFor(originalData, stem, chunkSize, Zeros, files[..n])
        && SavedFor(originalData, stem, chunkSize, Ones, files[n..])
    ensures chunkSize > 0 ==>
      forall f :: f in files && NoMatchBetween(f.name, 0, |stem|) ==>
        DecodeVariation(f.name, f.contents) == Ok(originalData)
    ensures chunkSize > 0 ==>
      forall f :: f in files ==> DecodeSavedVariation(f.name, f.contents) == Ok(originalData)
  {
    var selection := SelectBestKeys(originalData, chunkSize);
    if selection.Err? {
      return 0, [];
    }
    var (bestZeros, bestOnes) := selection.value;
    var chunkText := IntToString(chunkSize);
    var zerosFiles: seq<OutputFile> := [];
    if bestZeros.Some? {
      var outName := VariationFileName(stem, chunkText, bestZeros.value.key);
      zerosFiles := [OutputFile(outName, bestZeros.value.data)];
    }
    var onesFiles: seq<OutputFile> := [];
    if bestOnes.Some? {
      var outName := VariationFileName(stem, chunkText, bestOnes.value.key);
      onesFiles := [OutputFile(outName, bestOnes.value.data)];
    }
    files := zerosFiles + onesFiles;
    filesSaved := |zerosFiles| + |onesFiles|;
    SavedForKept(originalData, stem, chunkSize, Zeros, bestZeros, zerosFiles);
    SavedForKept(originalData, stem, chunkSize, Ones, bestOnes, onesFiles);
    assert files[..|zerosFiles|] == zerosFiles && files[|zerosFiles|..] == onesFiles;
    if chunkSize < 0 {
      NegativeChunkSizeKeepsNothing(originalData, chunkSize);
    }
  }

  /** The files written for one side are the files `SavedFor` describes, and each of them
      decodes back to the original buffer. */
  lemma SavedForKept(data: Bytes, stem: string, chunkSize: int, side: Majority,
                     best: Option<Kept>, files: seq<OutputFile>)
    requires chunkSize != 0 && Selected(data, chunkSize, side, best)
    requires best.None? ==> files == []
    requires best.Some? ==>
      files == [OutputFile(VariationFileName(stem, IntToString(chunkSize), best.value.key), best.value.data)]
    ensures SavedFor(data, stem, chunkSize, side, files)
    ensures chunkSize > 0 ==>
      forall f :: f in files && NoMatchBetween(f.name, 0, |stem|) ==> DecodeVariation(f.name, f.contents) == Ok(data)
    ensures chunkSize > 0 ==>
      forall f :: f in files ==> DecodeSavedVariation(f.name, f.contents) == Ok(data)
  {
    if best.Some? {
      var key := best.value.key;
      assert files[0] == VariationFile(data, stem, chunkSize, key);
      if chunkSize > 0 {
        SavedVariationDecodes(data, stem, chunkSize, key);
        if NoMatchBetween(files[0].name, 0, |stem|) {
          VariationFileDecodes(data, stem, chunkSize, key);
        }
      }
    }
  }

  /** A negative chunk size transforms every buffer into the empty one, which is `equal`. */
  lemma NegativeChunkSizeKeepsNothing(data: Bytes, chunkSize: int)
    requires chunkSize < 0
    ensures forall k: nat :: k < 256 ==> Outcome(data, chunkSize, k) == (Equal, 0)
  {
  }

  /** Lines 38-39 of `decode_variation_file`: chunk size and key from the file name, then
      the same transform applied to the encoded bytes. */
  function DecodeVariation(name: string, encoded: Bytes): (r: Result<Bytes, TransformError>)
    ensures r.Err? <==> ExtractXorInfo(name).0 == 0
  {
    var (chunkSize, xorVal) := ExtractXorInfo(name);
    Transform(encoded, chunkSize, xorVal)
  }

  /** A saved variation in whose stem no match of the key pattern starts decodes to the
      original buffer: the name yields chunk size 4 and the key, and XOR-ing with the same
      key again undoes the transform whatever the chunk sizes. */
  lemma VariationFileDecodes(data: Bytes, stem: string, chunkSize: int, key: nat)
    requires chunkSize > 0 && key < 256
    requires NoMatchBetween(VariationFile(data, stem, chunkSize, key).name, 0, |stem|)
    ensures DecodeVariation(VariationFile(data, stem, chunkSize, key).name,
                            VariationFile(data, stem, chunkSize, key).contents) == Ok(data)
  {
    VariationFileNameParses(stem, IntToString(chunkSize), key);
    TransformInvolution(data, chunkSize, 4, key, key);
  }

  /** Decoding a saved variation goes wrong when the stem hides the key: for the one-byte
      buffer `[7]` the zeros key is 7, so the file `img_xff_chunk4_xor_007.bin` holding `[0]`
      is saved, and its name is decoded with key 255. */
  lemma HexStemBreaksDecoding()
    ensures IsBestKey([7], 4, Zeros, 7)
    ensures VariationFile([7], "img_xff", 4, 7).contents == [0]
    ensures DecodeVariation(VariationFile([7], "img_xff", 4, 7).name, [0]) == Ok([0xFF])
  {
    SevenIsZerosKey();
    EncodedSingleSeven();
    var name := VariationFile([7], "img_xff", 4, 7).name;
    assert IntToString(4) == "4" by {
      assert Dec(4) == [DigitChar(4)];
    }
    HexStemHidesKey();
    assert ExtractXorInfo(name) == (4, 255);
    DecodedWithWrongKey();
  }

  /** A stem holding the first alternative makes the decode fail: the file saved for the
      buffer `[7]` (zeros key 7) under `a_chunk0_xorff` with chunk size 4 is named so that
      chunk size 0 is read back, and `range` raises whatever the contents. */
  lemma ChunkStemBreaksDecoding(encoded: Bytes)
    ensures IsBestKey([7], 4, Zeros, 7)
    ensures DecodeVariation(VariationFile([7], "a_chunk0_xorff", 4, 7).name, encoded).Err?
  {
    SevenIsZerosKey();
    assert IntToString(4) == "4" by {
      assert Dec(4) == [DigitChar(4)];
    }
    ChunkStemHidesKey();
  }

  /** In the buffer `[7]` only the byte value 7 fills more than half, so 7 is the zeros key. */
  lemma SevenIsZerosKey()
    ensures IsBestKey([7], 4, Zeros, 7)
  {
    forall k: nat | k < 7
      ensures 2 * Occurrences([7], k) <= 1
    {
      assert LowByte(k) == k as Byte;
      assert CountByte([7], LowByte(k)) == 0;
    }
    assert LowByte(7) == 7;
    assert Occurrences([7], 7) == 1;
    ZerosKeyIsMajorityByte([7], 4, 7);
  }

  lemma EncodedSingleSeven()
    ensures Transform([7], 4, 7) == Ok([0])
  {
    TransformBytewise([7], 4, 7);
    assert LowByte(7) == 7;
    var x := XorEach([7], 7);
    assert |x| == 1 && x[0] == 0;
    assert x == [0];
  }

  lemma DecodedWithWrongKey()
    ensures Transform([0], 4, 255) == Ok([0xFF])
  {
    TransformBytewise([0], 4, 255);
    assert LowByte(255) == 0xFF;
    var x := XorEach([0], 0xFF);
    assert |x| == 1 && x[0] == 0xFF;
    assert x == [0xFF];
  }

  /** Decoding with the key read from the end of the name. */
  function DecodeSavedVariation(name: string, encoded: Bytes): (r: Result<Bytes, TransformError>)
    ensures r.Err? <==> ExtractSavedKey(name).0 == 0
  {
    var (chunkSize, xorVal) := ExtractSavedKey(name);
    Transform(encoded, chunkSize, xorVal)
  }

  /** With the key read from the end of the name, every saved variation decodes to the
      original buffer, whatever its stem. */
  lemma SavedVariationDecodes(data: Bytes, stem: string, chunkSize: int, key: nat)
    requires chunkSize > 0 && key < 256
    ensures DecodeSavedVariation(VariationFile(data, stem, chunkSize, key).name,
                                 VariationFile(data, stem, chunkSize, key).contents) == Ok(data)
  {
    SavedKeyParses(stem, IntToString(chunkSize), key);
    TransformInvolution(data, chunkSize, 4, key, key);
  }

  /** How often the byte value `v` occurs in `data`. */
  function Occurrences(data: Bytes, v: nat): nat
  {
    CountByte(data, LowByte(v))
  }

  /** For a positive chunk size the side and the difference depend only on how often the
      key itself occurs in the buffer: the zero bytes after XOR-ing are its occurrences. */
  lemma OutcomeCounts(data: Bytes, chunkSize: int, key: nat)
    requires chunkSize > 0 && key < 256
    ensures var n := Occurrences(data, key);
      && (Outcome(data, chunkSize, key).0 == Zeros <==> 2 * n > |data|)
      && (Outcome(data, chunkSize, key).0 == Ones <==> 2 * n < |data|)
      && (Outcome(data, chunkSize, key).0 == Zeros ==> Outcome(data, chunkSize, key).1 == 2 * n - |data|)
      && (Outcome(data, chunkSize, key).0 == Ones ==> Outcome(data, chunkSize, key).1 == |data| - 2 * n)
  {
    TransformBytewise(data, chunkSize, key);
    ZeroBytesAfterXor(data, LowByte(key));
  }

  /** The kept `zeros` key is the first key whose byte value fills more than half of the buffer. */
  lemma ZerosKeyIsMajorityByte(data: Bytes, chunkSize: int, key: nat)
    requires chunkSize > 0
    ensures IsBestKey(data, chunkSize, Zeros, key) <==>
      && key < 256
      && 2 * Occurrences(data, key) > |data|
      && (forall k: nat :: k < key ==> 2 * Occurrences(data, k) <= |data|)
  {
    if IsBestKey(data, chunkSize, Zeros, key) {
      OutcomeCounts(data, chunkSize, key);
      forall k: nat | k < key
        ensures 2 * Occurrences(data, k) <= |data|
      {
        OutcomeCounts(data, chunkSize, k);
        if 2 * Occurrences(data, k) > |data| {
          MajorityByteUnique(data, k, key);
        }
      }
    }
    if && key < 256
       && 2 * Occurrences(data, key) > |data|
       && (forall k: nat :: k < key ==> 2 * Occurrences(data, k) <= |data|)
    {
      OutcomeCounts(data, chunkSize, key);
      forall k: nat | k < 256 && Outcome(data, chunkSize, k).0 == Zeros
        ensures Outcome(data, chunkSize, k).1 <= Outcome(data, chunkSize, key).1
        ensures k < key ==> Outcome(data, chunkSize, k).1 < Outcome(data, chunkSize, key).1
      {
        OutcomeCounts(data, chunkSize, k);
        MajorityByteUnique(data, k, key);
      }
    }
  }

  /** Two keys whose byte values both fill more than half of the buffer name the same byte. */
  lemma MajorityByteUnique(data: Bytes, k1: nat, k2: nat)
    requires 2 * Occurrences(data, k1) > |data| && 2 * Occurrences(data, k2) > |data|
    ensures Occurrences(data, k1) == Occurrences(data, k2)
  {
    if LowByte(k1) != LowByte(k2) {
      DistinctCountsBounded(data, LowByte(k1), LowByte(k2));
    }
  }

  /** The kept `ones` key is the first of the rarest byte values of the buffer, provided it
      fills less than half of it. */
  lemma OnesKeyIsRarestByte(data: Bytes, chunkSize: int, key: nat)
    requires chunkSize > 0
    ensures IsBestKey(data, chunkSize, Ones, key) <==>
      && key < 256
      && 2 * Occurrences(data, key) < |data|
      && (forall k: nat :: k < 256 ==> Occurrences(data, key) <= Occurrences(data, k))
      && (forall k: nat :: k < key ==> Occurrences(data, key) < Occurrences(data, k))
  {
    if IsBestKey(data, chunkSize, Ones, key) {
      OutcomeCounts(data, chunkSize, key);
      forall k: nat | k < 256
        ensures Occurrences(data, key) <= Occurrences(data, k)
        ensures k < key ==> Occurrences(data, key) < Occurrences(data, k)
      {
        OutcomeCounts(data, chunkSize, k);
      }
    }
    if && key < 256
       && 2 * Occurrences(data, key) < |data|
       && (forall k: nat :: k < 256 ==> Occurrences(data, key) <= Occurrences(data, k))
       && (forall k: nat :: k < key ==> Occurrences(data, key) < Occurrences(data, k))
    {
      OutcomeCounts(data, chunkSize, key);
      forall k: nat | k < 256 && Outcome(data, chunkSize, k).0 == Ones
        ensures Outcome(data, chunkSize, k).1 <= Outcome(data, chunkSize, key).1
        ensures k < key ==> Outcome(data, chunkSize, k).1 < Outcome(data, chunkSize, key).1
      {
        OutcomeCounts(data, chunkSize, k);
      }
    }
  }

  /** Three different byte values occur together at most as often as the buffer is long. */
  lemma {:induction false} ThreeCountsBounded(data: Bytes, v1: Byte, v2: Byte, v3: Byte)
    requires v1 != v2 && v1 != v3 && v2 != v3
    ensures CountByte(data, v1) + CountByte(data, v2) + CountByte(data, v3) <= |data|
    decreases |data|
  {
    if data != [] {
      ThreeCountsBounded(data[1..], v1, v2, v3);
    }
  }

  /** A non-empty buffer always has a `ones` variation: one of the keys 0, 1 and 2 occurs in
      less than half of it. */
  lemma OnesVariationExists(data: Bytes, chunkSize: int)
    requires chunkSize > 0 && |data| > 0
    ensures exists k: nat :: k < 256 && Outcome(data, chunkSize, k).0 == Ones
  {
    ThreeCountsBounded(data, 0, 1, 2);
    OutcomeCounts(data, chunkSize, 0);
    OutcomeCounts(data, chunkSize, 1);
    OutcomeCounts(data, chunkSize, 2);
    if 2 * CountByte(data, 0) < |data| {
      assert Outcome(data, chunkSize, 0).0 == Ones;
    } else if 2 * CountByte(data, 1) < |data| {
      assert Outcome(data, chunkSize, 1).0 == Ones;
    } else {
      assert Outcome(data, chunkSize, 2).0 == Ones;
    }
  }
}
