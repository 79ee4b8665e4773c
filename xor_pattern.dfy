/** The whole-buffer transform and the byte-level classifier of the XOR anomaly
    processor: `transform_with_pattern` XORs every byte with the low eight bits of a
    key, chunk by chunk, and `check_zeros_ones` weighs the 0x00 bytes of a buffer
    against all other bytes. */
module XorPattern {
  import opened Common

  /** `xor_value & 0xFF`: the low eight bits of a Python integer. Python's `&` on a
      negative integer acts on its infinite two's complement, which is the same as
      the non-negative remainder modulo 256. */
  function LowByte(x: int): Byte
  {
    (x % 256) as Byte
  }

  /** `[b ^ k for b in chunk]`: every byte of `chunk` XOR-ed with `k`. */
  function XorEach(chunk: Bytes, k: Byte): Bytes
  {
    seq(|chunk|, i requires 0 <= i < |chunk| => chunk[i] ^ k)
  }

  function Min(a: int, b: int): int { if a < b then a else b }

  /** The chunks `data[i:i + c]` for `i` in `range(0, len(data), c)`, each XOR-ed with `k`
      and appended in order; the last chunk is cut short by the end of the buffer. */
  function Chunked(data: Bytes, c: nat, k: Byte): Bytes
    requires c > 0
    decreases |data|
  {
    if data == [] then []
    else
      var n := Min(c, |data|);
      XorEach(data[..n], k) + Chunked(data[n..], c, k)
  }

  /** `range` with a step of 0 raises `ValueError`. */
  datatype TransformError = ZeroChunkSize

  /** `transform_with_pattern(data, chunk_size, xor_value)`. A chunk size of 0 is the
      `ValueError` of `range`; a negative one makes `range(0, len(data), chunk_size)`
      empty, so nothing is appended and the result is empty. */
  function Transform(data: Bytes, chunkSize: int, xorValue: int): (r: Result<Bytes, TransformError>)
    ensures r.Err? <==> chunkSize == 0
    ensures chunkSize < 0 ==> r == Ok([])
  {
    if chunkSize == 0 then Err(ZeroChunkSize)
    else if chunkSize < 0 then Ok([])
    else Ok(Chunked(data, chunkSize, LowByte(xorValue)))
  }

  /** Chunking only groups the bytes: the chunked result is every byte XOR-ed with the key. */
  lemma {:induction false} ChunkedIsXorEach(data: Bytes, c: nat, k: Byte)
    requires c > 0
    ensures Chunked(data, c, k) == XorEach(data, k)
    decreases |data|
  {
    if data != [] {
      var n := Min(c, |data|);
      ChunkedIsXorEach(data[n..], c, k);
      XorEachSplit(data, n, k);
    }
  }

  /** XOR-ing a buffer in two pieces is XOR-ing it whole. */
  lemma XorEachSplit(data: Bytes, n: nat, k: Byte)
    requires n <= |data|
    ensures XorEach(data[..n], k) + XorEach(data[n..], k) == XorEach(data, k)
  {
    var r := XorEach(data[..n], k) + XorEach(data[n..], k);
    forall i | 0 <= i < |data|
      ensures r[i] == data[i] ^ k
    {
      if i < n {
        assert r[i] == XorEach(data[..n], k)[i];
      } else {
        assert r[i] == XorEach(data[n..], k)[i - n];
      }
    }
  }

  /** For a positive chunk size the transform keeps the length and XORs byte `i` with
      `xor_value & 0xFF`, whatever the chunk size. */
  lemma TransformBytewise(data: Bytes, chunkSize: int, xorValue: int)
    requires chunkSize > 0
    ensures Transform(data, chunkSize, xorValue) == Ok(XorEach(data, LowByte(xorValue)))
    ensures |Transform(data, chunkSize, xorValue).value| == |data|
    ensures forall i :: 0 <= i < |data| ==>
      Transform(data, chunkSize, xorValue).value[i] == data[i] ^ LowByte(xorValue)
  {
    ChunkedIsXorEach(data, chunkSize, LowByte(xorValue));
  }

  /** Transforming twice with keys that agree in their low eight bits restores the input,
      even when the two chunk sizes differ: decoding a variation is the same transform. */
  lemma TransformInvolution(data: Bytes, c1: int, c2: int, x1: int, x2: int)
    requires c1 > 0 && c2 > 0 && x1 % 256 == x2 % 256
    ensures Transform(Transform(data, c1, x1).value, c2, x2) == Ok(data)
  {
    var k := LowByte(x1);
    assert LowByte(x2) == k;
    TransformBytewise(data, c1, x1);
    var once := XorEach(data, k);
    TransformBytewise(once, c2, x2);
    var twice := XorEach(once, k);
    forall i | 0 <= i < |data|
      ensures twice[i] == data[i]
    {
      XorTwice(data[i], k);
    }
    assert twice == data;
  }

  /** `t` holds the first `|t|` bytes of `data`, each XOR-ed with `k`. */
  ghost predicate XoredPrefix(t: Bytes, data: Bytes, k: Byte)
  {
    |t| <= |data| && forall j :: 0 <= j < |t| ==> t[j] == data[j] ^ k
  }

  /** Appending the XOR-ed slice that follows a XOR-ed prefix gives a longer XOR-ed prefix. */
  lemma ExtendXoredPrefix(t: Bytes, data: Bytes, k: Byte, e: nat)
    requires XoredPrefix(t, data, k) && |t| <= e <= |data|
    ensures XoredPrefix(t + XorEach(data[|t|..e], k), data, k)
    ensures |t + XorEach(data[|t|..e], k)| == e
  {
    var u := t + XorEach(data[|t|..e], k);
    forall j | 0 <= j < |u|
      ensures u[j] == data[j] ^ k
    {
      if j < |t| {
        assert u[j] == t[j];
      } else {
        assert u[j] == XorEach(data[|t|..e], k)[j - |t|];
        assert data[|t|..e][j - |t|] == data[j];
      }
    }
  }

  /** `transform_with_pattern` as the loop it is: walk the buffer in steps of
      `chunkSize`, XOR each slice and extend the output with it. */
  method TransformWithPattern(data: Bytes, chunkSize: int, xorValue: int)
    returns (r: Result<Bytes, TransformError>)
    ensures r == Transform(data, chunkSize, xorValue)
  {
    if chunkSize == 0 {
      return Err(ZeroChunkSize);
    }
    var transformed: Bytes := [];
    if chunkSize < 0 {
      // `range(0, len(data), chunk_size)` with a negative step yields nothing.
      return Ok(transformed);
    }
    var k := LowByte(xorValue);
    var i := 0;
    while i < |data|
      invariant 0 <= i && |transformed| == Min(i, |data|)
      invariant XoredPrefix(transformed, data, k)
    {
      var end := Min(i + chunkSize, |data|);
      ExtendXoredPrefix(transformed, data, k, end);
      transformed := transformed + XorEach(data[i..end], k);
      i := i + chunkSize;
    }
    TransformBytewise(data, chunkSize, xorValue);
    assert transformed == XorEach(data, k);
    r := Ok(transformed);
  }

  /** `data.count(b'\x00')` generalised to any byte value `v`. */
  function CountByte(data: Bytes, v: Byte): (n: nat)
    ensures n <= |data|
  {
    if data == [] then 0
    else (if data[0] == v then 1 else 0) + CountByte(data[1..], v)
  }

  /** The label `check_zeros_ones` returns. */
  datatype Majority = Zeros | Ones | Equal

  /** `check_zeros_ones` on an in-memory buffer: zeros are the 0x00 bytes, ones all other
      bytes; the label names the larger side and the difference is how much larger it is. */
  function CheckZerosOnes(data: Bytes): (r: (Majority, nat))
    ensures r.1 <= |data|
    ensures r.0 == Zeros <==> 2 * CountByte(data, 0) > |data|
    ensures r.0 == Ones <==> 2 * CountByte(data, 0) < |data|
    ensures r.0 == Equal <==> r.1 == 0
    ensures r.1 + 2 * CountByte(data, 0) == |data| || r.1 + |data| == 2 * CountByte(data, 0)
  {
    var zeros := CountByte(data, 0);
    var ones := |data| - zeros;
    if zeros > ones then (Zeros, zeros - ones)
    else if ones > zeros then (Ones, ones - zeros)
    else (Equal, 0)
  }

  /** The zero bytes after XOR-ing every byte with `k` are exactly the bytes equal to `k` before. */
  lemma {:induction false} ZeroBytesAfterXor(data: Bytes, k: Byte)
    ensures CountByte(XorEach(data, k), 0) == CountByte(data, k)
    decreases |data|
  {
    if data != [] {
      ZeroBytesAfterXorStep(data, k);
      ZeroBytesAfterXor(data[1..], k);
    }
  }

  /** The first byte is a zero after XOR-ing exactly when it equalled `k` before. */
  lemma ZeroBytesAfterXorStep(data: Bytes, k: Byte)
    requires data != []
    ensures CountByte(XorEach(data, k), 0)
      == (if data[0] == k then 1 else 0) + CountByte(XorEach(data[1..], k), 0)
  {
    var x := XorEach(data, k);
    assert x[0] == data[0] ^ k;
    assert x[1..] == XorEach(data[1..], k);
    XorZero(data[0], k);
  }

  lemma XorZero(b: Byte, k: Byte)
    ensures b ^ k == 0 <==> b == k
  {
  }

  /** Two different byte values occur together at most as often as the buffer is long. */
  lemma {:induction false} DistinctCountsBounded(data: Bytes, v1: Byte, v2: Byte)
    requires v1 != v2
    ensures CountByte(data, v1) + CountByte(data, v2) <= |data|
    decreases |data|
  {
    if data != [] {
      DistinctCountsBounded(data[1..], v1, v2);
    }
  }
}
