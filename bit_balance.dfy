/** The bit-balance scorer shared by the single-byte and the two-byte search:
    `count_zeros_ones` and the score `abs(zeros - ones)`. */
module BitBalance {
  import opened Common

  function Pow2(w: nat): (p: nat)
    ensures p >= 1
  {
    if w == 0 then 1 else 2 * Pow2(w - 1)
  }

  /** Number of one bits in the binary spelling of `n` (`int.bit_count`). */
  function PopcountNat(n: nat): nat
  {
    if n == 0 then 0 else n % 2 + PopcountNat(n / 2)
  }

  /** A number below 2^w has at most w one bits, and exactly w only when it is 2^w - 1. */
  lemma {:induction false} PopcountNatBound(n: nat, w: nat)
    requires n < Pow2(w)
    ensures PopcountNat(n) <= w
    ensures PopcountNat(n) == w ==> n == Pow2(w) - 1
    ensures PopcountNat(n) == 0 ==> n == 0
    decreases w
  {
    if n > 0 {
      assert w >= 1;
      PopcountNatBound(n / 2, w - 1);
    }
  }

  lemma {:induction false} PopcountAllOnes(w: nat)
    ensures PopcountNat(Pow2(w) - 1) == w
  {
    if w > 0 {
      PopcountAllOnes(w - 1);
      assert (Pow2(w) - 1) / 2 == Pow2(w - 1) - 1;
    }
  }

  /** `byte.bit_count()`. */
  function Popcount(b: Byte): (c: nat)
    ensures c <= 8
    ensures c == 0 <==> b == 0
    ensures c == 8 <==> b == 0xFF
  {
    assert Pow2(8) == 256;
    PopcountNatBound(b as int, 8);
    PopcountAllOnes(8);
    PopcountNat(b as int)
  }

  /** `sum(byte.bit_count() for byte in data)`. */
  function Ones(data: Bytes): nat
  {
    if data == [] then 0 else Popcount(data[0]) + Ones(data[1..])
  }

  lemma {:induction false} OnesBound(data: Bytes)
    ensures Ones(data) <= 8 * |data|
  {
    if data != [] {
      OnesBound(data[1..]);
    }
  }

  /** Replacing one byte changes the one-bit total by the difference of the two bytes' counts. */
  lemma {:induction false} OnesUpdate(data: Bytes, i: nat, b: Byte)
    requires i < |data|
    ensures Ones(data[i := b]) == Ones(data) - Popcount(data[i]) + Popcount(b)
    decreases i
  {
    if i > 0 {
      assert data[i := b][1..] == data[1..][i - 1 := b];
      OnesUpdate(data[1..], i - 1, b);
    }
  }

  /** `count_zeros_ones(data)`: the zero bits and the one bits of the buffer, which together are all of its bits. */
  function CountZerosOnes(data: Bytes): (r: (nat, nat))
    ensures r.0 + r.1 == 8 * |data|
  {
    OnesBound(data);
    var ones := Ones(data);
    (8 * |data| - ones, ones)
  }

  lemma {:induction false} AllZeroBits(data: Bytes)
    ensures Ones(data) == 0 <==> forall i :: 0 <= i < |data| ==> data[i] == 0
  {
    if data != [] {
      AllZeroBits(data[1..]);
      assert forall i :: 1 <= i < |data| ==> data[i] == data[1..][i - 1];
    }
  }

  lemma {:induction false} AllOneBits(data: Bytes)
    ensures Ones(data) == 8 * |data| <==> forall i :: 0 <= i < |data| ==> data[i] == 0xFF
  {
    if data != [] {
      AllOneBits(data[1..]);
      OnesBound(data[1..]);
      assert forall i :: 1 <= i < |data| ==> data[i] == data[1..][i - 1];
    }
  }

  function Abs(x: int): nat { if x < 0 then -x else x }

  /** The score of a candidate, `abs(zeros - ones)`: at most the bit count of the buffer. */
  function Score(data: Bytes): (s: nat)
    ensures s <= 8 * |data|
  {
    var (zeros, ones) := CountZerosOnes(data);
    Abs(zeros - ones)
  }

  /** The score reaches the bit count of the buffer exactly when every bit is the same:
      all bytes 0x00 or all bytes 0xFF. */
  lemma ScoreMaximal(data: Bytes)
    ensures Score(data) == 8 * |data| <==>
      (forall i :: 0 <= i < |data| ==> data[i] == 0) || (forall i :: 0 <= i < |data| ==> data[i] == 0xFF)
  {
    AllZeroBits(data);
    AllOneBits(data);
  }
}
