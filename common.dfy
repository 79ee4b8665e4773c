/** Shared vocabulary: bytes, and the Option and Result wrappers used for the
    source's `None` values and raised errors. */
module Common {

  /** A byte of a Python `bytes`/`bytearray`. */
  type Byte = bv8

  /** A byte buffer (`bytes`, `bytearray`). */
  type Bytes = seq<Byte>

  datatype Option<T> = None | Some(value: T)

  datatype Result<T, E> = Ok(value: T) | Err(error: E)

  /** The order in which the nested search loops visit (position, key) pairs: positions
      ascending, and keys ascending at one position. */
  predicate Before(p1: nat, k1: nat, p2: nat, k2: nat)
  {
    p1 < p2 || (p1 == p2 && k1 < k2)
  }

  /** `bytearray(data)`: a fresh, mutable copy of a buffer. */
  method NewByteArray(data: Bytes) returns (a: array<Byte>)
    ensures fresh(a) && a[..] == data
  {
    a := new Byte[|data|](i requires 0 <= i < |data| => data[i]);
  }

  /** XOR-ing twice with the same key restores a byte. */
  lemma XorTwice(b: Byte, k: Byte)
    ensures b ^ k ^ k == b
  {
  }

  /** One file the program would write: its base name and its contents. */
  datatype OutputFile = OutputFile(name: string, contents: Bytes)
}
