/** Bytes viewed as 8-bit vectors, for the CRC register arithmetic. */
module ByteVectors {
  import opened Bytes

  /** An integer in byte range keeps its value as an 8-bit vector. */
  lemma NarrowInRange(n: int)
    requires 0 <= n < 256
    ensures (n as bv8) as int == n
  { }

  /** A byte as an 8-bit vector; the cast keeps its value. */
  lemma NarrowExact(b: byte)
    ensures ((b as int) as bv8) as int == b as int
  {
    NarrowInRange(b as int);
  }

  /** Distinct bytes are distinct 8-bit vectors. */
  lemma NarrowInjective(a: byte, b: byte)
    requires a != b
    ensures (a as int) as bv8 != (b as int) as bv8
  {
    NarrowExact(a);
    NarrowExact(b);
  }
}
