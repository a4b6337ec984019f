/** Bytes, the fixed framing constants, and big-endian packing as done by
    Python's `struct.pack('>I')`, `struct.pack('>H')` and `int.to_bytes(2, 'big')`. */
module Bytes {

  newtype byte = x: int | 0 <= x < 256

  /** An unsigned 32-bit value: what `struct.pack('>I', v)` accepts without raising. */
  type uint32 = x: int | 0 <= x < 0x1_0000_0000

  /** `n` copies of byte `b`. */
  function Repeat(b: byte, n: nat): (r: seq<byte>)
    ensures |r| == n
    ensures forall i :: 0 <= i < n ==> r[i] == b
  {
    seq(n, _ => b)
  }

  /** The 8-byte preamble of every simulated frame: `0x55` repeated. */
  const Preamble: seq<byte> := Repeat(0x55, 8)

  /** The two-byte Schrader sync word `2D D4`. */
  const SyncWord: seq<byte> := [0x2D, 0xD4]

  /** `struct.pack('>I', v)`: four bytes, most significant first. */
  function PackU32(v: uint32): (r: seq<byte>)
    ensures |r| == 4
  {
    [(v / 256 / 256 / 256) as byte, (v / 256 / 256 % 256) as byte, (v / 256 % 256) as byte, (v % 256) as byte]
  }

  /** `struct.unpack('>I', s)[0]`. */
  function UnpackU32(s: seq<byte>): (v: nat)
    requires |s| == 4
    ensures v < 0x1_0000_0000
  {
    (s[0] as int) * 0x100_0000 + (s[1] as int) * 0x1_0000 + (s[2] as int) * 0x100 + s[3] as int
  }

  /** `struct.pack('>H', v)` and `v.to_bytes(2, 'big')`. */
  function PackU16(v: nat): (r: seq<byte>)
    requires v < 0x1_0000
    ensures |r| == 2
  {
    [(v / 0x100) as byte, (v % 0x100) as byte]
  }

  /** `struct.unpack('>H', s)[0]`. */
  function UnpackU16(s: seq<byte>): (v: nat)
    requires |s| == 2
    ensures v < 0x1_0000
  {
    (s[0] as int) * 0x100 + s[1] as int
  }

  lemma UnpackPackU16(v: nat)
    requires v < 0x1_0000
    ensures UnpackU16(PackU16(v)) == v
  {
  }

  lemma PackUnpackU16(s: seq<byte>)
    requires |s| == 2
    ensures PackU16(UnpackU16(s)) == s
  {
  }

  lemma UnpackPackU32(v: uint32)
    ensures UnpackU32(PackU32(v)) == v
  {
    var q1 := v / 256;
    var q2 := q1 / 256;
    assert v == q1 * 256 + v % 256;
    assert q1 == q2 * 256 + q1 % 256;
    assert q2 == (q2 / 256) * 256 + q2 % 256;
  }

  lemma PackUnpackU32(s: seq<byte>)
    requires |s| == 4
    ensures PackU32(UnpackU32(s)) == s
  {
    var v := UnpackU32(s);
    var q1 := s[0] as int * 0x1_0000 + s[1] as int * 0x100 + s[2] as int;
    var q2 := s[0] as int * 0x100 + s[1] as int;
    assert v == q1 * 256 + s[3] as int;
    assert v / 256 == q1 && v % 256 == s[3] as int;
    assert q1 == q2 * 256 + s[2] as int;
    assert q1 / 256 == q2 && q1 % 256 == s[2] as int;
    assert q2 / 256 == s[0] as int && q2 % 256 == s[1] as int;
  }

  /** Division by 2^24 leaves a unique remainder. */
  lemma ModUnique24(v: int, k: int, r: int)
    requires 0 <= r < 0x100_0000 && v == k * 0x100_0000 + r
    ensures v % 0x100_0000 == r
  {
  }

  /** Dropping the top byte of the 32-bit packing and reading the rest back
      with a zero byte in front yields the low 24 bits. */
  lemma LowThreeBytes(v: uint32)
    ensures UnpackU32([0] + PackU32(v)[1..]) == v % 0x100_0000
  {
    var r := PackU32(v);
    assert [0] + r[1..] == [0, r[1], r[2], r[3]];
    UnpackPackU32(v);
    ModUnique24(v, r[0] as int, UnpackU32([0, r[1], r[2], r[3]]));
  }
}
