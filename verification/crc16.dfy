/** CRC-16/CCITT-FALSE (CRC-16/IBM-3740 in the RevEng catalogue): generator
    0x1021, initial register 0xFFFF, bits processed most significant first,
    no reflection and no final XOR. The source keeps the register in a Python
    int and masks it with `& 0xFFFF` after every shift; a `bv16` register
    drops the same bit on the shift, so the two agree bit for bit. */
module Crc16 {
  import opened Bytes
  import ByteVectors

  const Generator: bv16 := 0x1021
  const InitialRegister: bv16 := 0xFFFF

  /** One bit of polynomial division: shift left, and fold the generator in
      when the bit shifted out was set. */
  function ShiftStep(c: bv16): bv16 {
    if c & 0x8000 != 0 then (c << 1) ^ Generator else c << 1
  }

  /** `n` successive shift steps. */
  function ShiftBits(c: bv16, n: nat): bv16
    decreases n
  {
    if n == 0 then c else ShiftBits(ShiftStep(c), n - 1)
  }

  /** Absorb one byte: XOR it into the high half, then eight shift steps. */
  function UpdateByte(c: bv16, b: byte): bv16 {
    ShiftBits(c ^ (Widen(b) << 8), 8)
  }

  /** A byte zero-extended to the register width. */
  function Widen(b: byte): bv16 {
    ((b as int) as bv8) as bv16
  }

  /** The register after absorbing `data` in order, starting from `c`. */
  function CrcFrom(c: bv16, data: seq<byte>): bv16
    decreases |data|
  {
    if |data| == 0 then c else CrcFrom(UpdateByte(c, data[0]), data[1..])
  }

  /** `calculate_crc` before packing: the checksum of `data`. */
  function Crc(data: seq<byte>): (r: bv16)
    ensures |data| == 0 ==> r == 0xFFFF
  {
    CrcFrom(InitialRegister, data)
  }

  /** `calculate_crc` as returned by the sensor: the checksum packed big-endian. */
  function CrcBytes(data: seq<byte>): (r: seq<byte>)
    ensures |r| == 2
    ensures UnpackU16(r) == Crc(data) as int
  {
    PackU16(Crc(data) as int)
  }

  /** Absorbing `a + b` is absorbing `a`, then `b`: the loop may be split anywhere. */
  lemma {:induction false} CrcFromAppend(c: bv16, a: seq<byte>, b: seq<byte>)
    ensures CrcFrom(c, a + b) == CrcFrom(CrcFrom(c, a), b)
    decreases |a|
  {
    if |a| == 0 {
      assert a + b == b;
    } else {
      assert (a + b)[0] == a[0];
      assert (a + b)[1..] == a[1..] + b;
      CrcFromAppend(UpdateByte(c, a[0]), a[1..], b);
    }
  }

  /** The catalogue's check value: the checksum of the ASCII text "123456789"
      is 0x29B1. This pins the generator, the initial register and the bit
      order, which the error-detection lemmas below do not. */
  lemma CheckValue()
    ensures Crc([0x31, 0x32, 0x33, 0x34, 0x35, 0x36, 0x37, 0x38, 0x39]) == 0x29B1
  {
    var digits: seq<byte> := [0x31, 0x32, 0x33, 0x34, 0x35, 0x36, 0x37, 0x38, 0x39];
    var registers: seq<bv16> := [0xFFFF, 0xC782, 0x3DBA, 0x5BCE, 0x5349, 0x4560, 0x2EF4, 0x7718, 0xA12B, 0x29B1];
    CheckValueSteps();
    CrcFromTrace(InitialRegister, digits, registers);
  }

  /** A register trace: if each byte takes `registers[i]` to `registers[i + 1]`,
      the checksum from `registers[0]` is the last register. */
  lemma {:induction false} CrcFromTrace(c: bv16, data: seq<byte>, registers: seq<bv16>)
    requires |registers| == |data| + 1 && registers[0] == c
    requires forall i :: 0 <= i < |data| ==> UpdateByte(registers[i], data[i]) == registers[i + 1]
    ensures CrcFrom(c, data) == registers[|data|]
    decreases |data|
  {
    if |data| > 0 {
      CrcFromTrace(registers[1], data[1..], registers[1..]);
    }
  }

  /** The register after each byte of "123456789". */
  lemma CheckValueSteps()
    ensures UpdateByte(0xFFFF, 0x31) == 0xC782
    ensures UpdateByte(0xC782, 0x32) == 0x3DBA
    ensures UpdateByte(0x3DBA, 0x33) == 0x5BCE
    ensures UpdateByte(0x5BCE, 0x34) == 0x5349
    ensures UpdateByte(0x5349, 0x35) == 0x4560
    ensures UpdateByte(0x4560, 0x36) == 0x2EF4
    ensures UpdateByte(0x2EF4, 0x37) == 0x7718
    ensures UpdateByte(0x7718, 0x38) == 0xA12B
    ensures UpdateByte(0xA12B, 0x39) == 0x29B1
  { }

  // --- injectivity of the register update (small bit-vector facts) ---

  /** The inverse of one shift step: the low bit of the result tells whether
      the generator was folded in (the generator's constant term is 1). */
  function UnshiftStep(s: bv16): bv16 {
    if s & 1 != 0 then ((s ^ Generator) >> 1) | 0x8000 else s >> 1
  }

  lemma ShiftTopSet(c: bv16)
    requires c & 0x8000 != 0
    ensures ((((c << 1) ^ 0x1021) ^ 0x1021) >> 1) | 0x8000 == c
    ensures ((c << 1) ^ 0x1021) & 1 == 1
  {
  }

  lemma ShiftTopClear(c: bv16)
    requires c & 0x8000 == 0
    ensures (c << 1) >> 1 == c
    ensures (c << 1) & 1 == 0
  {
  }

  lemma UnshiftShift(c: bv16)
    ensures UnshiftStep(ShiftStep(c)) == c
  {
    if c & 0x8000 != 0 {
      ShiftTopSet(c);
    } else {
      ShiftTopClear(c);
    }
  }

  lemma {:induction false} ShiftBitsInjective(c: bv16, d: bv16, n: nat)
    requires c != d
    ensures ShiftBits(c, n) != ShiftBits(d, n)
    decreases n
  {
    if n > 0 {
      UnshiftShift(c);
      UnshiftShift(d);
      ShiftBitsInjective(ShiftStep(c), ShiftStep(d), n - 1);
    }
  }

  lemma XorCancel(x: bv16, y: bv16, k: bv16)
    requires x != y
    ensures x ^ k != y ^ k
  {
  }

  lemma XorDiffer(k: bv16, x: bv16, y: bv16)
    requires x != y
    ensures k ^ x != k ^ y
  {
  }

  lemma WidenHighInjective(x: bv8, y: bv8)
    requires x != y
    ensures (x as bv16) << 8 != (y as bv16) << 8
  {
  }

  lemma HighByteInjective(a: byte, b: byte)
    requires a != b
    ensures Widen(a) << 8 != Widen(b) << 8
  {
    ByteVectors.NarrowInjective(a, b);
    WidenHighInjective((a as int) as bv8, (b as int) as bv8);
  }

  lemma UpdateByteInjectiveInRegister(c: bv16, d: bv16, b: byte)
    requires c != d
    ensures UpdateByte(c, b) != UpdateByte(d, b)
  {
    XorCancel(c, d, Widen(b) << 8);
    ShiftBitsInjective(c ^ (Widen(b) << 8), d ^ (Widen(b) << 8), 8);
  }

  lemma UpdateByteInjectiveInByte(c: bv16, a: byte, b: byte)
    requires a != b
    ensures UpdateByte(c, a) != UpdateByte(c, b)
  {
    var x := c ^ (Widen(a) << 8);
    var y := c ^ (Widen(b) << 8);
    assert x != y by {
      HighByteInjective(a, b);
      XorDiffer(c, Widen(a) << 8, Widen(b) << 8);
    }
    ShiftBitsInjective(x, y, 8);
  }

  lemma {:induction false} CrcFromInjective(c: bv16, d: bv16, data: seq<byte>)
    requires c != d
    ensures CrcFrom(c, data) != CrcFrom(d, data)
    decreases |data|
  {
    if |data| > 0 {
      UpdateByteInjectiveInRegister(c, d, data[0]);
      CrcFromInjective(UpdateByte(c, data[0]), UpdateByte(d, data[0]), data[1..]);
    }
  }

  /** Two messages of equal length that differ in exactly one byte never
      share a checksum: every single-byte corruption is detected. */
  lemma SingleByteErrorDetected(m: seq<byte>, m': seq<byte>, i: nat)
    requires |m| == |m'| && i < |m| && m[i] != m'[i]
    requires forall j :: 0 <= j < |m| && j != i ==> m[j] == m'[j]
    ensures Crc(m) != Crc(m')
  {
    assert m[..i] == m'[..i];
    assert m[i + 1..] == m'[i + 1..];
    assert m == m[..i] + ([m[i]] + m[i + 1..]);
    assert m' == m'[..i] + ([m'[i]] + m'[i + 1..]);
    var s := CrcFrom(InitialRegister, m[..i]);
    CrcFromAppend(InitialRegister, m[..i], [m[i]] + m[i + 1..]);
    CrcFromAppend(InitialRegister, m'[..i], [m'[i]] + m'[i + 1..]);
    assert ([m[i]] + m[i + 1..])[1..] == m[i + 1..];
    assert ([m'[i]] + m'[i + 1..])[1..] == m[i + 1..];
    UpdateByteInjectiveInByte(s, m[i], m'[i]);
    CrcFromInjective(UpdateByte(s, m[i]), UpdateByte(s, m'[i]), m[i + 1..]);
  }

  /** The weight of bit `k` of a byte. */
  const BitWeight: seq<int> := [1, 2, 4, 8, 16, 32, 64, 128]

  /** `b` with bit `k` (bit 0 the least significant) inverted. */
  function FlipBit(b: byte, k: nat): (r: byte)
    requires k < 8
    ensures r != b
  {
    var w := BitWeight[k];
    if (b as int / w) % 2 == 1 then b - w as byte else b + w as byte
  }

  /** Inverting any single bit of a message changes its checksum. */
  lemma SingleBitFlipDetected(m: seq<byte>, i: nat, k: nat)
    requires i < |m| && k < 8
    ensures Crc(m[i := FlipBit(m[i], k)]) != Crc(m)
  {
    SingleByteErrorDetected(m[i := FlipBit(m[i], k)], m, i);
  }

  lemma RegisterValueInjective(x: bv16, y: bv16)
    requires x as int == y as int
    ensures x == y
  {
    assert (x as int) as bv16 == x;
    assert (y as int) as bv16 == y;
  }

  /** The packed checksum bytes also change when any single bit flips. */
  lemma CrcBytesDetectFlip(m: seq<byte>, i: nat, k: nat)
    requires i < |m| && k < 8
    ensures CrcBytes(m[i := FlipBit(m[i], k)]) != CrcBytes(m)
  {
    var m' := m[i := FlipBit(m[i], k)];
    SingleBitFlipDetected(m, i, k);
    if CrcBytes(m') == CrcBytes(m) {
      RegisterValueInjective(Crc(m'), Crc(m));
    }
  }
}
