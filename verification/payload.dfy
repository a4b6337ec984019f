/** The 5-byte sensor report shared by the baseline and the secure codec:
    24-bit big-endian sensor id, flags byte, quantised pressure byte
    (`create_binary_packet`'s data part and `create_plaintext_payload`). */
module Payload {
  import opened Bytes

  type Positive = n: int | n > 0 witness 1

  /** A pressure in psi, held exactly as the fraction `num / den`. */
  datatype Pressure = Pressure(num: int, den: Positive)

  /** The fields carried by a payload, as the receivers decode them. */
  datatype Fields = Fields(id: nat, flags: byte, raw: byte)

  /** Integer division rounding toward zero, as Python's `int()` does. */
  function TruncDiv(a: int, d: Positive): (q: int)
    ensures a >= 0 ==> 0 <= q && q * d <= a < q * d + d
    ensures a < 0 ==> q <= 0 && q * d - d < a <= q * d
  {
    if a >= 0 then
      DivBounds(a, d);
      a / d
    else
      var m := -a;
      DivBounds(m, d);
      assert -(m / d) * d == -((m / d) * d);
      -(m / d)
  }

  /** Division of a natural number: the quotient is natural and brackets `n`. */
  lemma DivBounds(n: nat, d: Positive)
    ensures 0 <= n / d && (n / d) * d <= n < (n / d) * d + d
  {
    assert n == (n / d) * d + n % d;
    assert 0 <= n % d < d;
  }

  /** `int(pressure_psi * 2.755)`: psi times 2.755, truncated toward zero. */
  function Quantize(p: Pressure): int {
    TruncDiv(p.num * 2755, p.den * 1000)
  }

  /** `pressure_raw & 0xFF`: the wire byte (Python's `&` on a negative int
      agrees with the Euclidean remainder). */
  function PressureByte(p: Pressure): byte {
    (Quantize(p) % 256) as byte
  }

  /** `flags & 0xFF`. */
  function FlagsByte(flags: int): byte {
    (flags % 256) as byte
  }

  /** The plaintext payload: `struct.pack('>I', sensor_id)[1:]`, then the
      flags byte, then the pressure byte. */
  function EncodePayload(id: uint32, p: Pressure, flags: int): (data: seq<byte>)
    ensures |data| == 5
    ensures data[3] as int == flags % 256
    ensures data[4] as int == Quantize(p) % 256
  {
    PackU32(id)[1..] + [FlagsByte(flags), PressureByte(p)]
  }

  /** Reads the fields of a payload: `struct.unpack('>I', b'\x00' + data[0:3])`,
      `data[3]`, `data[4]`. Bytes after the fifth are not looked at. */
  function ParseFields(data: seq<byte>): (f: Fields)
    requires |data| >= 5
    ensures f.id < 0x100_0000
    ensures f.flags == data[3] && f.raw == data[4]
  {
    Fields(UnpackU32([0] + data[..3]), data[3], data[4])
  }

  /** Decoding an encoded payload yields the low 24 bits of the id, the flags
      modulo 256 and the raw pressure byte. */
  lemma PayloadRoundTrip(id: uint32, p: Pressure, flags: int)
    ensures ParseFields(EncodePayload(id, p, flags)) == Fields(id % 0x100_0000, FlagsByte(flags), PressureByte(p))
  {
    var data := EncodePayload(id, p, flags);
    assert data[..3] == PackU32(id)[1..];
    LowThreeBytes(id);
  }

  /** Quantising `raw / 2.755` psi gives back `raw`. */
  lemma QuantizeOfRaw(raw: byte)
    ensures Quantize(Pressure(raw as int * 1000, 2755)) == raw as int
  {
    var a := raw as int * 1000 * 2755;
    assert a == (raw as int) * (2755 * 1000);
  }

  /** Every 5-byte payload is the encoding of the fields it decodes to: the
      encoder reaches every wire payload. */
  lemma EncodeParsed(data: seq<byte>)
    requires |data| == 5
    ensures var f := ParseFields(data);
            EncodePayload(f.id, Pressure(f.raw as int * 1000, 2755), f.flags as int) == data
  {
    var f := ParseFields(data);
    QuantizeOfRaw(f.raw);
    var w := [0] + data[..3];
    PackUnpackU32(w);
    assert PackU32(f.id)[1..] == data[..3];
  }

  /** 37.5 psi quantises to 103 = 0x67 (truncation, not rounding). */
  lemma QuantizeExample()
    ensures Quantize(Pressure(75, 2)) == 103
    ensures PressureByte(Pressure(75, 2)) == 0x67
  {
  }

  /** A negative product truncates toward zero: -1 psi gives int(-2.755) = -2,
      whose low byte is 254; a floor division would have given 253. */
  lemma QuantizeNegative()
    ensures Quantize(Pressure(-1, 1)) == -2
    ensures PressureByte(Pressure(-1, 1)) == 254
  {
  }
}
