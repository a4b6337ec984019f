/** The plaintext sensor of the baseline simulation
    (`baseline_no_encryption/sensor.py`): the 17-byte Schrader frame
    preamble ‖ sync ‖ payload ‖ CRC-16. */
module BaselineSensor {
  import opened Bytes
  import opened Payload
  import Crc16

  /** Frame length: 8 preamble + 2 sync + 5 payload + 2 CRC bytes. */
  const PacketLength: nat := 17

  /** Offset of the payload inside a frame built by this sensor. */
  const PayloadOffset: nat := 10

  /** `create_binary_packet`. */
  function CreateBinaryPacket(id: uint32, p: Pressure, flags: int): (packet: seq<byte>)
    ensures |packet| == PacketLength
    ensures packet[..8] == Preamble && packet[8..10] == SyncWord
    ensures packet[10..15] == EncodePayload(id, p, flags)
    ensures packet[15..] == Crc16.CrcBytes(packet[10..15])
  {
    var data := EncodePayload(id, p, flags);
    Preamble + SyncWord + data + Crc16.CrcBytes(data)
  }

  /** `decode_own_packet`: reads the payload at the fixed offset 10 without
      looking for the sync word or at the CRC; indexing past the end raises
      in the source, hence the length requirement. */
  function DecodeOwnPacket(packet: seq<byte>): (f: Fields)
    requires |packet| >= 15
    ensures f.id < 0x100_0000
    ensures f.flags == packet[13] && f.raw == packet[14]
  {
    ParseFields(packet[PayloadOffset..PayloadOffset + 5])
  }

  /** The sensor reads back what it sent: the low 24 bits of the id, the
      flags modulo 256 and the raw pressure byte. */
  lemma DecodeOwnRoundTrip(id: uint32, p: Pressure, flags: int)
    ensures DecodeOwnPacket(CreateBinaryPacket(id, p, flags)) == Fields(id % 0x100_0000, FlagsByte(flags), PressureByte(p))
  {
    PayloadRoundTrip(id, p, flags);
  }

  /** The flags schedule of the sensor loop: 7 on every fifth packet,
      starting with the first, 5 otherwise. */
  function FlagsFor(packetCount: nat): (flags: int)
    ensures flags == 5 || flags == 7
  {
    if packetCount % 5 != 0 then 5 else 7
  }

  /** The first packet carries 7, and each 7 is followed by four 5s and then
      a 7 again: exactly one packet in every five carries 7. */
  lemma FlagsPeriod(n: nat)
    ensures FlagsFor(0) == 7
    ensures FlagsFor(n) == 7 <==> FlagsFor(n + 5) == 7
    ensures FlagsFor(n) == 7 ==>
              FlagsFor(n + 1) == 5 && FlagsFor(n + 2) == 5 && FlagsFor(n + 3) == 5 && FlagsFor(n + 4) == 5
  {
  }
}
