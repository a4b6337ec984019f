/** The baseline receiver (`baseline_no_encryption/euc.py`): finds the first
    sync word, parses the payload and recomputes the CRC. A CRC mismatch is
    reported in the result but does not reject the packet. */
module BaselineEcu {
  import opened Wrappers
  import opened Bytes
  import opened Payload
  import opened Sync
  import Crc16
  import BaselineSensor

  /** A decoded report together with the outcome of the CRC comparison. */
  datatype Report = Report(fields: Fields, crcValid: bool)

  /** `decode_packet` of the ECU. */
  function DecodePacket(packet: seq<byte>): (r: Option<Report>)
    ensures r.None? <==> FindSync(packet) == -1 || |packet| < FindSync(packet) + 2 + 7
    ensures r.Some? ==>
      var offset := FindSync(packet) + 2;
      && r.value.fields == ParseFields(packet[offset..offset + 5])
      && (r.value.crcValid <==> UnpackU16(packet[offset + 5..offset + 7]) == Crc16.Crc(packet[offset..offset + 5]) as int)
  {
    var syncIndex := FindSync(packet);
    if syncIndex == -1 then None
    else
      var offset := syncIndex + 2;
      if |packet| < offset + 7 then None
      else
        var data := packet[offset..offset + 5];
        var received := UnpackU16(packet[offset + 5..offset + 7]);
        Some(Report(ParseFields(data), received == Crc16.Crc(data) as int))
  }

  /** The ECU accepts every frame the baseline sensor builds: the sync word is
      found at offset 8, the fields come back and the CRC matches. */
  lemma DecodesSensorPacket(id: uint32, p: Pressure, flags: int)
    ensures FindSync(BaselineSensor.CreateBinaryPacket(id, p, flags)) == 8
    ensures DecodePacket(BaselineSensor.CreateBinaryPacket(id, p, flags))
         == Some(Report(Fields(id % 0x100_0000, FlagsByte(flags), PressureByte(p)), true))
  {
    var packet := BaselineSensor.CreateBinaryPacket(id, p, flags);
    FindSyncAfterPreamble(packet[10..]);
    assert packet == Preamble + SyncWord + packet[10..];
    PayloadRoundTrip(id, p, flags);
  }

  /** Whatever the two checksum bytes are, the payload is decoded; a wrong
      checksum only clears `crcValid`. */
  lemma CrcMismatchStillDecoded(data: seq<byte>, crc: seq<byte>)
    requires |data| == 5 && |crc| == 2
    ensures DecodePacket(Preamble + SyncWord + data + crc)
         == Some(Report(ParseFields(data), crc == Crc16.CrcBytes(data)))
  {
    var packet := Preamble + SyncWord + data + crc;
    assert packet == Preamble + SyncWord + (data + crc);
    FindSyncAfterPreamble(data + crc);
    assert packet[10..15] == data && packet[15..17] == crc;
    var c := Crc16.CrcBytes(data);
    if crc == c {
    } else {
      PackUnpackU16(crc);
      PackUnpackU16(c);
    }
  }

  /** Flipping any bit of the payload of a sensor frame is noticed by the CRC
      comparison, yet the tampered fields are still returned. */
  lemma TamperedPayloadFlagged(id: uint32, p: Pressure, flags: int, i: nat, k: nat)
    requires 10 <= i < 15 && k < 8
    ensures var packet := BaselineSensor.CreateBinaryPacket(id, p, flags);
            var tampered := packet[i := Crc16.FlipBit(packet[i], k)];
            DecodePacket(tampered) == Some(Report(ParseFields(tampered[10..15]), false))
  {
    var packet := BaselineSensor.CreateBinaryPacket(id, p, flags);
    var tampered := packet[i := Crc16.FlipBit(packet[i], k)];
    var data := packet[10..15];
    var crc := packet[15..];
    var data' := data[i - 10 := Crc16.FlipBit(data[i - 10], k)];
    assert tampered == Preamble + SyncWord + data' + crc by {
      assert packet == Preamble + SyncWord + data + crc;
    }
    assert tampered[10..15] == data';
    Crc16.CrcBytesDetectFlip(data, i - 10, k);
    CrcMismatchStillDecoded(data', crc);
  }

  /** Bytes after the checksum are never read: appending anything to a
      decodable buffer does not change the result. */
  lemma TrailingBytesIgnored(packet: seq<byte>, tail: seq<byte>)
    requires DecodePacket(packet).Some?
    ensures DecodePacket(packet + tail) == DecodePacket(packet)
  {
    FindSyncExtend(packet, tail);
    var o := FindSync(packet) + 2;
    assert (packet + tail)[o..o + 7] == packet[o..o + 7];
    assert (packet + tail)[o..o + 5] == packet[o..o + 5];
    assert (packet + tail)[o + 5..o + 7] == packet[o + 5..o + 7];
  }

  /** Only the first sync word is tried: a stray `2D D4` in front of a valid
      frame makes the ECU parse the frame's own preamble as the payload. */
  lemma FirstSyncOnly(id: uint32, p: Pressure, flags: int)
    ensures var r := DecodePacket(SyncWord + BaselineSensor.CreateBinaryPacket(id, p, flags));
            r.Some? && r.value.fields == Fields(0x55_5555, 0x55, 0x55)
  {
    var packet := SyncWord + BaselineSensor.CreateBinaryPacket(id, p, flags);
    FindSyncLeading(BaselineSensor.CreateBinaryPacket(id, p, flags));
    assert packet[2..5] == [0x55, 0x55, 0x55];
    assert [0] + packet[2..5] == [0, 0x55, 0x55, 0x55];
  }
}
