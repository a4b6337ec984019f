/** The packet builders of the timing benchmark
    (`performance_analysis/performance_benchmark.py`). They are copies of the
    sensors' builders; this module states that the copies build the same
    frames as the sensors and that the sizes the benchmark records are the
    real frame sizes. */
module Benchmark {
  import opened Wrappers
  import opened Bytes
  import opened Payload
  import opened Aead
  import Crc16
  import BaselineSensor
  import SecureSensor

  /** The `packet_size` each benchmark records. */
  const RecordedBaselineSize: nat := 17
  const RecordedEncryptedSize: nat := 47

  /** The benchmark's fixed sensor: id, pressure (37.5 psi) and flags. */
  const BenchmarkId: uint32 := 0xA0A6F9
  const BenchmarkPressure: Pressure := Pressure(75, 2)
  const BenchmarkFlags: int := 5

  /** The benchmark's `create_binary_packet`, assembled as one concatenation
      with its own preamble and sync literals. */
  function CreateBinaryPacket(id: uint32, p: Pressure, flags: int): (packet: seq<byte>)
    ensures |packet| == RecordedBaselineSize
  {
    var data := EncodePayload(id, p, flags);
    Repeat(0x55, 8) + [0x2D, 0xD4] + data + Crc16.CrcBytes(data)
  }

  /** The copy builds exactly the baseline sensor's frame. */
  lemma SameAsSensor(id: uint32, p: Pressure, flags: int)
    ensures CreateBinaryPacket(id, p, flags) == BaselineSensor.CreateBinaryPacket(id, p, flags)
    ensures CreateBinaryPacket(id, p, flags)[10..15] == EncodePayload(id, p, flags)
  {
    var data := EncodePayload(id, p, flags);
    assert Repeat(0x55, 8) == Preamble;
    assert [0x2D, 0xD4] == SyncWord;
    var packet := CreateBinaryPacket(id, p, flags);
    assert packet[10..15] == data;
  }

  /** The benchmark's `create_encrypted_packet`: nonce, key and oracle are
      parameters. */
  function CreateEncryptedPacket(o: Oracle, key: seq<byte>, nonce: seq<byte>, id: uint32, p: Pressure, flags: int)
    : (r: (seq<byte>, seq<byte>))
    requires |nonce| == NonceLength
    ensures r.1 == nonce && |r.0| >= 26 && r.0[10..26] == nonce
    ensures Sound(o) ==> |r.0| == RecordedEncryptedSize
    ensures r.0 == SecureSensor.CreateEncryptedPacket(o, key, nonce, id, p, flags).packet
  {
    var plaintext := EncodePayload(id, p, flags);
    var ciphertext := o.encrypt(key, nonce, [], plaintext);
    (Repeat(0x55, 8) + [0x2D, 0xD4] + nonce + ciphertext, nonce)
  }

  /** The benchmarked reading encodes as id A0 A6 F9, flags 05 and the
      truncated pressure byte 0x67. */
  lemma BenchmarkPayload()
    ensures EncodePayload(BenchmarkId, BenchmarkPressure, BenchmarkFlags) == [0xA0, 0xA6, 0xF9, 0x05, 0x67]
  {
    QuantizeExample();
  }
}
