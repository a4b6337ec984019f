/** The encrypting sensor (`simulation_encrypted/sensor_encrypted.py`): the
    baseline payload sealed with Ascon-128 under a fresh nonce and empty
    associated data, framed as preamble ‖ sync ‖ nonce ‖ ciphertext‖tag. */
module SecureSensor {
  import opened Wrappers
  import opened Bytes
  import opened Payload
  import opened Aead
  import BaselineSensor

  /** 8 preamble + 2 sync + 16 nonce + 5 ciphertext + 16 tag bytes. */
  const EncryptedPacketLength: nat := 47

  /** Bytes after the sync word of an encrypted frame: 16 nonce, 5 sealed
      payload and 16 tag bytes. */
  const BodyLength: nat := 16 + 5 + 16

  /** Offset of the nonce inside a frame built by this sensor. */
  const NonceOffset: nat := 10

  /** What `create_encrypted_packet` returns: the frame and its nonce. */
  datatype Sealed = Sealed(packet: seq<byte>, nonce: seq<byte>)

  /** `create_encrypted_packet`. The nonce, drawn by the source from
      `secrets.token_bytes(16)`, is a parameter here; so is the key, which
      the source loads from the sensor's key file at start-up. */
  function CreateEncryptedPacket(o: Oracle, key: seq<byte>, nonce: seq<byte>, id: uint32, p: Pressure, flags: int): (s: Sealed)
    requires |nonce| == NonceLength
    ensures s.nonce == nonce
    ensures |s.packet| >= 26 && s.packet[NonceOffset..26] == nonce
    ensures s.packet[..8] == Preamble && s.packet[8..10] == SyncWord
    ensures s.packet[26..] == o.encrypt(key, nonce, NoAssociatedData, EncodePayload(id, p, flags))
    ensures Sound(o) ==> |s.packet| == EncryptedPacketLength
    ensures Sound(o) ==> o.decrypt(key, nonce, NoAssociatedData, s.packet[26..])
                         == Some(BaselineSensor.CreateBinaryPacket(id, p, flags)[10..15])
  {
    var plaintext := EncodePayload(id, p, flags);
    var ciphertext := o.encrypt(key, nonce, NoAssociatedData, plaintext);
    Sealed(Preamble + SyncWord + nonce + ciphertext, nonce)
  }
}
