/** The passive listener of the encrypted scenario (`eavesdropper.py`): it
    classifies each captured packet by how many bytes follow the first sync
    word, reads baseline payloads in the clear, and can only note the nonce
    of an encrypted one. */
module Eavesdropper {
  import opened Wrappers
  import opened Bytes
  import opened Payload
  import opened Sync
  import opened Timestamps
  import Hex
  import Aead
  import BaselineSensor
  import SecureSensor

  /** What `attempt_decode_*` return: the readable contents of a packet. */
  datatype Interception =
    | Baseline(time: Timestamp, id: string, raw: byte, flags: byte, trackingPossible: bool)
    | Encrypted(time: Timestamp, nonce: string, trackingPossible: bool)

  /** `tracked_vehicles`: the times each six-digit hex id was seen. */
  type Tracked = map<string, seq<Timestamp>>

  /** Bytes after the sync word that a baseline frame needs. */
  const BaselineBody: nat := 7

  /** `attempt_decode_baseline`: id, flags and raw pressure in the clear. */
  function AttemptDecodeBaseline(packet: seq<byte>, syncIndex: nat, now: Timestamp): (r: Option<Interception>)
    ensures r.None? <==> |packet| < syncIndex + 2 + BaselineBody
    ensures r.Some? ==>
              var f := ParseFields(packet[syncIndex + 2..syncIndex + 2 + 5]);
              r.value == Baseline(now, Hex.IdHex(f.id), f.raw, f.flags, true)
  {
    var offset := syncIndex + 2;
    if |packet| < offset + BaselineBody then None
    else
      var f := ParseFields(packet[offset..offset + 5]);
      Some(Baseline(now, Hex.IdHex(f.id), f.raw, f.flags, true))
  }

  /** `attempt_decode_encrypted`: only the nonce, as 32 lower-case hex digits. */
  function AttemptDecodeEncrypted(packet: seq<byte>, syncIndex: nat, now: Timestamp): (r: Option<Interception>)
    ensures r.None? <==> |packet| < syncIndex + 2 + SecureSensor.BodyLength
    ensures r.Some? ==> r.value.Encrypted? && r.value.time == now && !r.value.trackingPossible
    ensures r.Some? ==>
              |r.value.nonce| == 32 && r.value.nonce == Hex.LowerHex(packet[syncIndex + 2..syncIndex + 2 + 16])
  {
    var offset := syncIndex + 2;
    if |packet| < offset + SecureSensor.BodyLength then None
    else
      var nonce := packet[offset..offset + 16];
      var hex := Hex.LowerHex(nonce);
      assert hex[..32] == hex;
      Some(Encrypted(now, hex[..32], false))
  }

  /** How a captured packet is classified. */
  datatype Kind = BaselineKind | EncryptedKind

  /** The dispatch of `analyze_packet` on the bytes remaining after the first
      sync word. */
  function Classify(packet: seq<byte>): (k: Option<Kind>)
    ensures k.None? <==> FindSync(packet) == -1 || |packet| - FindSync(packet) - 2 < BaselineBody
    ensures k == Some(EncryptedKind) <==> FindSync(packet) >= 0 && |packet| - FindSync(packet) - 2 >= SecureSensor.BodyLength
  {
    var syncIndex := FindSync(packet);
    if syncIndex == -1 then None
    else
      var remaining := |packet| - (syncIndex + 2);
      if remaining >= SecureSensor.BodyLength then Some(EncryptedKind)
      else if remaining >= BaselineBody then Some(BaselineKind)
      else None
  }

  /** `analyze_packet`: the interception (if any) and the tracking map after it. */
  function AnalyzePacket(packet: seq<byte>, tracked: Tracked, now: Timestamp): (r: (Option<Interception>, Tracked))
    ensures r.0.None? <==> Classify(packet).None?
    ensures Classify(packet) == Some(EncryptedKind) ==>
              r.0 == AttemptDecodeEncrypted(packet, FindSync(packet), now) && r.0.Some? && r.1 == tracked
    ensures Classify(packet) == Some(BaselineKind) ==>
              r.0 == AttemptDecodeBaseline(packet, FindSync(packet), now) && r.0.Some?
    ensures r.0.None? ==> r.1 == tracked
    ensures r.0.Some? ==> r.0.value.time == now
    ensures r.0.Some? && r.0.value.Baseline? ==>
              var id := r.0.value.id;
              && id in r.1
              && r.1[id] == (if id in tracked then tracked[id] else []) + [now]
              && r.1.Keys == tracked.Keys + {id}
              && (forall other :: other in tracked && other != id ==> r.1[other] == tracked[other])
  {
    var syncIndex := FindSync(packet);
    if syncIndex == -1 then (None, tracked)
    else
      var remaining := |packet| - (syncIndex + 2);
      if remaining >= SecureSensor.BodyLength then
        (AttemptDecodeEncrypted(packet, syncIndex, now), tracked)
      else if remaining >= BaselineBody then
        match AttemptDecodeBaseline(packet, syncIndex, now)
        case None => (None, tracked)
        case Some(result) =>
          var sightings := if result.id in tracked then tracked[result.id] else [];
          (Some(result), tracked[result.id := sightings + [now]])
      else (None, tracked)
  }

  /** From `analyze_packet` the helpers' own length guards never fire: the
      dispatch has already checked the same bounds. */
  lemma HelpersNeverFail(packet: seq<byte>, now: Timestamp)
    requires FindSync(packet) >= 0
    ensures |packet| - FindSync(packet) - 2 >= SecureSensor.BodyLength ==> AttemptDecodeEncrypted(packet, FindSync(packet), now).Some?
    ensures |packet| - FindSync(packet) - 2 >= BaselineBody ==> AttemptDecodeBaseline(packet, FindSync(packet), now).Some?
  {
  }

  /** A baseline sighting is recorded under the id read from the payload. */
  lemma BaselineTrackedById(packet: seq<byte>, tracked: Tracked, now: Timestamp)
    requires Classify(packet) == Some(BaselineKind)
    ensures var r := AnalyzePacket(packet, tracked, now);
            var f := ParseFields(packet[FindSync(packet) + 2..FindSync(packet) + 2 + 5]);
            r.0 == Some(Baseline(now, Hex.IdHex(f.id), f.raw, f.flags, true)) &&
            |r.1[Hex.IdHex(f.id)]| == (if Hex.IdHex(f.id) in tracked then |tracked[Hex.IdHex(f.id)]| else 0) + 1
  {
  }

  /** A frame built by the baseline sensor is classified as baseline and one
      built by an encrypting sensor (47 bytes) as encrypted. */
  lemma FrameSizesClassify(payload: seq<byte>, crc: seq<byte>, nonce: seq<byte>, sealed: seq<byte>)
    requires |payload| == 5 && |crc| == 2 && |nonce| == 16 && |sealed| == 21
    ensures Classify(Preamble + SyncWord + (payload + crc)) == Some(BaselineKind)
    ensures Classify(Preamble + SyncWord + (nonce + sealed)) == Some(EncryptedKind)
  {
    FindSyncAfterPreamble(payload + crc);
    FindSyncAfterPreamble(nonce + sealed);
  }

  /** The frames the two sensors actually build: 17 bytes read as baseline,
      47 bytes (under the AEAD length promise) read as encrypted. */
  lemma SensorFramesClassify(o: Aead.Oracle, key: seq<byte>, nonce: seq<byte>, id: uint32, p: Pressure, flags: int)
    requires Aead.Sound(o) && |nonce| == Aead.NonceLength
    ensures Classify(BaselineSensor.CreateBinaryPacket(id, p, flags)) == Some(BaselineKind)
    ensures Classify(SecureSensor.CreateEncryptedPacket(o, key, nonce, id, p, flags).packet) == Some(EncryptedKind)
  {
    var plain := BaselineSensor.CreateBinaryPacket(id, p, flags);
    assert plain == Preamble + SyncWord + (plain[10..15] + plain[15..]);
    var sealed := SecureSensor.CreateEncryptedPacket(o, key, nonce, id, p, flags).packet;
    assert sealed == Preamble + SyncWord + (nonce + sealed[26..]);
    FrameSizesClassify(plain[10..15], plain[15..], nonce, sealed[26..]);
  }
}
