/** The multi-sensor helpers (`functions.py`): per-sensor encryption with the
    key paired to that sensor, and trial decryption over the receiver's key
    store, accepting only a plaintext whose id names the key's owner. */
module TpmsFunctions {
  import opened Wrappers
  import opened Bytes
  import opened Payload
  import opened Sync
  import opened Aead
  import Hex
  import SecureSensor
  import SecureEcu

  /** The four tyre positions known to the encrypting side, by sensor id. */
  const TireConfigs: map<int, string> := map[
    0xA0A6F9 := "front_left",
    0xB1C2D3 := "front_right",
    0xC3E4F5 := "rear_left",
    0xD4F6A7 := "rear_right"]

  /** Every configured id fits the three id bytes of the payload. */
  lemma TireConfigIdsFit(id: int)
    requires id in TireConfigs
    ensures 0 <= id < 0x100_0000
  {
  }

  /** The two failures of `load_sensor_key`. */
  datatype KeyError = UnknownSensorId | KeyFileNotFound

  /** `load_sensor_key`: the key files present on disk are the `keyFiles` map
      from sensor id to the key each holds. */
  function LoadSensorKey(keyFiles: map<int, seq<byte>>, id: int): (r: Result<seq<byte>, KeyError>)
    ensures r == Failure(UnknownSensorId) <==> id !in TireConfigs
    ensures r == Failure(KeyFileNotFound) <==> id in TireConfigs && id !in keyFiles
    ensures r.Success? ==> id in keyFiles && r.value == keyFiles[id]
  {
    if id !in TireConfigs then Failure(UnknownSensorId)
    else if id !in keyFiles then Failure(KeyFileNotFound)
    else Success(keyFiles[id])
  }

  /** `encrypt_tpms_packet`: the frame of the encrypting sensor, sealed under
      the key paired to `id`. The nonce is a parameter. */
  function EncryptTpmsPacket(o: Oracle, keyFiles: map<int, seq<byte>>, nonce: seq<byte>, id: int, p: Pressure, flags: int)
    : (r: Result<seq<byte>, KeyError>)
    requires |nonce| == NonceLength
    ensures r.Failure? <==> LoadSensorKey(keyFiles, id).Failure?
    ensures r.Failure? ==> r.error == LoadSensorKey(keyFiles, id).error
    ensures r.Success? ==> 0 <= id < 0x100_0000 && id in keyFiles
    ensures r.Success? ==> r.value == SecureSensor.CreateEncryptedPacket(o, keyFiles[id], nonce, id, p, flags).packet
    ensures r.Success? && Sound(o) ==> |r.value| == SecureSensor.EncryptedPacketLength
  {
    match LoadSensorKey(keyFiles, id)
    case Failure(e) => Failure(e)
    case Success(key) =>
      var plaintext := EncodePayload(id, p, flags);
      var ciphertext := o.encrypt(key, nonce, NoAssociatedData, plaintext);
      Success(Preamble + SyncWord + nonce + ciphertext)
  }

  /** One entry of the receiver's key store, in the store's iteration order. */
  datatype KeyEntry = KeyEntry(id: int, key: seq<byte>, position: string)

  /** The entry's key authenticates a 5-byte plaintext whose id is the
      entry's own. */
  predicate Accepts(o: Oracle, e: KeyEntry, nonce: seq<byte>, sealed: seq<byte>) {
    var pt := o.decrypt(e.key, nonce, NoAssociatedData, sealed);
    pt.Some? && |pt.value| == 5 && ParseFields(pt.value).id == e.id
  }

  /** Index of the first entry at or after `from` that accepts. */
  function TrialFrom(o: Oracle, store: seq<KeyEntry>, nonce: seq<byte>, sealed: seq<byte>, from: nat): (r: Option<nat>)
    requires from <= |store|
    ensures r.None? <==> forall i :: from <= i < |store| ==> !Accepts(o, store[i], nonce, sealed)
    ensures r.Some? ==> from <= r.value < |store| && Accepts(o, store[r.value], nonce, sealed)
    ensures r.Some? ==> forall i :: from <= i < r.value ==> !Accepts(o, store[i], nonce, sealed)
    decreases |store| - from
  {
    if from == |store| then None
    else if Accepts(o, store[from], nonce, sealed) then Some(from)
    else TrialFrom(o, store, nonce, sealed, from + 1)
  }

  /** The scan stops at `k` when `k` accepts and no key from `from` up to it does. */
  lemma {:induction false} TrialFromFirst(o: Oracle, store: seq<KeyEntry>, nonce: seq<byte>, sealed: seq<byte>, from: nat, k: nat)
    requires from <= k < |store| && Accepts(o, store[k], nonce, sealed)
    requires forall i :: from <= i < k ==> !Accepts(o, store[i], nonce, sealed)
    ensures TrialFrom(o, store, nonce, sealed, from) == Some(k)
    decreases k - from
  {
    if from < k {
      TrialFromFirst(o, store, nonce, sealed, from + 1, k);
    }
  }

  /** The key-store loop of `decrypt_tpms_packet`: the first accepting key. */
  function TrialDecrypt(o: Oracle, store: seq<KeyEntry>, nonce: seq<byte>, sealed: seq<byte>): (r: Option<nat>)
    ensures r.None? <==> forall i :: 0 <= i < |store| ==> !Accepts(o, store[i], nonce, sealed)
    ensures r.Some? ==> r.value < |store| && Accepts(o, store[r.value], nonce, sealed)
    ensures r.Some? ==> forall i :: 0 <= i < r.value ==> !Accepts(o, store[i], nonce, sealed)
  {
    TrialFrom(o, store, nonce, sealed, 0)
  }

  /** The dictionary `decrypt_tpms_packet` returns on success; the pressure
      is kept as its raw wire byte. */
  datatype Decrypted = Decrypted(sensorId: string, position: string, flags: byte, raw: byte, authenticated: bool)

  /** The report an accepting entry yields for the sealed bytes. */
  function ReportFor(o: Oracle, e: KeyEntry, nonce: seq<byte>, sealed: seq<byte>): (d: Decrypted)
    requires Accepts(o, e, nonce, sealed)
    ensures d.authenticated && d.position == e.position && |d.sensorId| == 6
  {
    var pt := o.decrypt(e.key, nonce, NoAssociatedData, sealed).value;
    Decrypted(Hex.IdHex(e.id), e.position, pt[3], pt[4], true)
  }

  /** `decrypt_tpms_packet`. The key store is `None` when the receiver's key
      file is missing. */
  function DecryptTpmsPacket(o: Oracle, store: Option<seq<KeyEntry>>, bitstream: seq<byte>): (r: Option<Decrypted>)
    ensures FindSync(bitstream) == -1 ==> r.None?
    ensures FindSync(bitstream) >= 0 && !SecureEcu.Framed(bitstream) ==> r.None?
    ensures store.None? ==> r.None?
    ensures r.Some? ==> r.value.authenticated
  {
    if !SecureEcu.Framed(bitstream) then None
    else if store.None? then None
    else
      var nonce := SecureEcu.NonceOf(bitstream);
      var sealed := SecureEcu.SealedOf(bitstream);
      match TrialDecrypt(o, store.value, nonce, sealed)
      case None => None
      case Some(i) => Some(ReportFor(o, store.value[i], nonce, sealed))
  }

  /** A packet decrypts exactly when some key in the store accepts its sealed
      bytes; the report is then that of the first accepting key in the
      store's order, and its id is the id the key is stored under. */
  lemma DecryptCharacterized(o: Oracle, store: Option<seq<KeyEntry>>, bitstream: seq<byte>)
    ensures DecryptTpmsPacket(o, store, bitstream).Some? <==>
              (SecureEcu.Framed(bitstream) && store.Some? &&
               exists i :: 0 <= i < |store.value| &&
                 Accepts(o, store.value[i], SecureEcu.NonceOf(bitstream), SecureEcu.SealedOf(bitstream)))
    ensures DecryptTpmsPacket(o, store, bitstream).Some? ==>
              (SecureEcu.Framed(bitstream) && store.Some? &&
               exists i :: 0 <= i < |store.value| &&
                 Accepts(o, store.value[i], SecureEcu.NonceOf(bitstream), SecureEcu.SealedOf(bitstream)) &&
                 (forall j :: 0 <= j < i ==>
                    !Accepts(o, store.value[j], SecureEcu.NonceOf(bitstream), SecureEcu.SealedOf(bitstream))) &&
                 DecryptTpmsPacket(o, store, bitstream).value
                   == ReportFor(o, store.value[i], SecureEcu.NonceOf(bitstream), SecureEcu.SealedOf(bitstream)) &&
                 Hex.IdHex(store.value[i].id) == DecryptTpmsPacket(o, store, bitstream).value.sensorId)
  {
  }

  /** A key that authenticates but decodes to another sensor's id is
      skipped: the scan goes on with the next key. */
  lemma MismatchedIdSkipped(o: Oracle, e: KeyEntry, rest: seq<KeyEntry>, bitstream: seq<byte>)
    requires SecureEcu.Framed(bitstream)
    requires var pt := o.decrypt(e.key, SecureEcu.NonceOf(bitstream), NoAssociatedData, SecureEcu.SealedOf(bitstream));
             pt.Some? && |pt.value| == 5 && ParseFields(pt.value).id != e.id
    ensures DecryptTpmsPacket(o, Some([e] + rest), bitstream) == DecryptTpmsPacket(o, Some(rest), bitstream)
  {
    var nonce, sealed := SecureEcu.NonceOf(bitstream), SecureEcu.SealedOf(bitstream);
    TrialShift(o, e, rest, nonce, sealed);
  }

  /** Prepending a key that does not accept shifts the first acceptor by one. */
  lemma {:induction false} TrialShift(o: Oracle, e: KeyEntry, rest: seq<KeyEntry>, nonce: seq<byte>, sealed: seq<byte>)
    requires !Accepts(o, e, nonce, sealed)
    ensures TrialDecrypt(o, [e] + rest, nonce, sealed).None? <==> TrialDecrypt(o, rest, nonce, sealed).None?
    ensures TrialDecrypt(o, rest, nonce, sealed).Some? ==>
              TrialDecrypt(o, [e] + rest, nonce, sealed) == Some(TrialDecrypt(o, rest, nonce, sealed).value + 1)
  {
    var store := [e] + rest;
    var r, r' := TrialDecrypt(o, store, nonce, sealed), TrialDecrypt(o, rest, nonce, sealed);
    forall i | 0 <= i < |rest|
      ensures store[i + 1] == rest[i]
    {
    }
  }

  /** When exactly one key in the store accepts, the result is that key's
      report, wherever the key sits in the iteration order. */
  lemma SoleAcceptor(o: Oracle, store: seq<KeyEntry>, k: nat, bitstream: seq<byte>)
    requires SecureEcu.Framed(bitstream) && k < |store|
    requires Accepts(o, store[k], SecureEcu.NonceOf(bitstream), SecureEcu.SealedOf(bitstream))
    requires forall i :: 0 <= i < |store| && i != k ==>
               !Accepts(o, store[i], SecureEcu.NonceOf(bitstream), SecureEcu.SealedOf(bitstream))
    ensures DecryptTpmsPacket(o, Some(store), bitstream)
         == Some(ReportFor(o, store[k], SecureEcu.NonceOf(bitstream), SecureEcu.SealedOf(bitstream)))
  {
    var nonce, sealed := SecureEcu.NonceOf(bitstream), SecureEcu.SealedOf(bitstream);
    TrialFromFirst(o, store, nonce, sealed, 0, k);
  }

  /** A sealed frame whose first accepting key is entry `k` decodes to that
      entry's report of the plaintext. */
  lemma DecryptSealedFrame(o: Oracle, store: seq<KeyEntry>, k: nat, key: seq<byte>, nonce: seq<byte>, pt: seq<byte>)
    requires Sound(o) && |nonce| == NonceLength && |pt| == 5
    requires k < |store| && store[k].key == key && ParseFields(pt).id == store[k].id
    requires forall i :: 0 <= i < k ==>
               o.decrypt(store[i].key, nonce, NoAssociatedData, o.encrypt(key, nonce, NoAssociatedData, pt)).None?
    ensures DecryptTpmsPacket(o, Some(store), Preamble + SyncWord + nonce + o.encrypt(key, nonce, NoAssociatedData, pt))
         == Some(Decrypted(Hex.IdHex(store[k].id), store[k].position, pt[3], pt[4], true))
  {
    var ct := o.encrypt(key, nonce, NoAssociatedData, pt);
    SecureEcu.SealedFrameLayout(o, key, nonce, pt);
    assert Accepts(o, store[k], nonce, ct);
    TrialFromFirst(o, store, nonce, ct, 0, k);
  }

  /** Round trip: when entry `k` holds the sensor's id and the key in its key
      file, and every key scanned before it fails to authenticate, the
      receiver recovers id, flags and the raw pressure byte. */
  lemma RoundTrip(o: Oracle, keyFiles: map<int, seq<byte>>, nonce: seq<byte>, id: int, p: Pressure, flags: int,
                  store: seq<KeyEntry>, k: nat)
    requires Sound(o) && |nonce| == NonceLength
    requires id in TireConfigs && id in keyFiles
    requires k < |store| && store[k].id == id && store[k].key == keyFiles[id]
    requires forall i :: 0 <= i < k ==>
               o.decrypt(store[i].key, nonce, NoAssociatedData,
                         o.encrypt(keyFiles[id], nonce, NoAssociatedData, EncodePayload(id, p, flags))).None?
    ensures EncryptTpmsPacket(o, keyFiles, nonce, id, p, flags).Success?
    ensures DecryptTpmsPacket(o, Some(store), EncryptTpmsPacket(o, keyFiles, nonce, id, p, flags).value)
         == Some(Decrypted(Hex.IdHex(id), store[k].position, FlagsByte(flags), PressureByte(p), true))
  {
    TireConfigIdsFit(id);
    var key := keyFiles[id];
    var pt := EncodePayload(id, p, flags);
    PayloadRoundTrip(id, p, flags);
    assert id % 0x100_0000 == id;
    var frame := Preamble + SyncWord + nonce + o.encrypt(key, nonce, NoAssociatedData, pt);
    assert EncryptTpmsPacket(o, keyFiles, nonce, id, p, flags) == Success(frame);
    DecryptSealedFrame(o, store, k, key, nonce, pt);
  }
}
