/** The single-key receiver of the encrypted simulation
    (`simulation_encrypted/ecu_encrpyted.py`): it opens the body after the
    first sync word with its one shared key and reports a tagged error
    string on every failure. */
module SecureEcu {
  import opened Wrappers
  import opened Bytes
  import opened Payload
  import opened Sync
  import opened Aead
  import SecureSensor

  /** A successfully decoded report. */
  datatype Reading = Reading(fields: Fields, authenticated: bool)

  /** Why a packet was rejected, in the order the checks are made. */
  datatype Rejection = NoSyncWord | PacketTooShort | AuthenticationFailed | InvalidPlaintextLength

  /** The error strings of the source. */
  function Message(e: Rejection): string {
    match e
    case NoSyncWord => "No sync word"
    case PacketTooShort => "Packet too short"
    case AuthenticationFailed => "Authentication failed"
    case InvalidPlaintextLength => "Invalid plaintext length"
  }

  /** The pair `(decoded, error)` returned by `decrypt_and_verify_packet`. */
  datatype Verdict = Verdict(decoded: Option<Reading>, error: Option<string>)

  /** A long enough body follows the first sync word. */
  predicate Framed(packet: seq<byte>) {
    FindSync(packet) >= 0 && |packet| >= FindSync(packet) + 2 + SecureSensor.BodyLength
  }

  /** The nonce bytes after the first sync word. */
  function NonceOf(packet: seq<byte>): seq<byte>
    requires Framed(packet)
  {
    var offset := FindSync(packet) + 2;
    packet[offset..offset + NonceLength]
  }

  /** The ciphertext‖tag bytes after the nonce, up to the end of the body. */
  function SealedOf(packet: seq<byte>): seq<byte>
    requires Framed(packet)
  {
    var offset := FindSync(packet) + 2 + NonceLength;
    packet[offset..offset + (SecureSensor.BodyLength - NonceLength)]
  }

  /** `decrypt_and_verify_packet` under the receiver's key. */
  function DecryptAndVerify(o: Oracle, key: seq<byte>, packet: seq<byte>): (v: Verdict)
    ensures v.decoded.Some? != v.error.Some?
    ensures v.decoded.Some? ==> v.decoded.value.authenticated
    ensures v.error == Some(Message(NoSyncWord)) <==> FindSync(packet) == -1
    ensures v.error == Some(Message(PacketTooShort)) <==> FindSync(packet) >= 0 && !Framed(packet)
    ensures v.error == Some(Message(AuthenticationFailed)) <==>
              Framed(packet) && o.decrypt(key, NonceOf(packet), NoAssociatedData, SealedOf(packet)).None?
    ensures v.error == Some(Message(InvalidPlaintextLength)) <==>
              Framed(packet) && o.decrypt(key, NonceOf(packet), NoAssociatedData, SealedOf(packet)).Some?
              && |o.decrypt(key, NonceOf(packet), NoAssociatedData, SealedOf(packet)).value| != 5
    ensures v.decoded.Some? ==>
              Framed(packet) && var pt := o.decrypt(key, NonceOf(packet), NoAssociatedData, SealedOf(packet));
              pt.Some? && |pt.value| == 5 && v.decoded.value.fields == ParseFields(pt.value)
    ensures (Framed(packet) && var pt := o.decrypt(key, NonceOf(packet), NoAssociatedData, SealedOf(packet));
             pt.Some? && |pt.value| == 5) ==> v.decoded.Some?
  {
    var syncIndex := FindSync(packet);
    if syncIndex == -1 then Verdict(None, Some(Message(NoSyncWord)))
    else if |packet| < syncIndex + 2 + SecureSensor.BodyLength then Verdict(None, Some(Message(PacketTooShort)))
    else
      match o.decrypt(key, NonceOf(packet), NoAssociatedData, SealedOf(packet))
      case None => Verdict(None, Some(Message(AuthenticationFailed)))
      case Some(plaintext) =>
        if |plaintext| != 5 then Verdict(None, Some(Message(InvalidPlaintextLength)))
        else Verdict(Some(Reading(ParseFields(plaintext), true)), None)
  }

  /** Under the AEAD axioms, a frame sealed by the sensor with the same key
      decodes to the sensor's id (low 24 bits), flags and raw pressure byte. */
  lemma RoundTrip(o: Oracle, key: seq<byte>, nonce: seq<byte>, id: uint32, p: Pressure, flags: int)
    requires Sound(o) && |nonce| == NonceLength
    ensures DecryptAndVerify(o, key, SecureSensor.CreateEncryptedPacket(o, key, nonce, id, p, flags).packet)
         == Verdict(Some(Reading(Fields(id % 0x100_0000, FlagsByte(flags), PressureByte(p)), true)), None)
  {
    var packet := SecureSensor.CreateEncryptedPacket(o, key, nonce, id, p, flags).packet;
    var pt := EncodePayload(id, p, flags);
    AcceptsAnyAuthenticPayload(o, key, nonce, pt);
    PayloadRoundTrip(id, p, flags);
  }

  /** Where the receiver finds nonce and sealed bytes in a frame built as the
      sensors build it. */
  lemma SealedFrameLayout(o: Oracle, key: seq<byte>, nonce: seq<byte>, pt: seq<byte>)
    requires Sound(o) && |nonce| == NonceLength && |pt| == 5
    ensures var packet := Preamble + SyncWord + nonce + o.encrypt(key, nonce, NoAssociatedData, pt);
            Framed(packet) && NonceOf(packet) == nonce &&
            SealedOf(packet) == o.encrypt(key, nonce, NoAssociatedData, pt)
  {
    var ct := o.encrypt(key, nonce, NoAssociatedData, pt);
    var packet := Preamble + SyncWord + nonce + ct;
    assert packet == Preamble + SyncWord + (nonce + ct);
    FindSyncAfterPreamble(nonce + ct);
    assert |ct| == 21;
    assert packet[10..26] == nonce;
    assert packet[26..47] == ct;
  }

  /** There is no sensor-id check: any 5-byte plaintext sealed under the
      receiver's key is accepted, whatever id it carries. */
  lemma AcceptsAnyAuthenticPayload(o: Oracle, key: seq<byte>, nonce: seq<byte>, pt: seq<byte>)
    requires Sound(o) && |nonce| == NonceLength && |pt| == 5
    ensures DecryptAndVerify(o, key, Preamble + SyncWord + nonce + o.encrypt(key, nonce, NoAssociatedData, pt))
         == Verdict(Some(Reading(ParseFields(pt), true)), None)
  {
    SealedFrameLayout(o, key, nonce, pt);
  }

  /** A frame sealed under another key, for which decryption fails (a
      hypothesis here, not an axiom of the oracle), is rejected as
      unauthenticated. */
  lemma WrongKeyRejected(o: Oracle, key: seq<byte>, otherKey: seq<byte>, nonce: seq<byte>, pt: seq<byte>)
    requires Sound(o) && |nonce| == NonceLength && |pt| == 5
    requires o.decrypt(otherKey, nonce, NoAssociatedData, o.encrypt(key, nonce, NoAssociatedData, pt)).None?
    ensures DecryptAndVerify(o, otherKey, Preamble + SyncWord + nonce + o.encrypt(key, nonce, NoAssociatedData, pt))
         == Verdict(None, Some(Message(AuthenticationFailed)))
  {
    SealedFrameLayout(o, key, nonce, pt);
  }

  /** Only the body after the first sync word matters: anything appended
      to a framed packet leaves the verdict unchanged. */
  lemma TrailingBytesIgnored(o: Oracle, key: seq<byte>, packet: seq<byte>, tail: seq<byte>)
    requires Framed(packet)
    ensures DecryptAndVerify(o, key, packet + tail) == DecryptAndVerify(o, key, packet)
  {
    FindSyncExtend(packet, tail);
    var offset := FindSync(packet) + 2;
    var end := offset + SecureSensor.BodyLength;
    assert (packet + tail)[offset..offset + NonceLength] == packet[offset..offset + NonceLength];
    assert (packet + tail)[offset + NonceLength..end] == packet[offset + NonceLength..end];
  }

  /** The receive loop's counters: packets seen, accepted and rejected. */
  datatype Counters = Counters(packets: nat, authenticated: nat, rejected: nat)

  /** Every counted packet is either authenticated or rejected. */
  predicate Balanced(c: Counters) {
    c.packets == c.authenticated + c.rejected
  }

  /** One iteration of `run_ecu` on a received datagram: an empty datagram is
      falsy in Python and is not counted. */
  function CountPacket(o: Oracle, key: seq<byte>, c: Counters, packet: seq<byte>): (c': Counters)
    ensures Balanced(c) ==> Balanced(c')
    ensures |packet| == 0 ==> c' == c
    ensures |packet| > 0 ==> c'.packets == c.packets + 1
    ensures |packet| > 0 && DecryptAndVerify(o, key, packet).decoded.Some? ==>
              c'.authenticated == c.authenticated + 1 && c'.rejected == c.rejected
    ensures |packet| > 0 && DecryptAndVerify(o, key, packet).decoded.None? ==>
              c'.rejected == c.rejected + 1 && c'.authenticated == c.authenticated
  {
    if |packet| == 0 then c
    else if DecryptAndVerify(o, key, packet).decoded.Some? then
      c.(packets := c.packets + 1, authenticated := c.authenticated + 1)
    else
      c.(packets := c.packets + 1, rejected := c.rejected + 1)
  }

  /** The counters after a run of datagrams, starting from zero. */
  function CountAll(o: Oracle, key: seq<byte>, packets: seq<seq<byte>>): Counters
    decreases |packets|
  {
    if |packets| == 0 then Counters(0, 0, 0)
    else CountPacket(o, key, CountAll(o, key, packets[..|packets| - 1]), packets[|packets| - 1])
  }

  /** The non-empty datagrams of a run. */
  function NonEmpty(packets: seq<seq<byte>>): nat
    decreases |packets|
  {
    if |packets| == 0 then 0
    else NonEmpty(packets[..|packets| - 1]) + (if |packets[|packets| - 1]| > 0 then 1 else 0)
  }

  /** After any run, `packet_count == authenticated_count + rejected_count`
      and `packet_count` is the number of non-empty datagrams. */
  lemma {:induction false} CountAllBalanced(o: Oracle, key: seq<byte>, packets: seq<seq<byte>>)
    ensures Balanced(CountAll(o, key, packets))
    ensures CountAll(o, key, packets).packets == NonEmpty(packets)
    decreases |packets|
  {
    if |packets| > 0 {
      CountAllBalanced(o, key, packets[..|packets| - 1]);
    }
  }
}
