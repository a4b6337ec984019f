/** The passive listener of the baseline simulation
    (`baseline_no_encryption/eavesdropper.py`): it decodes the plaintext
    payload without checking the CRC and keeps, per sensor id, the time it
    was first seen and every sighting. */
module BaselineEavesdropper {
  import opened Wrappers
  import opened Bytes
  import opened Payload
  import opened Sync
  import opened Timestamps
  import Hex
  import BaselineEcu

  /** One entry of a vehicle's `sightings` list. */
  datatype Sighting = Sighting(time: Timestamp, raw: byte, flags: byte)

  /** A tracked vehicle: when it was first seen and every sighting since. */
  datatype Track = Track(firstSeen: Timestamp, sightings: seq<Sighting>)

  /** `tracked_vehicles`, keyed by the six-digit hex id. */
  type Tracked = map<string, Track>

  /** The map after logging one packet, and the `total_sightings` written to
      the log (absent when nothing was decoded). */
  datatype Logged = Logged(tracked: Tracked, totalSightings: Option<nat>)

  /** `decode_packet` of the eavesdropper: like the ECU's but the two CRC
      bytes, though required to be present, are never examined. */
  function DecodePacket(packet: seq<byte>): (r: Option<Fields>)
    ensures r.None? <==> FindSync(packet) == -1 || |packet| < FindSync(packet) + 2 + 7
    ensures r.Some? ==> r.value == ParseFields(packet[FindSync(packet) + 2..])
  {
    var syncIndex := FindSync(packet);
    if syncIndex == -1 then None
    else
      var offset := syncIndex + 2;
      if |packet| < offset + 7 then None
      else Some(ParseFields(packet[offset..offset + 5]))
  }

  /** The eavesdropper reads exactly what the ECU reads, without the CRC verdict. */
  lemma SeesWhatEcuSees(packet: seq<byte>)
    ensures DecodePacket(packet).None? <==> BaselineEcu.DecodePacket(packet).None?
    ensures DecodePacket(packet).Some? ==> DecodePacket(packet).value == BaselineEcu.DecodePacket(packet).value.fields
  {
  }

  /** Two frames that differ only in their CRC bytes decode identically. */
  lemma CrcNeverExamined(data: seq<byte>, crc: seq<byte>, crc': seq<byte>)
    requires |data| == 5 && |crc| == 2 && |crc'| == 2
    ensures DecodePacket(Preamble + SyncWord + data + crc) == Some(ParseFields(data))
    ensures DecodePacket(Preamble + SyncWord + data + crc) == DecodePacket(Preamble + SyncWord + data + crc')
  {
    BaselineEcu.CrcMismatchStillDecoded(data, crc);
    BaselineEcu.CrcMismatchStillDecoded(data, crc');
    SeesWhatEcuSees(Preamble + SyncWord + data + crc);
    SeesWhatEcuSees(Preamble + SyncWord + data + crc');
  }

  /** The tracking update of `log_interception` (the file write left out). */
  function LogInterception(tracked: Tracked, packet: seq<byte>, now: Timestamp): (r: Logged)
    ensures DecodePacket(packet).None? ==> r.tracked == tracked && r.totalSightings.None?
    ensures DecodePacket(packet).Some? ==>
      var f := DecodePacket(packet).value;
      var key := Hex.IdHex(f.id);
      && key in r.tracked
      && r.tracked[key].firstSeen == (if key in tracked then tracked[key].firstSeen else now)
      && r.tracked[key].sightings == (if key in tracked then tracked[key].sightings else []) + [Sighting(now, f.raw, f.flags)]
      && r.totalSightings == Some(|r.tracked[key].sightings|)
      && r.tracked.Keys == tracked.Keys + {key}
      && (forall other :: other in tracked && other != key ==> r.tracked[other] == tracked[other])
  {
    match DecodePacket(packet)
    case None => Logged(tracked, None)
    case Some(f) =>
      var key := Hex.IdHex(f.id);
      var track := if key in tracked then tracked[key] else Track(now, []);
      var track' := track.(sightings := track.sightings + [Sighting(now, f.raw, f.flags)]);
      Logged(tracked[key := track'], Some(|track'.sightings|))
  }

  /** Logging a run of packets, `times[i]` being the arrival time of `packets[i]`. */
  function LogAll(tracked: Tracked, packets: seq<seq<byte>>, times: seq<Timestamp>): Tracked
    requires |times| == |packets|
    decreases |packets|
  {
    if |packets| == 0 then tracked
    else LogAll(LogInterception(tracked, packets[0], times[0]).tracked, packets[1..], times[1..])
  }

  /** The packets of a run that decode to the tracking key `key`. */
  function CountFor(key: string, packets: seq<seq<byte>>): nat
    decreases |packets|
  {
    if |packets| == 0 then 0
    else
      var hit := DecodePacket(packets[0]).Some? && Hex.IdHex(DecodePacket(packets[0]).value.id) == key;
      (if hit then 1 else 0) + CountFor(key, packets[1..])
  }

  /** Once a vehicle is tracked, its `first_seen` never changes. */
  lemma {:induction false} FirstSeenStable(tracked: Tracked, packets: seq<seq<byte>>, times: seq<Timestamp>, key: string)
    requires |times| == |packets| && key in tracked
    ensures key in LogAll(tracked, packets, times)
    ensures LogAll(tracked, packets, times)[key].firstSeen == tracked[key].firstSeen
    decreases |packets|
  {
    if |packets| > 0 {
      var next := LogInterception(tracked, packets[0], times[0]).tracked;
      FirstSeenStable(next, packets[1..], times[1..], key);
    }
  }

  /** Every packet decoding to an id adds exactly one sighting under it: an id
      is tracked after a run iff it was tracked before or some packet of the
      run decoded to it, and its sightings grew by the number of such packets. */
  lemma {:induction false} SightingsCounted(tracked: Tracked, packets: seq<seq<byte>>, times: seq<Timestamp>, key: string)
    requires |times| == |packets|
    ensures key in LogAll(tracked, packets, times) <==> key in tracked || CountFor(key, packets) > 0
    ensures key in LogAll(tracked, packets, times) ==>
              |LogAll(tracked, packets, times)[key].sightings|
                == (if key in tracked then |tracked[key].sightings| else 0) + CountFor(key, packets)
    decreases |packets|
  {
    if |packets| > 0 {
      var next := LogInterception(tracked, packets[0], times[0]).tracked;
      SightingsCounted(next, packets[1..], times[1..], key);
    }
  }

  /** From the empty map the eavesdropper starts with, an id is tracked iff
      some packet decoded to it, with one sighting per such packet. */
  lemma SightingsFromEmpty(packets: seq<seq<byte>>, times: seq<Timestamp>, key: string)
    requires |times| == |packets|
    ensures key in LogAll(map[], packets, times) <==> CountFor(key, packets) > 0
    ensures key in LogAll(map[], packets, times) ==> |LogAll(map[], packets, times)[key].sightings| == CountFor(key, packets)
  {
    SightingsCounted(map[], packets, times, key);
  }
}
