/** The simulated radio receiver (`RF_Simulation_RX.py`): every 37-byte window
    of a received buffer is tried as nonce ‖ ciphertext ‖ tag behind a
    restored sync word, scanning stops at the first window that decrypts,
    and a report equal to the last one emitted within 2.0 seconds is
    suppressed. */
module Receiver {
  import opened Wrappers
  import opened Bytes
  import opened Sync
  import opened Aead
  import SecureEcu
  import SecureSensor
  import TpmsFunctions

  /** The candidate frame for the window starting at `i`. */
  function Candidate(data: seq<byte>, i: nat): (c: seq<byte>)
    requires i + SecureSensor.BodyLength <= |data|
    ensures |c| == 2 + SecureSensor.BodyLength && c[..2] == SyncWord && c[2..] == data[i..i + SecureSensor.BodyLength]
  {
    SyncWord + data[i..i + SecureSensor.BodyLength]
  }

  /** A candidate's sync word is found at index 0, so its nonce is the
      window's first 16 bytes and its sealed part the remaining 21. */
  lemma CandidateLayout(data: seq<byte>, i: nat)
    requires i + SecureSensor.BodyLength <= |data|
    ensures SecureEcu.Framed(Candidate(data, i))
    ensures SecureEcu.NonceOf(Candidate(data, i)) == data[i..i + 16]
    ensures SecureEcu.SealedOf(Candidate(data, i)) == data[i + 16..i + SecureSensor.BodyLength]
  {
    var c := Candidate(data, i);
    FindSyncLeading(data[i..i + SecureSensor.BodyLength]);
    assert c[2..18] == c[2..][..16];
    assert data[i..i + SecureSensor.BodyLength][..16] == data[i..i + 16];
  }

  /** What the receiver does with one candidate frame. The scan below is
      stated for any such decoder; `TrialDecoder` is the one the receiver
      uses. */
  type Decoder = seq<byte> -> Option<TpmsFunctions.Decrypted>

  /** `decrypt_tpms_packet` under the loaded key store. */
  function TrialDecoder(o: Oracle, store: Option<seq<TpmsFunctions.KeyEntry>>): Decoder {
    c => TpmsFunctions.DecryptTpmsPacket(o, store, c)
  }

  /** The window at `i` decodes. */
  predicate Decrypts(decode: Decoder, data: seq<byte>, i: nat)
    requires i + SecureSensor.BodyLength <= |data|
  {
    decode(Candidate(data, i)).Some?
  }

  /** A window decrypts exactly when some stored key accepts its last 21
      bytes under its first 16 as nonce. */
  lemma CandidateDecrypts(o: Oracle, store: seq<TpmsFunctions.KeyEntry>, data: seq<byte>, i: nat)
    requires i + SecureSensor.BodyLength <= |data|
    ensures Decrypts(TrialDecoder(o, Some(store)), data, i) <==>
              TpmsFunctions.TrialDecrypt(o, store, data[i..i + 16], data[i + 16..i + SecureSensor.BodyLength]).Some?
  {
    CandidateLayout(data, i);
  }

  /** The first window at or after `from` that decodes, with its report. */
  function ScanFrom(decode: Decoder, data: seq<byte>, from: nat): (r: Option<(nat, TpmsFunctions.Decrypted)>)
    ensures r.Some? ==>
              from <= r.value.0 && r.value.0 + SecureSensor.BodyLength <= |data| &&
              decode(Candidate(data, r.value.0)) == Some(r.value.1)
    decreases |data| - from
  {
    if from + SecureSensor.BodyLength > |data| then None
    else if Decrypts(decode, data, from) then Some((from, decode(Candidate(data, from)).value))
    else ScanFrom(decode, data, from + 1)
  }

  /** The scan skips no decoding window: it finds nothing only when no
      window from `from` on decodes, and every window before the one it
      finds fails. */
  lemma {:induction false} ScanFromFirst(decode: Decoder, data: seq<byte>, from: nat)
    ensures ScanFrom(decode, data, from).None? ==>
              forall i: nat :: from <= i && i + SecureSensor.BodyLength <= |data| ==> !Decrypts(decode, data, i)
    ensures ScanFrom(decode, data, from).Some? ==>
              forall i: nat :: from <= i < ScanFrom(decode, data, from).value.0 ==> !Decrypts(decode, data, i)
    decreases |data| - from
  {
    if from + SecureSensor.BodyLength <= |data| && !Decrypts(decode, data, from) {
      ScanFromFirst(decode, data, from + 1);
    }
  }

  /** The `for i in range(len(data) - PAYLOAD_LEN + 1)` loop: windows are
      tried in ascending order and buffers shorter than one window try none. */
  function ScanBuffer(decode: Decoder, data: seq<byte>): (r: Option<(nat, TpmsFunctions.Decrypted)>)
    ensures |data| < SecureSensor.BodyLength ==> r.None?
    ensures r.None? ==> forall i: nat :: i + SecureSensor.BodyLength <= |data| ==> !Decrypts(decode, data, i)
    ensures r.Some? ==>
              r.value.0 + SecureSensor.BodyLength <= |data| && decode(Candidate(data, r.value.0)) == Some(r.value.1)
    ensures r.Some? ==> forall i: nat :: i < r.value.0 ==> !Decrypts(decode, data, i)
  {
    ScanFromFirst(decode, data, 0);
    ScanFrom(decode, data, 0)
  }

  /** What a report is compared on: id, pressure and flags. The source
      compares `round(raw / 2.755, 3)`, which is injective on raw bytes. */
  datatype Signature = Signature(sensorId: string, raw: byte, flags: byte)

  function SignatureOf(d: TpmsFunctions.Decrypted): Signature {
    Signature(d.sensorId, d.raw, d.flags)
  }

  /** The last emitted signature and when it was emitted. */
  datatype DedupState = DedupState(last: Option<Signature>, lastTime: real)

  const Initial: DedupState := DedupState(None, 0.0)

  /** Seconds during which a repeat of the last report is ignored. */
  const DuplicateWindow: real := 2.0

  predicate IsDuplicate(s: DedupState, sig: Signature, now: real) {
    s.last == Some(sig) && now - s.lastTime < DuplicateWindow
  }

  /** One report through the filter: whether it is emitted, and the new state. */
  function Dedup(s: DedupState, sig: Signature, now: real): (r: (bool, DedupState))
    ensures r.0 <==> !(s.last == Some(sig) && now - s.lastTime < DuplicateWindow)
    ensures r.0 ==> r.1.last == Some(sig) && r.1.lastTime == now
    ensures !r.0 ==> r.1 == s
  {
    if IsDuplicate(s, sig, now) then (false, s) else (true, DedupState(Some(sig), now))
  }

  /** Runs a timed sequence of reports through the filter; returns the times
      at which a report was emitted. */
  function Emitted(s: DedupState, reports: seq<(Signature, real)>): (times: seq<real>)
    ensures |times| <= |reports|
    decreases |reports|
  {
    if |reports| == 0 then []
    else
      var step := Dedup(s, reports[0].0, reports[0].1);
      (if step.0 then [reports[0].1] else []) + Emitted(step.1, reports[1..])
  }

  /** Identical reports every 1.5 seconds: a duplicate does not refresh the
      window, so they are emitted at t and t + 3.0 and suppressed between. */
  lemma RepeatsEveryOneAndAHalf(sig: Signature, t: real)
    ensures Emitted(Initial, [(sig, t), (sig, t + 1.5), (sig, t + 3.0), (sig, t + 4.5)]) == [t, t + 3.0]
  {
    var first := DedupState(Some(sig), t);
    var second := DedupState(Some(sig), t + 3.0);
    var reports := [(sig, t), (sig, t + 1.5), (sig, t + 3.0), (sig, t + 4.5)];
    assert reports[1..] == [(sig, t + 1.5), (sig, t + 3.0), (sig, t + 4.5)];
    assert reports[2..] == [(sig, t + 3.0), (sig, t + 4.5)];
    assert reports[3..] == [(sig, t + 4.5)];
    assert Emitted(second, reports[3..]) == [];
    assert Emitted(first, reports[2..]) == [t + 3.0];
    assert Emitted(first, reports[1..]) == [t + 3.0];
  }

  /** A repeat after 1.0 second is suppressed and one after 2.5 is emitted. */
  lemma WindowBoundary(sig: Signature, t: real)
    ensures Emitted(Initial, [(sig, t), (sig, t + 1.0)]) == [t]
    ensures Emitted(Initial, [(sig, t), (sig, t + 2.5)]) == [t, t + 2.5]
  {
    var first := DedupState(Some(sig), t);
    assert Emitted(first, [(sig, t + 1.0)]) == [];
    assert Emitted(first, [(sig, t + 2.5)]) == [t + 2.5];
  }

  /** Only the last signature is remembered: a different report in between
      makes the next repeat new, however soon it comes. */
  lemma InterleavedReportResets(a: Signature, b: Signature, t: real)
    requires a != b
    ensures Emitted(Initial, [(a, t), (b, t + 0.1), (a, t + 0.2)]) == [t, t + 0.1, t + 0.2]
  {
    var reports := [(a, t), (b, t + 0.1), (a, t + 0.2)];
    assert reports[1..] == [(b, t + 0.1), (a, t + 0.2)];
    assert reports[2..] == [(a, t + 0.2)];
    assert Emitted(DedupState(Some(b), t + 0.1), reports[2..]) == [t + 0.2];
    assert Emitted(DedupState(Some(a), t), reports[1..]) == [t + 0.1, t + 0.2];
  }

  /** One received buffer: the first decrypting window's report goes through
      the filter; a buffer with no decrypting window changes nothing. */
  function ReceiveBuffer(o: Oracle, store: Option<seq<TpmsFunctions.KeyEntry>>, s: DedupState, data: seq<byte>, now: real)
    : (r: (Option<TpmsFunctions.Decrypted>, DedupState))
    ensures ScanBuffer(TrialDecoder(o, store), data).None? ==> r == (None, s)
    ensures r.0.Some? ==>
              ScanBuffer(TrialDecoder(o, store), data).Some? &&
              r.0.value == ScanBuffer(TrialDecoder(o, store), data).value.1
    ensures r.0.Some? ==> r.1 == DedupState(Some(SignatureOf(r.0.value)), now)
    ensures r.0.None? ==> r.1 == s
    ensures ScanBuffer(TrialDecoder(o, store), data).Some? ==>
              var d := ScanBuffer(TrialDecoder(o, store), data).value.1;
              (r.0.Some? <==> !IsDuplicate(s, SignatureOf(d), now)) && r.1 == Dedup(s, SignatureOf(d), now).1
  {
    match ScanBuffer(TrialDecoder(o, store), data)
    case None => (None, s)
    case Some((_, d)) =>
      var step := Dedup(s, SignatureOf(d), now);
      (if step.0 then Some(d) else None, step.1)
  }

  /** A window wholly inside `data` is the same window in `data + tail`. */
  lemma CandidateExtend(data: seq<byte>, tail: seq<byte>, i: nat)
    requires i + SecureSensor.BodyLength <= |data|
    ensures Candidate(data + tail, i) == Candidate(data, i)
  {
    assert (data + tail)[i..i + SecureSensor.BodyLength] == data[i..i + SecureSensor.BodyLength];
  }

  lemma {:induction false} ScanFromExtend(decode: Decoder, data: seq<byte>, tail: seq<byte>, from: nat)
    requires ScanFrom(decode, data, from).Some?
    ensures ScanFrom(decode, data + tail, from) == ScanFrom(decode, data, from)
    decreases |data| - from
  {
    CandidateExtend(data, tail, from);
    if !Decrypts(decode, data, from) {
      ScanFromExtend(decode, data, tail, from + 1);
    }
  }

  /** Scanning stops at the first window that decrypts, whether or not its
      report is then suppressed: bytes after that window are never looked at,
      even if a later window would have yielded a new report. */
  lemma StopsAtFirstDecrypt(o: Oracle, store: Option<seq<TpmsFunctions.KeyEntry>>, s: DedupState,
                            data: seq<byte>, tail: seq<byte>, now: real)
    requires ScanBuffer(TrialDecoder(o, store), data).Some?
    ensures ReceiveBuffer(o, store, s, data + tail, now) == ReceiveBuffer(o, store, s, data, now)
  {
    ScanFromExtend(TrialDecoder(o, store), data, tail, 0);
  }
}
